/** Printing a document and parsing the text: what comes back, and when it is the document itself. */
module JsonRoundTrip {
  import opened Bytes
  import opened Document
  import opened BsonFormat
  import opened JsonText
  import opened JsonGrammar
  import opened JsonPieces

  // ---------------------------------------------------------------- what can be printed, and what it is read as

  /** The types whose text the rules of the model decide. */
  ghost predicate Printable(v: Value) {
    match v
    case Str(_) => true
    case Symbol(_) => true
    case Bool(_) => true
    case Null => true
    case Int(n) => -TWO31 <= n < TWO31
    case Long(n) => -TWO63 <= n < TWO63
    case Object(d) => DocPrintable(d)
    case Array(d) => DocPrintable(d)
    case _ => false
  }

  ghost predicate DocPrintable(d: Doc) {
    forall i :: 0 <= i < |d| ==> Printable(d[i].value)
  }

  predicate IsText(v: Value) { v.Str? || v.Symbol? }

  /** What looks like a reference: a name space and the 24 digits of an object id, and nothing else. */
  predicate RefShaped(d: Doc) {
    && |d| == 2 && CStr(d[0].name) == REF_NAME && CStr(d[1].name) == ID_NAME
    && IsText(d[0].value) && IsText(d[1].value) && IsOid(d[1].value.s)
  }

  /** What a printed value is read as: text has no symbols and no longs in the range of an int, names end at their first
      zero byte, array elements have their indexes for names, and what looks like a reference is one. */
  function Canon(v: Value): Value {
    match v
    case Symbol(s) => Str(s)
    case Long(n) => if -TWO31 <= n < TWO31 then Int(n) else v
    case Object(d) => if RefShaped(d) then DBRef(d[0].value.s, OidOf(d[1].value.s)) else Object(CanonDoc(d))
    case Array(d) => Array(CanonItems(d, 0))
    case _ => v
  }

  function CanonDoc(d: Doc): (r: Doc)
    ensures |r| == |d|
  {
    if d == [] then [] else [Field(CStr(d[0].name), Canon(d[0].value))] + CanonDoc(d[1..])
  }

  function CanonItems(d: Doc, index: nat): (r: Doc)
    ensures |r| == |d|
  {
    if d == [] then [] else [Field(Digits(index), Canon(d[0].value))] + CanonItems(d[1..], index + 1)
  }

  /** No name at any depth is reserved. */
  ghost predicate Fine(v: Value) {
    match v
    case Object(d) => DocFine(d)
    case Array(d) => ItemsFine(d)
    case _ => true
  }

  ghost predicate DocFine(d: Doc) {
    forall i :: 0 <= i < |d| ==> !Reserved(CStr(d[i].name)) && Fine(d[i].value)
  }

  ghost predicate ItemsFine(d: Doc) {
    forall i :: 0 <= i < |d| ==> Fine(d[i].value)
  }

  /** No embedded object looks like a special form. */
  ghost predicate Plain(v: Value) {
    match v
    case Object(d) => DocPlain(d) && (d != [] ==> !StartsSpecial(CStr(d[0].name)))
    case Array(d) => DocPlain(d)
    case _ => true
  }

  ghost predicate DocPlain(d: Doc) {
    forall i :: 0 <= i < |d| ==> Plain(d[i].value)
  }

  /** `r` is `v` up to `end` if all names are fine. Otherwise it is a failure, if nothing looks like a special form. */
  predicate Reads<T(==)>(r: Parsed<T>, fine: bool, plain: bool, v: T, end: nat) {
    if fine then r == Ok(v, end) else !r.Ok? && (plain ==> r.Fail?)
  }

  // ---------------------------------------------------------------- values

  lemma RangedBack(n: int, next: nat)
    requires -TWO63 <= n < TWO63
    ensures Ranged(n, next) == Ok(Canon(Long(n)), next)
  {
  }

  lemma LiteralBack(t: seq<byte>, pos: nat, p: nat, v: Value, pretty: nat)
    requires Spaces(t, pos, p) && Holds(t, p, PrintValue(v, pretty)) && (v.Bool? || v.Null?)
    ensures ValueAt(t, pos) == Ok(v, p + |PrintValue(v, pretty)|)
  {
    hide Chars, Number, Bracketed, Braced, SpecialAt;
    var x := PrintValue(v, pretty);
    ByteAt(t, p, x, 0);
    ByteAt(t, p, x, 1);
    SkipTo(t, pos, p);
  }

  lemma StringBack(t: seq<byte>, pos: nat, p: nat, s: seq<byte>)
    requires Spaces(t, pos, p) && Holds(t, p, Quoted(s))
    ensures ValueAt(t, pos) == Ok(Str(s), p + |Quoted(s)|)
  {
    hide Chars, Number, Bracketed, Braced, SpecialAt, Quoted;
    QuotedBack(t, p, s);
    SkipTo(t, pos, p);
  }

  lemma IntBack(t: seq<byte>, pos: nat, p: nat, n: int)
    requires -TWO63 <= n < TWO63 && Spaces(t, pos, p) && Holds(t, p, IntText(n)) && Closed(t, p + |IntText(n)|)
    ensures ValueAt(t, pos) == Ok(Canon(Long(n)), p + |IntText(n)|)
  {
    hide Chars, Number, Bracketed, Braced, SpecialAt, IntText, Canon, Ranged;
    RangedBack(n, p + |IntText(n)|);
    NumberBack(t, p, n);
    SkipTo(t, pos, p);
  }

  /** What a printed value starts with. */
  lemma ValueStart(t: seq<byte>, p: nat, v: Value, pretty: nat)
    requires Printable(v) && Holds(t, p, PrintValue(v, pretty))
    ensures p < |t| && !IsSpace(t[p]) && t[p] != RBRACKET
  {
    hide Digits, Escape, PrintMembers, PrintItems, CStr, DocPrintable;
    var x := PrintValue(v, pretty);
    if v.Int? || v.Long? {
      var n := if v.Int? then v.i else v.n;
      DigitsAreDigits(if n < 0 then -n else n);
    }
    ByteAt(t, p, x, 0);
  }

  /** A printed value is parsed as the value it stands for, and up to its end, unless a name in it is reserved. */
  lemma {:induction false} ValueBack(t: seq<byte>, pos: nat, p: nat, v: Value, pretty: nat)
    requires Printable(v) && Spaces(t, pos, p)
    requires Holds(t, p, PrintValue(v, pretty)) && Closed(t, p + |PrintValue(v, pretty)|)
    ensures pos <= |t| && Reads(ValueAt(t, pos), Fine(v), Plain(v), Canon(v), p + |PrintValue(v, pretty)|)
    decreases v, 2
  {
    hide ValueAt, Quoted, IntText, PrintDoc, PrintItems, Holds, Spaces, Closed, DocPrintable, CanonDoc, CanonItems, DocFine,
      ItemsFine, DocPlain, CStr;
    InText(t, pos, p);
    match v {
      case Str(s) => StringBack(t, pos, p, s);
      case Symbol(s) => StringBack(t, pos, p, s);
      case Int(n) => IntBack(t, pos, p, n);
      case Long(n) => IntBack(t, pos, p, n);
      case Bool(_) => LiteralBack(t, pos, p, v, pretty);
      case Null => LiteralBack(t, pos, p, v, pretty);
      case Object(d) => ObjectBack(t, pos, p, d, pretty);
      case Array(d) => ArrayBack(t, pos, p, d, pretty);
    }
  }

  lemma InText(t: seq<byte>, pos: nat, p: nat)
    requires Spaces(t, pos, p)
    ensures pos <= p <= |t|
  {
  }

  lemma {:induction false} ObjectBack(t: seq<byte>, pos: nat, p: nat, d: Doc, pretty: nat)
    requires DocPrintable(d) && Spaces(t, pos, p) && Holds(t, p, PrintDoc(d, pretty))
    ensures Reads(ValueAt(t, pos), DocFine(d), Plain(Object(d)), Canon(Object(d)), p + |PrintDoc(d, pretty)|)
    decreases d, 3
  {
    hide PrintDoc, Braced, SpecialAt, RefAt, Holds, DocFine, DocPrintable, DocPlain, CanonDoc, ValueAt, CStr, StartsSpecial,
      RefShaped;
    BracedBack(t, p, d, pretty);
    SkipTo(t, pos, p);
    AtBrace(t, pos);
    RefBack(t, p, d, pretty);
    if d != [] && StartsSpecial(CStr(d[0].name)) {
      SpecialNotFine(d);
    } else if RefShaped(d) {
      RefFine(d);
    }
  }

  /** The special forms outside the model start with reserved names. */
  lemma SpecialNotFine(d: Doc)
    requires d != [] && StartsSpecial(CStr(d[0].name))
    ensures !DocFine(d)
  {
    hide CStr, Fine;
    assert Reserved(CStr(d[0].name));
  }

  lemma RefFine(d: Doc)
    requires RefShaped(d)
    ensures DocFine(d)
  {
    hide CStr;
  }

  lemma AtBrace(t: seq<byte>, pos: nat)
    requires pos <= |t| && At(t, Skip(t, pos), LBRACE)
    ensures var p := Skip(t, pos) + 1;
      ValueAt(t, pos) == if SpecialAt(t, Skip(t, p)) then Unsupported
                         else if RefAt(t, p).Ok? then RefAt(t, p) else AsObject(Braced(t, p))
  {
    hide Braced, SpecialAt, RefAt, Chars, Number, Bracketed, Holds;
    IsBrace(t, Skip(t, pos));
  }

  lemma IsBrace(t: seq<byte>, p: nat)
    requires p < |t| && t[p] == LBRACE
    ensures !Holds(t, p, TRUE_TEXT) && !Holds(t, p, FALSE_TEXT) && !Holds(t, p, NULL_TEXT)
  {
    forall x: seq<byte> | Holds(t, p, x) && x != [] ensures x[0] == LBRACE {
      ByteAt(t, p, x, 0);
    }
  }

  /** A printed object: what is behind its brace, and whether it looks like a special form. */
  lemma {:induction false} BracedBack(t: seq<byte>, p: nat, d: Doc, pretty: nat)
    requires DocPrintable(d) && Holds(t, p, PrintDoc(d, pretty))
    ensures p < |t| && t[p] == LBRACE
    ensures SpecialAt(t, Skip(t, p + 1)) <==> d != [] && StartsSpecial(CStr(d[0].name))
    ensures Reads(Braced(t, p + 1), DocFine(d), DocPlain(d), CanonDoc(d), p + |PrintDoc(d, pretty)|)
    decreases d, 2
  {
    hide PrintMembers, SpecialAt, Members, DocPrintable, DocFine, DocPlain, CStr, StartsSpecial, CanonDoc;
    ByteAt(t, p, PrintDoc(d, pretty), 0);
    ByteAt(t, p, PrintDoc(d, pretty), 1);
    if d == [] {
      SkipTo(t, p + 1, p + 1);
      NotSpecial(t, p + 1);
      NothingFine();
    } else {
      HoldsParts(t, p, [LBRACE, SPACE], PrintMembers(d, pretty));
      MembersBack(t, p + 1, p + 2, d, pretty);
      MemberStart(t, p + 2, d, pretty);
      SkipTo(t, p + 1, p + 2);
    }
  }

  lemma NothingFine()
    ensures DocFine([]) && CanonDoc([]) == [] && ItemsFine([]) && CanonItems([], 0) == []
  {
  }

  lemma NotSpecial(t: seq<byte>, p: nat)
    requires p < |t| && t[p] != QUOTE
    ensures !SpecialAt(t, p)
  {
    hide Holds;
    forall x: seq<byte> | Holds(t, p, x) && x != [] ensures x[0] != QUOTE {
      ByteAt(t, p, x, 0);
    }
  }

  lemma MemberStart(t: seq<byte>, p: nat, d: Doc, pretty: nat)
    requires d != [] && DocPrintable(d) && Holds(t, p, PrintMembers(d, pretty))
    ensures p < |t| && t[p] == QUOTE && (SpecialAt(t, p) <==> StartsSpecial(CStr(d[0].name)))
  {
    hide Quoted, PrintMembers, Holds, SpecialAt, CStr, StartsSpecial;
    FirstPrintable(d);
    var n := CStr(d[0].name);
    NameFirst(d, pretty);
    var q := Quoted(n);
    HoldsParts(t, p, q, PrintMembers(d, pretty)[|q|..]);
    QuotedBack(t, p, n);
    SpecialIff(t, p, n);
  }

  lemma FirstPrintable(d: Doc)
    requires d != [] && DocPrintable(d)
    ensures Printable(d[0].value) && !d[0].value.Undefined? && DocPrintable(d[1..])
  {
    hide DocPrintable;
    assert Printable(d[0].value) && DocPrintable(d[1..]) by {
      FirstAndRest(d);
    }
  }

  lemma FirstAndRest(d: Doc)
    requires d != [] && DocPrintable(d)
    ensures Printable(d[0].value) && DocPrintable(d[1..])
  {
    hide Printable;
  }

  lemma FineParts(d: Doc)
    requires d != []
    ensures DocFine(d) <==> !Reserved(CStr(d[0].name)) && Fine(d[0].value) && DocFine(d[1..])
    ensures |d| == 1 ==> DocFine(d[1..])
  {
    hide Reserved, CStr, Fine;
    var r := d[1..];
    if DocFine(d) {
      forall i | 0 <= i < |r| ensures !Reserved(CStr(r[i].name)) && Fine(r[i].value) {
        assert r[i] == d[i + 1];
      }
    }
    if !Reserved(CStr(d[0].name)) && Fine(d[0].value) && DocFine(r) {
      forall i | 0 <= i < |d| ensures !Reserved(CStr(d[i].name)) && Fine(d[i].value) {
        assert 0 < i ==> r[i - 1] == d[i];
      }
    }
  }

  lemma ItemsFineParts(d: Doc)
    requires d != []
    ensures ItemsFine(d) <==> Fine(d[0].value) && ItemsFine(d[1..])
    ensures |d| == 1 ==> ItemsFine(d[1..])
  {
    hide Fine;
    var r := d[1..];
    assert forall i :: 0 <= i < |r| ==> r[i] == d[i + 1];
    if Fine(d[0].value) && ItemsFine(r) {
      forall i | 0 <= i < |d| ensures Fine(d[i].value) {
        assert 0 < i ==> r[i - 1] == d[i];
      }
    }
  }

  lemma PlainParts(d: Doc)
    requires d != []
    ensures DocPlain(d) <==> Plain(d[0].value) && DocPlain(d[1..])
  {
    hide Plain;
    var r := d[1..];
    assert forall i :: 0 <= i < |r| ==> r[i] == d[i + 1];
    if Plain(d[0].value) && DocPlain(r) {
      forall i | 0 <= i < |d| ensures Plain(d[i].value) {
        assert 0 < i ==> r[i - 1] == d[i];
      }
    }
  }

  lemma NameFirst(d: Doc, pretty: nat)
    requires d != [] && !d[0].value.Undefined?
    ensures |Quoted(CStr(d[0].name))| <= |PrintMembers(d, pretty)|
    ensures PrintMembers(d, pretty) == Quoted(CStr(d[0].name)) + PrintMembers(d, pretty)[|Quoted(CStr(d[0].name))|..]
  {
    hide Quoted, PrintValue;
  }

  // ---------------------------------------------------------------- lists of members and of elements

  function MemberTail(d: Doc, pretty: nat): seq<byte>
    requires d != []
  {
    if |d| == 1 then [SPACE, RBRACE] else [COMMA] + (Between(pretty) + PrintMembers(d[1..], pretty))
  }

  lemma MembersParts(d: Doc, pretty: nat)
    requires d != [] && !d[0].value.Undefined?
    ensures PrintMembers(d, pretty) ==
      Quoted(CStr(d[0].name)) + ([SPACE, COLON, SPACE] + (PrintValue(d[0].value, Deeper(pretty)) + MemberTail(d, pretty)))
  {
    hide Quoted, PrintValue, CStr, Break;
    var a, b, c := Quoted(CStr(d[0].name)), [SPACE, COLON, SPACE], PrintValue(d[0].value, Deeper(pretty));
    var e := MemberTail(d, pretty);
    if |d| != 1 {
      Assoc([COMMA], Between(pretty), PrintMembers(d[1..], pretty));
    }
    Assoc(a + b, c, e);
    Assoc(a, b, c + e);
  }

  lemma BetweenSpaces(pretty: nat)
    ensures forall i :: 0 <= i < |Between(pretty)| ==> IsSpace(Between(pretty)[i])
  {
    BlanksAreSpaces(pretty);
  }

  /** Printed members are parsed as the members they stand for, and up to the closing brace, unless a name is reserved. */
  lemma {:induction false} MembersBack(t: seq<byte>, pos: nat, p: nat, d: Doc, pretty: nat)
    requires d != [] && DocPrintable(d) && Spaces(t, pos, p) && Holds(t, p, PrintMembers(d, pretty))
    ensures pos <= |t| && Reads(Members(t, pos), DocFine(d), DocPlain(d), CanonDoc(d), p + |PrintMembers(d, pretty)|)
    decreases d, 1
  {
    hide Quoted, PrintValue, PrintMembers, MemberTail, DocPrintable, Members, Member, Holds, Spaces, Between, DocFine,
      DocPlain, CStr, Reserved, Fine, Plain, Canon, CanonDoc;
    var f := MemberCanon(d[0]);
    var end := MemberEnd(p, d[0], pretty);
    MemberBack(t, pos, p, d, pretty);
    FineParts(d);
    PlainParts(d);
    CanonParts(d);
    if !Member(t, pos).Ok? {
      MemberFails(t, pos);
    } else if |d| == 1 {
      LastMember(t, pos, f, end, d, pretty);
    } else {
      FirstPrintable(d);
      MoreMembers(t, end, d, pretty);
      MembersBack(t, end + 1, end + 1 + |Between(pretty)|, d[1..], pretty);
      NextMember(t, pos, f, end);
    }
  }

  function MemberCanon(f: Field): Field { Field(CStr(f.name), Canon(f.value)) }

  function MemberEnd(p: nat, f: Field, pretty: nat): nat {
    p + |Quoted(CStr(f.name))| + 3 + |PrintValue(f.value, Deeper(pretty))|
  }

  lemma CanonParts(d: Doc)
    requires d != []
    ensures CanonDoc(d) == [MemberCanon(d[0])] + CanonDoc(d[1..])
    ensures |d| == 1 ==> CanonDoc(d) == [MemberCanon(d[0])]
  {
    hide CStr, Canon;
  }

  lemma MemberFails(t: seq<byte>, pos: nat)
    requires pos <= |t| && !Member(t, pos).Ok?
    ensures !Members(t, pos).Ok? && (Member(t, pos).Fail? ==> Members(t, pos).Fail?)
  {
    hide Member;
  }

  /** Where the parts of the first member are: its name, the colon and its value. */
  lemma MemberPlaces(t: seq<byte>, p: nat, d: Doc, pretty: nat)
    requires d != [] && !d[0].value.Undefined? && Holds(t, p, PrintMembers(d, pretty))
    ensures var f, n := d[0], p + |Quoted(CStr(d[0].name))|;
      && Holds(t, p, Quoted(CStr(f.name))) && n + 3 <= |t|
      && Skip(t, n) == n + 1 && t[n + 1] == COLON && Spaces(t, n + 2, n + 3)
      && Holds(t, n + 3, PrintValue(f.value, Deeper(pretty)))
    ensures var end := MemberEnd(p, d[0], pretty);
      && Closed(t, end) && Holds(t, end, MemberTail(d, pretty))
      && p + |PrintMembers(d, pretty)| == end + |MemberTail(d, pretty)|
  {
    hide Quoted, PrintValue, PrintMembers, MemberTail, Holds, CStr, Closed;
    var q, v, e := Quoted(CStr(d[0].name)), PrintValue(d[0].value, Deeper(pretty)), MemberTail(d, pretty);
    MembersParts(d, pretty);
    HoldsParts(t, p, q, [SPACE, COLON, SPACE] + (v + e));
    HoldsParts(t, p + |q|, [SPACE, COLON, SPACE], v + e);
    Colon(t, p + |q|);
    HoldsParts(t, p + |q| + 3, v, e);
    MemberTailClosed(t, p + |q| + 3 + |v|, d, pretty);
  }

  lemma {:induction false} MemberBack(t: seq<byte>, pos: nat, p: nat, d: Doc, pretty: nat)
    requires d != [] && DocPrintable(d) && Spaces(t, pos, p) && Holds(t, p, PrintMembers(d, pretty))
    ensures pos <= |t|
    ensures var f, end := d[0], MemberEnd(p, d[0], pretty);
      && Reads(Member(t, pos), !Reserved(CStr(f.name)) && Fine(f.value), Plain(f.value), MemberCanon(f), end)
      && Holds(t, end, MemberTail(d, pretty)) && p + |PrintMembers(d, pretty)| == end + |MemberTail(d, pretty)|
    decreases d, 0
  {
    hide Quoted, PrintValue, PrintMembers, MemberTail, DocPrintable, Printable, ValueAt, Name, Holds, CStr, Reserved, Fine,
      Plain, Canon, Closed;
    var f, n := d[0], p + |Quoted(CStr(d[0].name))|;
    FirstPrintable(d);
    MemberPlaces(t, p, d, pretty);
    NameBack(t, pos, p, CStr(f.name));
    ValueBack(t, n + 2, n + 3, f.value, Deeper(pretty));
    InText(t, pos, p);
  }

  lemma Colon(t: seq<byte>, p: nat)
    requires Holds(t, p, [SPACE, COLON, SPACE])
    ensures p + 3 <= |t| && Skip(t, p) == p + 1 && t[p + 1] == COLON && Spaces(t, p + 2, p + 3)
  {
    var x := [SPACE, COLON, SPACE];
    ByteAt(t, p, x, 0);
    ByteAt(t, p, x, 1);
    ByteAt(t, p, x, 2);
    SkipTo(t, p, p + 1);
  }

  lemma MemberTailClosed(t: seq<byte>, p: nat, d: Doc, pretty: nat)
    requires d != [] && Holds(t, p, MemberTail(d, pretty))
    ensures Closed(t, p)
  {
    hide PrintMembers, Between, Holds;
    if |d| == 1 {
      ByteAt(t, p, [SPACE, RBRACE], 0);
    } else {
      HoldsParts(t, p, [COMMA], Between(pretty) + PrintMembers(d[1..], pretty));
      ByteAt(t, p, [COMMA], 0);
    }
  }

  lemma LastMember(t: seq<byte>, pos: nat, f: Field, end: nat, d: Doc, pretty: nat)
    requires pos <= |t| && Member(t, pos) == Ok(f, end) && |d| == 1 && Holds(t, end, MemberTail(d, pretty))
    ensures Members(t, pos) == Ok([f], end + |MemberTail(d, pretty)|)
  {
    hide Member;
    ByteAt(t, end, [SPACE, RBRACE], 0);
    ByteAt(t, end, [SPACE, RBRACE], 1);
    SkipTo(t, end, end + 1);
  }

  lemma MoreMembers(t: seq<byte>, p: nat, d: Doc, pretty: nat)
    requires 1 < |d| && Holds(t, p, MemberTail(d, pretty))
    ensures p < |t| && t[p] == COMMA && Spaces(t, p + 1, p + 1 + |Between(pretty)|)
    ensures Holds(t, p + 1 + |Between(pretty)|, PrintMembers(d[1..], pretty))
    ensures |MemberTail(d, pretty)| == 1 + |Between(pretty)| + |PrintMembers(d[1..], pretty)|
  {
    hide PrintMembers, Between, Holds, Spaces;
    var b, r := Between(pretty), PrintMembers(d[1..], pretty);
    HoldsParts(t, p, [COMMA], b + r);
    HoldsParts(t, p + 1, b, r);
    ByteAt(t, p, [COMMA], 0);
    BetweenSpaces(pretty);
    SpacesAt(t, p + 1, b);
  }

  lemma NextMember(t: seq<byte>, pos: nat, f: Field, end: nat)
    requires pos <= |t| && Member(t, pos) == Ok(f, end) && end < |t| && t[end] == COMMA
    ensures Members(t, pos) == Prepend(f, Members(t, end + 1))
  {
    hide Member;
    SkipTo(t, end, end);
  }

  // ---------------------------------------------------------------- references

  /** A printed object is read as a reference exactly if it looks like one. */
  lemma RefBack(t: seq<byte>, p: nat, d: Doc, pretty: nat)
    requires DocPrintable(d) && Holds(t, p, PrintDoc(d, pretty))
    ensures p + 1 <= |t| && (RefAt(t, p + 1).Ok? <==> RefShaped(d))
    ensures RefShaped(d) ==> RefAt(t, p + 1) == Ok(Canon(Object(d)), p + |PrintDoc(d, pretty)|)
  {
    hide PrintMembers, Holds, RefIdAt, Chars, CStr, IsOid, Literal, QuotedOid, OidOf, DocPrintable, Canon;
    ByteAt(t, p, PrintDoc(d, pretty), 0);
    ByteAt(t, p, PrintDoc(d, pretty), 1);
    if d == [] {
      SkipTo(t, p + 1, p + 1);
      NotLiteral(t, p + 1, REF_NAME);
    } else {
      HoldsParts(t, p, [LBRACE, SPACE], PrintMembers(d, pretty));
      FirstPrintable(d);
      RefNameBack(t, p + 1, p + 2, d, pretty);
    }
  }

  lemma NotLiteral(t: seq<byte>, p: nat, n: seq<byte>)
    requires p < |t| && t[p] != QUOTE
    ensures !Holds(t, p, Literal(n))
  {
    hide Holds;
    if Holds(t, p, Literal(n)) {
      ByteAt(t, p, Literal(n), 0);
    }
  }

  /** Whether a printed value starts a string, and which. */
  lemma TextIff(t: seq<byte>, p: nat, v: Value, pretty: nat)
    requires Printable(v) && Holds(t, p, PrintValue(v, pretty))
    ensures p < |t| && !IsSpace(t[p]) && (t[p] == QUOTE <==> IsText(v))
    ensures IsText(v) ==> Holds(t, p, Quoted(v.s)) && Chars(t, p + 1, QUOTE) == Ok(v.s, p + |PrintValue(v, pretty)|)
  {
    hide Digits, Escape, PrintMembers, PrintItems, CStr, DocPrintable, Chars, Holds;
    ByteAt(t, p, PrintValue(v, pretty), 0);
    if IsText(v) {
      QuotedBack(t, p, v.s);
    } else if v.Int? || v.Long? {
      var n := if v.Int? then v.i else v.n;
      DigitsAreDigits(if n < 0 then -n else n);
    }
  }

  /** Whether a printed value is an object id, and which. */
  lemma OidIff(t: seq<byte>, p: nat, v: Value, pretty: nat)
    requires Printable(v) && Holds(t, p, PrintValue(v, pretty))
    ensures QuotedOid(t, p) <==> IsText(v) && IsOid(v.s)
    ensures QuotedOid(t, p) ==> t[p + 1..p + 25] == v.s && |PrintValue(v, pretty)| == 26
  {
    hide Escape, Chars, Holds, DocPrintable;
    TextIff(t, p, v, pretty);
    if QuotedOid(t, p) {
      OidText(t, p, v.s);
    } else if IsText(v) && IsOid(v.s) {
      OidThere(t, p, v.s);
    }
  }

  lemma HexIsPlain(s: seq<byte>)
    requires IsOid(s)
    ensures forall i :: 0 <= i < |s| ==> s[i] > 0x1f && s[i] != QUOTE && s[i] != BACKSLASH
  {
  }

  lemma OidText(t: seq<byte>, p: nat, s: seq<byte>)
    requires QuotedOid(t, p) && Holds(t, p, Quoted(s))
    ensures t[p + 1..p + 25] == s && |Quoted(s)| == 26
  {
    hide Escape, Chars, Holds;
    var x := t[p + 1..p + 25];
    HexIsPlain(x);
    QuotedThere(t, p, x);
    PlainQuoted(t, p, x);
    QuotedBack(t, p, s);
    PlainEscape(x);
  }

  lemma QuotedThere(t: seq<byte>, p: nat, x: seq<byte>)
    requires p + |x| + 2 <= |t| && t[p] == QUOTE && t[p + |x| + 1] == QUOTE && t[p + 1..p + |x| + 1] == x
    ensures Holds(t, p, [QUOTE] + x + [QUOTE])
  {
    assert t[p..p + |x| + 2] == [t[p]] + t[p + 1..p + |x| + 1] + [t[p + |x| + 1]];
  }

  lemma OidThere(t: seq<byte>, p: nat, s: seq<byte>)
    requires IsOid(s) && Holds(t, p, Quoted(s))
    ensures QuotedOid(t, p)
  {
    hide Escape, Holds;
    HexIsPlain(s);
    PlainEscape(s);
    assert Quoted(s) == [QUOTE] + (s + [QUOTE]);
    HoldsParts(t, p, [QUOTE], s + [QUOTE]);
    HoldsParts(t, p + 1, s, [QUOTE]);
    ByteAt(t, p, [QUOTE], 0);
    ByteAt(t, p + 25, [QUOTE], 0);
    SameSlice(t, p + 1, s);
  }

  lemma SameSlice(t: seq<byte>, p: nat, s: seq<byte>)
    requires Holds(t, p, s)
    ensures p + |s| <= |t| && t[p..p + |s|] == s
  {
  }

  /** The first member of what may be a reference. */
  lemma RefNameBack(t: seq<byte>, pos: nat, p: nat, d: Doc, pretty: nat)
    requires d != [] && DocPrintable(d) && Spaces(t, pos, p) && Holds(t, p, PrintMembers(d, pretty))
    ensures pos <= |t| && (RefAt(t, pos).Ok? <==> RefShaped(d))
    ensures RefShaped(d) ==> RefAt(t, pos) == Ok(Canon(Object(d)), p + |PrintMembers(d, pretty)|)
  {
    hide Quoted, PrintValue, PrintMembers, MemberTail, DocPrintable, Printable, Holds, CStr, Chars, Closed, RefIdAt, IsOid,
      Literal, OidOf;
    var n, v := CStr(d[0].name), d[0].value;
    FirstPrintable(d);
    MemberPlaces(t, p, d, pretty);
    QuotedBack(t, p, n);
    SkipTo(t, pos, p);
    LiteralIff(t, p, n, REF_NAME);
    if n == REF_NAME {
      LiteralQuoted(REF_NAME);
      var at := p + |Quoted(n)| + 3;
      TextIff(t, at, v, Deeper(pretty));
      SkipTo(t, at - 1, at);
      if IsText(v) {
        RefIdBack(t, MemberEnd(p, d[0], pretty), d, pretty, v.s);
      }
    }
  }

  lemma LiteralQuoted(x: seq<byte>)
    requires forall i :: 0 <= i < |x| ==> x[i] > 0x1f && x[i] != QUOTE && x[i] != BACKSLASH
    ensures Literal(x) == Quoted(x)
  {
    hide Escape;
    PlainEscape(x);
  }

  predicate RefIdShaped(d: Doc)
    requires d != []
  {
    |d| == 2 && CStr(d[1].name) == ID_NAME && IsText(d[1].value) && IsOid(d[1].value.s)
  }

  /** The second member, and the end. */
  lemma RefIdBack(t: seq<byte>, p: nat, d: Doc, pretty: nat, ns: seq<byte>)
    requires d != [] && DocPrintable(d) && Holds(t, p, MemberTail(d, pretty))
    ensures p <= |t| && (RefIdAt(t, p, ns).Ok? <==> RefIdShaped(d))
    ensures RefIdShaped(d) ==> RefIdAt(t, p, ns) == Ok(DBRef(ns, OidOf(d[1].value.s)), p + |MemberTail(d, pretty)|)
  {
    hide PrintMembers, DocPrintable, Holds, CStr, IsOid, OidOf, IdAt, Between;
    if |d| == 1 {
      ByteAt(t, p, [SPACE, RBRACE], 0);
      ByteAt(t, p, [SPACE, RBRACE], 1);
      RefSpace(t, p);
    } else {
      FirstPrintable(d);
      MoreMembers(t, p, d, pretty);
      CommaThere(t, p);
      var p1 := p + 1 + |Between(pretty)|;
      IdBack(t, p + 1, p1, d[1..], pretty);
    }
  }

  lemma IdBack(t: seq<byte>, pos: nat, p: nat, d: Doc, pretty: nat)
    requires d != [] && DocPrintable(d) && Spaces(t, pos, p) && Holds(t, p, PrintMembers(d, pretty))
    ensures pos <= |t|
    ensures IdAt(t, pos).Ok? <==> |d| == 1 && CStr(d[0].name) == ID_NAME && IsText(d[0].value) && IsOid(d[0].value.s)
    ensures IdAt(t, pos).Ok? ==> IdAt(t, pos) == Ok(d[0].value.s, p + |PrintMembers(d, pretty)|)
  {
    hide Quoted, PrintValue, PrintMembers, MemberTail, DocPrintable, Printable, Holds, CStr, Chars, Closed, IsOid, Literal,
      QuotedOid;
    var n, v := CStr(d[0].name), d[0].value;
    FirstPrintable(d);
    MemberPlaces(t, p, d, pretty);
    QuotedBack(t, p, n);
    SkipTo(t, pos, p);
    LiteralIff(t, p, n, ID_NAME);
    if n == ID_NAME {
      LiteralQuoted(ID_NAME);
      var at := p + |Quoted(n)| + 3;
      TextIff(t, at, v, Deeper(pretty));
      SkipTo(t, at - 1, at);
      OidIff(t, at, v, Deeper(pretty));
      RefEnd(t, MemberEnd(p, d[0], pretty), d, pretty);
    }
  }

  lemma RefEnd(t: seq<byte>, p: nat, d: Doc, pretty: nat)
    requires d != [] && Holds(t, p, MemberTail(d, pretty))
    ensures p <= |t| && (At(t, Skip(t, p), RBRACE) <==> |d| == 1)
    ensures |d| == 1 ==> Skip(t, p) + 1 == p + |MemberTail(d, pretty)|
  {
    hide PrintMembers, Holds, Between, Spaces;
    if |d| == 1 {
      ByteAt(t, p, [SPACE, RBRACE], 0);
      ByteAt(t, p, [SPACE, RBRACE], 1);
      RefSpace(t, p);
    } else {
      MoreMembers(t, p, d, pretty);
      CommaThere(t, p);
    }
  }

  lemma RefSpace(t: seq<byte>, p: nat)
    requires p + 1 < |t| && t[p] == SPACE && t[p + 1] == RBRACE
    ensures Skip(t, p) == p + 1
  {
    SkipTo(t, p, p + 1);
  }

  lemma CommaThere(t: seq<byte>, p: nat)
    requires p < |t| && t[p] == COMMA
    ensures Skip(t, p) == p
  {
  }

  // ---------------------------------------------------------------- elements

  function ItemTail(d: Doc, pretty: nat): seq<byte>
    requires d != []
  {
    if |d| == 1 then [SPACE, RBRACKET] else [COMMA] + ([SPACE] + PrintItems(d[1..], pretty))
  }

  lemma ItemsParts(d: Doc, pretty: nat)
    requires d != []
    ensures PrintItems(d, pretty) == Pad(pretty) + (PrintValue(d[0].value, Deeper(pretty)) + ItemTail(d, pretty))
  {
    hide PrintValue, Break;
    var a, c, e := Pad(pretty), PrintValue(d[0].value, Deeper(pretty)), ItemTail(d, pretty);
    if |d| != 1 {
      assert [COMMA, SPACE] + PrintItems(d[1..], pretty) == e;
    }
    assert a + c + e == a + (c + e);
  }

  lemma PadSpaces(pretty: nat)
    ensures forall i :: 0 <= i < |Pad(pretty)| ==> IsSpace(Pad(pretty)[i])
  {
    BlanksAreSpaces(pretty);
  }

  /** Printed elements are parsed as the elements they stand for, under their indexes, and up to the closing bracket. */
  lemma {:induction false} ItemsBack(t: seq<byte>, pos: nat, p: nat, d: Doc, index: nat, pretty: nat)
    requires d != [] && DocPrintable(d) && Spaces(t, pos, p) && Holds(t, p, PrintItems(d, pretty))
    ensures pos <= |t|
    ensures Reads(Items(t, pos, index), ItemsFine(d), DocPlain(d), CanonItems(d, index), p + |PrintItems(d, pretty)|)
    decreases d, 1
  {
    hide PrintValue, PrintItems, ItemTail, DocPrintable, Digits, Items, ValueAt, Holds, Pad, Spaces, ItemsFine, DocPlain, Fine,
      Plain, Canon, CanonItems, ItemEnd;
    var v, end := Canon(d[0].value), ItemEnd(p, d[0], pretty);
    ItemBack(t, pos, p, d, pretty);
    ItemsFineParts(d);
    PlainParts(d);
    ItemsCanonParts(d, index);
    if !ValueAt(t, pos).Ok? {
      ItemFails(t, pos, index);
    } else if |d| == 1 {
      LastItem(t, pos, index, v, end, d, pretty);
    } else {
      FirstPrintable(d);
      MoreItems(t, end, d, pretty);
      ItemsBack(t, end + 1, end + 2, d[1..], index + 1, pretty);
      NextItem(t, pos, index, v, end);
    }
  }

  function ItemEnd(p: nat, f: Field, pretty: nat): nat {
    p + |Pad(pretty)| + |PrintValue(f.value, Deeper(pretty))|
  }

  lemma ItemsCanonParts(d: Doc, index: nat)
    requires d != []
    ensures CanonItems(d, index) == [Field(Digits(index), Canon(d[0].value))] + CanonItems(d[1..], index + 1)
    ensures |d| == 1 ==> CanonItems(d, index) == [Field(Digits(index), Canon(d[0].value))]
  {
    hide Digits, Canon;
  }

  lemma ItemFails(t: seq<byte>, pos: nat, index: nat)
    requires pos <= |t| && !ValueAt(t, pos).Ok?
    ensures !Items(t, pos, index).Ok? && (ValueAt(t, pos).Fail? ==> Items(t, pos, index).Fail?)
  {
    hide ValueAt;
  }

  /** The first element. */
  lemma {:induction false} ItemBack(t: seq<byte>, pos: nat, p: nat, d: Doc, pretty: nat)
    requires d != [] && DocPrintable(d) && Spaces(t, pos, p) && Holds(t, p, PrintItems(d, pretty))
    ensures pos <= |t|
    ensures var f, end := d[0], ItemEnd(p, d[0], pretty);
      && Reads(ValueAt(t, pos), Fine(f.value), Plain(f.value), Canon(f.value), end)
      && Holds(t, end, ItemTail(d, pretty)) && p + |PrintItems(d, pretty)| == end + |ItemTail(d, pretty)|
    decreases d, 0
  {
    hide PrintValue, PrintItems, ItemTail, DocPrintable, Printable, ValueAt, Holds, Pad, Fine, Plain, Canon;
    var f := d[0];
    var a, v, e := Pad(pretty), PrintValue(f.value, Deeper(pretty)), ItemTail(d, pretty);
    FirstPrintable(d);
    ItemsParts(d, pretty);
    HoldsParts(t, p, a, v + e);
    HoldsParts(t, p + |a|, v, e);
    PadSpaces(pretty);
    SpacesAt(t, p, a);
    ItemTailClosed(t, p + |a| + |v|, d, pretty);
    ValueBack(t, pos, p + |a|, f.value, Deeper(pretty));
  }

  lemma ItemTailClosed(t: seq<byte>, p: nat, d: Doc, pretty: nat)
    requires d != [] && Holds(t, p, ItemTail(d, pretty))
    ensures Closed(t, p)
  {
    hide PrintItems, Holds;
    if |d| == 1 {
      ByteAt(t, p, [SPACE, RBRACKET], 0);
    } else {
      HoldsParts(t, p, [COMMA], [SPACE] + PrintItems(d[1..], pretty));
      ByteAt(t, p, [COMMA], 0);
    }
  }

  lemma LastItem(t: seq<byte>, pos: nat, index: nat, v: Value, end: nat, d: Doc, pretty: nat)
    requires pos <= |t| && ValueAt(t, pos) == Ok(v, end) && |d| == 1 && Holds(t, end, ItemTail(d, pretty))
    ensures Items(t, pos, index) == Ok([Field(Digits(index), v)], end + |ItemTail(d, pretty)|)
  {
    hide ValueAt, Digits;
    ByteAt(t, end, [SPACE, RBRACKET], 0);
    ByteAt(t, end, [SPACE, RBRACKET], 1);
    SkipTo(t, end, end + 1);
  }

  lemma MoreItems(t: seq<byte>, p: nat, d: Doc, pretty: nat)
    requires 1 < |d| && Holds(t, p, ItemTail(d, pretty))
    ensures p < |t| && t[p] == COMMA && Spaces(t, p + 1, p + 2)
    ensures Holds(t, p + 2, PrintItems(d[1..], pretty))
    ensures |ItemTail(d, pretty)| == 2 + |PrintItems(d[1..], pretty)|
  {
    hide PrintItems, Holds;
    var r := PrintItems(d[1..], pretty);
    HoldsParts(t, p, [COMMA], [SPACE] + r);
    HoldsParts(t, p + 1, [SPACE], r);
    ByteAt(t, p, [COMMA], 0);
    ByteAt(t, p + 1, [SPACE], 0);
  }

  lemma NextItem(t: seq<byte>, pos: nat, index: nat, v: Value, end: nat)
    requires pos <= |t| && ValueAt(t, pos) == Ok(v, end) && end < |t| && t[end] == COMMA
    ensures Items(t, pos, index) == Prepend(Field(Digits(index), v), Items(t, end + 1, index + 1))
  {
    hide ValueAt, Digits;
    SkipTo(t, end, end);
  }

  lemma {:induction false} ArrayBack(t: seq<byte>, pos: nat, p: nat, d: Doc, pretty: nat)
    requires DocPrintable(d) && Spaces(t, pos, p) && Holds(t, p, PrintValue(Array(d), pretty))
    ensures Reads(ValueAt(t, pos), ItemsFine(d), DocPlain(d), Array(CanonItems(d, 0)), p + |PrintValue(Array(d), pretty)|)
    decreases d, 2
  {
    hide PrintItems, Items, Chars, Number, Braced, SpecialAt, DocPrintable, ItemsFine, DocPlain, CanonItems, Holds, ValueAt;
    var x := PrintValue(Array(d), pretty);
    ByteAt(t, p, x, 0);
    ByteAt(t, p, x, 1);
    SkipTo(t, pos, p);
    NothingFine();
    if d == [] {
      SkipTo(t, p + 1, p + 1);
    } else {
      HoldsParts(t, p, [LBRACKET, SPACE], PrintItems(d, pretty));
      ItemsBack(t, p + 1, p + 2, d, 0, pretty);
      NotEmptyArray(t, p + 1, p + 2, d, pretty);
    }
    AtBracket(t, pos);
  }

  lemma AtBracket(t: seq<byte>, pos: nat)
    requires pos <= |t| && At(t, Skip(t, pos), LBRACKET)
    ensures ValueAt(t, pos) == AsArray(Bracketed(t, Skip(t, pos) + 1))
  {
    hide Bracketed, Chars, Number, Braced, SpecialAt;
  }

  lemma NotEmptyArray(t: seq<byte>, pos: nat, p: nat, d: Doc, pretty: nat)
    requires d != [] && DocPrintable(d) && Spaces(t, pos, p) && Holds(t, p, PrintItems(d, pretty))
    ensures !At(t, Skip(t, pos), RBRACKET)
  {
    hide PrintValue, PrintItems, ItemTail, Printable, DocPrintable, Holds, Pad;
    FirstPrintable(d);
    var a, v := Pad(pretty), PrintValue(d[0].value, Deeper(pretty));
    ItemsParts(d, pretty);
    HoldsParts(t, p, a, v + ItemTail(d, pretty));
    HoldsParts(t, p + |a|, v, ItemTail(d, pretty));
    PadSpaces(pretty);
    SpacesAt(t, p, a);
    ValueStart(t, p + |a|, d[0].value, Deeper(pretty));
    SkipTo(t, pos, p + |a|);
  }

  // ---------------------------------------------------------------- the theorem

  /** The printed text holds no zero byte, so the parser sees all of it. */
  lemma {:induction false} EscapeNoNul(s: seq<byte>)
    ensures 0 !in Escape(s)
  {
    if s != [] {
      EscapeNoNul(s[1..]);
    }
  }

  lemma {:induction false} DigitsNoNul(n: nat)
    ensures 0 !in Digits(n)
  {
    DigitsAreDigits(n);
  }

  lemma {:induction false} BlanksNoNul(n: nat)
    ensures 0 !in Blanks(n)
  {
    BlanksAreSpaces(n);
  }

  lemma {:induction false} ValueNoNul(v: Value, pretty: nat)
    ensures 0 !in PrintValue(v, pretty)
    decreases v, 2
  {
    hide Escape, Digits, PrintDoc, PrintItems;
    match v {
      case Str(s) => EscapeNoNul(s);
      case Symbol(s) => EscapeNoNul(s);
      case Int(n) => DigitsNoNul(if n < 0 then -n else n);
      case Long(n) => DigitsNoNul(if n < 0 then -n else n);
      case Object(d) => DocNoNul(d, pretty);
      case Array(d) => ItemsNoNul(d, pretty);
      case _ =>
    }
  }

  lemma {:induction false} DocNoNul(d: Doc, pretty: nat)
    ensures 0 !in PrintDoc(d, pretty)
    decreases d, 1
  {
    hide PrintMembers;
    if d != [] {
      MembersNoNul(d, pretty);
    }
  }

  lemma {:induction false} MembersNoNul(d: Doc, pretty: nat)
    requires d != []
    ensures 0 !in PrintMembers(d, pretty)
    decreases d, 0
  {
    hide PrintMember, Between;
    MemberNoNul(d[0], Deeper(pretty));
    if |d| != 1 {
      BetweenNoNul(pretty);
      MembersNoNul(d[1..], pretty);
    }
  }

  lemma {:induction false} MemberNoNul(f: Field, pretty: nat)
    ensures 0 !in PrintMember(f, pretty)
    decreases f, 0
  {
    hide PrintValue, Escape, CStr;
    EscapeNoNul(CStr(f.name));
    ValueNoNul(f.value, pretty);
  }

  lemma BetweenNoNul(pretty: nat)
    ensures 0 !in Between(pretty)
  {
    hide Blanks;
    BlanksNoNul(pretty);
  }

  lemma {:induction false} ItemsNoNul(d: Doc, pretty: nat)
    ensures d != [] ==> 0 !in PrintItems(d, pretty)
    decreases d, 0
  {
    hide PrintValue, Blanks;
    if d != [] {
      ValueNoNul(d[0].value, Deeper(pretty));
      BlanksNoNul(pretty);
      ItemsNoNul(d[1..], pretty);
    }
  }

  /** Printing, pretty or not, then parsing: what the text stands for, unless a name at any depth is reserved or the result
      is too long for a BSONObj. Then parsing fails, if nothing looks like a special form. */
  lemma PrintThenParse(d: Doc, pretty: nat)
    requires DocPrintable(d)
    ensures var fine := DocFine(d) && |EncodeDoc(CanonDoc(d))| <= LIMIT;
      Reads(FromJson(PrintDoc(d, pretty)), fine, DocFine(d) || DocPlain(d), CanonDoc(d), |PrintDoc(d, pretty)|)
  {
    hide PrintDoc, Braced, DocPrintable, DocFine, DocPlain, CanonDoc, EncodeDoc, SpecialAt;
    var t := PrintDoc(d, pretty);
    DocNoNul(d, pretty);
    assert t[0..|t|] == t;
    BracedBack(t, 0, d, pretty);
    SkipTo(t, 0, 0);
    SkipTo(t, |t|, |t|);
  }

  // ---------------------------------------------------------------- what comes back as it was

  /** What text can tell apart: no symbols, no longs in the range of an int, no zero bytes in names, arrays under their
      indexes, and no object that looks like a reference. */
  ghost predicate Canonical(v: Value) {
    match v
    case Symbol(_) => false
    case Long(n) => !(-TWO31 <= n < TWO31)
    case Object(d) => DocCanonical(d) && !RefShaped(d)
    case Array(d) => ItemsCanonical(d, 0)
    case _ => true
  }

  ghost predicate DocCanonical(d: Doc) {
    forall i :: 0 <= i < |d| ==> NoNul(d[i].name) && Canonical(d[i].value)
  }

  ghost predicate ItemsCanonical(d: Doc, index: nat) {
    forall i :: 0 <= i < |d| ==> d[i].name == Digits(index + i) && Canonical(d[i].value)
  }

  lemma {:induction false} CanonIff(v: Value)
    ensures Canon(v) == v <==> Canonical(v)
    decreases v
  {
    hide CanonDoc, CanonItems, DocCanonical, ItemsCanonical, RefShaped, OidOf;
    if v.Object? {
      DocCanonIff(v.doc);
    } else if v.Array? {
      ItemsCanonIff(v.doc, 0);
    }
  }

  lemma {:induction false} DocCanonIff(d: Doc)
    ensures CanonDoc(d) == d <==> DocCanonical(d)
    decreases d
  {
    hide Canon, Canonical, CStr;
    if d != [] {
      CanonIff(d[0].value);
      DocCanonIff(d[1..]);
      CStrIff(d[0].name);
      assert d == [d[0]] + d[1..];
    }
  }

  lemma CStrIff(s: seq<byte>)
    ensures CStr(s) == s <==> NoNul(s)
  {
    hide CStr;
  }

  lemma {:induction false} ItemsCanonIff(d: Doc, index: nat)
    ensures CanonItems(d, index) == d <==> ItemsCanonical(d, index)
    decreases d
  {
    hide Canon, Canonical, Digits;
    if d != [] {
      CanonIff(d[0].value);
      ItemsCanonIff(d[1..], index + 1);
      ItemsCanonicalParts(d, index);
      assert d == [d[0]] + d[1..];
    }
  }

  lemma ItemsCanonicalParts(d: Doc, index: nat)
    requires d != []
    ensures ItemsCanonical(d, index) <==>
      d[0].name == Digits(index) && Canonical(d[0].value) && ItemsCanonical(d[1..], index + 1)
  {
    hide Canonical, Digits;
    var r := d[1..];
    if ItemsCanonical(d, index) {
      assert d[0].name == Digits(index + 0);
      forall i | 0 <= i < |r| ensures r[i].name == Digits(index + 1 + i) && Canonical(r[i].value) {
        assert d[i + 1].name == Digits(index + (i + 1));
      }
    }
    if ItemsCanonical(r, index + 1) && d[0].name == Digits(index) && Canonical(d[0].value) {
      forall i | 0 <= i < |d| ensures d[i].name == Digits(index + i) && Canonical(d[i].value) {
        assert 0 < i ==> r[i - 1].name == Digits(index + 1 + (i - 1));
      }
    }
  }

  /** A document comes back as it was if and only if text can tell it apart, no name at any depth is reserved, and it fits. */
  lemma RoundTripIff(d: Doc, pretty: nat)
    requires DocPrintable(d)
    ensures FromJson(PrintDoc(d, pretty)) == Ok(d, |PrintDoc(d, pretty)|)
      <==> DocCanonical(d) && DocFine(d) && |EncodeDoc(d)| <= LIMIT
  {
    hide PrintDoc, FromJson, DocPrintable, DocFine, DocPlain, CanonDoc, DocCanonical, EncodeDoc;
    PrintThenParse(d, pretty);
    DocCanonIff(d);
  }

  /** A reserved name inside an embedded object, behind another: printed, and refused. */
  lemma ReservedExample()
    ensures var d := [Field([97], Object([Field([98], Null), Field([36, 116, 121, 112, 101], Null)]))];
      DocPrintable(d) && FromJson(PrintDoc(d, 0)).Fail?
  {
    hide PrintDoc, FromJson, CStr, EncodeDoc, CanonDoc;
    var inner := [Field([98], Null), Field([36, 116, 121, 112, 101], Null)];
    var d := [Field([97], Object(inner))];
    CStrIff([98]);
    CStrIff([36, 116, 121, 112, 101]);
    assert Reserved(CStr(inner[1].name));
    assert !Fine(d[0].value);
    assert Plain(d[0].value);
    PrintThenParse(d, 0);
  }
}
