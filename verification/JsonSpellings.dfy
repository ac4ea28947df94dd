/** Any way of writing a document as JSON text: with any white space, either quotes, any escapes and signs. Whatever the
    spelling, the parser reads what is meant. */
module JsonSpellings {
  import opened Bytes
  import opened Document
  import opened BsonFormat
  import opened JsonText
  import opened JsonGrammar
  import opened JsonPieces
  import opened JsonLexemes

  // ---------------------------------------------------------------- spellings

  const PLUS: byte := '+' as int

  /** A character inside quotes: itself, escaped, or the four digits of a code unit. */
  datatype Letter = Plain(c: byte) | Short(c: byte) | CodeUnit(digits: seq<byte>)

  datatype Label = InQuotes(q: byte, letters: seq<Letter>) | Bare(s: seq<byte>)

  datatype Text =
    | Words(q: byte, letters: seq<Letter>)
    | Num(sign: seq<byte>, digits: seq<byte>)
    | Word(v: Value)
    | Arr(inside: seq<byte>, items: seq<Item>)
    | Obj(inside: seq<byte>, members: seq<Entry>)

  /** A value with white space around it. */
  datatype Item = Item(pre: seq<byte>, text: Text, post: seq<byte>)

  datatype Entry = Entry(pre: seq<byte>, name: Label, post: seq<byte>, item: Item)

  predicate Blank(s: seq<byte>) { forall i :: 0 <= i < |s| ==> IsSpace(s[i]) }

  /** No escape starts with `x` or a digit. */
  predicate LetterOk(l: Letter, q: byte) {
    match l
    case Plain(c) => 0x20 <= c && c != q && c != BACKSLASH
    case Short(c) => c !in Ascii("x0123456789")
    case CodeUnit(d) => |d| == 4 && forall i :: 0 <= i < 4 ==> HexValue(d[i]) < 16
  }

  /** An escaped `u` with four digits behind it is a code unit. */
  predicate LettersOk(s: seq<Letter>, q: byte) {
    s == [] || (LetterOk(s[0], q) && (s[0] == Short('u' as int) ==> !Hex4(LettersText(s[1..]) + [q], 0)) && LettersOk(s[1..], q))
  }

  predicate IsQuote(q: byte) { q == '"' as int || q == '\'' as int }

  predicate NameOk(n: Label) {
    match n
    case InQuotes(q, s) => IsQuote(q) && LettersOk(s, q) && Meant(s) !in ReservedNames()
    case Bare(s) => s != [] && NameChar(s[0], true) && forall i :: 0 < i < |s| ==> NameChar(s[i], false)
  }

  /** Numbers have at most 19 digits and are in the range of a long. */
  predicate TextOk(x: Text) {
    match x
    case Words(q, s) => IsQuote(q) && LettersOk(s, q)
    case Num(sign, d) => NumberOk(sign, d)
    case Word(v) => v.Bool? || v.Null?
    case Arr(inside, items) => Blank(inside) && ItemsOk(items)
    case Obj(inside, members) => Blank(inside) && MembersOk(members)
  }

  predicate NumberOk(sign: seq<byte>, d: seq<byte>) {
    && (sign == [] || sign == [PLUS] || sign == [MINUS])
    && 1 <= |d| <= 19 && (forall i :: 0 <= i < |d| ==> IsDigit(d[i])) && -TWO63 <= NumberMeant(sign, d) < TWO63
  }

  predicate ItemsOk(s: seq<Item>) { forall i :: 0 <= i < |s| ==> ItemOk(s[i]) }

  predicate MembersOk(s: seq<Entry>) { forall i :: 0 <= i < |s| ==> MemberOk(s[i]) }

  predicate ItemOk(i: Item) { Blank(i.pre) && Blank(i.post) && TextOk(i.text) }

  predicate MemberOk(m: Entry) { Blank(m.pre) && Blank(m.post) && NameOk(m.name) && ItemOk(m.item) }

  // ---------------------------------------------------------------- what they look like

  function LetterText(l: Letter): seq<byte> {
    match l case Plain(c) => [c] case Short(c) => [BACKSLASH, c] case CodeUnit(d) => [BACKSLASH, 'u' as int] + d
  }

  function LettersText(s: seq<Letter>): seq<byte> {
    if s == [] then [] else LetterText(s[0]) + LettersText(s[1..])
  }

  function NameText(n: Label): seq<byte> {
    match n case InQuotes(q, s) => [q] + (LettersText(s) + [q]) case Bare(s) => s
  }

  function Written(x: Text): seq<byte>
    decreases x, 0
  {
    match x
    case Words(q, s) => [q] + (LettersText(s) + [q])
    case Num(sign, d) => sign + d
    case Word(v) => if v == Bool(true) then TRUE_TEXT else if v == Bool(false) then FALSE_TEXT else NULL_TEXT
    case Arr(inside, items) => [LBRACKET] + if items == [] then inside + [RBRACKET] else ItemsText(items)
    case Obj(inside, members) => [LBRACE] + if members == [] then inside + [RBRACE] else MembersText(members)
  }

  function ItemText(i: Item): seq<byte>
    decreases i, 0
  {
    i.pre + (Written(i.text) + i.post)
  }

  function ItemsText(s: seq<Item>): seq<byte>
    requires s != []
    decreases s, 0
  {
    ItemText(s[0]) + if |s| == 1 then [RBRACKET] else [COMMA] + ItemsText(s[1..])
  }

  function MemberText(m: Entry): seq<byte>
    decreases m, 0
  {
    m.pre + (NameText(m.name) + (m.post + ([COLON] + ItemText(m.item))))
  }

  function MembersText(s: seq<Entry>): seq<byte>
    requires s != []
    decreases s, 0
  {
    MemberText(s[0]) + if |s| == 1 then [RBRACE] else [COMMA] + MembersText(s[1..])
  }

  // ---------------------------------------------------------------- what they mean

  function LetterMeant(l: Letter): seq<byte> {
    match l
    case Plain(c) => [c]
    case Short(c) => if EscapeLetter(c) != [] then EscapeLetter(c) else [c]
    case CodeUnit(d) =>
      if |d| == 4 && forall i :: 0 <= i < 4 ==> HexValue(d[i]) < 16 then
        Utf8(16 * HexValue(d[0]) + HexValue(d[1]), 16 * HexValue(d[2]) + HexValue(d[3]))
      else []
  }

  function Meant(s: seq<Letter>): seq<byte> {
    if s == [] then [] else LetterMeant(s[0]) + Meant(s[1..])
  }

  function NameMeant(n: Label): seq<byte> {
    match n case InQuotes(_, s) => CStr(Meant(s)) case Bare(s) => CStr(s)
  }

  function NumberMeant(sign: seq<byte>, d: seq<byte>): int {
    if sign == [MINUS] then -Decimal(d) else Decimal(d)
  }

  function ValueMeant(x: Text): Value
    decreases x, 0
  {
    match x
    case Words(_, s) => Str(Meant(s))
    case Num(sign, d) =>
      var n := NumberMeant(sign, d);
      if -TWO31 <= n < TWO31 then Int(n) else Long(n)
    case Word(v) => v
    case Arr(_, items) => Array(ItemsMeant(items, 0))
    case Obj(_, members) => if RefForm(members) then RefMeant(members) else Object(DocMeant(members))
  }

  function Plains(x: seq<byte>): seq<Letter> {
    if x == [] then [] else [Plain(x[0])] + Plains(x[1..])
  }

  predicate IsWords(x: Text) { x.Words? && x.q == QUOTE }

  /** The last member is `$id` with the 24 digits of an object id, in double quotes and without escapes. */
  predicate IdForm(s: seq<Entry>) {
    && |s| == 1 && s[0].name == InQuotes(QUOTE, Plains(ID_NAME)) && IsWords(s[0].item.text)
    && IsOid(Meant(s[0].item.text.letters)) && s[0].item.text.letters == Plains(Meant(s[0].item.text.letters))
  }

  /** An embedded object is a reference if its members are `$ref` with a string and `$id`. */
  predicate RefForm(s: seq<Entry>) {
    |s| == 2 && s[0].name == InQuotes(QUOTE, Plains(REF_NAME)) && IsWords(s[0].item.text) && IdForm(s[1..])
  }

  function RefMeant(s: seq<Entry>): Value
    requires RefForm(s)
  {
    DBRef(Meant(s[0].item.text.letters), OidOf(Meant(s[1].item.text.letters)))
  }

  function ItemsMeant(s: seq<Item>, index: nat): Doc
    decreases s, 0
  {
    if s == [] then [] else [Field(Digits(index), ValueMeant(s[0].text))] + ItemsMeant(s[1..], index + 1)
  }

  function DocMeant(s: seq<Entry>): Doc
    decreases s, 0
  {
    if s == [] then [] else [Field(NameMeant(s[0].name), ValueMeant(s[0].item.text))] + DocMeant(s[1..])
  }

  // ---------------------------------------------------------------- strings

  lemma LetterRead(t: seq<byte>, p: nat, l: Letter, q: byte)
    requires LetterOk(l, q) && IsQuote(q) && Holds(t, p, LetterText(l))
    requires l == Short('u' as int) ==> !Hex4(t, p + 2)
    ensures p < |t| && t[p] != q && Char(t, p) == (LetterMeant(l), p + |LetterText(l)|)
  {
    hide HexValue, Utf8, EscapeLetter;
    ByteAt(t, p, LetterText(l), 0);
    match l {
      case Plain(_) =>
      case Short(c) =>
        ByteAt(t, p, LetterText(l), 1);
        Excluded(c);
      case CodeUnit(d) =>
        UnitRead(t, p, d);
    }
  }

  lemma Excluded(c: byte)
    ensures c == 120 || IsDigit(c) <==> c in Ascii("x0123456789")
  {
    var x := Ascii("x0123456789");
    assert x == [120, 48, 49, 50, 51, 52, 53, 54, 55, 56, 57];
    if IsDigit(c) {
      assert x[c - 47] == c;
    }
  }

  lemma UnitRead(t: seq<byte>, p: nat, d: seq<byte>)
    requires |d| == 4 && (forall i :: 0 <= i < 4 ==> HexValue(d[i]) < 16) && Holds(t, p, [BACKSLASH, 117] + d)
    ensures Char(t, p) == (LetterMeant(CodeUnit(d)), p + 6)
  {
    hide HexValue, Utf8, EscapeLetter;
    var x := [BACKSLASH, 117] + d;
    forall i | 0 <= i < 6 ensures p + i < |t| && t[p + i] == x[i] {
      ByteAt(t, p, x, i);
    }
    assert t[p + 1] == 117 && t[p + 2] == d[0] && t[p + 3] == d[1] && t[p + 4] == d[2] && t[p + 5] == d[3];
    assert Hex4(t, p + 2);
    assert EscapeLetter(117) == [] by {
      LetterU();
    }
    Pairs(HexValue(d[0]), HexValue(d[1]));
    Pairs(HexValue(d[2]), HexValue(d[3]));
  }

  lemma LetterU()
    ensures EscapeLetter(117) == []
  {
  }

  lemma {:induction false} LettersRead(t: seq<byte>, p: nat, s: seq<Letter>, q: byte)
    requires LettersOk(s, q) && IsQuote(q) && Holds(t, p, LettersText(s) + [q])
    ensures Chars(t, p, q) == Ok(Meant(s), p + |LettersText(s)| + 1)
    decreases |s|
  {
    hide LetterText, LetterMeant, LetterOk, Char, Chars, Holds, Hex4;
    OneChar(t, p, q);
    if s == [] {
      assert LettersText(s) + [q] == [q];
      ByteAt(t, p, [q], 0);
    } else {
      var x, rest := LetterText(s[0]), LettersText(s[1..]) + [q];
      assert LettersText(s) + [q] == x + rest;
      HoldsParts(t, p, x, rest);
      if s[0] == Short('u' as int) {
        TwoBytes('u' as int);
        NoUnit(t, p + 2, rest);
      }
      LetterRead(t, p, s[0], q);
      LetterLength(s[0]);
      LettersRead(t, p + |x|, s[1..], q);
    }
  }

  lemma TwoBytes(c: byte)
    ensures |LetterText(Short(c))| == 2
  {
  }

  lemma NoUnit(t: seq<byte>, p: nat, x: seq<byte>)
    requires Holds(t, p, x) && x != [] && IsQuote(x[|x| - 1])
    ensures Hex4(t, p) <==> Hex4(x, 0)
  {
    ByteAt(t, p, x, |x| - 1);
    if |x| >= 4 {
      ByteAt(t, p, x, 0);
      ByteAt(t, p, x, 1);
      ByteAt(t, p, x, 2);
      ByteAt(t, p, x, 3);
    }
  }

  lemma LetterLength(l: Letter)
    ensures 1 <= |LetterText(l)|
  {
  }

  lemma QuotedRead(t: seq<byte>, p: nat, s: seq<Letter>, q: byte)
    requires LettersOk(s, q) && IsQuote(q) && Holds(t, p, [q] + (LettersText(s) + [q]))
    ensures p < |t| && t[p] == q && Chars(t, p + 1, q) == Ok(Meant(s), p + |[q] + (LettersText(s) + [q])|)
  {
    hide LettersText, Meant, LettersOk, Chars, Holds;
    HoldsParts(t, p, [q], LettersText(s) + [q]);
    ByteAt(t, p, [q], 0);
    LettersRead(t, p + 1, s, q);
  }

  // ---------------------------------------------------------------- names

  lemma NameRead(t: seq<byte>, pos: nat, p: nat, n: Label)
    requires NameOk(n) && Spaces(t, pos, p) && Holds(t, p, NameText(n))
    requires var e := p + |NameText(n)|; n.Bare? ==> e < |t| && !NameChar(t[e], false)
    ensures Name(t, pos) == Ok(NameMeant(n), p + |NameText(n)|)
    ensures p < |t| && !IsSpace(t[p]) && t[p] != RBRACE
  {
    hide Chars, CStr, NameChar, Name, ReservedNames, LettersText, Holds, LettersOk, Meant;
    match n {
      case InQuotes(q, s) => QuotedNameRead(t, pos, p, q, s);
      case Bare(s) => BareNameRead(t, pos, p, s);
    }
  }

  lemma QuotedNameRead(t: seq<byte>, pos: nat, p: nat, q: byte, s: seq<Letter>)
    requires IsQuote(q) && LettersOk(s, q) && Meant(s) !in ReservedNames()
    requires Spaces(t, pos, p) && Holds(t, p, [q] + (LettersText(s) + [q]))
    ensures p < |t| && t[p] == q && Name(t, pos) == Ok(CStr(Meant(s)), p + |[q] + (LettersText(s) + [q])|)
  {
    hide Chars, CStr, NameChar, NameEnd, Reserved, ReservedNames, LettersText, LettersOk, Meant, Holds;
    QuotedRead(t, p, s, q);
    SkipTo(t, pos, p);
    ReservedIs(Meant(s));
  }

  lemma BareNameRead(t: seq<byte>, pos: nat, p: nat, s: seq<byte>)
    requires s != [] && NameChar(s[0], true) && (forall i :: 0 < i < |s| ==> NameChar(s[i], false))
    requires Spaces(t, pos, p) && Holds(t, p, s)
    requires p + |s| < |t| && !NameChar(t[p + |s|], false)
    ensures p < |t| && NameChar(t[p], true) && !IsSpace(t[p]) && t[p] != RBRACE && Name(t, pos) == Ok(CStr(s), p + |s|)
  {
    hide Name, CStr, NameChar, NameEnd, Holds, Spaces, Skip, IsSpace;
    ByteAt(t, p, s, 0);
    FirstOfName(s[0]);
    SkipTo(t, pos, p);
    BareEnd(t, p, s);
    BareName(t, pos, p);
  }

  lemma BareName(t: seq<byte>, pos: nat, p: nat)
    requires pos <= |t| && p == Skip(t, pos) && p < |t| && t[p] != 34 && t[p] != 39 && NameChar(t[p], true)
    ensures Name(t, pos) == Ok(CStr(t[p..NameEnd(t, p + 1)]), NameEnd(t, p + 1))
  {
    hide Skip, Chars, CStr, NameChar, NameEnd, Reserved;
  }

  lemma FirstOfName(c: byte)
    requires NameChar(c, true)
    ensures c != 34 && c != 39 && !IsSpace(c) && c != RBRACE
  {
  }

  lemma BareEnd(t: seq<byte>, p: nat, s: seq<byte>)
    requires s != [] && (forall i :: 0 < i < |s| ==> NameChar(s[i], false)) && Holds(t, p, s)
    requires p + |s| < |t| && !NameChar(t[p + |s|], false)
    ensures NameEnd(t, p + 1) == p + |s| && t[p..p + |s|] == s
  {
    hide NameChar, NameEnd;
    forall i | p < i < p + |s| ensures NameChar(t[i], false) {
      ByteAt(t, p, s, i - p);
    }
    NameEndAt(t, p + 1, p + |s|);
  }

  lemma {:induction false} NameEndAt(t: seq<byte>, a: nat, b: nat)
    requires a <= b < |t| && (forall i :: a <= i < b ==> NameChar(t[i], false)) && !NameChar(t[b], false)
    ensures NameEnd(t, a) == b
    decreases b - a
  {
    hide NameChar;
    if a < b {
      NameEndAt(t, a + 1, b);
    }
  }

  // ---------------------------------------------------------------- numbers

  /** What can be behind a value: white space, a comma or a bracket. */
  predicate Stops(t: seq<byte>, e: nat) {
    e < |t| && (IsSpace(t[e]) || t[e] == COMMA || t[e] == RBRACKET || t[e] == RBRACE)
  }

  lemma NumberRead(t: seq<byte>, p: nat, sign: seq<byte>, d: seq<byte>)
    requires NumberOk(sign, d) && Holds(t, p, sign + d) && Stops(t, p + |sign + d|)
    ensures p < |t| && (IsDigit(t[p]) || t[p] == PLUS || t[p] == MINUS)
    ensures var n := NumberMeant(sign, d);
      Number(t, p) == Ok(if -TWO31 <= n < TWO31 then Int(n) else Long(n), p + |sign + d|)
  {
    hide Decimal, Number, DigitsEnd;
    HoldsParts(t, p, sign, d);
    var p1, e := p + |sign|, p + |sign + d|;
    forall i | p1 <= i < e ensures i < |t| && t[i] == d[i - p1] && IsDigit(t[i]) {
      ByteAt(t, p1, d, i - p1);
    }
    DigitsEndAt(t, p1, e);
    if sign != [] {
      ByteAt(t, p, sign, 0);
    }
    assert t[p1..e] == d;
    NumberMeans(t, p, p1, e, e);
  }

  // ---------------------------------------------------------------- values

  lemma StringRead(t: seq<byte>, pos: nat, p: nat, q: byte, s: seq<Letter>)
    requires IsQuote(q) && LettersOk(s, q) && Spaces(t, pos, p) && Holds(t, p, Written(Words(q, s)))
    ensures ValueAt(t, pos) == Ok(Str(Meant(s)), p + |Written(Words(q, s))|)
  {
    hide Chars, Number, Bracketed, Braced, SpecialAt, RefAt, LettersText;
    QuotedRead(t, p, s, q);
    SkipTo(t, pos, p);
  }

  lemma WordRead(t: seq<byte>, pos: nat, p: nat, v: Value)
    requires (v.Bool? || v.Null?) && Spaces(t, pos, p) && Holds(t, p, Written(Word(v)))
    ensures ValueAt(t, pos) == Ok(v, p + |Written(Word(v))|)
  {
    hide Chars, Number, Bracketed, Braced, SpecialAt, RefAt, Holds;
    var x := Written(Word(v));
    ByteAt(t, p, x, 0);
    FirstByte(t, p, TRUE_TEXT);
    FirstByte(t, p, FALSE_TEXT);
    FirstByte(t, p, NULL_TEXT);
    SkipTo(t, pos, p);
  }

  lemma FirstByte(t: seq<byte>, p: nat, x: seq<byte>)
    requires x != []
    ensures Holds(t, p, x) ==> p < |t| && t[p] == x[0]
  {
    if Holds(t, p, x) {
      ByteAt(t, p, x, 0);
    }
  }

  lemma NumRead(t: seq<byte>, pos: nat, p: nat, sign: seq<byte>, d: seq<byte>)
    requires NumberOk(sign, d) && Spaces(t, pos, p) && Holds(t, p, sign + d) && Stops(t, p + |sign + d|)
    ensures ValueAt(t, pos) == Ok(ValueMeant(Num(sign, d)), p + |sign + d|)
  {
    hide Chars, Number, Bracketed, Braced, SpecialAt, RefAt, Decimal, NumberOk;
    NumberRead(t, p, sign, d);
    SkipTo(t, pos, p);
  }

  lemma ArrayAt(t: seq<byte>, pos: nat, p: nat)
    requires Spaces(t, pos, p) && p < |t| && t[p] == LBRACKET
    ensures ValueAt(t, pos) == AsArray(Bracketed(t, p + 1))
  {
    hide Chars, Number, Bracketed, Braced, SpecialAt, RefAt;
    SkipTo(t, pos, p);
  }

  lemma ObjectAt(t: seq<byte>, pos: nat, p: nat)
    requires Spaces(t, pos, p) && p < |t| && t[p] == LBRACE
    ensures ValueAt(t, pos) == if SpecialAt(t, Skip(t, p + 1)) then Unsupported
                               else if RefAt(t, p + 1).Ok? then RefAt(t, p + 1) else AsObject(Braced(t, p + 1))
  {
    hide Chars, Number, Bracketed, Braced, SpecialAt, RefAt, Holds;
    SkipTo(t, pos, p);
    NoWord(t, p);
  }

  lemma NoWord(t: seq<byte>, p: nat)
    requires p < |t| && t[p] == LBRACE
    ensures !Holds(t, p, TRUE_TEXT) && !Holds(t, p, FALSE_TEXT) && !Holds(t, p, NULL_TEXT)
  {
    hide Holds;
    FirstByte(t, p, TRUE_TEXT);
    FirstByte(t, p, FALSE_TEXT);
    FirstByte(t, p, NULL_TEXT);
  }

  /** An object whose first name is not reserved is no special form. */
  lemma NotSpecial(t: seq<byte>, p: nat, n: Label)
    requires p < |t| && NameOk(n) && Holds(t, p, NameText(n))
    ensures !SpecialAt(t, p)
  {
    hide NameMeant, NameOk, Literal, Holds;
    NoLiteral(t, p, n, DATE_NAME);
    NoLiteral(t, p, n, OID_NAME);
    NoLiteral(t, p, n, BINARY_NAME);
    NoLiteral(t, p, n, REGEX_NAME);
  }

  lemma NoLiteral(t: seq<byte>, p: nat, n: Label, x: seq<byte>)
    requires NameOk(n) && Holds(t, p, NameText(n)) && Reserved(x)
    requires forall i :: 0 <= i < |x| ==> x[i] > 0x1f && x[i] != QUOTE && x[i] != BACKSLASH
    ensures !Holds(t, p, Literal(x))
  {
    hide Chars, LettersText, Meant, NameChar, ReservedNames;
    if Holds(t, p, Literal(x)) {
      ByteAt(t, p, Literal(x), 0);
      match n {
        case InQuotes(q, s) =>
          QuotedRead(t, p, s, q);
          PlainQuoted(t, p, x);
          ReservedIs(x);
        case Bare(s) =>
          ByteAt(t, p, s, 0);
          FirstOfName(s[0]);
      }
    }
  }

  // ---------------------------------------------------------------- arrays and objects

  lemma BlankSpaces(t: seq<byte>, p: nat, s: seq<byte>)
    requires Blank(s) && Holds(t, p, s)
    ensures Spaces(t, p, p + |s|)
  {
    SpacesAt(t, p, s);
  }

  /** White space, a value, white space, and what is behind. */
  lemma ItemPlaces(t: seq<byte>, p: nat, i: Item, tail: seq<byte>)
    requires Blank(i.pre) && Blank(i.post) && Holds(t, p, ItemText(i) + tail) && tail != []
    requires tail[0] == COMMA || tail[0] == RBRACKET || tail[0] == RBRACE
    ensures var a := p + |i.pre|; var e := a + |Written(i.text)|; var f := e + |i.post|;
      && Spaces(t, p, a) && Holds(t, a, Written(i.text)) && Stops(t, e) && f < |t| && t[f] == tail[0] && Skip(t, e) == f
      && Holds(t, f, tail) && f == p + |ItemText(i)|
  {
    hide Written, Holds, Skip, Blank, Spaces;
    var w := Written(i.text);
    var a := p + |i.pre|;
    var e := a + |w|;
    var f := e + |i.post|;
    assert ItemText(i) + tail == i.pre + (w + (i.post + tail));
    HoldsParts(t, p, i.pre, w + (i.post + tail));
    HoldsParts(t, a, w, i.post + tail);
    HoldsParts(t, e, i.post, tail);
    BlankSpaces(t, p, i.pre);
    BlankSpaces(t, e, i.post);
    ByteAt(t, f, tail, 0);
    SkipTo(t, e, f);
    StopsThere(t, e, f);
  }

  lemma StopsThere(t: seq<byte>, e: nat, f: nat)
    requires Spaces(t, e, f) && f < |t| && (t[f] == COMMA || t[f] == RBRACKET || t[f] == RBRACE)
    ensures Stops(t, e)
  {
  }

  /** A value, however it is spelled. */
  lemma {:induction false} ValueRead(t: seq<byte>, pos: nat, p: nat, x: Text)
    requires TextOk(x) && Spaces(t, pos, p) && Holds(t, p, Written(x)) && Stops(t, p + |Written(x)|)
    ensures ValueAt(t, pos) == Ok(ValueMeant(x), p + |Written(x)|)
    ensures p < |t| && !IsSpace(t[p]) && t[p] != RBRACKET
    decreases x, 4
  {
    hide ValueAt, Spaces, Stops, LettersText, LettersOk, ItemsText, MembersText, ItemsOk, MembersOk, NumberOk, Blank, Meant,
      ItemsMeant, DocMeant, Decimal, NameMeant, Bracketed, Braced;
    ByteAt(t, p, Written(x), 0) by {
      NotEmpty(x);
    }
    match x {
      case Words(q, s) => StringRead(t, pos, p, q, s);
      case Num(sign, d) =>
        NumRead(t, pos, p, sign, d);
        NumberRead(t, p, sign, d);
      case Word(v) => WordRead(t, pos, p, v);
      case Arr(inside, items) =>
        ArrayAt(t, pos, p);
        ArrayRead(t, p, inside, items);
      case Obj(inside, members) =>
        ObjectRead(t, pos, p, inside, members);
    }
  }

  lemma NotEmpty(x: Text)
    requires TextOk(x)
    ensures Written(x) != []
  {
    hide LettersText, ItemsText, MembersText;
  }

  lemma {:induction false} ArrayRead(t: seq<byte>, p: nat, inside: seq<byte>, items: seq<Item>)
    requires Blank(inside) && ItemsOk(items) && Holds(t, p, Written(Arr(inside, items)))
    ensures p < |t| && AsArray(Bracketed(t, p + 1)) == Ok(ValueMeant(Arr(inside, items)), p + |Written(Arr(inside, items))|)
    decreases items, 2
  {
    hide Items, ItemsText, ItemsOk, Spaces, Holds, Blank, Skip;
    var rest := if items == [] then inside + [RBRACKET] else ItemsText(items);
    HoldsParts(t, p, [LBRACKET], rest);
    ByteAt(t, p, [LBRACKET], 0);
    if items == [] {
      HoldsParts(t, p + 1, inside, [RBRACKET]);
      BlankSpaces(t, p + 1, inside);
      ByteAt(t, p + 1 + |inside|, [RBRACKET], 0);
      SkipTo(t, p + 1, p + 1 + |inside|);
    } else {
      ItemsRead(t, p + 1, items, 0);
    }
  }

  lemma {:induction false} ItemsRead(t: seq<byte>, p: nat, s: seq<Item>, index: nat)
    requires s != [] && ItemsOk(s) && Holds(t, p, ItemsText(s))
    ensures p <= |t| && Items(t, p, index) == Ok(ItemsMeant(s, index), p + |ItemsText(s)|) && !At(t, Skip(t, p), RBRACKET)
    decreases s, 1
  {
    hide ItemText, ItemsText, ItemsMeant, Spaces, Holds, ValueAt, Digits, Written, ValueMeant, TextOk, Stops, Skip, Items, ItemOk;
    var i := s[0];
    var tail := if |s| == 1 then [RBRACKET] else [COMMA] + ItemsText(s[1..]);
    ItemsParts(s, index);
    FirstOk(s);
    ItemPlaces(t, p, i, tail);
    var a := p + |i.pre|;
    var e := a + |Written(i.text)|;
    var f := e + |i.post|;
    ValueRead(t, p, a, i.text);
    SkipTo(t, p, a);
    if |s| > 1 {
      HoldsParts(t, f, [COMMA], ItemsText(s[1..]));
      ItemsRead(t, f + 1, s[1..], index + 1);
    }
    ItemsStep(t, p, index);
    var x := [Field(Digits(index), ValueMeant(i.text))];
    assert x + [] == x;
  }

  lemma ItemsParts(s: seq<Item>, index: nat)
    requires s != []
    ensures ItemsText(s) == ItemText(s[0]) + if |s| == 1 then [RBRACKET] else [COMMA] + ItemsText(s[1..])
    ensures ItemsMeant(s, index) == [Field(Digits(index), ValueMeant(s[0].text))] + ItemsMeant(s[1..], index + 1)
    ensures |s| == 1 ==> ItemsMeant(s[1..], index + 1) == []
  {
    hide ItemText, Digits, ValueMeant;
  }

  lemma FirstOk(s: seq<Item>)
    requires s != [] && ItemsOk(s)
    ensures Blank(s[0].pre) && Blank(s[0].post) && TextOk(s[0].text) && ItemsOk(s[1..])
  {
    hide TextOk, Blank;
    assert ItemOk(s[0]);
  }

  lemma ItemsStep(t: seq<byte>, p: nat, index: nat)
    requires p <= |t| && ValueAt(t, p).Ok?
    ensures var v := ValueAt(t, p); var q := Skip(t, v.next);
      Items(t, p, index) == if At(t, q, RBRACKET) then Ok([Field(Digits(index), v.v)], q + 1)
                            else if At(t, q, COMMA) then Prepend(Field(Digits(index), v.v), Items(t, q + 1, index + 1))
                            else Fail
  {
    hide ValueAt, Digits, Skip;
  }

  lemma {:induction false} BracedRead(t: seq<byte>, p: nat, inside: seq<byte>, members: seq<Entry>)
    requires Blank(inside) && MembersOk(members) && Holds(t, p, Written(Obj(inside, members)))
    ensures p < |t| && t[p] == LBRACE && Braced(t, p + 1) == Ok(DocMeant(members), p + |Written(Obj(inside, members))|)
    ensures !SpecialAt(t, Skip(t, p + 1))
    ensures RefAt(t, p + 1).Ok? <==> RefForm(members)
    ensures RefForm(members) ==> RefAt(t, p + 1) == Ok(RefMeant(members), p + |Written(Obj(inside, members))|)
    decreases members, 2
  {
    hide Members, MembersText, MembersOk, Spaces, Holds, Blank, Skip, SpecialAt, RefAt, RefForm, RefMeant;
    var rest := if members == [] then inside + [RBRACE] else MembersText(members);
    HoldsParts(t, p, [LBRACE], rest);
    ByteAt(t, p, [LBRACE], 0);
    if members == [] {
      HoldsParts(t, p + 1, inside, [RBRACE]);
      BlankSpaces(t, p + 1, inside);
      ByteAt(t, p + 1 + |inside|, [RBRACE], 0);
      SkipTo(t, p + 1, p + 1 + |inside|);
      NothingSpecial(t, p + 1, p + 1 + |inside|);
      NoRef();
    } else {
      MembersRead(t, p + 1, members);
      RefRead(t, p + 1, members);
    }
  }

  lemma {:induction false} ObjectRead(t: seq<byte>, pos: nat, p: nat, inside: seq<byte>, members: seq<Entry>)
    requires Blank(inside) && MembersOk(members)
    requires Spaces(t, pos, p) && Holds(t, p, Written(Obj(inside, members)))
    ensures p < |t| && t[p] == LBRACE
    ensures ValueAt(t, pos) == Ok(ValueMeant(Obj(inside, members)), p + |Written(Obj(inside, members))|)
    decreases members, 3
  {
    hide Braced, MembersText, MembersOk, Spaces, Holds, Blank, Skip, ValueAt, SpecialAt, RefAt, RefForm, RefMeant;
    BracedRead(t, p, inside, members);
    ObjectAt(t, pos, p);
  }

  lemma NothingSpecial(t: seq<byte>, pos: nat, p: nat)
    requires pos <= |t| && p == Skip(t, pos) && p < |t| && t[p] == RBRACE
    ensures !SpecialAt(t, p) && !RefAt(t, pos).Ok?
  {
    hide Skip, Literal, Holds;
    NoLiteralAt(t, p, DATE_NAME);
    NoLiteralAt(t, p, OID_NAME);
    NoLiteralAt(t, p, BINARY_NAME);
    NoLiteralAt(t, p, REGEX_NAME);
    NoLiteralAt(t, p, REF_NAME);
  }

  lemma NoLiteralAt(t: seq<byte>, p: nat, n: seq<byte>)
    requires p < |t| && t[p] != QUOTE
    ensures !Holds(t, p, Literal(n))
  {
    if Holds(t, p, Literal(n)) {
      ByteAt(t, p, Literal(n), 0);
    }
  }

  lemma {:induction false} MembersRead(t: seq<byte>, p: nat, s: seq<Entry>)
    requires s != [] && MembersOk(s) && Holds(t, p, MembersText(s))
    ensures p <= |t| && Members(t, p) == Ok(DocMeant(s), p + |MembersText(s)|) && !At(t, Skip(t, p), RBRACE)
    ensures !SpecialAt(t, Skip(t, p))
    decreases s, 1
  {
    hide ItemText, MembersText, DocMeant, Spaces, Holds, ValueAt, NameText, Written, ValueMeant, TextOk, Stops, Skip, Members,
      MemberOk, NameMeant, NameOk, Member, Name, SpecialAt;
    var m := s[0];
    var tail := if |s| == 1 then [RBRACE] else [COMMA] + MembersText(s[1..]);
    MembersParts(s);
    FirstMemberOk(s);
    MemberPlaces(t, p, m, tail);
    var a := p + |m.pre|;
    var c := a + |NameText(m.name)| + |m.post|;
    var v := c + 1 + |m.item.pre|;
    var e := v + |Written(m.item.text)|;
    var f := e + |m.item.post|;
    NameRead(t, p, a, m.name);
    SkipTo(t, p, a);
    ValueRead(t, c + 1, v, m.item.text);
    MemberStep(t, p);
    NotSpecial(t, a, m.name);
    if |s| > 1 {
      HoldsParts(t, f, [COMMA], MembersText(s[1..]));
      MembersRead(t, f + 1, s[1..]);
    }
    MembersStep(t, p);
    var x := [Field(NameMeant(m.name), ValueMeant(m.item.text))];
    assert x + [] == x;
  }

  lemma NoRef()
    ensures !RefForm([])
  {
  }

  lemma MembersParts(s: seq<Entry>)
    requires s != []
    ensures MembersText(s) == MemberText(s[0]) + if |s| == 1 then [RBRACE] else [COMMA] + MembersText(s[1..])
    ensures DocMeant(s) == [Field(NameMeant(s[0].name), ValueMeant(s[0].item.text))] + DocMeant(s[1..])
    ensures |s| == 1 ==> DocMeant(s[1..]) == []
  {
    hide MemberText, NameMeant, ValueMeant;
  }

  lemma FirstMemberOk(s: seq<Entry>)
    requires s != [] && MembersOk(s)
    ensures var m := s[0]; Blank(m.pre) && Blank(m.post) && NameOk(m.name)
    ensures var i := s[0].item; Blank(i.pre) && Blank(i.post) && TextOk(i.text)
    ensures MembersOk(s[1..])
  {
    hide MemberOk, TextOk, Blank, NameOk, ItemOk;
    EntryParts(s[0]);
  }

  lemma EntryParts(m: Entry)
    requires MemberOk(m)
    ensures Blank(m.pre) && Blank(m.post) && NameOk(m.name)
    ensures Blank(m.item.pre) && Blank(m.item.post) && TextOk(m.item.text)
  {
    hide Blank, NameOk;
  }

  /** White space, a name, a colon, a value, and what is behind. */
  lemma MemberPlaces(t: seq<byte>, p: nat, m: Entry, tail: seq<byte>)
    requires Blank(m.pre) && Blank(m.post) && Blank(m.item.pre) && Blank(m.item.post)
    requires Holds(t, p, MemberText(m) + tail) && tail != [] && (tail[0] == COMMA || tail[0] == RBRACE)
    ensures var a := p + |m.pre|; var b := a + |NameText(m.name)|; var c := b + |m.post|;
      && Spaces(t, p, a) && Holds(t, a, NameText(m.name)) && b < |t| && !NameChar(t[b], false)
      && Skip(t, b) == c && At(t, c, COLON)
      && var v := c + 1 + |m.item.pre|; var e := v + |Written(m.item.text)|; var f := e + |m.item.post|;
      && Spaces(t, c + 1, v) && Holds(t, v, Written(m.item.text)) && Stops(t, e) && f < |t| && t[f] == tail[0]
      && Skip(t, e) == f && Holds(t, f, tail) && f == p + |MemberText(m)|
  {
    hide ItemText, NameText, Holds, Skip, Blank, Spaces, NameChar, Written, Stops;
    var n, i := NameText(m.name), ItemText(m.item);
    var a := p + |m.pre|;
    var b := a + |n|;
    var c := b + |m.post|;
    MemberSplit(m, tail);
    HoldsParts(t, p, m.pre, n + (m.post + ([COLON] + (i + tail))));
    HoldsParts(t, a, n, m.post + ([COLON] + (i + tail)));
    HoldsParts(t, b, m.post, [COLON] + (i + tail));
    HoldsParts(t, c, [COLON], i + tail);
    BlankSpaces(t, p, m.pre);
    BlankSpaces(t, b, m.post);
    ByteAt(t, c, [COLON], 0);
    SkipTo(t, b, c);
    NameStops(t, b, c);
    ItemPlaces(t, c + 1, m.item, tail);
  }

  lemma MemberSplit(m: Entry, tail: seq<byte>)
    ensures MemberText(m) + tail == m.pre + (NameText(m.name) + (m.post + ([COLON] + (ItemText(m.item) + tail))))
  {
    hide NameText, ItemText;
    var n, i := NameText(m.name), ItemText(m.item);
    Assoc([COLON], i, tail);
    Assoc(m.post, [COLON] + i, tail);
    Assoc(n, m.post + ([COLON] + i), tail);
    Assoc(m.pre, n + (m.post + ([COLON] + i)), tail);
  }

  lemma NameStops(t: seq<byte>, b: nat, c: nat)
    requires Spaces(t, b, c) && c < |t| && t[c] == COLON
    ensures b < |t| && !NameChar(t[b], false)
  {
  }

  lemma MemberStep(t: seq<byte>, p: nat)
    requires p <= |t| && Name(t, p).Ok? && At(t, Skip(t, Name(t, p).next), COLON)
    requires ValueAt(t, Skip(t, Name(t, p).next) + 1).Ok?
    ensures var v := ValueAt(t, Skip(t, Name(t, p).next) + 1); Member(t, p) == Ok(Field(Name(t, p).v, v.v), v.next)
  {
    hide ValueAt, Name, Skip;
  }

  lemma MembersStep(t: seq<byte>, p: nat)
    requires p <= |t| && Member(t, p).Ok?
    ensures var f := Member(t, p); var q := Skip(t, f.next);
      Members(t, p) == if At(t, q, RBRACE) then Ok([f.v], q + 1)
                       else if At(t, q, COMMA) then Prepend(f.v, Members(t, q + 1)) else Fail
  {
    hide Member, Skip;
  }

  // ---------------------------------------------------------------- references

  /** Quoted text without escapes is spelled in one way only. */
  lemma {:induction false} PlainsOnly(t: seq<byte>, p: nat, s: seq<Letter>, x: seq<byte>, q: byte)
    requires LettersOk(s, q) && IsQuote(q) && Holds(t, p, LettersText(s) + [q]) && Holds(t, p, x + [q])
    requires forall i :: 0 <= i < |x| ==> x[i] != q && x[i] != BACKSLASH
    ensures s == Plains(x)
    decreases |s|
  {
    hide Holds, Hex4, LetterOk, LetterText;
    ByteAt(t, p, LettersText(s) + [q], 0);
    ByteAt(t, p, x + [q], 0);
    if s != [] {
      LetterFirst(s[0], q);
      if x != [] {
        assert LettersText(s) + [q] == LetterText(s[0]) + (LettersText(s[1..]) + [q]);
        assert x + [q] == [x[0]] + (x[1..] + [q]);
        HoldsParts(t, p, LetterText(s[0]), LettersText(s[1..]) + [q]);
        HoldsParts(t, p, [x[0]], x[1..] + [q]);
        PlainsOnly(t, p + 1, s[1..], x[1..], q);
        assert s == [s[0]] + s[1..];
      }
    }
  }

  lemma LetterFirst(l: Letter, q: byte)
    requires LetterOk(l, q) && IsQuote(q)
    ensures LetterText(l) != [] && LetterText(l)[0] != q
    ensures (l == Plain(LetterText(l)[0]) && |LetterText(l)| == 1) || LetterText(l)[0] == BACKSLASH
  {
  }

  lemma {:induction false} PlainsText(x: seq<byte>)
    ensures LettersText(Plains(x)) == x && Meant(Plains(x)) == x
  {
    if x != [] {
      PlainsText(x[1..]);
    }
  }

  /** A name is a literal of the grammar if it is spelled like one. */
  lemma LiteralIff(t: seq<byte>, p: nat, n: Label, x: seq<byte>)
    requires NameOk(n) && Holds(t, p, NameText(n))
    requires forall i :: 0 <= i < |x| ==> x[i] != QUOTE && x[i] != BACKSLASH
    ensures Holds(t, p, Literal(x)) <==> n == InQuotes(QUOTE, Plains(x))
    ensures Holds(t, p, Literal(x)) ==> |NameText(n)| == |Literal(x)|
  {
    hide Holds, LettersText, LettersOk, NameChar, ReservedNames, Meant;
    PlainsText(x);
    assert Literal(x) == [QUOTE] + (x + [QUOTE]);
    if Holds(t, p, Literal(x)) {
      ByteAt(t, p, Literal(x), 0);
      ByteAt(t, p, NameText(n), 0);
      match n {
        case InQuotes(q, s) =>
          HoldsParts(t, p, [q], LettersText(s) + [q]);
          HoldsParts(t, p, [QUOTE], x + [QUOTE]);
          PlainsOnly(t, p + 1, s, x, QUOTE);
        case Bare(s) =>
          FirstOfName(s[0]);
      }
    }
  }

  /** Only strings in double quotes begin with one. */
  lemma WordsIff(t: seq<byte>, p: nat, x: Text)
    requires TextOk(x) && Holds(t, p, Written(x))
    ensures At(t, p, QUOTE) <==> IsWords(x)
    ensures IsWords(x) ==> Chars(t, p + 1, QUOTE) == Ok(Meant(x.letters), p + |Written(x)|)
  {
    hide Holds, Chars, LettersText, LettersOk, Meant, ItemsText, MembersText, ItemsOk, MembersOk, Blank;
    NotEmpty(x);
    ByteAt(t, p, Written(x), 0);
    if IsWords(x) {
      QuotedRead(t, p, x.letters, QUOTE);
    }
  }

  /** The digits of an object id are spelled like one. */
  lemma OidIff(t: seq<byte>, p: nat, x: Text)
    requires TextOk(x) && Holds(t, p, Written(x))
    ensures QuotedOid(t, p) <==>
      IsWords(x) && IsOid(Meant(x.letters)) && x.letters == Plains(Meant(x.letters))
    ensures QuotedOid(t, p) ==> |Written(x)| == 26 && t[p + 1..p + 25] == Meant(x.letters)
  {
    hide Holds, LettersText, LettersOk, Meant, ItemsText, MembersText, ItemsOk, MembersOk, Blank, Chars, IsOid, Plains;
    WordsIff(t, p, x);
    if IsWords(x) {
      HoldsParts(t, p, [QUOTE], LettersText(x.letters) + [QUOTE]);
      if QuotedOid(t, p) {
        var y := t[p + 1..p + 25];
        OidHolds(t, p, y);
        OidPlain(y);
        PlainsOnly(t, p + 1, x.letters, y, QUOTE);
        PlainsText(y);
      }
      if IsOid(Meant(x.letters)) && x.letters == Plains(Meant(x.letters)) {
        PlainsText(Meant(x.letters));
        OidThere(t, p, Meant(x.letters));
      }
    }
  }

  lemma OidHolds(t: seq<byte>, p: nat, y: seq<byte>)
    requires QuotedOid(t, p) && y == t[p + 1..p + 25]
    ensures |y| == 24 && IsOid(y) && Holds(t, p + 1, y + [QUOTE])
  {
    hide IsOid;
    assert t[p + 1..p + 26] == y + [QUOTE];
  }

  lemma OidThere(t: seq<byte>, p: nat, y: seq<byte>)
    requires At(t, p, QUOTE) && IsOid(y) && Holds(t, p + 1, y + [QUOTE])
    ensures QuotedOid(t, p) && t[p + 1..p + 25] == y
  {
    hide HexValue;
    HoldsParts(t, p + 1, y, [QUOTE]);
    ByteAt(t, p + 25, [QUOTE], 0);
  }

  lemma OidPlain(y: seq<byte>)
    requires IsOid(y)
    ensures forall i :: 0 <= i < |y| ==> y[i] != QUOTE && y[i] != BACKSLASH
  {
  }

  lemma NameFirst(t: seq<byte>, p: nat, n: Label)
    requires NameOk(n) && Holds(t, p, NameText(n))
    ensures p < |t| && !IsSpace(t[p])
  {
    hide LettersText, LettersOk, Holds, NameChar, ReservedNames, Meant;
    ByteAt(t, p, NameText(n), 0);
    if n.Bare? {
      FirstOfName(n.s[0]);
    }
  }

  lemma ValueFirst(t: seq<byte>, p: nat, x: Text)
    requires TextOk(x) && Holds(t, p, Written(x))
    ensures p < |t| && !IsSpace(t[p])
  {
    hide LettersText, LettersOk, Holds, ItemsText, MembersText, ItemsOk, MembersOk, Blank, Decimal;
    NotEmpty(x);
    ByteAt(t, p, Written(x), 0);
  }

  /** Where the pieces of a member are read. */
  lemma EntryPlaces(t: seq<byte>, p: nat, m: Entry, tail: seq<byte>)
    requires Blank(m.pre) && Blank(m.post) && NameOk(m.name) && Blank(m.item.pre) && Blank(m.item.post) && TextOk(m.item.text)
    requires Holds(t, p, MemberText(m) + tail) && tail != [] && (tail[0] == COMMA || tail[0] == RBRACE)
    ensures var a := p + |m.pre|; var b := a + |NameText(m.name)|; var c := b + |m.post|; var v := c + 1 + |m.item.pre|;
      && a <= |t| && Skip(t, p) == a && b <= |t| && Skip(t, b) == c && c < |t| && Skip(t, c + 1) == v
  {
    hide MemberText, Holds, NameText, Written, TextOk, Stops, Skip, NameOk, NameChar, Blank, Spaces;
    MemberPlaces(t, p, m, tail);
    var a := p + |m.pre|;
    var c := a + |NameText(m.name)| + |m.post|;
    NameFirst(t, a, m.name);
    SkipTo(t, p, a);
    ValueFirst(t, c + 1 + |m.item.pre|, m.item.text);
    SkipTo(t, c + 1, c + 1 + |m.item.pre|);
  }

  /** `$id` and an object id, and nothing more. */
  lemma IdRead(t: seq<byte>, p: nat, s: seq<Entry>)
    requires s != [] && MembersOk(s) && Holds(t, p, MembersText(s))
    ensures p <= |t| && (IdAt(t, p).Ok? <==> IdForm(s))
    ensures IdForm(s) ==> IdAt(t, p) == Ok(Meant(s[0].item.text.letters), p + |MembersText(s)|)
  {
    hide MembersText, MemberText, MembersOk, Holds, NameText, Written, TextOk, Skip, NameOk, Literal, IsOid, QuotedOid, Plains, Meant,
      Spaces, Stops, NameChar;
    var m := s[0];
    var tail := if |s| == 1 then [RBRACE] else [COMMA] + MembersText(s[1..]);
    MembersParts(s);
    FirstMemberOk(s);
    MemberPlaces(t, p, m, tail);
    EntryPlaces(t, p, m, tail);
    var a := p + |m.pre|;
    LiteralIff(t, a, m.name, ID_NAME);
    OidIff(t, a + |NameText(m.name)| + |m.post| + 1 + |m.item.pre|, m.item.text);
  }

  lemma OneLeft(s: seq<Entry>)
    ensures IdForm(s) ==> |s| == 1
  {
  }

  /** An object is read as a reference exactly if its members have that form. */
  lemma RefRead(t: seq<byte>, p: nat, s: seq<Entry>)
    requires s != [] && MembersOk(s) && Holds(t, p, MembersText(s))
    ensures p <= |t| && (RefAt(t, p).Ok? <==> RefForm(s))
    ensures RefForm(s) ==> RefAt(t, p) == Ok(RefMeant(s), p + |MembersText(s)|)
  {
    hide MembersText, MemberText, MembersOk, Holds, NameText, Written, TextOk, Skip, NameOk, Literal, IsOid, Plains, Meant, IdForm, IdAt,
      OidOf, Chars, Spaces, Stops, NameChar;
    var m := s[0];
    var tail := if |s| == 1 then [RBRACE] else [COMMA] + MembersText(s[1..]);
    MembersParts(s);
    FirstMemberOk(s);
    MemberPlaces(t, p, m, tail);
    EntryPlaces(t, p, m, tail);
    var a := p + |m.pre|;
    var v := a + |NameText(m.name)| + |m.post| + 1 + |m.item.pre|;
    LiteralIff(t, a, m.name, REF_NAME);
    WordsIff(t, v, m.item.text);
    if |s| > 1 {
      var f := p + |MemberText(m)|;
      HoldsParts(t, f, [COMMA], MembersText(s[1..]));
      IdRead(t, f + 1, s[1..]);
      OneLeft(s[1..]);
      assert s[1..][0] == s[1];
    }
  }

  // ---------------------------------------------------------------- whole texts

  /** fromjson, of an object with white space around it: the document that is meant, unless it is too long for a BSONObj. */
  lemma AnySpelling(pre: seq<byte>, inside: seq<byte>, members: seq<Entry>, post: seq<byte>)
    requires Blank(pre) && Blank(post) && Blank(inside) && MembersOk(members)
    requires 0 !in pre + (Written(Obj(inside, members)) + post)
    ensures var t := pre + (Written(Obj(inside, members)) + post);
      FromJson(t) == if |EncodeDoc(DocMeant(members))| <= LIMIT then Ok(DocMeant(members), |t| - |post|) else Fail
  {
    hide Written, MembersOk, Blank, Holds, Spaces, Skip, Braced, DocMeant, EncodeDoc;
    var x := Written(Obj(inside, members));
    var t, p := pre + (x + post), |pre|;
    WholeHolds(t);
    HoldsParts(t, 0, pre, x + post);
    HoldsParts(t, p, x, post);
    BlankSpaces(t, 0, pre);
    BlankSpaces(t, p + |x|, post);
    BracedRead(t, p, inside, members);
    SkipTo(t, 0, p);
    SkipTo(t, p + |x|, |t|);
  }

  lemma WholeHolds(t: seq<byte>)
    ensures Holds(t, 0, t) && (0 !in t ==> CStr(t) == t)
  {
    assert t[0..|t|] == t;
  }
}
