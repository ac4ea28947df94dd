/** fromjson: the grammar's rules fire actions on a stack of builders that share one buffer. */
module JsonBuilder {
  import opened Bytes
  import opened Document
  import opened BsonFormat
  import opened BsonBuilder
  import opened BsonRoundTrip
  import opened JsonText
  import G = JsonGrammar
  import P = JsonPieces

  /** How a rule ends. */
  datatype Outcome = Matched(next: nat) | NoMatch | OutOfModel

  predicate Same<T>(r: Outcome, p: G.Parsed<T>) {
    match p
    case Ok(_, next) => r == Matched(next)
    case Fail => r == NoMatch
    case Unsupported => r == OutOfModel
  }

  /** The text is so much shorter than an int can count that no length overflows. */
  predicate TextFits(t: seq<byte>) { 2 * |t| + BUFFER_MAX + 100 < TWO31 }

  /** A nested builder has started behind `before`, at `offset`: there is room for its length. */
  predicate Started(started: seq<byte>, offset: nat, before: seq<byte>) {
    |started| == offset + 4 && offset == |before| && started[..offset] == before
  }

  class ObjectBuilder {
    var builders: seq<BSONObjBuilder>
    var fieldNames: seq<seq<byte>>
    var indexes: seq<nat>
    var ss: seq<byte>
    var ns: seq<byte>
    var oid: seq<byte>

    /** The three stacks are in step. */
    ghost predicate InStep()
      reads this
    {
      |builders| == |fieldNames| == |indexes|
    }

    /** The builder on top writes into `b`. */
    ghost predicate Ready(b: BufBuilder)
      reads this, b
    {
      InStep() && builders != [] && builders[|builders| - 1].b == b && b.Valid() && (b.thrown || b.size <= BUFFER_MAX)
    }

    /** Only the top of the stacks of names and indexes may have changed. */
    twostate predicate SameLevel(b: BufBuilder)
      requires old(InStep()) && old(builders) != []
      reads this, b
    {
      && Ready(b) && builders == old(builders)
      && fieldNames[..|builders| - 1] == old(fieldNames)[..|builders| - 1]
      && indexes[..|builders| - 1] == old(indexes)[..|builders| - 1]
    }

    /** The stacks are as they were. */
    twostate predicate SameStacks(b: BufBuilder)
      reads this, b
    {
      Ready(b) && builders == old(builders) && fieldNames == old(fieldNames) && indexes == old(indexes)
    }

    constructor ()
      ensures InStep() && builders == [] && ss == []
    {
      builders, fieldNames, indexes, ss := [], [], [], [];
      ns, oid := [], [];
    }

    /** The name of the next element, as far as a C string shows it. */
    function FieldName(): seq<byte>
      requires fieldNames != []
      reads this
    {
      CStr(fieldNames[|fieldNames| - 1])
    }

    method SetFieldName(n: seq<byte>)
      requires fieldNames != []
      modifies this`fieldNames
      ensures fieldNames == old(fieldNames)[..|old(fieldNames)| - 1] + [n]
    {
      fieldNames := fieldNames[..|fieldNames| - 1] + [n];
    }

    /** init(): the builder of the whole object. */
    method Init() returns (back: BSONObjBuilder)
      requires InStep() && builders == []
      modifies this
      ensures InStep() && builders == [back] && ss == old(ss)
      ensures fresh(back) && fresh(back.b) && fresh(back.b.data) && back.Valid() && !back.doneCalled
      ensures !back.b.thrown && back.offset == 4 && back.b.l == 8 && back.b.size <= BUFFER_MAX
    {
      back := new BSONObjBuilder(512);
      builders, fieldNames, indexes := builders + [back], fieldNames + [[]], indexes + [0];
    }

    /** pushObject and pushArray. */
    method Push(ghost b: BufBuilder, code: byte) returns (child: BSONObjBuilder, ghost started: seq<byte>)
      requires Ready(b) && b.Room(|FieldName()| + 6)
      modifies this, b, b.data
      ensures Ready(b) && builders == old(builders) + [child] && ss == old(ss)
      ensures fieldNames == old(fieldNames) + [[]] && indexes == old(indexes) + [0]
      ensures fresh(child) && child.b == b && child.Valid() && !child.doneCalled
      ensures (old(b.thrown) ==> b.thrown) && (b.data == old(b.data) || fresh(b.data))
      ensures !b.thrown ==> b.Contents() == started
      ensures !b.thrown ==> Started(started, child.offset, old(b.Contents()) + Header(code, old(FieldName())))
      ensures !old(b.thrown) && 2 * (old(b.l) + |old(FieldName())| + 6) <= BUFFER_MAX ==> !b.thrown
    {
      hide CStr;
      var back := builders[|builders| - 1];
      back.Start(code, FieldName());
      child := new BSONObjBuilder.Nested(back.b);
      builders, fieldNames, indexes := builders + [child], fieldNames + [[]], indexes + [0];
      started := if b.thrown then [] else b.Contents();
    }

    /** pop(): obj() or done(), which throw if the object is too long for a BSONObj. */
    method Pop(ghost b: BufBuilder) returns (at: nat)
      requires Ready(b) && b.Room(1) && builders[|builders| - 1].Valid() && !builders[|builders| - 1].doneCalled
      modifies this, builders[|builders| - 1], b, b.data
      ensures InStep() && builders == old(builders)[..|old(builders)| - 1] && ss == old(ss)
      ensures fieldNames == old(fieldNames)[..|old(fieldNames)| - 1] && indexes == old(indexes)[..|old(indexes)| - 1]
      ensures b.Valid() && (b.thrown || b.size <= BUFFER_MAX) && at == old(builders)[|old(builders)| - 1].offset
      ensures (old(b.thrown) ==> b.thrown) && (b.data == old(b.data) || fresh(b.data))
      ensures !old(b.thrown) ==> at + 4 <= |old(b.Contents())|
      ensures !b.thrown ==> at <= b.l && var was := old(b.Contents());
        |was| + 1 - at <= LIMIT && b.Contents() == was[..at] + I32(|was| + 1 - at) + (was[at + 4..] + [0])
      ensures !old(b.thrown) && 2 * (old(b.l) + 1) <= BUFFER_MAX && old(b.l) + 1 - at <= LIMIT ==> !b.thrown
    {
      hide I32;
      at := builders[|builders| - 1].Done();
      builders, fieldNames, indexes := builders[..|builders| - 1], fieldNames[..|fieldNames| - 1], indexes[..|indexes| - 1];
    }

    /** pop(), of a builder that has the fields of `d`. */
    method PopDone(ghost b: BufBuilder, ghost before: seq<byte>, ghost started: seq<byte>, ghost d: Doc)
      requires Ready(b) && b.Room(1) && builders[|builders| - 1].Valid() && !builders[|builders| - 1].doneCalled
      requires !b.thrown ==> b.Contents() == started + EncodeFields(d)
      requires !b.thrown ==> Started(started, builders[|builders| - 1].offset, before)
      modifies this, builders[|builders| - 1], b, b.data
      ensures InStep() && builders == old(builders)[..|old(builders)| - 1] && ss == old(ss)
      ensures fieldNames == old(fieldNames)[..|old(fieldNames)| - 1] && indexes == old(indexes)[..|old(indexes)| - 1]
      ensures b.Valid() && (b.thrown || b.size <= BUFFER_MAX)
      ensures (old(b.thrown) ==> b.thrown) && (b.data == old(b.data) || fresh(b.data))
      ensures !b.thrown ==> |EncodeDoc(d)| <= LIMIT && b.Contents() == before + EncodeDoc(d)
      ensures !old(b.thrown) && 2 * (old(b.l) + 1) <= BUFFER_MAX && |EncodeDoc(d)| <= LIMIT ==> !b.thrown
    {
      hide I32, EncodeFields, EncodeDoc;
      DocLength(d);
      var at := Pop(b);
      if !b.thrown {
        Assembled(before, started, d);
      }
    }

    /** An element under the current name. */
    method Append(ghost b: BufBuilder, v: Value)
      requires Ready(b) && b.Room(|EncodeField(Field(FieldName(), v))|)
      modifies b, b.data
      ensures Ready(b) && b.Attempted(EncodeField(Field(FieldName(), v)), ValueFits(v))
    {
      hide EncodeField, CStr, ValueFits;
      builders[|builders| - 1].AppendField(Field(FieldName(), v));
    }

    /** arrayNext, and with `first` the part of arrayStart that names the first element. */
    method NameFromIndex(first: bool)
      requires InStep() && builders != []
      modifies this`fieldNames, this`indexes
      ensures indexes == old(indexes)[..|old(indexes)| - 1] + [old(indexes)[|old(indexes)| - 1] + if first then 0 else 1]
      ensures fieldNames == old(fieldNames)[..|old(fieldNames)| - 1] + [Digits(indexes[|indexes| - 1])]
    {
      var last := |indexes| - 1;
      if !first {
        indexes := indexes[..last] + [indexes[last] + 1];
      }
      fieldNames := fieldNames[..last] + [Digits(indexes[last])];
    }

    // -------------------------------------------------------------- characters

    /** ch, chE and chU */
    method Put(c: seq<byte>)
      modifies this`ss
      ensures ss == old(ss) + c
    {
      ss := ss + c;
    }

    /** popString(), and with it chClear. */
    method PopString() returns (s: seq<byte>)
      modifies this`ss
      ensures s == old(ss) && ss == []
    {
      s := ss;
      ss := [];
    }

    /** `str` and `singleQuoteStr` behind the opening quote. */
    method Chars(t: seq<byte>, pos: nat, q: byte) returns (r: Outcome)
      requires pos <= |t|
      modifies this`ss
      ensures Same(r, G.Chars(t, pos, q))
      ensures r.Matched? ==> ss == G.Chars(t, pos, q).v
    {
      hide G.Chars, G.Char;
      var cleared := PopString();
      var i := pos;
      NothingBefore(G.Chars(t, pos, q));
      while true
        invariant pos <= i <= |t|
        invariant G.Chars(t, pos, q) == G.Before(ss, G.Chars(t, i, q))
        decreases |t| - i
      {
        G.OneChar(t, i, q);
        if |t| <= i {
          return NoMatch;
        }
        if t[i] == q {
          assert ss + [] == ss;
          return Matched(i + 1);
        }
        var c := G.Char(t, i);
        if c.1 == i {
          return NoMatch;
        }
        BeforeBefore(ss, c.0, G.Chars(t, c.1, q));
        Put(c.0);
        i := c.1;
      }
    }
  }

  lemma NothingBefore(r: G.Parsed<seq<byte>>)
    ensures G.Before([], r) == r
  {
    if r.Ok? {
      assert [] + r.v == r.v;
    }
  }

  lemma BeforeBefore(a: seq<byte>, b: seq<byte>, r: G.Parsed<seq<byte>>)
    ensures G.Before(a, G.Before(b, r)) == G.Before(a + b, r)
  {
    if r.Ok? {
      assert a + (b + r.v) == (a + b) + r.v;
    }
  }

  // ---------------------------------------------------------------- lengths

  lemma {:induction false} CharsShort(t: seq<byte>, pos: nat, q: byte)
    ensures G.Chars(t, pos, q).Ok? ==> |G.Chars(t, pos, q).v| <= |t|
    ensures G.Chars(t, pos, q).Ok? ==> pos + |G.Chars(t, pos, q).v| <= |t|
    decreases |t| - pos
  {
    hide G.Utf8, G.HexValue, G.Hex4;
    G.OneChar(t, pos, q);
    if pos < |t| && t[pos] != q && G.Char(t, pos).1 != pos {
      CharShort(t, pos);
      CharsShort(t, G.Char(t, pos).1, q);
    }
  }

  lemma CharShort(t: seq<byte>, i: nat)
    requires i < |t|
    ensures i + |G.Char(t, i).0| <= G.Char(t, i).1
  {
    hide G.HexValue;
  }

  lemma NameShort(t: seq<byte>, pos: nat)
    requires pos <= |t|
    ensures G.Name(t, pos).Ok? ==> |G.Name(t, pos).v| <= |t|
  {
    hide G.Chars, CStr, G.NameEnd;
    var p := G.Skip(t, pos);
    if p < |t| {
      CharsShort(t, p + 1, t[p]);
    }
  }

  lemma {:induction false} DigitsShort(n: nat)
    ensures |Digits(n)| <= n + 1
  {
    if 10 <= n {
      DigitsShort(n / 10);
    }
  }

  // ---------------------------------------------------------------- the rules

  method ParseName(ob: ObjectBuilder, t: seq<byte>, pos: nat) returns (r: Outcome)
    requires pos <= |t| && ob.InStep() && ob.builders != []
    modifies ob`ss, ob`fieldNames
    ensures Same(r, G.Name(t, pos)) && ob.InStep()
    ensures ob.fieldNames[..|ob.fieldNames| - 1] == old(ob.fieldNames)[..|old(ob.fieldNames)| - 1]
    ensures r.Matched? ==> ob.FieldName() == G.Name(t, pos).v
  {
    hide G.Chars, CStr, G.NameEnd, Reserved, G.NameChar;
    var p := G.Skip(t, pos);
    if p == |t| {
      return NoMatch;
    }
    if t[p] == QUOTE || t[p] == 39 {
      r := ob.Chars(t, p + 1, t[p]);
      if r.Matched? {
        var name := ob.PopString();
        if Reserved(name) {
          return NoMatch;
        }
        ob.SetFieldName(name);
      }
    } else if G.NameChar(t[p], true) {
      var e := G.NameEnd(t, p + 1);
      ob.SetFieldName(t[p..e]);
      r := Matched(e);
    } else {
      r := NoMatch;
    }
  }

  predicate NameFits(n: seq<byte>, t: seq<byte>) { |n| <= |t| + 1 }

  /** A scalar under the current name. */
  method Scalar(ob: ObjectBuilder, ghost b: BufBuilder, t: seq<byte>, v: Value)
    requires TextFits(t) && ob.Ready(b) && NameFits(ob.FieldName(), t)
    requires |Payload(v)| <= |t| + 16 && ValueFits(v)
    modifies b, b.data
    ensures ob.Ready(b) && b.Appended(EncodeField(Field(ob.FieldName(), v)))
  {
    hide Payload, CStr, ValueFits;
    ob.Append(b, v);
  }

  /** `dbrefS` behind its brace: dbrefNS and oidValue keep what dbrefEnd appends. */
  method ParseRef(ob: ObjectBuilder, t: seq<byte>, pos: nat) returns (r: Outcome)
    requires pos <= |t|
    modifies ob`ss, ob`ns, ob`oid
    ensures G.RefAt(t, pos).Ok? ==> r == Matched(G.RefAt(t, pos).next) && G.RefAt(t, pos).v == DBRef(ob.ns, ob.oid)
    ensures !G.RefAt(t, pos).Ok? ==> r == NoMatch
  {
    hide Holds, CStr, G.Chars, G.RefIdAt, G.Skip, G.Literal;
    var p := G.Skip(t, pos);
    if !Holds(t, p, G.Literal(REF_NAME)) {
      return NoMatch;
    }
    InTextHolds(t, p, G.Literal(REF_NAME));
    p := G.Skip(t, p + |G.Literal(REF_NAME)|);
    if !G.At(t, p, COLON) {
      return NoMatch;
    }
    p := G.Skip(t, p + 1);
    if !G.At(t, p, QUOTE) {
      return NoMatch;
    }
    r := ob.Chars(t, p + 1, QUOTE);
    if !r.Matched? {
      return NoMatch;
    }
    ob.ns := ob.PopString();
    r := ParseRefId(ob, t, r.next);
  }

  method ParseRefId(ob: ObjectBuilder, t: seq<byte>, pos: nat) returns (r: Outcome)
    requires pos <= |t|
    modifies ob`oid
    ensures var g := G.RefIdAt(t, pos, ob.ns);
      if g.Ok? then r == Matched(g.next) && g.v == DBRef(ob.ns, ob.oid) else r == NoMatch
  {
    hide G.OidOf, G.IdAt, G.Skip;
    var p := G.Skip(t, pos);
    if !G.At(t, p, COMMA) {
      return NoMatch;
    }
    r := ParseId(ob, t, p + 1);
  }

  method ParseId(ob: ObjectBuilder, t: seq<byte>, pos: nat) returns (r: Outcome)
    requires pos <= |t|
    modifies ob`oid
    ensures var g := G.IdAt(t, pos);
      if g.Ok? then r == Matched(g.next) && ob.oid == G.OidOf(g.v) else r == NoMatch
  {
    hide Holds, G.OidOf, G.Skip, G.Literal, G.IsOid;
    var p := G.Skip(t, pos);
    if !Holds(t, p, G.Literal(ID_NAME)) {
      return NoMatch;
    }
    InTextHolds(t, p, G.Literal(ID_NAME));
    p := G.Skip(t, p + |G.Literal(ID_NAME)|);
    if !G.At(t, p, COLON) {
      return NoMatch;
    }
    p := G.Skip(t, p + 1);
    if !G.QuotedOid(t, p) {
      return NoMatch;
    }
    ob.oid := G.OidOf(t[p + 1..p + 25]);
    p := G.Skip(t, p + 26);
    r := if G.At(t, p, RBRACE) then Matched(p + 1) else NoMatch;
  }

  lemma InTextHolds(t: seq<byte>, p: nat, x: seq<byte>)
    requires Holds(t, p, x)
    ensures p + |x| <= |t|
  {
  }

  lemma RefLength(t: seq<byte>, pos: nat)
    requires pos <= |t| && G.RefAt(t, pos).Ok?
    ensures var v := G.RefAt(t, pos).v; v.DBRef? && |Payload(v)| <= |t| + 16 && ValueFits(v)
  {
    hide G.Chars, Holds, G.QuotedOid, G.OidOf, Sized;
    var p1 := G.Skip(t, G.Skip(t, pos) + |G.Literal(REF_NAME)|);
    var p2 := G.Skip(t, p1 + 1);
    CharsShort(t, p2 + 1, QUOTE);
  }

  /** `str[ stringEnd ]`, with either quote. */
  method ParseString(ob: ObjectBuilder, ghost b: BufBuilder, t: seq<byte>, p: nat) returns (r: Outcome)
    requires p < |t| && TextFits(t) && ob.Ready(b) && NameFits(ob.FieldName(), t)
    modifies ob`ss, b, b.data
    ensures Same(r, G.Chars(t, p + 1, t[p])) && ob.Ready(b)
    ensures r.Matched? ==>
      b.Appended(EncodeField(Field(ob.FieldName(), Str(G.Chars(t, p + 1, t[p]).v)))) && ValueFits(Str(G.Chars(t, p + 1, t[p]).v))
  {
    hide G.Chars, CStr, EncodeField, Payload, ValueFits;
    r := ob.Chars(t, p + 1, t[p]);
    if r.Matched? {
      CharsShort(t, p + 1, t[p]);
      var s := ob.PopString();
      StrLength(s);
      Scalar(ob, b, t, Str(s));
    }
  }

  /** `value` */
  method ParseValue(ob: ObjectBuilder, ghost b: BufBuilder, t: seq<byte>, pos: nat) returns (r: Outcome)
    requires pos <= |t| && TextFits(t) && ob.Ready(b) && NameFits(ob.FieldName(), t)
    modifies ob, b, b.data
    ensures Same(r, G.ValueAt(t, pos))
    ensures G.ValueAt(t, pos).Ok? ==>
      && ob.SameStacks(b)
      && b.Attempted(EncodeField(Field(old(ob.FieldName()), G.ValueAt(t, pos).v)), ValueFits(G.ValueAt(t, pos).v))
    decreases |t| - pos, 1
  {
    hide G.Chars, G.Number, G.Bracketed, G.Braced, G.SpecialAt, G.RefAt, Holds, CStr, EncodeField, Payload,
      TextFits, ValueFits;
    var p := G.Skip(t, pos);
    if p == |t| {
      return NoMatch;
    }
    var c := t[p];
    if c == QUOTE || c == 39 {
      r := ParseString(ob, b, t, p);
    } else if IsDigit(c) || c == MINUS || c == 43 || c == 46 {
      var n := G.Number(t, p);
      r := match n case Ok(_, next) => Matched(next) case Fail => NoMatch case Unsupported => OutOfModel;
      if n.Ok? {
        NumberLength(t, p);
        Scalar(ob, b, t, n.v);
      }
    } else if c == LBRACKET {
      r := ParseArray(ob, b, t, p + 1);
    } else if Holds(t, p, TRUE_TEXT) {
      LiteralLength();
      Scalar(ob, b, t, Bool(true));
      r := Matched(p + 4);
    } else if Holds(t, p, FALSE_TEXT) {
      LiteralLength();
      Scalar(ob, b, t, Bool(false));
      r := Matched(p + 5);
    } else if Holds(t, p, NULL_TEXT) {
      LiteralLength();
      Scalar(ob, b, t, Null);
      r := Matched(p + 4);
    } else if c == 68 || c == 79 || c == 47 || c == 110 {
      r := OutOfModel;
    } else if c == LBRACE {
      if G.SpecialAt(t, G.Skip(t, p + 1)) {
        return OutOfModel;
      }
      r := ParseRef(ob, t, p + 1);
      if r.Matched? {
        RefLength(t, p + 1);
        Scalar(ob, b, t, DBRef(ob.ns, ob.oid));
      } else {
        r := ParseObject(ob, b, t, p + 1);
      }
    } else {
      r := NoMatch;
    }
  }

  lemma StrLength(s: seq<byte>)
    ensures |Payload(Str(s))| == |s| + 5 && ValueFits(Str(s))
  {
    assert |Sized(s)| == |s| + 5;
  }

  lemma NumberLength(t: seq<byte>, p: nat)
    requires p < |t|
    ensures G.Number(t, p).Ok? ==> |Payload(G.Number(t, p).v)| <= 8 && ValueFits(G.Number(t, p).v)
  {
    hide I32, I64;
  }

  lemma LiteralLength()
    ensures |Payload(Bool(true))| == |Payload(Bool(false))| == 1 && |Payload(Null)| == 0
    ensures ValueFits(Bool(true)) && ValueFits(Bool(false)) && ValueFits(Null)
  {
  }

  /** An embedded object behind its brace: a builder is pushed, and popped when the object is complete. */
  method ParseObject(ob: ObjectBuilder, ghost b: BufBuilder, t: seq<byte>, pos: nat) returns (r: Outcome)
    requires pos <= |t| && TextFits(t) && ob.Ready(b) && NameFits(ob.FieldName(), t)
    modifies ob, b, b.data
    ensures Same(r, G.Braced(t, pos))
    ensures G.Braced(t, pos).Ok? ==>
      var d := G.Braced(t, pos).v;
      ob.SameStacks(b) && b.Attempted(EncodeField(Field(old(ob.FieldName()), Object(d))), ValueFits(Object(d)))
    decreases |t| - pos, 4
  {
    hide G.Braced, CStr, EncodeField, EncodeFields, EncodeDoc, Header, DocFits;
    var child, started := ob.Push(b, 3);
    ghost var before := if old(b.thrown) then [] else old(b.Contents()) + Header(3, old(ob.FieldName()));
    r := ParseBraced(ob, b, t, pos);
    if r.Matched? {
      ghost var d := G.Braced(t, pos).v;
      NestedField(old(ob.FieldName()), d);
      PartsFit(d);
      ob.PopDone(b, before, started, d);
      if !b.thrown {
        Assoc(old(b.Contents()), Header(3, old(ob.FieldName())), EncodeDoc(d));
      }
    }
  }

  lemma NestedField(n: seq<byte>, d: Doc)
    ensures EncodeField(Field(n, Object(d))) == Header(3, n) + EncodeDoc(d)
    ensures EncodeField(Field(n, Array(d))) == Header(4, n) + EncodeDoc(d)
    ensures |EncodeDoc(d)| == |EncodeFields(d)| + 5
  {
    DocLength(d);
  }

  /** `!members` and the closing brace. */
  method ParseBraced(ob: ObjectBuilder, ghost b: BufBuilder, t: seq<byte>, pos: nat) returns (r: Outcome)
    requires pos <= |t| && TextFits(t) && ob.Ready(b)
    modifies ob, b, b.data
    ensures Same(r, G.Braced(t, pos))
    ensures G.Braced(t, pos).Ok? ==> ob.SameLevel(b) && b.Attempted(EncodeFields(G.Braced(t, pos).v), DocFits(G.Braced(t, pos).v))
    decreases |t| - pos, 3
  {
    hide G.Members, EncodeField;
    if G.At(t, G.Skip(t, pos), RBRACE) {
      r := Matched(G.Skip(t, pos) + 1);
      NoFields([]);
      assert !b.thrown ==> b.Contents() + [] == b.Contents();
    } else {
      r := ParseMembers(ob, b, t, pos);
    }
  }

  /** `members` */
  method ParseMembers(ob: ObjectBuilder, ghost b: BufBuilder, t: seq<byte>, pos: nat) returns (r: Outcome)
    requires pos <= |t| && TextFits(t) && ob.Ready(b)
    modifies ob, b, b.data
    ensures Same(r, G.Members(t, pos))
    ensures G.Members(t, pos).Ok? ==> ob.SameLevel(b) && b.Attempted(EncodeFields(G.Members(t, pos).v), DocFits(G.Members(t, pos).v))
    decreases |t| - pos, 2
  {
    hide G.Member, EncodeField, EncodeFields, DocFits, ValueFits;
    r := ParseMember(ob, b, t, pos);
    if !r.Matched? {
      return;
    }
    ghost var f := G.Member(t, pos).v;
    var q := G.Skip(t, r.next);
    if G.At(t, q, RBRACE) {
      OneField(f);
      r := Matched(q + 1);
    } else if G.At(t, q, COMMA) {
      r := ParseMembers(ob, b, t, q + 1);
      if r.Matched? {
        MoreFields(f, G.Members(t, q + 1).v);
        if !b.thrown {
          Assoc(old(b.Contents()), EncodeField(f), EncodeFields(G.Members(t, q + 1).v));
        }
      }
    } else {
      r := NoMatch;
    }
  }

  /** fieldName >> ':' >> value */
  method ParseMember(ob: ObjectBuilder, ghost b: BufBuilder, t: seq<byte>, pos: nat) returns (r: Outcome)
    requires pos <= |t| && TextFits(t) && ob.Ready(b)
    modifies ob, b, b.data
    ensures Same(r, G.Member(t, pos))
    ensures G.Member(t, pos).Ok? ==> 
      ob.SameLevel(b) && b.Attempted(EncodeField(G.Member(t, pos).v), ValueFits(G.Member(t, pos).v.value))
    decreases |t| - pos, 0
  {
    hide G.Name, G.ValueAt, CStr, EncodeField, ValueFits;
    r := ParseName(ob, t, pos);
    if !r.Matched? {
      return;
    }
    NameShort(t, pos);
    var p := G.Skip(t, r.next);
    if !G.At(t, p, COLON) {
      return NoMatch;
    }
    r := ParseValue(ob, b, t, p + 1);
  }

  lemma MoreFields(f: Field, d: Doc)
    ensures EncodeFields([f] + d) == EncodeField(f) + EncodeFields(d)
    ensures DocFits([f] + d) <==> ValueFits(f.value) && DocFits(d)
  {
    hide EncodeField, EncodeFields, ValueFits;
    EncodeFront([f] + d);
    assert ([f] + d)[1..] == d && ([f] + d)[0] == f;
    if DocFits([f] + d) {
      forall i | 0 <= i < |d| ensures ValueFits(d[i].value) {
        assert ([f] + d)[i + 1] == d[i];
      }
    }
  }

  /** `array` behind its bracket. */
  method ParseArray(ob: ObjectBuilder, ghost b: BufBuilder, t: seq<byte>, pos: nat) returns (r: Outcome)
    requires pos <= |t| && TextFits(t) && ob.Ready(b) && NameFits(ob.FieldName(), t)
    modifies ob, b, b.data
    ensures Same(r, G.Bracketed(t, pos))
    ensures G.Bracketed(t, pos).Ok? ==>
      var d := G.Bracketed(t, pos).v;
      ob.SameStacks(b) && b.Attempted(EncodeField(Field(old(ob.FieldName()), Array(d))), ValueFits(Array(d)))
    decreases |t| - pos, 4
  {
    hide G.Bracketed, CStr, EncodeField, EncodeFields, EncodeDoc, Header, DocFits;
    var child, started := ob.Push(b, 4);
    ghost var before := if old(b.thrown) then [] else old(b.Contents()) + Header(4, old(ob.FieldName()));
    r := ParseElements(ob, b, t, pos);
    if r.Matched? {
      ghost var d := G.Bracketed(t, pos).v;
      NestedField(old(ob.FieldName()), d);
      PartsFit(d);
      ob.PopDone(b, before, started, d);
      if !b.thrown {
        Assoc(old(b.Contents()), Header(4, old(ob.FieldName())), EncodeDoc(d));
      }
    }
  }

  /** The first index, `!elements` and the closing bracket. */
  method ParseElements(ob: ObjectBuilder, ghost b: BufBuilder, t: seq<byte>, pos: nat) returns (r: Outcome)
    requires pos <= |t| && TextFits(t) && ob.Ready(b) && ob.indexes[|ob.indexes| - 1] == 0
    modifies ob, b, b.data
    ensures Same(r, G.Bracketed(t, pos))
    ensures G.Bracketed(t, pos).Ok? ==> ob.SameLevel(b) && b.Attempted(EncodeFields(G.Bracketed(t, pos).v), DocFits(G.Bracketed(t, pos).v))
    decreases |t| - pos, 3
  {
    hide G.Items, EncodeField, Digits;
    ob.NameFromIndex(true);
    if G.At(t, G.Skip(t, pos), RBRACKET) {
      r := Matched(G.Skip(t, pos) + 1);
      NoFields([]);
      assert !b.thrown ==> b.Contents() + [] == b.Contents();
    } else {
      r := ParseItems(ob, b, t, pos, 0);
    }
  }

  /** `elements`: the stacks carry the index of the next one, and its name. */
  method ParseItems(ob: ObjectBuilder, ghost b: BufBuilder, t: seq<byte>, pos: nat, ghost index: nat) returns (r: Outcome)
    requires index <= pos <= |t| && TextFits(t) && ob.Ready(b)
    requires ob.indexes[|ob.indexes| - 1] == index && ob.fieldNames[|ob.fieldNames| - 1] == Digits(index)
    modifies ob, b, b.data
    ensures Same(r, G.Items(t, pos, index))
    ensures G.Items(t, pos, index).Ok? ==> ob.SameLevel(b) && b.Attempted(EncodeFields(G.Items(t, pos, index).v), DocFits(G.Items(t, pos, index).v))
    decreases |t| - pos, 2
  {
    hide G.ValueAt, CStr, EncodeField, EncodeFields, Digits, DocFits, ValueFits;
    DigitsName(index);
    r := ParseValue(ob, b, t, pos);
    if !r.Matched? {
      return;
    }
    ghost var f := Field(Digits(index), G.ValueAt(t, pos).v);
    var q := G.Skip(t, r.next);
    if G.At(t, q, RBRACKET) {
      OneField(f);
      r := Matched(q + 1);
    } else if G.At(t, q, COMMA) {
      r := ParseMoreItems(ob, b, t, q + 1, index);
      if r.Matched? {
        MoreFields(f, G.Items(t, q + 1, index + 1).v);
        if !b.thrown {
          Assoc(old(b.Contents()), EncodeField(f), EncodeFields(G.Items(t, q + 1, index + 1).v));
        }
      }
    } else {
      r := NoMatch;
    }
  }

  /** Behind a comma, the next index. */
  method ParseMoreItems(ob: ObjectBuilder, ghost b: BufBuilder, t: seq<byte>, pos: nat, ghost index: nat) returns (r: Outcome)
    requires index < pos <= |t| && TextFits(t) && ob.Ready(b) && ob.indexes[|ob.indexes| - 1] == index
    modifies ob, b, b.data
    ensures Same(r, G.Items(t, pos, index + 1))
    ensures G.Items(t, pos, index + 1).Ok? ==> ob.SameLevel(b) && b.Attempted(EncodeFields(G.Items(t, pos, index + 1).v), DocFits(G.Items(t, pos, index + 1).v))
    decreases |t| - pos, 3
  {
    hide G.Items, EncodeFields, Digits, DocFits;
    ob.NameFromIndex(false);
    r := ParseItems(ob, b, t, pos, index + 1);
  }

  lemma DigitsName(n: nat)
    ensures CStr(Digits(n)) == Digits(n) && |Digits(n)| <= n + 1
  {
    hide Digits;
    DigitsShort(n);
    P.DigitsAreDigits(n);
  }
}
