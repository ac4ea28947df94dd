/** woCompare: the order of elements and of documents. */
module Compare {
  import opened Bytes
  import opened Document
  import opened BsonFormat
  import opened Doubles

  function Cmp(a: int, b: int): int {
    if a < b then -1 else if a == b then 0 else 1
  }

  /** memcmp of blocks of one size; of strings without zero bytes, strcmp. */
  function Lexi(a: seq<byte>, b: seq<byte>): int {
    if a == [] then (if b == [] then 0 else -1)
    else if b == [] then 1
    else if a[0] != b[0] then Cmp(a[0], b[0])
    else Lexi(a[1..], b[1..])
  }

  /** What lies behind the first zero byte. */
  function AfterNul(s: seq<byte>): seq<byte> {
    if s == [] then [] else if s[0] == 0 then s[1..] else AfterNul(s[1..])
  }

  function StrCmp(a: seq<byte>, b: seq<byte>): int {
    Lexi(CStr(a), CStr(b))
  }

  /** Two C strings in a row, the first more important. */
  function TwoStrCmp(a: seq<byte>, b: seq<byte>): int {
    var f := StrCmp(a, b);
    if f != 0 then f else StrCmp(AfterNul(a), AfterNul(b))
  }

  /** canonicalType() */
  function Canonical(v: Value): int {
    match v
    case MinKey => -1
    case MaxKey => 127
    case Undefined => 0
    case Null => 5
    case Double(_) => 10
    case Int(_) => 10
    case Long(_) => 10
    case Str(_) => 15
    case Symbol(_) => 15
    case Object(_) => 20
    case Array(_) => 25
    case BinData(_, _) => 30
    case Oid(_) => 35
    case Bool(_) => 40
    case Date(_) => 45
    case Timestamp(_) => 45
    case RegEx(_, _) => 50
    case DBRef(_, _) => 55
    case Code(_) => 60
    case CodeWScope(_, _) => 65
  }

  /** Two longs exactly; any other pair as doubles, those that are not finite alike and below all others. */
  function NumberCompare(l: Value, r: Value): int
    requires IsNumber(l) && IsNumber(r)
  {
    if l.Long? && r.Long? then Cmp(l.n, r.n)
    else
      var (left, right) := (Scaled(l), Scaled(r));
      if left.None? then (if right.None? then 0 else -1)
      else if right.None? then 1
      else Cmp(left.value, right.value)
  }

  function Millis(v: Value): nat
    requires v.Date? || v.Timestamp?
  {
    if v.Date? then v.millis else v.ts
  }

  /** compareElementValues */
  function ValueCompare(l: Value, r: Value): int
    requires Canonical(l) == Canonical(r)
    decreases l, 0
  {
    match l
    case Bool(b) => (if b then 1 else 0) - (if r.b then 1 else 0)
    case Date(_) => Cmp(Millis(l), Millis(r))
    case Timestamp(_) => Cmp(Millis(l), Millis(r))
    case Double(_) => NumberCompare(l, r)
    case Int(_) => NumberCompare(l, r)
    case Long(_) => NumberCompare(l, r)
    case Oid(oid) => Lexi(oid, r.oid)
    case Str(s) => StrCmp(s, r.s)
    case Symbol(s) => StrCmp(s, r.s)
    case Code(s) => StrCmp(s, r.s)
    case Object(d) => DocCompare(d, r.doc, [], true)
    case Array(d) => DocCompare(d, r.doc, [], true)
    case DBRef(_, _) => BlockCompare(Payload(l), Payload(r))
    case BinData(sub, data) => BlockCompare([sub] + data, [r.subtype] + r.data)
    case RegEx(p, f) => TwoStrCmp(p + [0] + f, r.pattern + [0] + r.flags)
    case CodeWScope(s, d) => TwoStrCmp(s + [0] + EncodeDoc(d), r.s + [0] + EncodeDoc(r.scope))
    case _ => 0
  }

  /** The shorter block first, then memcmp. */
  function BlockCompare(a: seq<byte>, b: seq<byte>): int {
    if |a| != |b| then |a| - |b| else Lexi(a, b)
  }

  /** BSONElement::woCompare */
  function FieldCompare(l: Field, r: Field, names: bool): int
    decreases l, 1
  {
    var x := Canonical(l.value) - Canonical(r.value);
    if x != 0 then x
    else if names && StrCmp(l.name, r.name) != 0 then StrCmp(l.name, r.name)
    else ValueCompare(l.value, r.value)
  }

  /** BSONObj::woCompare: field by field, the result reversed where the key is descending. */
  function DocCompare(l: Doc, r: Doc, desc: seq<bool>, names: bool): int
    decreases l, 2
  {
    if l == [] then (if r == [] then 0 else -1)
    else if r == [] then 1
    else
      var x := FieldCompare(l[0], r[0], names);
      if x != 0 then Flip(desc, x) else DocCompare(l[1..], r[1..], Rest(desc), names)
  }

  function Flip(desc: seq<bool>, x: int): int {
    if desc != [] && desc[0] then -x else x
  }

  function Rest(desc: seq<bool>): seq<bool> {
    if desc == [] then [] else desc[1..]
  }

  // ---------------------------------------------------------------- exchanging the sides

  lemma {:induction false} LexiSwap(a: seq<byte>, b: seq<byte>)
    ensures Lexi(a, b) == -Lexi(b, a)
  {
    if a != [] && b != [] {
      LexiSwap(a[1..], b[1..]);
    }
  }

  lemma TwoStrSwap(a: seq<byte>, b: seq<byte>)
    ensures TwoStrCmp(a, b) == -TwoStrCmp(b, a)
  {
    LexiSwap(CStr(a), CStr(b));
    LexiSwap(CStr(AfterNul(a)), CStr(AfterNul(b)));
  }

  lemma {:induction false} ValueSwap(l: Value, r: Value)
    requires Canonical(l) == Canonical(r)
    ensures ValueCompare(l, r) == -ValueCompare(r, l)
    decreases l, 0
  {
    hide Lexi, CStr, TwoStrCmp, EncodeDoc, Payload, DocCompare, Scaled;
    match l {
      case Oid(oid) => LexiSwap(oid, r.oid);
      case Str(s) => LexiSwap(CStr(s), CStr(r.s));
      case Symbol(s) => LexiSwap(CStr(s), CStr(r.s));
      case Code(s) => LexiSwap(CStr(s), CStr(r.s));
      case Object(d) => DocSwap(d, r.doc, [], true);
      case Array(d) => DocSwap(d, r.doc, [], true);
      case DBRef(_, _) => LexiSwap(Payload(l), Payload(r));
      case BinData(sub, data) => LexiSwap([sub] + data, [r.subtype] + r.data);
      case RegEx(p, f) => TwoStrSwap(p + [0] + f, r.pattern + [0] + r.flags);
      case CodeWScope(s, d) => TwoStrSwap(s + [0] + EncodeDoc(d), r.s + [0] + EncodeDoc(r.scope));
      case _ =>
    }
  }

  lemma {:induction false} FieldSwap(l: Field, r: Field, names: bool)
    ensures FieldCompare(l, r, names) == -FieldCompare(r, l, names)
    decreases l, 1
  {
    hide Canonical, ValueCompare;
    LexiSwap(CStr(l.name), CStr(r.name));
    if Canonical(l.value) == Canonical(r.value) {
      ValueSwap(l.value, r.value);
    }
  }

  /** Exchanging the documents reverses the result exactly, whatever the key order. */
  lemma {:induction false} DocSwap(l: Doc, r: Doc, desc: seq<bool>, names: bool)
    ensures DocCompare(l, r, desc, names) == -DocCompare(r, l, desc, names)
    decreases l, 2
  {
    hide FieldCompare;
    if l != [] && r != [] {
      FieldSwap(l[0], r[0], names);
      DocSwap(l[1..], r[1..], Rest(desc), names);
    }
  }

  // ---------------------------------------------------------------- three sides

  /** The results for (a, b), (b, c) and (a, c) fit together, read in either direction. */
  predicate Chain(ab: int, bc: int, ac: int) {
    Fits(ab, bc, ac) && Fits(-ab, -bc, -ac)
  }

  predicate Fits(ab: int, bc: int, ac: int) {
    && (ab <= 0 && bc <= 0 ==> ac <= 0)
    && (ab <= 0 && bc < 0 ==> ac < 0)
    && (ab < 0 && bc <= 0 ==> ac < 0)
    && (ab == 0 && bc == 0 ==> ac == 0)
  }

  lemma {:induction false} LexiChain(a: seq<byte>, b: seq<byte>, c: seq<byte>)
    ensures Chain(Lexi(a, b), Lexi(b, c), Lexi(a, c))
    ensures Lexi(a, b) == 0 <==> a == b
  {
    if a != [] && b != [] && c != [] {
      LexiChain(a[1..], b[1..], c[1..]);
      assert a == [a[0]] + a[1..] && b == [b[0]] + b[1..];
    } else if a != [] && b != [] {
      LexiChain(a[1..], b[1..], c);
      assert a == [a[0]] + a[1..] && b == [b[0]] + b[1..];
    }
  }

  lemma TwoStrChain(a: seq<byte>, b: seq<byte>, c: seq<byte>)
    ensures Chain(TwoStrCmp(a, b), TwoStrCmp(b, c), TwoStrCmp(a, c))
  {
    hide Lexi, CStr, AfterNul;
    LexiChain(CStr(a), CStr(b), CStr(c));
    LexiChain(CStr(AfterNul(a)), CStr(AfterNul(b)), CStr(AfterNul(c)));
  }

  /** Two longs that are different, but become the same double as `c`, which is no long. */
  predicate Blurred(a: Value, b: Value, c: Value) {
    && a.Long? && b.Long? && a.n != b.n && IsNumber(c) && !c.Long?
    && Scaled(a) == Scaled(b) == Scaled(c)
  }

  /** No number in `numbers` blurs the difference of two longs in it. */
  ghost predicate Sharp(numbers: iset<Value>) {
    forall a, b, c :: a in numbers && b in numbers && c in numbers ==> !Blurred(a, b, c)
  }

  /** All numbers that a comparison of the value looks at are in `numbers`. */
  ghost predicate Within(v: Value, numbers: iset<Value>) {
    match v
    case Double(_) => v in numbers
    case Int(_) => v in numbers
    case Long(_) => v in numbers
    case Object(d) => DocWithin(d, numbers)
    case Array(d) => DocWithin(d, numbers)
    case _ => true
  }

  ghost predicate DocWithin(d: Doc, numbers: iset<Value>) {
    forall i :: 0 <= i < |d| ==> Within(d[i].value, numbers)
  }

  lemma NumberChain(a: Value, b: Value, c: Value, numbers: iset<Value>)
    requires Sharp(numbers) && IsNumber(a) && IsNumber(b) && IsNumber(c)
    requires a in numbers && b in numbers && c in numbers
    ensures Chain(NumberCompare(a, b), NumberCompare(b, c), NumberCompare(a, c))
  {
    hide Scaled, Sharp;
    NotBlurred(a, b, c, numbers);
    NotBlurred(a, c, b, numbers);
    NotBlurred(b, c, a, numbers);
    LongsOrdered(a, b);
    LongsOrdered(b, c);
    LongsOrdered(a, c);
  }

  lemma NotBlurred(a: Value, b: Value, c: Value, numbers: iset<Value>)
    requires Sharp(numbers) && a in numbers && b in numbers && c in numbers
    ensures !Blurred(a, b, c)
  {
  }

  lemma LongsOrdered(a: Value, b: Value)
    ensures a.Long? && b.Long? ==> Scaled(a).Some? && Scaled(b).Some?
    ensures a.Long? && b.Long? && a.n <= b.n ==> Scaled(a).value <= Scaled(b).value
    ensures a.Long? && b.Long? && b.n <= a.n ==> Scaled(b).value <= Scaled(a).value
  {
    hide Scaled;
    if a.Long? && b.Long? {
      LongIsFinite(a);
      LongIsFinite(b);
      if a.n <= b.n {
        LongsScaled(a.n, b.n);
      }
      if b.n <= a.n {
        LongsScaled(b.n, a.n);
      }
    }
  }

  lemma LongIsFinite(a: Value)
    requires a.Long?
    ensures Scaled(a).Some?
  {
    hide Pow2, ToDouble;
  }

  lemma {:induction false} ValueChain(a: Value, b: Value, c: Value, numbers: iset<Value>)
    requires Canonical(a) == Canonical(b) == Canonical(c)
    requires Sharp(numbers) && Within(a, numbers) && Within(b, numbers) && Within(c, numbers)
    ensures Chain(ValueCompare(a, b), ValueCompare(b, c), ValueCompare(a, c))
    decreases a, 0
  {
    hide Lexi, CStr, StrCmp, TwoStrCmp, BlockCompare, EncodeDoc, Payload, DocCompare, NumberCompare, Chain, Sharp, DocWithin;
    match a {
      case Double(_) => NumberChain(a, b, c, numbers);
      case Int(_) => NumberChain(a, b, c, numbers);
      case Long(_) => NumberChain(a, b, c, numbers);
      case Object(d) => DocChain(d, b.doc, c.doc, [], true, numbers);
      case Array(d) => DocChain(d, b.doc, c.doc, [], true, numbers);
      case Str(_) => TextChain(a, b, c);
      case Symbol(_) => TextChain(a, b, c);
      case Code(_) => TextChain(a, b, c);
      case RegEx(_, _) => TextChain(a, b, c);
      case CodeWScope(_, _) => TextChain(a, b, c);
      case Oid(_) => BlockChain(a, b, c);
      case DBRef(_, _) => BlockChain(a, b, c);
      case BinData(_, _) => BlockChain(a, b, c);
      case _ => PlainChain(a, b, c);
    }
  }

  lemma PlainChain(a: Value, b: Value, c: Value)
    requires Canonical(a) == Canonical(b) == Canonical(c)
    requires a.MinKey? || a.MaxKey? || a.Undefined? || a.Null? || a.Bool? || a.Date? || a.Timestamp?
    ensures Chain(ValueCompare(a, b), ValueCompare(b, c), ValueCompare(a, c))
  {
  }

  lemma TextChain(a: Value, b: Value, c: Value)
    requires Canonical(a) == Canonical(b) == Canonical(c)
    requires a.Str? || a.Symbol? || a.Code? || a.RegEx? || a.CodeWScope?
    ensures Chain(ValueCompare(a, b), ValueCompare(b, c), ValueCompare(a, c))
  {
    hide Lexi, CStr, TwoStrCmp, EncodeDoc, Chain;
    match a {
      case RegEx(p, f) => TwoStrChain(p + [0] + f, b.pattern + [0] + b.flags, c.pattern + [0] + c.flags);
      case CodeWScope(s, d) =>
        TwoStrChain(s + [0] + EncodeDoc(d), b.s + [0] + EncodeDoc(b.scope), c.s + [0] + EncodeDoc(c.scope));
      case Str(s) => LexiChain(CStr(s), CStr(b.s), CStr(c.s));
      case Symbol(s) => LexiChain(CStr(s), CStr(b.s), CStr(c.s));
      case Code(s) => LexiChain(CStr(s), CStr(b.s), CStr(c.s));
    }
  }

  lemma BlockChain(a: Value, b: Value, c: Value)
    requires Canonical(a) == Canonical(b) == Canonical(c) && (a.Oid? || a.DBRef? || a.BinData?)
    ensures Chain(ValueCompare(a, b), ValueCompare(b, c), ValueCompare(a, c))
  {
    hide Lexi, Payload, BlockCompare, Chain;
    match a {
      case Oid(oid) => LexiChain(oid, b.oid, c.oid);
      case DBRef(_, _) => SizedChain(Payload(a), Payload(b), Payload(c));
      case BinData(sub, data) => SizedChain([sub] + data, [b.subtype] + b.data, [c.subtype] + c.data);
    }
  }

  lemma SizedChain(a: seq<byte>, b: seq<byte>, c: seq<byte>)
    ensures Chain(BlockCompare(a, b), BlockCompare(b, c), BlockCompare(a, c))
  {
    hide Lexi;
    LexiChain(a, b, c);
  }

  lemma {:induction false} FieldChain(a: Field, b: Field, c: Field, names: bool, numbers: iset<Value>)
    requires Sharp(numbers) && Within(a.value, numbers) && Within(b.value, numbers) && Within(c.value, numbers)
    ensures Chain(FieldCompare(a, b, names), FieldCompare(b, c, names), FieldCompare(a, c, names))
    decreases a, 1
  {
    hide Canonical, ValueCompare, Sharp, Within, Lexi, CStr;
    LexiChain(CStr(a.name), CStr(b.name), CStr(c.name));
    if Canonical(a.value) == Canonical(b.value) == Canonical(c.value) {
      ValueChain(a.value, b.value, c.value, numbers);
    }
  }

  /** The comparison of documents is transitive where no number blurs the difference of two longs: for every key order,
      with or without names. With DocSwap, it is a total preorder. */
  lemma {:induction false} DocChain(a: Doc, b: Doc, c: Doc, desc: seq<bool>, names: bool, numbers: iset<Value>)
    requires Sharp(numbers) && DocWithin(a, numbers) && DocWithin(b, numbers) && DocWithin(c, numbers)
    ensures Chain(DocCompare(a, b, desc, names), DocCompare(b, c, desc, names), DocCompare(a, c, desc, names))
    decreases a, 2
  {
    hide FieldCompare, Sharp, Within;
    if a != [] && b != [] && c != [] {
      FieldChain(a[0], b[0], c[0], names, numbers);
      DocChain(a[1..], b[1..], c[1..], Rest(desc), names, numbers);
    }
  }

  // ---------------------------------------------------------------- exactly when

  predicate Le(a: Doc, b: Doc) { DocCompare(a, b, [], true) <= 0 }

  ghost predicate Transitive(numbers: iset<Value>) {
    forall a, b, c :: DocWithin(a, numbers) && DocWithin(b, numbers) && DocWithin(c, numbers) && Le(a, b) && Le(b, c) ==> Le(a, c)
  }

  function One(v: Value): Doc { [Field([], v)] }

  /** A larger long compares equal to the number, the number to a smaller long. */
  lemma BlurBreaks(a: Value, b: Value, c: Value, numbers: iset<Value>)
    requires a in numbers && b in numbers && c in numbers && Blurred(a, b, c)
    ensures !Transitive(numbers)
  {
    hide Scaled, Transitive;
    var (small, large) := if a.n < b.n then (a, b) else (b, a);
    OneCompare(large, c);
    OneCompare(c, small);
    OneCompare(large, small);
    assert Le(One(large), One(c)) && Le(One(c), One(small)) && !Le(One(large), One(small));
    NotTransitive(One(large), One(c), One(small), numbers);
  }

  lemma NotTransitive(a: Doc, b: Doc, c: Doc, numbers: iset<Value>)
    requires DocWithin(a, numbers) && DocWithin(b, numbers) && DocWithin(c, numbers)
    requires Le(a, b) && Le(b, c) && !Le(a, c)
    ensures !Transitive(numbers)
  {
    hide Le, DocWithin;
  }

  lemma OneCompare(a: Value, b: Value)
    requires IsNumber(a) && IsNumber(b)
    ensures DocCompare(One(a), One(b), [], true) == NumberCompare(a, b)
  {
    hide Scaled, NumberCompare, DocCompare;
    NextField(One(a), One(b), [], true);
    assert One(a)[1..] == [] && One(b)[1..] == [];
    BothAtEnd([], true);
  }

  lemma NextField(l: Doc, r: Doc, desc: seq<bool>, names: bool)
    requires l != [] && r != []
    ensures DocCompare(l, r, desc, names) ==
      (if FieldCompare(l[0], r[0], names) != 0 then Flip(desc, FieldCompare(l[0], r[0], names))
       else DocCompare(l[1..], r[1..], Rest(desc), names))
  {
    hide FieldCompare;
  }

  lemma BothAtEnd(desc: seq<bool>, names: bool)
    ensures DocCompare([], [], desc, names) == 0
  {
  }

  /** Documents are ordered transitively exactly when no number they hold blurs the difference of two longs they hold. */
  lemma TransitiveIff(numbers: iset<Value>)
    ensures Transitive(numbers) <==> Sharp(numbers)
  {
    hide DocCompare, DocWithin, Blurred;
    if Sharp(numbers) {
      forall a, b, c | DocWithin(a, numbers) && DocWithin(b, numbers) && DocWithin(c, numbers) && Le(a, b) && Le(b, c)
        ensures Le(a, c)
      {
        DocChain(a, b, c, [], true, numbers);
      }
    } else {
      var a, b, c :| a in numbers && b in numbers && c in numbers && Blurred(a, b, c);
      BlurBreaks(a, b, c, numbers);
    }
  }

  /** Longs of magnitude up to 2 to the 53rd are never blurred. */
  lemma SmallLongsSharp(numbers: iset<Value>)
    requires forall v :: v in numbers && v.Long? ==> -TWO53 <= v.n <= TWO53
    ensures Sharp(numbers)
  {
    hide ToDouble, Scaled;
    forall a, b, c | a in numbers && b in numbers && c in numbers
      ensures !Blurred(a, b, c)
    {
      if a.Long? && b.Long? {
        ToDoubleExact(a.n);
        ToDoubleExact(b.n);
        if a.n <= b.n {
          LongsScaled(a.n, b.n);
        } else {
          LongsScaled(b.n, a.n);
        }
      }
    }
  }

  /** The bound cannot be raised: 2 to the 53rd and its successor become the same double. */
  lemma LargeLongsBlur()
    ensures Blurred(Long(TWO53), Long(TWO53 + 1), Double(0x4340_0000_0000_0000))
  {
    hide Pow2;
    ToDoubleExact(TWO53);
    RoundsDown();
    OneMore(1074);
  }

  lemma RoundsDown()
    ensures ToDouble(TWO53 + 1) == TWO53
  {
    var m: nat := (TWO53 + 1) / 2;
    assert Ulp(m) == 1;
    assert Ulp(TWO53 + 1) == 2;
  }

  lemma OneMore(n: nat)
    ensures Pow2(n + 1) == 2 * Pow2(n)
  {
  }

  // ---------------------------------------------------------------- a scope is hardly looked at

  lemma {:induction false} FirstString(s: seq<byte>, t: seq<byte>)
    requires 0 !in s
    ensures CStr(s + [0] + t) == s && AfterNul(s + [0] + t) == t
  {
    var x := s + [0] + t;
    if s == [] {
      assert x[1..] == t;
    } else {
      assert x[1..] == s[1..] + [0] + t;
      FirstString(s[1..], t);
    }
  }

  /** The scopes of code are compared with strcmp from their length bytes on. */
  lemma ScopesIff(s: seq<byte>, t: seq<byte>, d: Doc, e: Doc)
    requires 0 !in s && 0 !in t
    ensures ValueCompare(CodeWScope(s, d), CodeWScope(t, e)) == 0 <==> s == t && CStr(EncodeDoc(d)) == CStr(EncodeDoc(e))
  {
    hide EncodeDoc, Lexi, CStr, AfterNul;
    FirstString(s, EncodeDoc(d));
    FirstString(t, EncodeDoc(e));
    LexiChain(s, t, t);
    LexiChain(CStr(EncodeDoc(d)), CStr(EncodeDoc(e)), []);
  }

  /** No length that a scope can have is without a zero byte, so nothing of a scope but its length is ever looked at, and
      that only up to its first zero byte. */
  lemma ScopesByLength(s: seq<byte>, t: seq<byte>, d: Doc, e: Doc)
    requires 0 !in s && 0 !in t && |EncodeDoc(d)| <= LIMIT && |EncodeDoc(e)| <= LIMIT
    ensures ValueCompare(CodeWScope(s, d), CodeWScope(t, e)) == 0
      <==> s == t && CStr(LE32(|EncodeDoc(d)|)) == CStr(LE32(|EncodeDoc(e)|))
  {
    hide EncodeDoc, ValueCompare, CStr, LE32;
    ScopesIff(s, t, d, e);
    LengthString(d);
    LengthString(e);
  }

  lemma LengthString(d: Doc)
    requires |EncodeDoc(d)| <= LIMIT
    ensures CStr(EncodeDoc(d)) == CStr(LE32(|EncodeDoc(d)|))
  {
    hide EncodeFields, LE32, CStr;
    var n := |EncodeDoc(d)|;
    LengthNul(n);
    assert EncodeDoc(d) == LE32(n) + (EncodeFields(d) + [0]);
    FrontString(LE32(n), EncodeFields(d) + [0]);
  }

  lemma LengthNul(n: nat)
    requires n <= LIMIT
    ensures 0 in LE32(n)
  {
    var b := LE32(n);
    if n < 0x100_0000 {
      assert b[3] == 0;
    } else {
      assert b[2] == 0;
    }
  }

  lemma {:induction false} FrontString(a: seq<byte>, b: seq<byte>)
    requires 0 in a
    ensures CStr(a + b) == CStr(a)
  {
    assert (a + b)[0] == a[0] && (a + b)[1..] == a[1..] + b;
    if a[0] != 0 {
      assert 0 in a[1..];
      FrontString(a[1..], b);
    }
  }

  /** So scopes of one length compare equal, and so do those of 256 and of 512 bytes. */
  lemma ScopesAlike(s: seq<byte>, d: Doc, e: Doc)
    requires 0 !in s && |EncodeDoc(d)| <= LIMIT
    requires |EncodeDoc(d)| == |EncodeDoc(e)| || (|EncodeDoc(d)| == 0x100 && |EncodeDoc(e)| == 0x200)
    ensures ValueCompare(CodeWScope(s, d), CodeWScope(s, e)) == 0
  {
    hide EncodeDoc, ValueCompare;
    ScopesByLength(s, s, d, e);
    assert LE32(0x100) == [0, 1, 0, 0] && LE32(0x200) == [0, 2, 0, 0];
  }
}
