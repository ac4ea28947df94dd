/** The grammar of the BSON specification 1.1, read as what bytes a document may be: byte by byte, and without the
    functions that write or read them. */
module BsonGrammar {
  import opened Bytes
  import opened Document
  import opened BsonFormat
  import opened BsonWalk
  import opened BsonRoundTrip
  import opened BsonBuilder

  /** A number in two's complement, the least significant byte first. */
  ghost predicate Little(b: seq<byte>, n: int) {
    b == [] || (b[0] as int == n % 256 && Little(b[1..], n / 256))
  }

  ghost predicate IsInt32(b: seq<byte>, n: int) { |b| == 4 && Little(b, n) }

  ghost predicate IsInt64(b: seq<byte>, n: int) { |b| == 8 && Little(b, n) }

  /** Bytes, and a zero byte. */
  ghost predicate IsCString(b: seq<byte>, s: seq<byte>) {
    |b| == |s| + 1 && b[..|s|] == s && b[|s|] == 0
  }

  /** The length of what follows, the bytes, and a zero byte. */
  ghost predicate IsString(b: seq<byte>, s: seq<byte>) {
    4 <= |b| && IsInt32(b[..4], |s| + 1) && IsCString(b[4..], s)
  }

  /** The total length, the elements, and a zero byte. */
  ghost predicate IsDocument(b: seq<byte>, d: Doc)
    decreases d, 3
  {
    5 <= |b| && IsInt32(b[..4], |b|) && IsList(b[4..|b| - 1], d) && b[|b| - 1] == 0
  }

  ghost predicate IsList(b: seq<byte>, d: Doc)
    decreases d, 2
  {
    if d == [] then b == []
    else exists k :: 0 <= k <= |b| && IsElement(b[..k], d[0]) && IsList(b[k..], d[1..])
  }

  /** The type byte, the name, and the value. */
  ghost predicate IsElement(b: seq<byte>, f: Field)
    decreases f, 1
  {
    |f.name| + 2 <= |b| && IsCString(b[1..|f.name| + 2], f.name) && IsTyped(b[0], b[|f.name| + 2..], f.value)
  }

  ghost predicate IsTyped(t: byte, b: seq<byte>, v: Value)
    decreases v, 4
  {
    match v
    case Double(bits) => t == 0x01 && IsInt64(b, bits)
    case Str(s) => t == 0x02 && IsString(b, s)
    case Object(d) => t == 0x03 && IsDocument(b, d)
    case Array(d) => t == 0x04 && IsDocument(b, d)
    case BinData(sub, data) => t == 0x05 && |b| == |data| + 5 && IsInt32(b[..4], |data|) && b[4] == sub && b[5..] == data
    case Undefined => t == 0x06 && b == []
    case Oid(oid) => t == 0x07 && b == oid
    case Bool(x) => t == 0x08 && |b| == 1 && b[0] == (if x then 0x01 else 0x00)
    case Date(millis) => t == 0x09 && IsInt64(b, millis)
    case Null => t == 0x0A && b == []
    case RegEx(p, f) => t == 0x0B && |p| < |b| && IsCString(b[..|p| + 1], p) && IsCString(b[|p| + 1..], f)
    case DBRef(ns, oid) => t == 0x0C && |ns| + 5 <= |b| && IsString(b[..|ns| + 5], ns) && b[|ns| + 5..] == oid
    case Code(s) => t == 0x0D && IsString(b, s)
    case Symbol(s) => t == 0x0E && IsString(b, s)
    case CodeWScope(s, d) => t == 0x0F && |s| + 9 <= |b|
      && IsInt32(b[..4], |b|) && IsString(b[4..|s| + 9], s) && IsDocument(b[|s| + 9..], d)
    case Int(n) => t == 0x10 && IsInt32(b, n)
    case Timestamp(n) => t == 0x11 && IsInt64(b, n)
    case Long(n) => t == 0x12 && IsInt64(b, n)
    case MinKey => t == 0xFF && b == []
    case MaxKey => t == 0x7F && b == []
  }

  // ---------------------------------------------------------------- numbers and strings

  function Pow256(k: nat): (p: nat)
    ensures 0 < p
  {
    if k == 0 then 1 else 256 * Pow256(k - 1)
  }

  /** That is, byte `k` is the number divided by the k-th power of 256, modulo 256. */
  lemma {:induction false} LittleAt(b: seq<byte>, n: int, k: nat)
    requires Little(b, n) && k < |b|
    ensures b[k] as int == n / Pow256(k) % 256
    decreases k
  {
    if k > 0 {
      LittleAt(b[1..], n / 256, k - 1);
      DivTwice(n, Pow256(k - 1));
    }
  }

  lemma DivTwice(n: int, p: nat)
    requires 0 < p
    ensures n / 256 / p == n / (256 * p)
  {
    var m := n / 256;
    var q, t := m / p, m % p;
    DivParts(m, p);
    Assoc3(p, q);
    Quotient(n, 256 * p, q, 256 * t + n % 256);
  }

  lemma Assoc3(p: int, q: int)
    ensures 256 * (q * p) == q * (256 * p)
  {
  }

  lemma DivParts(n: int, m: nat)
    requires 0 < m
    ensures n == n / m * m + n % m && 0 <= n % m < m
  {
  }

  lemma Quotient(n: int, m: nat, q: int, r: int)
    requires 0 <= r < m && n == q * m + r
    ensures n / m == q
  {
    DivParts(n, m);
    if n / m < q {
      Times(n / m + 1, q, m);
    } else if q < n / m {
      Times(q + 1, n / m, m);
    }
  }

  lemma Times(a: int, b: int, m: nat)
    requires a <= b
    ensures a * m <= b * m
  {
  }

  lemma WordLittle(n: nat)
    requires n < TWO32
    ensures Little(LE32(n), n)
  {
    var n1 := n / 0x100;
    var n2 := n1 / 0x100;
    var n3 := n2 / 0x100;
    assert Little([n3], n3);
    LittleMore(n2, [n3]);
    LittleMore(n1, [n2 % 0x100, n3]);
    LittleMore(n, [n1 % 0x100, n2 % 0x100, n3]);
  }

  lemma LittleMore(n: int, b: seq<byte>)
    requires Little(b, n / 256)
    ensures Little([n % 256] + b, n)
  {
    assert ([n % 256] + b)[1..] == b;
  }

  /** Multiples of what the bytes can hold make no difference. */
  lemma {:induction false} LittleWraps(b: seq<byte>, n: int, m: int, k: int)
    requires Little(b, n) && m == n + Pow256(|b|) * k
    ensures Little(b, m)
    decreases |b|
  {
    if b != [] {
      var p := Pow256(|b| - 1);
      Assoc3(p, k);
      assert m == n + 256 * (k * p);
      assert m / 256 == n / 256 + k * p;
      LittleWraps(b[1..], n / 256, m / 256, k);
    }
  }

  lemma Int32Little(n: int)
    ensures Little(I32(n), n)
  {
    hide LE32;
    WordLittle(n % TWO32);
    assert Pow256(2) == 0x1_0000 && Pow256(4) == 0x1_0000 * Pow256(2);
    LittleWraps(I32(n), n % TWO32, n, n / TWO32);
  }

  /** The number divided by the k-th power of 256, one byte at a time. */
  function Shifted(n: int, k: nat): int
    decreases k
  {
    if k == 0 then n else Shifted(n / 256, k - 1)
  }

  lemma {:induction false} LittleAppend(a: seq<byte>, b: seq<byte>, n: int)
    requires Little(a, n) && Little(b, Shifted(n, |a|))
    ensures Little(a + b, n)
    decreases |a|
  {
    if a == [] {
      assert a + b == b;
    } else {
      LittleAppend(a[1..], b, n / 256);
      assert (a + b)[1..] == a[1..] + b;
    }
  }

  lemma FourBytes(n: int)
    ensures Shifted(n, 4) == n / TWO32
  {
    assert Shifted(n, 2) == n / 256 / 256;
    assert Shifted(n, 4) == Shifted(n / 256 / 256, 2);
    assert n / 256 / 256 / 256 / 256 == n / TWO32;
  }

  lemma Int64Little(n: int)
    ensures Little(I64(n), n)
  {
    hide I32, Little;
    Int32Little(n);
    Int32Little(n / TWO32);
    FourBytes(n);
    LittleAppend(I32(n), I32(n / TWO32), n);
  }

  /** The bytes are determined by their number. */
  lemma {:induction false} LittleUnique(a: seq<byte>, b: seq<byte>, n: int)
    requires |a| == |b| && Little(a, n) && Little(b, n)
    ensures a == b
    decreases |a|
  {
    if a != [] {
      LittleUnique(a[1..], b[1..], n / 256);
      assert a == [a[0]] + a[1..] && b == [b[0]] + b[1..];
    }
  }

  lemma Int32Iff(b: seq<byte>, n: int)
    ensures IsInt32(b, n) <==> b == I32(n)
  {
    hide I32, Little;
    Int32Little(n);
    if IsInt32(b, n) {
      LittleUnique(b, I32(n), n);
    }
  }

  lemma Int64Iff(b: seq<byte>, n: int)
    ensures IsInt64(b, n) <==> b == I64(n)
  {
    hide I64, Little;
    Int64Little(n);
    if IsInt64(b, n) {
      LittleUnique(b, I64(n), n);
    }
  }

  lemma CStringIff(b: seq<byte>, s: seq<byte>)
    ensures IsCString(b, s) <==> b == s + [0]
  {
    if IsCString(b, s) {
      assert b == b[..|s|] + [b[|s|]];
    }
  }

  lemma StringIff(b: seq<byte>, s: seq<byte>)
    ensures IsString(b, s) <==> b == Sized(s)
  {
    hide I32, IsCString, IsInt32;
    if 4 <= |b| {
      Int32Iff(b[..4], |s| + 1);
      CStringIff(b[4..], s);
      Split(b, 4, I32(|s| + 1), s + [0]);
    }
  }

  lemma Split(b: seq<byte>, k: nat, x: seq<byte>, y: seq<byte>)
    requires k <= |b| && k == |x|
    ensures b[..k] == x && b[k..] == y <==> b == x + y
  {
    assert b == b[..k] + b[k..];
  }

  // ---------------------------------------------------------------- documents

  lemma FirstField(d: Doc)
    requires d != []
    ensures EncodeFields(d) == EncodeField(d[0]) + EncodeFields(d[1..])
  {
    hide EncodeField, EncodeFields;
    assert d == [d[0]] + d[1..];
    EncodeAppend([d[0]], d[1..]);
    OneField(d[0]);
  }

  /** The bytes of a document are the ones the grammar has for it. */
  lemma {:induction false} DocumentIff(b: seq<byte>, d: Doc)
    ensures IsDocument(b, d) <==> b == EncodeDoc(d)
    decreases d, 3
  {
    hide I32, IsInt32, IsList, EncodeFields;
    if 5 <= |b| {
      Int32Iff(b[..4], |b|);
      ListIff(b[4..|b| - 1], d);
      Framed(b, d);
    }
  }

  lemma Framed(b: seq<byte>, d: Doc)
    requires 5 <= |b|
    ensures b == EncodeDoc(d) <==> b[..4] == I32(|b|) && b[4..|b| - 1] == EncodeFields(d) && b[|b| - 1] == 0
  {
    hide I32, EncodeFields;
    assert b == b[..4] + (b[4..|b| - 1] + [b[|b| - 1]]);
    if b == EncodeDoc(d) {
      assert b[4..] == EncodeFields(d) + [0];
      assert b[4..|b| - 1] == b[4..][..|b| - 5];
    }
  }

  lemma {:induction false} ListIff(b: seq<byte>, d: Doc)
    ensures IsList(b, d) <==> b == EncodeFields(d)
    decreases d, 2
  {
    hide IsElement, EncodeField, EncodeFields;
    if d == [] {
      NoFields([]);
    } else {
      FirstField(d);
      forall k | 0 <= k <= |b|
        ensures IsElement(b[..k], d[0]) && IsList(b[k..], d[1..])
          <==> b[..k] == EncodeField(d[0]) && b[k..] == EncodeFields(d[1..])
      {
        ElementIff(b[..k], d[0]);
        ListIff(b[k..], d[1..]);
      }
      SplitThere(b, EncodeField(d[0]), EncodeFields(d[1..]));
    }
  }

  lemma SplitThere(b: seq<byte>, x: seq<byte>, y: seq<byte>)
    ensures (exists k :: 0 <= k <= |b| && b[..k] == x && b[k..] == y) <==> b == x + y
  {
    if b == x + y {
      assert b[..|x|] == x && b[|x|..] == y;
    }
    if k :| 0 <= k <= |b| && b[..k] == x && b[k..] == y {
      assert b == b[..k] + b[k..];
    }
  }

  lemma {:induction false} ElementIff(b: seq<byte>, f: Field)
    ensures IsElement(b, f) <==> b == EncodeField(f)
    decreases f, 1
  {
    hide IsTyped, IsCString, Payload, TypeCode;
    var n := |f.name| + 2;
    if n <= |b| {
      CStringIff(b[1..n], f.name);
      TypedIff(b[0], b[n..], f.value);
      var x := Header(TypeCode(f.value), f.name);
      Split(b, n, x, Payload(f.value));
      assert b[..n] == [b[0]] + b[1..n];
    }
  }

  lemma {:induction false} TypedIff(t: byte, b: seq<byte>, v: Value)
    ensures IsTyped(t, b, v) <==> t == TypeCode(v) && b == Payload(v)
    decreases v, 4
  {
    hide I32, I64, IsInt32, IsInt64, IsString, IsCString, IsDocument, Sized, EncodeDoc, Header;
    match v {
      case Double(n) => Int64Iff(b, n);
      case Date(n) => Int64Iff(b, n);
      case Timestamp(n) => Int64Iff(b, n);
      case Long(n) => Int64Iff(b, n);
      case Int(n) => Int32Iff(b, n);
      case Str(s) => StringIff(b, s);
      case Code(s) => StringIff(b, s);
      case Symbol(s) => StringIff(b, s);
      case Object(d) => DocumentIff(b, d);
      case Array(d) => DocumentIff(b, d);
      case BinData(sub, data) => BinDataIff(b, sub, data);
      case RegEx(p, f) => RegExIff(b, p, f);
      case DBRef(ns, oid) => DBRefIff(b, ns, oid);
      case CodeWScope(s, d) =>
        if |s| + 9 <= |b| {
          DocumentIff(b[|s| + 9..], d);
        }
        ScopedIff(b, s, d);
      case _ =>
    }
  }

  lemma BinDataIff(b: seq<byte>, sub: byte, data: seq<byte>)
    ensures |b| == |data| + 5 && IsInt32(b[..4], |data|) && b[4] == sub && b[5..] == data
      <==> b == I32(|data|) + ([sub] + data)
  {
    hide I32, IsInt32;
    if |b| == |data| + 5 {
      Int32Iff(b[..4], |data|);
      Split(b, 4, I32(|data|), [sub] + data);
      assert b[4..] == [b[4]] + b[5..];
    }
  }

  lemma RegExIff(b: seq<byte>, p: seq<byte>, f: seq<byte>)
    ensures |p| < |b| && IsCString(b[..|p| + 1], p) && IsCString(b[|p| + 1..], f) <==> b == (p + [0]) + (f + [0])
  {
    hide IsCString;
    if |p| < |b| {
      CStringIff(b[..|p| + 1], p);
      CStringIff(b[|p| + 1..], f);
      Split(b, |p| + 1, p + [0], f + [0]);
    }
  }

  lemma DBRefIff(b: seq<byte>, ns: seq<byte>, oid: seq<byte>)
    ensures |ns| + 5 <= |b| && IsString(b[..|ns| + 5], ns) && b[|ns| + 5..] == oid <==> b == Sized(ns) + oid
  {
    hide IsString, I32;
    if |ns| + 5 <= |b| {
      StringIff(b[..|ns| + 5], ns);
      Split(b, |ns| + 5, Sized(ns), oid);
    }
  }

  lemma ScopedIff(b: seq<byte>, s: seq<byte>, d: Doc)
    ensures |s| + 9 <= |b| && IsInt32(b[..4], |b|) && IsString(b[4..|s| + 9], s) && b[|s| + 9..] == EncodeDoc(d)
      <==> b == I32(4 + 4 + |s| + 1 + |EncodeDoc(d)|) + (Sized(s) + EncodeDoc(d))
  {
    hide IsString, IsInt32, I32, EncodeDoc;
    if |s| + 9 <= |b| {
      Int32Iff(b[..4], |b|);
      StringIff(b[4..|s| + 9], s);
      Split(b, 4, I32(|b|), Sized(s) + EncodeDoc(d));
      Split(b[4..], |s| + 5, Sized(s), EncodeDoc(d));
      assert b[4..][..|s| + 5] == b[4..|s| + 9] && b[4..][|s| + 5..] == b[|s| + 9..];
    }
  }

  // ---------------------------------------------------------------- reading

  /** A word is the number of its bytes. */
  lemma WordRead(b: seq<byte>, at: nat)
    requires at + 4 <= |b|
    ensures Little(b[at..at + 4], U32(b, at)) && Little(b[at..at + 4], S32(b, at))
  {
    hide LE32;
    var w, n := b[at..at + 4], U32(b, at);
    U32Slice(b, at, at + 4, 0);
    WordUnique(w);
    WordLittle(n);
    assert Pow256(2) == 0x1_0000 && Pow256(4) == 0x1_0000 * Pow256(2);
    LittleWraps(w, n, n - TWO32, -1);
  }

  lemma WordUnique(w: seq<byte>)
    requires |w| == 4
    ensures LE32(U32(w, 0)) == w
  {
    var n := U32(w, 0);
    var b0: int, b1: int, b2: int, b3: int := w[0], w[1], w[2], w[3];
    assert n == b0 + 0x100 * (b1 + 0x100 * (b2 + 0x100 * b3));
    assert n / 0x100 == b1 + 0x100 * (b2 + 0x100 * b3);
    assert n / 0x100 / 0x100 == b2 + 0x100 * b3;
  }

  lemma LongRead(b: seq<byte>, at: nat)
    requires at + 8 <= |b|
    ensures Little(b[at..at + 8], U64(b, at)) && Little(b[at..at + 8], S64(b, at))
  {
    hide U32, Little, S32;
    var n := U64(b, at);
    WordRead(b, at);
    WordRead(b, at + 4);
    var lo, hi := b[at..at + 4], b[at + 4..at + 8];
    HalvesLittle(lo, hi, U32(b, at), U32(b, at + 4));
    assert b[at..at + 8] == lo + hi;
    EightBytes();
    LittleWraps(lo + hi, n, n - TWO64, -1);
  }

  lemma EightBytes()
    ensures Pow256(8) == TWO64
  {
    assert Pow256(2) == 0x1_0000;
    assert Pow256(4) == 0x1_0000 * Pow256(2);
    assert Pow256(6) == 0x1_0000 * Pow256(4);
    assert Pow256(8) == 0x1_0000 * Pow256(6);
  }

  lemma HalvesLittle(lo: seq<byte>, hi: seq<byte>, m: nat, n: nat)
    requires |lo| == 4 && m < TWO32 && Little(lo, m) && Little(hi, n)
    ensures Little(lo + hi, m + TWO32 * n)
  {
    hide Little;
    var x := m + TWO32 * n;
    assert Pow256(2) == 0x1_0000 && Pow256(4) == 0x1_0000 * Pow256(2);
    LittleWraps(lo, m, x, n);
    FourBytes(x);
    LittleAppend(lo, hi, x);
  }

  /** Whatever wrote them: numbers are read by their bytes, a Bool is true unless its byte is zero, and a string is what its
      stored size says, less one. */
  lemma ScalarsRead(b: seq<byte>, at: nat, n: nat)
    requires at + n <= |b|
    ensures n == 8 ==> match (ScalarAt(b, 0x01, at, n), ScalarAt(b, 0x09, at, n), ScalarAt(b, 0x11, at, n), ScalarAt(b, 0x12, at, n))
      case (Some(Double(x)), Some(Date(y)), Some(Timestamp(z)), Some(Long(w))) =>
        x == y == z < TWO64 && Little(b[at..at + 8], x) && Little(b[at..at + 8], w) && -TWO63 <= w < TWO63
      case _ => false
    ensures n == 4 ==> match ScalarAt(b, 0x10, at, n)
      case Some(Int(x)) => Little(b[at..at + 4], x) && -TWO31 <= x < TWO31
      case _ => false
    ensures n == 1 ==> ScalarAt(b, 0x08, at, n) == Some(Bool(b[at] != 0))
  {
    hide U32, Little;
    if n == 8 {
      LongRead(b, at);
    }
    if n == 4 {
      WordRead(b, at);
    }
  }

  lemma StringRead(b: seq<byte>, at: nat, s: seq<byte>)
    requires at + 4 <= |b|
    ensures StringAt(b, at) == Some(s) <==> S32(b, at) == |s| + 1 && at + 4 + |s| + 1 <= |b| && b[at + 4..at + 4 + |s|] == s
  {
    hide S32;
  }
}
