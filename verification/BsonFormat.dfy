/** The BSON layout: what the builder writes for a document, and how an element is read back. */
module BsonFormat {
  import opened Bytes
  import opened Document

  /** BSONObjMaxInternalSize, 16 MB and 16 KB: no BSONObj can be constructed on a longer object. */
  const LIMIT: int := 0x100_4000

  /** BSONType */
  function TypeCode(v: Value): byte {
    match v
    case MinKey => 255
    case Double(_) => 1
    case Str(_) => 2
    case Object(_) => 3
    case Array(_) => 4
    case BinData(_, _) => 5
    case Undefined => 6
    case Oid(_) => 7
    case Bool(_) => 8
    case Date(_) => 9
    case Null => 10
    case RegEx(_, _) => 11
    case DBRef(_, _) => 12
    case Code(_) => 13
    case Symbol(_) => 14
    case CodeWScope(_, _) => 15
    case Int(_) => 16
    case Timestamp(_) => 17
    case Long(_) => 18
    case MaxKey => 127
  }

  // ---------------------------------------------------------------- writing

  /** An int, as its two's complement word. */
  function I32(n: int): (b: seq<byte>)
    ensures |b| == 4
  {
    LE32(n % TWO32)
  }

  function I64(n: int): (b: seq<byte>)
    ensures |b| == 8
  {
    I32(n) + I32(n / TWO32)
  }

  function Sized(s: seq<byte>): (b: seq<byte>)
    ensures |b| == |s| + 5
  {
    I32(|s| + 1) + (s + [0])
  }

  function Payload(v: Value): seq<byte> {
    match v
    case MinKey => []
    case MaxKey => []
    case Undefined => []
    case Null => []
    case Double(n) => I64(n)
    case Int(n) => I32(n)
    case Long(n) => I64(n)
    case Bool(b) => [if b then 1 else 0]
    case Date(n) => I64(n)
    case Timestamp(n) => I64(n)
    case Oid(oid) => oid
    case Str(s) => Sized(s)
    case Symbol(s) => Sized(s)
    case Code(s) => Sized(s)
    case Object(d) => EncodeDoc(d)
    case Array(d) => EncodeDoc(d)
    case BinData(sub, data) => I32(|data|) + ([sub] + data)
    case RegEx(p, f) => (p + [0]) + (f + [0])
    case DBRef(ns, oid) => Sized(ns) + oid
    case CodeWScope(s, d) => I32(4 + 4 + |s| + 1 + |EncodeDoc(d)|) + (Sized(s) + EncodeDoc(d))
  }

  function Header(code: byte, name: seq<byte>): (b: seq<byte>)
    ensures |b| == |name| + 2
  {
    [code] + (name + [0])
  }

  function EncodeField(f: Field): (b: seq<byte>)
    ensures |b| >= 2
    decreases f
  {
    Header(TypeCode(f.value), f.name) + Payload(f.value)
  }

  function EncodeFields(d: Doc): seq<byte>
    decreases d, 0
  {
    if d == [] then [] else EncodeFields(d[..|d| - 1]) + EncodeField(d[|d| - 1])
  }

  /** The total length, the fields, and the end marker. */
  function EncodeDoc(d: Doc): (b: seq<byte>)
    ensures |b| >= 5
    decreases d, 1
  {
    I32(4 + |EncodeFields(d)| + 1) + (EncodeFields(d) + [0])
  }

  /** What the value embeds is no longer than a BSONObj can be. */
  predicate ValueFits(v: Value) {
    match v
    case Object(d) => |EncodeDoc(d)| <= LIMIT
    case Array(d) => |EncodeDoc(d)| <= LIMIT
    case CodeWScope(_, d) => |EncodeDoc(d)| <= LIMIT
    case _ => true
  }

  predicate DocFits(d: Doc) {
    forall i :: 0 <= i < |d| ==> ValueFits(d[i].value)
  }

  // ---------------------------------------------------------------- reading

  /** The int stored at `at`. */
  function S32(b: seq<byte>, at: nat): int
    requires at + 4 <= |b|
  {
    var n := U32(b, at);
    if n < TWO31 then n else n - TWO32
  }

  function U64(b: seq<byte>, at: nat): nat
    requires at + 8 <= |b|
  {
    U32(b, at) + TWO32 * U32(b, at + 4)
  }

  function S64(b: seq<byte>, at: nat): int
    requires at + 8 <= |b|
  {
    var n := U64(b, at);
    if n < TWO63 then n else n - TWO64
  }

  /** strlen: the distance to the next zero byte, if the memory holds one. */
  function StrLen(b: seq<byte>, at: nat): (n: Option<nat>)
    requires at <= |b|
    ensures n.Some? ==> at + n.value < |b| && b[at + n.value] == 0 && 0 !in b[at..at + n.value]
    decreases |b| - at
  {
    if at == |b| then None
    else if b[at] == 0 then Some(0)
    else match StrLen(b, at + 1)
      case None => None
      case Some(n) =>
        assert b[at..at + 1 + n] == [b[at]] + b[at + 1..at + 1 + n];
        Some(n + 1)
  }

  /** BSONElement::size, without the type and name: the bytes of the value of type `code` at `at`. None where the type
      is unknown or the memory ends. */
  function PayloadSize(b: seq<byte>, code: byte, at: nat): Option<int>
    requires at <= |b|
  {
    if code == 0 || code == 255 || code == 127 || code == 6 || code == 10 then Some(0)
    else if code == 8 then Some(1)
    else if code == 16 then Some(4)
    else if code == 1 || code == 9 || code == 17 || code == 18 then Some(8)
    else if code == 7 then Some(12)
    else if code == 11 then
      match StrLen(b, at)
      case None => None
      case Some(n) => (match StrLen(b, at + n + 1) case None => None case Some(m) => Some(n + 1 + m + 1))
    else if 2 <= code <= 5 || 12 <= code <= 15 then
      if |b| < at + 4 then None else Some(S32(b, at) + ExtraSize(code))
    else None
  }

  /** What the size computation adds to the stored size. */
  function ExtraSize(code: byte): nat {
    if code == 3 || code == 4 || code == 15 then 0 else if code == 5 then 4 + 1 else if code == 12 then 4 + 12 else 4
  }

  /** A string value: its stored size counts the terminator. */
  function StringAt(b: seq<byte>, at: nat): Option<seq<byte>>
    requires at + 4 <= |b|
  {
    var n := S32(b, at);
    if 0 < n && at + 4 + n <= |b| then Some(b[at + 4..at + 4 + n - 1]) else None
  }

  /** A C string. */
  function CStringAt(b: seq<byte>, at: nat): Option<seq<byte>>
    requires at <= |b|
  {
    match StrLen(b, at)
    case None => None
    case Some(n) => Some(b[at..at + n])
  }
}
