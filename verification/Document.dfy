/** Documents: ordered fields with typed values, nested to any depth. */
module Document {
  import opened Bytes

  datatype Value =
    | MinKey | MaxKey | Undefined | Null
    | Double(bits: nat)                 // the 64 bits of an IEEE 754 double
    | Int(i: int) | Long(n: int)
    | Bool(b: bool)
    | Date(millis: nat) | Timestamp(ts: nat)
    | Oid(oid: seq<byte>)
    | Str(s: seq<byte>) | Symbol(s: seq<byte>) | Code(s: seq<byte>)
    | Object(doc: seq<Field>) | Array(doc: seq<Field>)
    | BinData(subtype: byte, data: seq<byte>)
    | RegEx(pattern: seq<byte>, flags: seq<byte>)
    | DBRef(ns: seq<byte>, oid: seq<byte>)
    | CodeWScope(s: seq<byte>, scope: seq<Field>)

  datatype Field = Field(name: seq<byte>, value: Value)

  type Doc = seq<Field>

  const TWO31: int := 0x8000_0000
  const TWO63: int := 0x8000_0000_0000_0000

  /** The value fits its C++ type. */
  ghost predicate InRange(v: Value) {
    match v
    case Double(bits) => bits < TWO64
    case Int(i) => -TWO31 <= i < TWO31
    case Long(n) => -TWO63 <= n < TWO63
    case Date(n) => n < TWO64
    case Timestamp(n) => n < TWO64
    case Oid(oid) => |oid| == 12
    case DBRef(_, oid) => |oid| == 12
    case Object(d) => DocInRange(d)
    case Array(d) => DocInRange(d)
    case CodeWScope(_, d) => DocInRange(d)
    case _ => true
  }

  ghost predicate DocInRange(d: Doc) {
    forall i :: 0 <= i < |d| ==> InRange(d[i].value)
  }
}
