/** The iterator's walk over encoded bytes, recursively through embedded objects. */
module BsonWalk {
  import opened Bytes
  import opened Document
  import opened BsonFormat

  function Then<T, U>(o: Option<T>, f: T -> U): Option<U> {
    match o case None => None case Some(x) => Some(f(x))
  }

  /** A value that is not an object, by the accessor for its type. */
  function ScalarAt(b: seq<byte>, code: byte, at: nat, n: nat): Option<Value>
    requires at + n <= |b| && PayloadSize(b, code, at) == Some(n)
  {
    if code == 255 then Some(MinKey)
    else if code == 127 then Some(MaxKey)
    else if code == 6 then Some(Undefined)
    else if code == 10 then Some(Null)
    else if code == 1 then Some(Double(U64(b, at)))
    else if code == 16 then Some(Int(S32(b, at)))
    else if code == 18 then Some(Long(S64(b, at)))
    else if code == 8 then Some(Bool(b[at] != 0))
    else if code == 9 then Some(Date(U64(b, at)))
    else if code == 17 then Some(Timestamp(U64(b, at)))
    else if code == 7 then Some(Oid(b[at..at + 12]))
    else if code == 2 then Then(StringAt(b, at), s => Str(s))
    else if code == 14 then Then(StringAt(b, at), s => Symbol(s))
    else if code == 13 then Then(StringAt(b, at), s => Code(s))
    else if code == 5 && 5 <= n then Some(BinData(b[at + 4], b[at + 5..at + n]))
    else if code == 11 then
      match CStringAt(b, at)
      case None => None
      case Some(p) => Then(CStringAt(b, at + |p| + 1), f => RegEx(p, f))
    else if code == 12 && 16 <= n then Then(StringAt(b, at), s => DBRef(s, b[at + n - 12..at + n]))
    else None
  }

  /** The object at `at`, on which a BSONObj can only be constructed if its stored length is within the limit. The length
      delimits the iteration. */
  function WalkDoc(b: seq<byte>, at: nat): Option<Doc>
    decreases |b| - at, 1
  {
    if |b| < at + 4 then None
    else
      var size := S32(b, at);
      if size < 5 || LIMIT < size then None else WalkFrom(b, at + 4, at + size - 1)
  }

  /** Iteration from `pos`: next() reads an element and hops by its computed size, until the end marker. */
  function WalkFrom(b: seq<byte>, pos: nat, theend: int): Option<Doc>
    decreases |b| - pos, 0
  {
    if theend < pos || |b| <= pos then None
    else if b[pos] == 0 then Some([])
    else match StrLen(b, pos + 1)
      case None => None
      case Some(len) =>
        var at := pos + 1 + len + 1;
        match PayloadSize(b, b[pos], at)
        case None => None
        case Some(n) =>
          if n < 0 || |b| < at + n then None
          else
            var value := ValueAt(b, b[pos], at, n);
            var rest := WalkFrom(b, at + n, theend);
            if value.Some? && rest.Some? then Some([Field(b[pos + 1..pos + 1 + len], value.value)] + rest.value) else None
  }

  function ValueAt(b: seq<byte>, code: byte, at: nat, n: nat): Option<Value>
    requires at + n <= |b| && PayloadSize(b, code, at) == Some(n)
    decreases |b| - at, 2
  {
    if code == 3 then Then(WalkDoc(b, at), d => Object(d))
    else if code == 4 then Then(WalkDoc(b, at), d => Array(d))
    else if code == 15 then
      // _asCode() reads the sized string behind the total; codeWScopeObject() lies behind that string
      if n < 8 then None
      else match StringAt(b, at + 4)
        case None => None
        case Some(s) => Then(WalkDoc(b, at + 8 + S32(b, at + 4)), d => CodeWScope(s, d))
    else ScalarAt(b, code, at, n)
  }

  // ---------------------------------------------------------------- what can be written so that it reads back

  /** Names and regular expressions are stored as C strings. */
  ghost predicate Clean(v: Value) {
    match v
    case RegEx(p, f) => NoNul(p) && NoNul(f)
    case Object(d) => DocClean(d)
    case Array(d) => DocClean(d)
    case CodeWScope(_, d) => DocClean(d)
    case _ => true
  }

  ghost predicate DocClean(d: Doc) {
    forall i :: 0 <= i < |d| ==> NoNul(d[i].name) && Clean(d[i].value)
  }
}
