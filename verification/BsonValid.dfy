/** BSONObj::valid(): the bounded, checking iteration. */
module BsonValid {
  import opened Bytes
  import opened Document
  import opened BsonFormat
  import opened BsonWalk
  import opened BsonRoundTrip

  /** The distance to the next zero byte among the first `n`, or -1. Behind the memory there is none. */
  function StrNLen(b: seq<byte>, at: nat, n: int): (k: int)
    requires at <= |b|
    ensures -1 <= k && at + k < |b| && (0 <= k ==> k < n)
  {
    match StrLen(b, at)
    case None => -1
    case Some(k) => if k < n then k else -1
  }

  /** BSONElement::size( maxLen ) for the value of type `code` at `at`, with `remain` bytes to the end of the object. None
      where it asserts. */
  function BoundedSize(b: seq<byte>, code: byte, at: nat, remain: int): Option<int>
    requires at <= |b|
  {
    if code == 11 then
      var len1 := StrNLen(b, at, remain);
      var len2 := StrNLen(b, at + len1 + 1, remain - len1 - 1);
      Some(len1 + 1 + (len2 + 1))
    else if 2 <= code <= 5 || 12 <= code <= 15 then
      if remain <= 3 || |b| < at + 4 then None else Some(S32(b, at) + ExtraSize(code))
    else PayloadSize(b, code, at)
  }

  /** BSONElement::validate(): whether it returns. */
  predicate ElementOk(b: seq<byte>, code: byte, at: nat)
    requires at <= |b|
  {
    if code == 2 || 12 <= code <= 14 then SizedOk(b, at)
    else if code == 15 then ScopedOk(b, at)
    else true
  }

  predicate SizedOk(b: seq<byte>, at: nat)
    requires at <= |b|
  {
    at + 4 <= |b| && 0 < U32(b, at) < LIMIT && at + 4 + U32(b, at) <= |b| && b[at + 4 + U32(b, at) - 1] == 0
  }

  predicate ScopedOk(b: seq<byte>, at: nat)
    requires at <= |b|
  {
    at + 8 <= |b| && 8 <= S32(b, at) &&
    var total, size := S32(b, at), S32(b, at + 4);
    && size + 4 + 4 <= total
    && 0 < size && size - 1 == StrNLen(b, at + 8, size)
    && size + 4 + 4 + 4 <= total
    && at + 8 + size + 4 <= |b|
    && total == 4 + 4 + size + S32(b, at + 8 + size)
  }

  /** valid() on the object at `at`. A BSONObj is only constructed with a size in range. */
  predicate ObjValid(b: seq<byte>, at: nat)
    decreases |b| - at, 1
  {
    at + 4 <= |b| && 0 < S32(b, at) <= LIMIT && ValidFrom(b, at + 4, at + S32(b, at) - 1)
  }

  /** The loop of valid(): an end marker is accepted at the very end and nowhere else. */
  predicate ValidFrom(b: seq<byte>, pos: nat, theend: int)
    decreases |b| - pos, 0
  {
    if theend < pos || |b| <= pos then false
    else if b[pos] == 0 then pos == theend
    else
      var len := StrNLen(b, pos + 1, theend - pos);
      len != -1 &&
      var at := pos + 1 + len + 1;
      var n := BoundedSize(b, b[pos], at, theend + 1 - at);
      && n.Some? && pos < at + n.value
      && ElementOk(b, b[pos], at) && ObjectsOk(b, b[pos], at)
      && ValidFrom(b, at + n.value, theend)
  }

  /** The recursion into embedded objects and the scopes of code. */
  predicate ObjectsOk(b: seq<byte>, code: byte, at: nat)
    requires at <= |b| && ElementOk(b, code, at)
    decreases |b| - at, 2
  {
    if code == 3 || code == 4 then ObjValid(b, at)
    else if code == 15 then ObjValid(b, at + 8 + S32(b, at + 4))
    else true
  }

  // ---------------------------------------------------------------- built documents are valid

  /** Code with scope is checked as a C string, though it is written with its length. */
  ghost predicate CodesClean(v: Value) {
    match v
    case Object(d) => DocCodesClean(d)
    case Array(d) => DocCodesClean(d)
    case CodeWScope(s, d) => NoNul(s) && DocCodesClean(d)
    case _ => true
  }

  ghost predicate DocCodesClean(d: Doc) {
    forall i :: 0 <= i < |d| ==> CodesClean(d[i].value)
  }

  /** The bounded size of what was written is the size that was written. */
  lemma BoundedSizeRead(b: seq<byte>, at: nat, v: Value, theend: int)
    requires HoldsValue(b, at, v) && at + |Payload(v)| <= theend
    ensures at + |Payload(v)| <= |b|
    ensures BoundedSize(b, TypeCode(v), at, theend + 1 - at) == Some(|Payload(v)|)
  {
    hide HoldsValue, Payload, PayloadSize, BoundedSize, TypeCode;
    PayloadSizeRead(b, at, v);
    if v.RegEx? {
      BoundedRegEx(b, at, v, theend);
    } else {
      BoundedOther(b, at, v, theend);
    }
  }

  lemma BoundedRegEx(b: seq<byte>, at: nat, v: Value, theend: int)
    requires HoldsValue(b, at, v) && v.RegEx? && at + |Payload(v)| <= theend && at + |Payload(v)| <= |b|
    ensures BoundedSize(b, TypeCode(v), at, theend + 1 - at) == Some(|Payload(v)|)
  {
    hide StrLen, PayloadSize;
    HoldsParts(b, at, v.pattern + [0], v.flags + [0]);
    StrLenRead(b, at, v.pattern);
    StrLenRead(b, at + |v.pattern| + 1, v.flags);
  }

  lemma BoundedOther(b: seq<byte>, at: nat, v: Value, theend: int)
    requires !v.RegEx? && at + |Payload(v)| <= theend && at + |Payload(v)| <= |b|
    requires PayloadSize(b, TypeCode(v), at) == Some(|Payload(v)|)
    ensures BoundedSize(b, TypeCode(v), at, theend + 1 - at) == Some(|Payload(v)|)
  {
    hide Payload, StrLen, S32, StrNLen;
    if 2 <= TypeCode(v) <= 5 || 12 <= TypeCode(v) <= 15 {
      SizedPayload(v);
    }
  }

  lemma SizedPayload(v: Value)
    requires 2 <= TypeCode(v) <= 5 || 12 <= TypeCode(v) <= 15
    ensures 5 <= |Payload(v)|
  {
    hide I32, I64, Sized, EncodeDoc;
    match v {
      case Str(s) => assert |Sized(s)| == |s| + 5;
      case Symbol(s) => assert |Sized(s)| == |s| + 5;
      case Code(s) => assert |Sized(s)| == |s| + 5;
      case DBRef(s, _) => assert |Sized(s)| == |s| + 5;
      case _ =>
    }
  }

  lemma SizedValid(b: seq<byte>, at: nat, s: seq<byte>)
    requires Holds(b, at, Sized(s)) && |s| + 1 < LIMIT
    ensures at <= |b| && SizedOk(b, at)
  {
    hide I32, Sized, U32;
    SizedRead(b, at, s);
    HoldsParts(b, at + 4, s, [0]);
    assert b[at + 4 + |s|..at + 4 + |s| + 1][0] == 0;
  }

  lemma ScopedValid(b: seq<byte>, at: nat, v: Value)
    requires HoldsValue(b, at, v) && v.CodeWScope?
    ensures at <= |b| && (ScopedOk(b, at) <==> NoNul(v.s))
    ensures ScopedOk(b, at) ==> at + 8 <= |b| && S32(b, at + 4) == |v.s| + 1
    ensures Holds(b, at + 8 + |v.s| + 1, EncodeDoc(v.scope))
  {
    hide I32, Sized, EncodeDoc, S32, StrNLen, NoNul;
    var n := 4 + 4 + |v.s| + 1 + |EncodeDoc(v.scope)|;
    HoldsParts(b, at, I32(n), Sized(v.s) + EncodeDoc(v.scope));
    IntRead(b, at, n);
    HoldsParts(b, at + 4, Sized(v.s), EncodeDoc(v.scope));
    SizedRead(b, at + 4, v.s);
    DocSize(b, at + 8 + |v.s| + 1, v.scope);
    StrNLenRead(b, at + 8, v.s);
  }

  lemma StrNLenRead(b: seq<byte>, at: nat, s: seq<byte>)
    requires Holds(b, at, s + [0])
    ensures at <= |b| && (StrNLen(b, at, |s| + 1) == |s| <==> NoNul(s))
  {
    HoldsParts(b, at, s, [0]);
    if NoNul(s) {
      StrLenRead(b, at, s);
    } else {
      var i :| 0 <= i < |s| && s[i] == 0;
      assert b[at..at + |s|][i] == 0;
    }
  }

  /** A value that was written passes the checks, unless its code holds a zero byte. */
  lemma {:induction false} ValueValid(b: seq<byte>, at: nat, v: Value)
    requires HoldsValue(b, at, v) && |Payload(v)| <= LIMIT
    ensures at <= |b| && (ElementOk(b, TypeCode(v), at) && ObjectsOk(b, TypeCode(v), at) <==> CodesClean(v))
    decreases v
  {
    hide I32, Sized, EncodeDoc, S32, SizedOk, ScopedOk, ObjValid, NoNul, DocClean, DocInRange, DocCodesClean;
    match v {
      case Str(s) => SizedValid(b, at, s);
      case Symbol(s) => SizedValid(b, at, s);
      case Code(s) => SizedValid(b, at, s);
      case DBRef(ns, oid) =>
        HoldsParts(b, at, Sized(ns), oid);
        SizedValid(b, at, ns);
      case Object(d) => ObjValidRead(b, at, d);
      case Array(d) => ObjValidRead(b, at, d);
      case CodeWScope(s, d) =>
        ScopedValid(b, at, v);
        ObjValidRead(b, at + 8 + |s| + 1, d);
      case _ =>
    }
  }

  lemma {:induction false} ObjValidRead(b: seq<byte>, at: nat, d: Doc)
    requires Holds(b, at, EncodeDoc(d)) && Readable(d)
    ensures ObjValid(b, at) <==> DocCodesClean(d)
    decreases d, 2
  {
    hide I32, S32, EncodeFields, ValidFrom, DocInRange, DocClean, DocCodesClean;
    DocSize(b, at, d);
    HoldsParts(b, at, I32(4 + |EncodeFields(d)| + 1), EncodeFields(d) + [0]);
    ValidFromRead(b, at + 4, d);
  }

  lemma {:induction false} ValidFromRead(b: seq<byte>, pos: nat, d: Doc)
    requires Holds(b, pos, EncodeFields(d) + [0]) && Readable(d)
    ensures ValidFrom(b, pos, pos + |EncodeFields(d)|) <==> DocCodesClean(d)
    decreases d, 1
  {
    hide EncodeField, EncodeFields, FieldAt, ValidFrom, Readable, CodesClean;
    if d == [] {
      NoFields(d);
      EndValid(b, pos);
    } else {
      var f, rest := d[0], d[1..];
      EncodeFront(d);
      assert EncodeFields(d) + [0] == EncodeField(f) + (EncodeFields(rest) + [0]);
      HoldsParts(b, pos, EncodeField(f), EncodeFields(rest) + [0]);
      TailReadable(d);
      ValidFromRead(b, pos + |EncodeField(f)|, rest);
      StepValid(b, pos, pos + |EncodeFields(d)|, f);
      assert DocCodesClean(d) <==> CodesClean(f.value) && DocCodesClean(rest);
    }
  }

  lemma EndValid(b: seq<byte>, pos: nat)
    requires Holds(b, pos, [0])
    ensures ValidFrom(b, pos, pos)
  {
    assert b[pos..pos + 1][0] == b[pos];
  }

  lemma {:induction false} StepValid(b: seq<byte>, pos: nat, theend: int, f: Field)
    requires InRange(f.value) && Clean(f.value) && NoNul(f.name) && |EncodeField(f)| <= LIMIT
    requires Holds(b, pos, EncodeField(f)) && pos + |EncodeField(f)| <= theend
    ensures ValidFrom(b, pos, theend) <==> CodesClean(f.value) && ValidFrom(b, pos + |EncodeField(f)|, theend)
    decreases f, 0
  {
    hide Payload, BoundedSize, StrLen, ElementOk, ObjectsOk, CodesClean, Clean, InRange, TypeCode, ValidFrom;
    FieldRead(b, pos, f);
    HoldsParts(b, pos, Header(TypeCode(f.value), f.name), Payload(f.value));
    var at := pos + 1 + |f.name| + 1;
    BoundedSizeRead(b, at, f.value, theend);
    ValueValid(b, at, f.value);
    ValidStep(b, pos, theend, |f.name|, |Payload(f.value)|);
  }

  /** One round of the loop of valid(). */
  lemma ValidStep(b: seq<byte>, pos: nat, theend: int, len: nat, n: nat)
    requires pos + 1 + len + 1 + n <= theend && pos < |b| && b[pos] != 0
    requires StrLen(b, pos + 1) == Some(len)
    requires BoundedSize(b, b[pos], pos + 1 + len + 1, theend + 1 - (pos + 1 + len + 1)) == Some(n)
    ensures var at := pos + 1 + len + 1; ValidFrom(b, pos, theend) <==>
        ElementOk(b, b[pos], at) && ObjectsOk(b, b[pos], at) && ValidFrom(b, at + n, theend)
  {
    hide BoundedSize, StrLen, ElementOk, ObjectsOk;
  }

  /** What the builders produce is accepted, at every level, exactly when it is within the size limit and no code with
      scope holds a zero byte. */
  lemma ValidIff(d: Doc)
    requires DocInRange(d) && DocClean(d) && |EncodeDoc(d)| < TWO31
    ensures ObjValid(EncodeDoc(d), 0) <==> |EncodeDoc(d)| <= LIMIT && DocCodesClean(d)
  {
    hide ValidFrom, EncodeDoc, DocClean, DocInRange, DocCodesClean;
    assert EncodeDoc(d)[0..|EncodeDoc(d)|] == EncodeDoc(d);
    DocSize(EncodeDoc(d), 0, d);
    if |EncodeDoc(d)| <= LIMIT {
      ObjValidRead(EncodeDoc(d), 0, d);
    }
  }

  /** Code that is a zero byte, with an empty scope. */
  lemma ZeroCodeRefused()
    ensures var d := [Field([97], CodeWScope([0], []))]; |EncodeDoc(d)| <= LIMIT && !ObjValid(EncodeDoc(d), 0)
  {
    hide ObjValid, I32;
    var f := Field([97], CodeWScope([0], []));
    assert [f][..0] == [];
    NoFields([]);
    assert |EncodeField(f)| == 18;
    assert |EncodeFields([f])| == 18;
    assert !CodesClean([f][0].value);
    ValidIff([f]);
  }

  // ---------------------------------------------------------------- the loop

  method CheckObj(b: seq<byte>, at: nat) returns (ok: bool)
    ensures ok == ObjValid(b, at)
    decreases |b| - at, 1
  {
    hide BoundedSize, StrNLen, S32, ElementOk, ObjectsOk, ValidFrom;
    if |b| < at + 4 || !(0 < S32(b, at) <= LIMIT) {
      return false;
    }
    var pos, theend := at + 4, at + S32(b, at) - 1;
    while pos <= theend
      invariant at + 4 <= pos
      invariant ObjValid(b, at) == ValidFrom(b, pos, theend)
      decreases |b| - pos
    {
      Unfold(b, pos, theend);
      if |b| <= pos {
        return false;
      }
      if b[pos] == 0 {
        return pos + 1 > theend;
      }
      var len := StrNLen(b, pos + 1, theend - pos);
      if len == -1 {
        return false;
      }
      var value := pos + 1 + len + 1;
      var n := BoundedSize(b, b[pos], value, theend + 1 - value);
      if n.None? || value + n.value <= pos || !ElementOk(b, b[pos], value) {
        return false;
      }
      var sub := CheckObjects(b, b[pos], value);
      if !sub {
        return false;
      }
      pos := value + n.value;
    }
    Unfold(b, pos, theend);
    return false;
  }

  lemma Unfold(b: seq<byte>, pos: nat, theend: int)
    ensures ValidFrom(b, pos, theend) ==> pos <= theend && pos < |b|
    ensures pos <= theend && pos < |b| && b[pos] == 0 ==> ValidFrom(b, pos, theend) == (pos == theend)
    ensures pos <= theend && pos < |b| && b[pos] != 0 ==>
      var len := StrNLen(b, pos + 1, theend - pos);
      var at := pos + 1 + len + 1;
      ValidFrom(b, pos, theend) == (len != -1 &&
        var n := BoundedSize(b, b[pos], at, theend + 1 - at);
        && n.Some? && pos < at + n.value
        && ElementOk(b, b[pos], at) && ObjectsOk(b, b[pos], at)
        && ValidFrom(b, at + n.value, theend))
  {
    hide BoundedSize, StrNLen, ElementOk, ObjectsOk;
  }

  method CheckObjects(b: seq<byte>, code: byte, at: nat) returns (ok: bool)
    requires at <= |b| && ElementOk(b, code, at)
    ensures ok == ObjectsOk(b, code, at)
    decreases |b| - at, 2
  {
    hide ObjValid, S32, StrNLen;
    if code == 3 || code == 4 {
      ok := CheckObj(b, at);
    } else if code == 15 {
      ok := CheckObj(b, at + 8 + S32(b, at + 4));
    } else {
      ok := true;
    }
  }
}
