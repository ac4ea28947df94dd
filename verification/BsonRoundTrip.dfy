/** Writing a document and walking the bytes gives the document back. */
module BsonRoundTrip {
  import opened Bytes
  import opened Document
  import opened BsonFormat
  import opened BsonWalk

  // ---------------------------------------------------------------- words

  lemma WordRead(b: seq<byte>, at: nat, n: nat)
    requires n < TWO32 && Holds(b, at, LE32(n))
    ensures at + 4 <= |b| && U32(b, at) == n
  {
    hide LE32, U32;
    U32Frame(b, at, LE32(n), 0);
    assert LE32(n)[0..4] == LE32(n);
  }

  lemma IntRead(b: seq<byte>, at: nat, n: int)
    requires Holds(b, at, I32(n)) && -TWO31 <= n < TWO31
    ensures at + 4 <= |b| && S32(b, at) == n
  {
    hide LE32, U32;
    WordRead(b, at, n % TWO32);
  }

  /** The two words of a 64-bit quantity. */
  lemma LongRead(b: seq<byte>, at: nat, n: int)
    requires Holds(b, at, I64(n)) && -TWO63 <= n < TWO64
    ensures at + 8 <= |b|
    ensures 0 <= n ==> U64(b, at) == n
    ensures n < TWO63 ==> S64(b, at) == n
  {
    hide LE32, U32;
    HoldsParts(b, at, I32(n), I32(n / TWO32));
    WordRead(b, at, n % TWO32);
    WordRead(b, at + 4, n / TWO32 % TWO32);
    SplitLong(n);
  }

  lemma SplitLong(n: int)
    requires -TWO63 <= n < TWO64
    ensures n % TWO32 + TWO32 * (n / TWO32 % TWO32) == if n < 0 then n + TWO64 else n
  {
    var q := n / TWO32;
    assert n == TWO32 * q + n % TWO32;
    if n < 0 {
      assert q % TWO32 == q + TWO32;
    } else {
      assert q % TWO32 == q;
    }
  }

  // ---------------------------------------------------------------- strings

  lemma {:induction false} StrLenRead(b: seq<byte>, at: nat, s: seq<byte>)
    requires NoNul(s) && Holds(b, at, s + [0])
    ensures at <= |b| && StrLen(b, at) == Some(|s|)
    decreases s
  {
    assert b[at..at + |s| + 1][|s|] == 0;
    if s != [] {
      assert b[at] == s[0];
      assert s + [0] == [s[0]] + (s[1..] + [0]);
      HoldsParts(b, at, [s[0]], s[1..] + [0]);
      StrLenRead(b, at + 1, s[1..]);
    }
  }

  lemma CStringRead(b: seq<byte>, at: nat, s: seq<byte>)
    requires NoNul(s) && Holds(b, at, s + [0])
    ensures at <= |b| && CStringAt(b, at) == Some(s)
  {
    StrLenRead(b, at, s);
    HoldsParts(b, at, s, [0]);
  }

  lemma SizedRead(b: seq<byte>, at: nat, s: seq<byte>)
    requires Holds(b, at, Sized(s)) && |s| + 1 < TWO31
    ensures at + 4 <= |b| && S32(b, at) == |s| + 1 && StringAt(b, at) == Some(s)
    ensures Holds(b, at + 4, s + [0])
  {
    hide I32, S32;
    HoldsParts(b, at, I32(|s| + 1), s + [0]);
    IntRead(b, at, |s| + 1);
    HoldsParts(b, at + 4, s, [0]);
  }

  // ---------------------------------------------------------------- values

  ghost predicate HoldsValue(b: seq<byte>, at: nat, v: Value) {
    Holds(b, at, Payload(v)) && InRange(v) && Clean(v) && |Payload(v)| < TWO31
  }

  /** The size the iterator computes is the size that was written. */
  lemma PayloadSizeRead(b: seq<byte>, at: nat, v: Value)
    requires HoldsValue(b, at, v)
    ensures at + |Payload(v)| <= |b| && PayloadSize(b, TypeCode(v), at) == Some(|Payload(v)|)
  {
    hide HoldsValue, Payload, PayloadSize, TypeCode;
    match v {
      case Str(s) => StringSize(b, at, v, s);
      case Symbol(s) => StringSize(b, at, v, s);
      case Code(s) => StringSize(b, at, v, s);
      case Object(d) => ObjectSize(b, at, v, d);
      case Array(d) => ObjectSize(b, at, v, d);
      case BinData(_, _) => BinDataSize(b, at, v);
      case RegEx(_, _) => RegExSize(b, at, v);
      case DBRef(_, _) => DBRefSize(b, at, v);
      case CodeWScope(_, _) => ScopeSize(b, at, v);
      case _ => FixedSize(b, at, v);
    }
  }

  lemma FixedSize(b: seq<byte>, at: nat, v: Value)
    requires HoldsValue(b, at, v)
    requires v.MinKey? || v.MaxKey? || v.Undefined? || v.Null? || v.Double? || v.Int? || v.Long? || v.Bool? || v.Date?
             || v.Timestamp? || v.Oid?
    ensures at + |Payload(v)| <= |b| && PayloadSize(b, TypeCode(v), at) == Some(|Payload(v)|)
  {
    hide I32, I64, StrLen;
  }

  lemma StringSize(b: seq<byte>, at: nat, v: Value, s: seq<byte>)
    requires HoldsValue(b, at, v) && (v == Str(s) || v == Symbol(s) || v == Code(s))
    ensures at + |Payload(v)| <= |b| && PayloadSize(b, TypeCode(v), at) == Some(|Payload(v)|)
  {
    hide I32, Sized, StrLen, S32;
    SizedRead(b, at, s);
  }

  lemma ObjectSize(b: seq<byte>, at: nat, v: Value, d: Doc)
    requires HoldsValue(b, at, v) && (v == Object(d) || v == Array(d))
    ensures at + |Payload(v)| <= |b| && PayloadSize(b, TypeCode(v), at) == Some(|Payload(v)|)
  {
    hide I32, EncodeDoc, StrLen, S32;
    DocSize(b, at, d);
  }

  lemma BinDataSize(b: seq<byte>, at: nat, v: Value)
    requires HoldsValue(b, at, v) && v.BinData?
    ensures at + |Payload(v)| <= |b| && PayloadSize(b, TypeCode(v), at) == Some(|Payload(v)|)
  {
    hide I32, StrLen, S32;
    HoldsParts(b, at, I32(|v.data|), [v.subtype] + v.data);
    IntRead(b, at, |v.data|);
  }

  lemma RegExSize(b: seq<byte>, at: nat, v: Value)
    requires HoldsValue(b, at, v) && v.RegEx?
    ensures at + |Payload(v)| <= |b| && PayloadSize(b, TypeCode(v), at) == Some(|Payload(v)|)
  {
    hide StrLen;
    HoldsParts(b, at, v.pattern + [0], v.flags + [0]);
    StrLenRead(b, at, v.pattern);
    StrLenRead(b, at + |v.pattern| + 1, v.flags);
  }

  lemma DBRefSize(b: seq<byte>, at: nat, v: Value)
    requires HoldsValue(b, at, v) && v.DBRef?
    ensures at + |Payload(v)| <= |b| && PayloadSize(b, TypeCode(v), at) == Some(|Payload(v)|)
  {
    hide I32, Sized, StrLen, S32;
    HoldsParts(b, at, Sized(v.ns), v.oid);
    SizedRead(b, at, v.ns);
  }

  lemma ScopeSize(b: seq<byte>, at: nat, v: Value)
    requires HoldsValue(b, at, v) && v.CodeWScope?
    ensures at + |Payload(v)| <= |b| && PayloadSize(b, TypeCode(v), at) == Some(|Payload(v)|)
  {
    hide I32, Sized, EncodeDoc, StrLen, S32;
    var n := 4 + 4 + |v.s| + 1 + |EncodeDoc(v.scope)|;
    HoldsParts(b, at, I32(n), Sized(v.s) + EncodeDoc(v.scope));
    IntRead(b, at, n);
  }

  lemma DocSize(b: seq<byte>, at: nat, d: Doc)
    requires Holds(b, at, EncodeDoc(d)) && |EncodeDoc(d)| < TWO31
    ensures at + 4 <= |b| && S32(b, at) == |EncodeDoc(d)|
  {
    hide I32, S32, EncodeFields;
    HoldsParts(b, at, I32(4 + |EncodeFields(d)| + 1), EncodeFields(d) + [0]);
    IntRead(b, at, 4 + |EncodeFields(d)| + 1);
  }

  predicate Scalar(v: Value) { !v.Object? && !v.Array? && !v.CodeWScope? }

  lemma ScalarRead(b: seq<byte>, at: nat, v: Value)
    requires HoldsValue(b, at, v) && Scalar(v)
    ensures at + |Payload(v)| <= |b| && PayloadSize(b, TypeCode(v), at) == Some(|Payload(v)|)
    ensures ScalarAt(b, TypeCode(v), at, |Payload(v)|) == Some(v)
  {
    hide HoldsValue, Payload, PayloadSize, TypeCode, ScalarAt;
    PayloadSizeRead(b, at, v);
    match v {
      case Str(s) => StringValue(b, at, v, s);
      case Symbol(s) => StringValue(b, at, v, s);
      case Code(s) => StringValue(b, at, v, s);
      case BinData(sub, data) => BinDataValue(b, at, v);
      case RegEx(_, _) => RegExValue(b, at, v);
      case DBRef(_, _) => DBRefValue(b, at, v);
      case _ => FixedValue(b, at, v);
    }
  }

  lemma FixedValue(b: seq<byte>, at: nat, v: Value)
    requires HoldsValue(b, at, v)
    requires v.MinKey? || v.MaxKey? || v.Undefined? || v.Null? || v.Double? || v.Int? || v.Long? || v.Bool? || v.Date?
             || v.Timestamp? || v.Oid?
    requires at + |Payload(v)| <= |b| && PayloadSize(b, TypeCode(v), at) == Some(|Payload(v)|)
    ensures ScalarAt(b, TypeCode(v), at, |Payload(v)|) == Some(v)
  {
    hide I32, I64, PayloadSize, S32, S64, U64, StringAt, CStringAt;
    match v {
      case Double(n) => LongRead(b, at, n);
      case Date(n) => LongRead(b, at, n);
      case Timestamp(n) => LongRead(b, at, n);
      case Long(n) => LongRead(b, at, n);
      case Int(n) => IntRead(b, at, n);
      case Bool(x) => assert b[at..at + 1][0] == b[at];
      case _ =>
    }
  }

  lemma StringValue(b: seq<byte>, at: nat, v: Value, s: seq<byte>)
    requires HoldsValue(b, at, v) && (v == Str(s) || v == Symbol(s) || v == Code(s))
    requires at + |Payload(v)| <= |b| && PayloadSize(b, TypeCode(v), at) == Some(|Payload(v)|)
    ensures ScalarAt(b, TypeCode(v), at, |Payload(v)|) == Some(v)
  {
    hide I32, Sized, PayloadSize, S32, StringAt;
    SizedRead(b, at, s);
  }

  lemma RegExValue(b: seq<byte>, at: nat, v: Value)
    requires HoldsValue(b, at, v) && v.RegEx?
    requires at + |Payload(v)| <= |b| && PayloadSize(b, TypeCode(v), at) == Some(|Payload(v)|)
    ensures ScalarAt(b, TypeCode(v), at, |Payload(v)|) == Some(v)
  {
    hide PayloadSize, CStringAt;
    HoldsParts(b, at, v.pattern + [0], v.flags + [0]);
    CStringRead(b, at, v.pattern);
    CStringRead(b, at + |v.pattern| + 1, v.flags);
  }

  lemma DBRefValue(b: seq<byte>, at: nat, v: Value)
    requires HoldsValue(b, at, v) && v.DBRef?
    requires at + |Payload(v)| <= |b| && PayloadSize(b, TypeCode(v), at) == Some(|Payload(v)|)
    ensures ScalarAt(b, TypeCode(v), at, |Payload(v)|) == Some(v)
  {
    hide I32, Sized, PayloadSize, S32, StringAt;
    HoldsParts(b, at, Sized(v.ns), v.oid);
    SizedRead(b, at, v.ns);
  }

  lemma BinDataValue(b: seq<byte>, at: nat, v: Value)
    requires HoldsValue(b, at, v) && v.BinData?
    requires at + |Payload(v)| <= |b| && PayloadSize(b, TypeCode(v), at) == Some(|Payload(v)|)
    ensures ScalarAt(b, TypeCode(v), at, |Payload(v)|) == Some(v)
  {
    hide I32, PayloadSize;
    BinDataRead(b, at, v.subtype, v.data);
  }

  lemma BinDataRead(b: seq<byte>, at: nat, sub: byte, data: seq<byte>)
    requires Holds(b, at, I32(|data|) + ([sub] + data))
    ensures at + 5 + |data| <= |b| && b[at + 4] == sub && b[at + 5..at + 5 + |data|] == data
  {
    hide I32;
    HoldsParts(b, at, I32(|data|), [sub] + data);
    HoldsParts(b, at + 4, [sub], data);
    assert b[at + 4..at + 5][0] == b[at + 4];
  }

  // ---------------------------------------------------------------- documents

  lemma {:induction false} EncodeFront(d: Doc)
    requires d != []
    ensures EncodeFields(d) == EncodeField(d[0]) + EncodeFields(d[1..])
    decreases |d|
  {
    hide EncodeField;
    if |d| > 1 {
      var init := d[..|d| - 1];
      EncodeFront(init);
      assert init[1..] == d[1..][..|d| - 2] && d[1..][|d| - 2] == d[|d| - 1];
    } else {
      assert d[..0] == [] && d[1..] == [];
    }
  }

  ghost predicate Readable(d: Doc) {
    DocInRange(d) && DocClean(d) && |EncodeDoc(d)| <= LIMIT
  }

  /** Wherever a document's bytes lie in memory, walking from there gives the document. */
  lemma {:induction false} WalkDocRead(b: seq<byte>, at: nat, d: Doc)
    requires Holds(b, at, EncodeDoc(d)) && Readable(d)
    ensures WalkDoc(b, at) == Some(d)
    decreases d, 2
  {
    hide I32, S32, EncodeFields, WalkFrom, DocInRange, DocClean, PayloadSize;
    DocSize(b, at, d);
    HoldsParts(b, at, I32(4 + |EncodeFields(d)| + 1), EncodeFields(d) + [0]);
    WalkFromRead(b, at + 4, d);
  }

  lemma {:induction false} WalkFromRead(b: seq<byte>, pos: nat, d: Doc)
    requires Holds(b, pos, EncodeFields(d) + [0]) && Readable(d)
    ensures WalkFrom(b, pos, pos + |EncodeFields(d)|) == Some(d)
    decreases d, 1
  {
    hide EncodeField, EncodeFields, FieldAt, WalkFrom, Readable;
    if d == [] {
      NoFields(d);
      EndRead(b, pos);
    } else {
      var f, rest := d[0], d[1..];
      EncodeFront(d);
      assert EncodeFields(d) + [0] == EncodeField(f) + (EncodeFields(rest) + [0]);
      HoldsParts(b, pos, EncodeField(f), EncodeFields(rest) + [0]);
      TailReadable(d);
      FieldRead(b, pos, f);
      WalkFromRead(b, pos + |EncodeField(f)|, rest);
      WalkStep(b, pos, pos + |EncodeFields(d)|, f, rest);
      assert d == [f] + rest;
    }
  }

  lemma EndRead(b: seq<byte>, pos: nat)
    requires Holds(b, pos, [0])
    ensures WalkFrom(b, pos, pos) == Some([])
  {
    assert b[pos..pos + 1][0] == b[pos];
  }

  /** One step of the iteration. */
  lemma WalkStep(b: seq<byte>, pos: nat, theend: nat, f: Field, rest: Doc)
    requires FieldAt(b, pos, f) && pos <= theend
    requires WalkFrom(b, pos + |EncodeField(f)|, theend) == Some(rest)
    ensures WalkFrom(b, pos, theend) == Some([f] + rest)
  {
    hide Payload, PayloadSize, StrLen, ValueAt, TypeCode, EncodeField;
    assert pos + |EncodeField(f)| == pos + 1 + |f.name| + 1 + |Payload(f.value)|;
    assert f == Field(b[pos + 1..pos + 1 + |f.name|], f.value);
  }

  lemma NoFields(d: Doc)
    ensures EncodeFields([]) == []
  {
  }

  lemma TailReadable(d: Doc)
    requires d != [] && Readable(d)
    ensures Readable(d[1..])
    ensures InRange(d[0].value) && Clean(d[0].value) && NoNul(d[0].name) && |EncodeField(d[0])| <= LIMIT
  {
    hide EncodeField, EncodeFields, InRange, Clean;
    EncodeFront(d);
  }

  /** One element lies at `pos`: its type byte, its name, its computed size and its value. */
  ghost predicate FieldAt(b: seq<byte>, pos: nat, f: Field) {
    var n := |Payload(f.value)|;
    var at := pos + 1 + |f.name| + 1;
    && at + n <= |b| && at + n == pos + |EncodeField(f)|
    && b[pos] == TypeCode(f.value) && b[pos] != 0
    && StrLen(b, pos + 1) == Some(|f.name|) && b[pos + 1..pos + 1 + |f.name|] == f.name
    && PayloadSize(b, b[pos], at) == Some(n)
    && ValueAt(b, b[pos], at, n) == Some(f.value)
  }

  lemma {:induction false} FieldRead(b: seq<byte>, pos: nat, f: Field)
    requires InRange(f.value) && Clean(f.value) && NoNul(f.name) && |EncodeField(f)| <= LIMIT
    requires Holds(b, pos, EncodeField(f))
    ensures FieldAt(b, pos, f)
    decreases f, 0
  {
    hide Payload, PayloadSize, StrLen, ValueAt, Clean, InRange;
    HoldsParts(b, pos, Header(TypeCode(f.value), f.name), Payload(f.value));
    HeaderRead(b, pos, TypeCode(f.value), f.name);
    var at := pos + 1 + |f.name| + 1;
    PayloadSizeRead(b, at, f.value);
    ValueRead(b, at, f.value);
  }

  lemma HeaderRead(b: seq<byte>, pos: nat, code: byte, name: seq<byte>)
    requires Holds(b, pos, Header(code, name)) && NoNul(name)
    ensures pos + 2 + |name| <= |b| && b[pos] == code
    ensures StrLen(b, pos + 1) == Some(|name|) && b[pos + 1..pos + 1 + |name|] == name
  {
    hide StrLen;
    HoldsParts(b, pos, [code], name + [0]);
    assert b[pos..pos + 1][0] == b[pos];
    StrLenRead(b, pos + 1, name);
    HoldsParts(b, pos + 1, name, [0]);
  }

  lemma {:induction false} ValueRead(b: seq<byte>, at: nat, v: Value)
    requires HoldsValue(b, at, v) && |Payload(v)| <= LIMIT
    requires at + |Payload(v)| <= |b| && PayloadSize(b, TypeCode(v), at) == Some(|Payload(v)|)
    ensures ValueAt(b, TypeCode(v), at, |Payload(v)|) == Some(v)
    decreases v
  {
    hide PayloadSize, ScalarAt, WalkDoc, EncodeDoc, I32, Sized, S32, StringAt;
    if v.Object? || v.Array? {
      WalkDocRead(b, at, v.doc);
    } else if v.CodeWScope? {
      var n := 4 + 4 + |v.s| + 1 + |EncodeDoc(v.scope)|;
      HoldsParts(b, at, I32(n), Sized(v.s) + EncodeDoc(v.scope));
      HoldsParts(b, at + 4, Sized(v.s), EncodeDoc(v.scope));
      SizedRead(b, at + 4, v.s);
      WalkDocRead(b, at + 8 + |v.s| + 1, v.scope);
    } else {
      ScalarRead(b, at, v);
    }
  }

  // ---------------------------------------------------------------- what cannot read back

  /** Whatever a walk returns has names and regular expressions without zero bytes. */
  lemma {:induction false} WalkDocClean(b: seq<byte>, at: nat)
    ensures WalkDoc(b, at).Some? ==> DocClean(WalkDoc(b, at).value)
    decreases |b| - at, 1
  {
    hide DocClean, WalkFrom;
    if at + 4 <= |b| && 5 <= S32(b, at) <= LIMIT {
      WalkFromClean(b, at + 4, at + S32(b, at) - 1);
    }
  }

  lemma {:induction false} WalkFromClean(b: seq<byte>, pos: nat, theend: int)
    ensures WalkFrom(b, pos, theend).Some? ==> DocClean(WalkFrom(b, pos, theend).value)
    decreases |b| - pos, 0
  {
    hide PayloadSize, ValueAt, Clean;
    if WalkFrom(b, pos, theend).Some? && b[pos] != 0 {
      var len := StrLen(b, pos + 1).value;
      var at := pos + 1 + len + 1;
      var n := PayloadSize(b, b[pos], at).value;
      ValueClean(b, b[pos], at, n);
      WalkFromClean(b, at + n, theend);
    }
  }

  lemma {:induction false} ValueClean(b: seq<byte>, code: byte, at: nat, n: nat)
    requires at + n <= |b| && PayloadSize(b, code, at) == Some(n)
    ensures ValueAt(b, code, at, n).Some? ==> Clean(ValueAt(b, code, at, n).value)
    decreases |b| - at, 2
  {
    hide PayloadSize, ScalarAt, WalkDoc, DocClean, StringAt, S32;
    if code == 3 || code == 4 {
      WalkDocClean(b, at);
    } else if code == 15 {
      if 8 <= n && StringAt(b, at + 4).Some? {
        ScopePlace(b, at);
        WalkDocClean(b, at + 8 + S32(b, at + 4));
      }
    } else {
      ScalarClean(b, code, at, n);
    }
  }

  lemma ScopePlace(b: seq<byte>, at: nat)
    requires at + 8 <= |b| && StringAt(b, at + 4).Some?
    ensures 0 < S32(b, at + 4)
  {
    hide S32;
  }

  lemma ScalarClean(b: seq<byte>, code: byte, at: nat, n: nat)
    requires at + n <= |b| && PayloadSize(b, code, at) == Some(n)
    ensures ScalarAt(b, code, at, n).Some? ==> Clean(ScalarAt(b, code, at, n).value)
  {
    hide StringAt, U64, S64, S32, StrLen;
  }

  /** Of the documents that fit the length field, the ones that read back are exactly those within the size limit of a
      BSONObj whose names and regular expressions hold no zero byte: a builder does not look for one, and the reader stops
      at the first. */
  lemma RoundTripIff(d: Doc)
    requires DocInRange(d) && |EncodeDoc(d)| < TWO31
    ensures WalkDoc(EncodeDoc(d), 0) == Some(d) <==> |EncodeDoc(d)| <= LIMIT && DocClean(d)
  {
    hide WalkFrom, EncodeDoc, DocClean, DocInRange, S32;
    assert EncodeDoc(d)[0..|EncodeDoc(d)|] == EncodeDoc(d);
    DocSize(EncodeDoc(d), 0, d);
    WalkDocClean(EncodeDoc(d), 0);
    if |EncodeDoc(d)| <= LIMIT && DocClean(d) {
      WalkDocRead(EncodeDoc(d), 0, d);
    }
  }
}
