/** Which of two documents comes first, said without comparing: what woCompare computes, down to the direction. */
module CompareOrder {
  import opened Bytes
  import opened Document
  import opened BsonFormat
  import opened Doubles
  import opened DoublesIeee
  import opened Compare

  datatype Side = Before | Alike | After {
    function Opposite(): Side {
      match this case Before => After case Alike => Alike case After => Before
    }
  }

  function SideOf(x: int): Side { if x < 0 then Before else if x == 0 then Alike else After }

  // ---------------------------------------------------------------- bytes

  /** At the first place where they differ, `a` has the lesser byte or ends. */
  ghost predicate BytesBefore(a: seq<byte>, b: seq<byte>) {
    exists k :: 0 <= k <= |a| && k < |b| && a[..k] == b[..k] && (k == |a| || a[k] < b[k])
  }

  ghost predicate BytesAre(a: seq<byte>, b: seq<byte>, x: Side) {
    match x
    case Before => BytesBefore(a, b)
    case Alike => a == b
    case After => BytesBefore(b, a)
  }

  lemma {:induction false} BytesStep(a: seq<byte>, b: seq<byte>)
    requires a != [] && b != []
    ensures BytesBefore(a, b) <==> a[0] < b[0] || (a[0] == b[0] && BytesBefore(a[1..], b[1..]))
  {
    if BytesBefore(a, b) {
      var k :| 0 <= k <= |a| && k < |b| && a[..k] == b[..k] && (k == |a| || a[k] < b[k]);
      if 0 < k {
        assert a[..k][0] == b[..k][0];
        assert a[1..][..k - 1] == a[..k][1..] == b[..k][1..] == b[1..][..k - 1];
      }
    }
    if a[0] < b[0] {
      assert a[..0] == b[..0];
    } else if a[0] == b[0] && BytesBefore(a[1..], b[1..]) {
      var j :| 0 <= j <= |a[1..]| && j < |b[1..]| && a[1..][..j] == b[1..][..j] && (j == |a[1..]| || a[1..][j] < b[1..][j]);
      assert a[..j + 1] == [a[0]] + a[1..][..j] == [b[0]] + b[1..][..j] == b[..j + 1];
    }
  }

  /** memcmp, and strcmp of what C sees of two strings. */
  lemma {:induction false} LexiIff(a: seq<byte>, b: seq<byte>)
    ensures Lexi(a, b) < 0 <==> BytesBefore(a, b)
    ensures Lexi(a, b) > 0 <==> BytesBefore(b, a)
    ensures Lexi(a, b) == 0 <==> a == b
    decreases |a|
  {
    hide BytesBefore;
    if a == [] || b == [] {
      EmptyFirst(a, b);
      EmptyFirst(b, a);
    } else {
      BytesStep(a, b);
      BytesStep(b, a);
      LexiIff(a[1..], b[1..]);
      assert a == [a[0]] + a[1..] && b == [b[0]] + b[1..];
    }
  }

  lemma EmptyFirst(a: seq<byte>, b: seq<byte>)
    requires a == [] || b == []
    ensures BytesBefore(a, b) <==> a == [] && b != []
  {
    if a == [] && b != [] {
      assert a[..0] == b[..0];
    }
  }

  lemma BytesIff(a: seq<byte>, b: seq<byte>, x: Side)
    ensures BytesAre(a, b, x) <==> SideOf(Lexi(a, b)) == x
  {
    hide Lexi, BytesBefore;
    LexiIff(a, b);
  }

  /** A C string goes on to the first zero byte, or to the end. */
  lemma {:induction false} CStrEnds(s: seq<byte>)
    ensures var c := CStr(s); s[..|c|] == c && 0 !in c && (|c| == |s| || s[|c|] == 0)
    ensures AfterNul(s) == if |CStr(s)| == |s| then [] else s[|CStr(s)| + 1..]
  {
    if s != [] && s[0] != 0 {
      CStrEnds(s[1..]);
    }
  }

  /** Two C strings in a row, the first more important. */
  ghost predicate StringsAre(a: seq<byte>, b: seq<byte>, x: Side) {
    if CStr(a) != CStr(b) then BytesAre(CStr(a), CStr(b), x) else BytesAre(CStr(AfterNul(a)), CStr(AfterNul(b)), x)
  }

  lemma StringsIff(a: seq<byte>, b: seq<byte>, x: Side)
    ensures StringsAre(a, b, x) <==> SideOf(TwoStrCmp(a, b)) == x
  {
    hide Lexi, BytesAre, CStr, AfterNul;
    BytesIff(CStr(a), CStr(b), x);
    BytesIff(CStr(AfterNul(a)), CStr(AfterNul(b)), x);
    LexiIff(CStr(a), CStr(b));
  }

  /** The shorter first, and of equally long ones by their bytes. */
  ghost predicate BlocksAre(a: seq<byte>, b: seq<byte>, x: Side) {
    if |a| != |b| then x == (if |a| < |b| then Before else After) else BytesAre(a, b, x)
  }

  lemma BlocksIff(a: seq<byte>, b: seq<byte>, x: Side)
    ensures BlocksAre(a, b, x) <==> SideOf(BlockCompare(a, b)) == x
  {
    hide Lexi, BytesAre;
    BytesIff(a, b, x);
  }

  // ---------------------------------------------------------------- values

  /** The order of the types. */
  function Place(v: Value): nat {
    match v
    case MinKey => 0
    case Undefined => 1
    case Null => 2
    case Int(_) => 3
    case Long(_) => 3
    case Double(_) => 3
    case Str(_) => 4
    case Symbol(_) => 4
    case Object(_) => 5
    case Array(_) => 6
    case BinData(_, _) => 7
    case Oid(_) => 8
    case Bool(_) => 9
    case Date(_) => 10
    case Timestamp(_) => 10
    case RegEx(_, _) => 11
    case DBRef(_, _) => 12
    case Code(_) => 13
    case CodeWScope(_, _) => 14
    case MaxKey => 15
  }

  lemma PlaceIff(l: Value, r: Value)
    ensures Place(l) < Place(r) <==> Canonical(l) < Canonical(r)
    ensures Place(l) == Place(r) <==> Canonical(l) == Canonical(r)
  {
  }

  predicate IntsAre(a: int, b: int, x: Side) {
    match x case Before => a < b case Alike => a == b case After => a > b
  }

  /** Two longs by their values. Otherwise what is not finite, alike, below all numbers, and those by the doubles they are
      or become. */
  ghost predicate NumbersAre(l: Value, r: Value, x: Side)
    requires IsNumber(l) && IsNumber(r)
  {
    if l.Long? && r.Long? then IntsAre(l.n, r.n, x)
    else if !Finite(l) || !Finite(r) then IntsAre(if Finite(l) then 1 else 0, if Finite(r) then 1 else 0, x)
    else match x
      case Before => RealValue(l) < RealValue(r)
      case Alike => RealValue(l) == RealValue(r)
      case After => RealValue(l) > RealValue(r)
  }

  ghost predicate ValuesAre(l: Value, r: Value, x: Side)
    requires Place(l) == Place(r)
    decreases l, 0
  {
    match l
    case Bool(b) => IntsAre(if b then 1 else 0, if r.b then 1 else 0, x)
    case Date(t) => IntsAre(t, if r.Date? then r.millis else r.ts, x)
    case Timestamp(t) => IntsAre(t, if r.Date? then r.millis else r.ts, x)
    case Double(_) => NumbersAre(l, r, x)
    case Int(_) => NumbersAre(l, r, x)
    case Long(_) => NumbersAre(l, r, x)
    case Oid(oid) => BytesAre(oid, r.oid, x)
    case Str(s) => BytesAre(CStr(s), CStr(r.s), x)
    case Symbol(s) => BytesAre(CStr(s), CStr(r.s), x)
    case Code(s) => BytesAre(CStr(s), CStr(r.s), x)
    case Object(d) => DocsAre(d, r.doc, [], true, x)
    case Array(d) => DocsAre(d, r.doc, [], true, x)
    case BinData(sub, data) => BlocksAre([sub] + data, [r.subtype] + r.data, x)
    case DBRef(ns, oid) => BlocksAre(Payload(l), Payload(r), x)
    case RegEx(p, f) => StringsAre(p + [0] + f, r.pattern + [0] + r.flags, x)
    case CodeWScope(s, d) => StringsAre(s + [0] + EncodeDoc(d), r.s + [0] + EncodeDoc(r.scope), x)
    case _ => x == Alike
  }

  /** The type decides, then the name, where names are looked at, then the value. */
  ghost predicate FieldsAre(l: Field, r: Field, names: bool, x: Side)
    decreases l, 1
  {
    if Place(l.value) != Place(r.value) then x == (if Place(l.value) < Place(r.value) then Before else After)
    else if names && CStr(l.name) != CStr(r.name) then BytesAre(CStr(l.name), CStr(r.name), x)
    else ValuesAre(l.value, r.value, x)
  }

  function Turn(desc: seq<bool>, k: nat, x: Side): Side {
    if k < |desc| && desc[k] then x.Opposite() else x
  }

  /** The first fields that are not alike decide, the other way round where the key is descending; a document that ends
      before that comes first, whatever the key. */
  ghost predicate DocsAre(l: Doc, r: Doc, desc: seq<bool>, names: bool, x: Side)
    decreases l, 2
  {
    if x == Alike then |l| == |r| && (forall i :: 0 <= i < |l| ==> FieldsAre(l[i], r[i], names, Alike))
    else
      exists k :: && 0 <= k <= |l| && k <= |r|
                  && (forall i :: 0 <= i < k ==> FieldsAre(l[i], r[i], names, Alike))
                  && (if k == |l| then k < |r| && x == Before
                      else if k == |r| then x == After
                      else FieldsAre(l[k], r[k], names, Turn(desc, k, x)))
  }

  // ---------------------------------------------------------------- numbers

  lemma NumberReal(v: Value)
    requires IsNumber(v)
    ensures Finite(v) <==> Scaled(v).Some?
    ensures Finite(v) ==> Scaled(v).value as real == RealValue(v) * (Pow2(1074) as real)
  {
    hide Pow2, ToDouble, Ieee;
    match v {
      case Int(i) => CastTimes(i, Pow2(1074));
      case Long(n) => CastTimes(ToDouble(n), Pow2(1074));
      case Double(bits) =>
        if Exponent(bits) < 2047 {
          DoubleReal(bits);
        }
    }
  }

  /** Numbers are ordered as the units they are of. */
  lemma UnitsOrdered(a: real, b: real, x: int, y: int, u: nat)
    requires 1 <= u && x as real == a * (u as real) && y as real == b * (u as real)
    ensures (a < b <==> x < y) && (a == b <==> x == y)
  {
    Scaled2(a, b, u as real);
    assert x == y <==> x as real == y as real;
    assert x <= y <==> x as real <= y as real;
  }

  lemma NumbersIff(l: Value, r: Value, x: Side)
    requires IsNumber(l) && IsNumber(r)
    ensures NumbersAre(l, r, x) <==> SideOf(NumberCompare(l, r)) == x
  {
    hide Pow2, Scaled, RealValue, Finite;
    NumberReal(l);
    NumberReal(r);
    if Finite(l) && Finite(r) {
      UnitsOrdered(RealValue(l), RealValue(r), Scaled(l).value, Scaled(r).value, Pow2(1074));
    }
  }

  // ---------------------------------------------------------------- documents

  lemma AlikeRest(l: Doc, r: Doc, names: bool)
    requires l != [] && r != [] && |l| == |r|
    ensures (forall i :: 0 <= i < |l| ==> FieldsAre(l[i], r[i], names, Alike))
      <==> FieldsAre(l[0], r[0], names, Alike) && forall i :: 0 <= i < |l[1..]| ==> FieldsAre(l[1..][i], r[1..][i], names, Alike)
  {
    hide FieldsAre;
    forall i | 0 < i < |l| ensures l[i] == l[1..][i - 1] && r[i] == r[1..][i - 1] {
    }
  }

  /** The first fields, and then the rest. */
  lemma DocsStep(l: Doc, r: Doc, desc: seq<bool>, names: bool, x: Side)
    requires l != [] && r != []
    requires FieldsAre(l[0], r[0], names, Alike) ==> forall y: Side :: FieldsAre(l[0], r[0], names, y) ==> y == Alike
    ensures DocsAre(l, r, desc, names, x) <==>
      if FieldsAre(l[0], r[0], names, Alike) then DocsAre(l[1..], r[1..], Rest(desc), names, x)
      else x != Alike && FieldsAre(l[0], r[0], names, Turn(desc, 0, x))
  {
    hide FieldsAre;
    if x == Alike {
      if |l| == |r| {
        AlikeRest(l, r, names);
      }
    } else {
      if DocsAre(l, r, desc, names, x) {
        DocsForward(l, r, desc, names, x);
      } else if FieldsAre(l[0], r[0], names, Alike) {
        if DocsAre(l[1..], r[1..], Rest(desc), names, x) {
          DocsBack(l, r, desc, names, x);
        }
      } else if FieldsAre(l[0], r[0], names, Turn(desc, 0, x)) {
        DocsBack(l, r, desc, names, x);
      }
    }
  }

  /** The decision falls at `k`. */
  ghost predicate DecidedAt(l: Doc, r: Doc, desc: seq<bool>, names: bool, x: Side, k: nat) {
    && k <= |l| && k <= |r|
    && (forall i :: 0 <= i < k ==> FieldsAre(l[i], r[i], names, Alike))
    && if k == |l| then k < |r| && x == Before
       else if k == |r| then x == After
       else FieldsAre(l[k], r[k], names, Turn(desc, k, x))
  }

  lemma DecidedRest(l: Doc, r: Doc, desc: seq<bool>, names: bool, x: Side, k: nat)
    requires l != [] && r != []
    ensures DecidedAt(l, r, desc, names, x, k + 1) <==>
      FieldsAre(l[0], r[0], names, Alike) && DecidedAt(l[1..], r[1..], Rest(desc), names, x, k)
  {
    hide FieldsAre;
    var l', r' := l[1..], r[1..];
    assert forall i :: 0 <= i < |l'| ==> l'[i] == l[i + 1];
    assert forall i :: 0 <= i < |r'| ==> r'[i] == r[i + 1];
    assert k < |l'| && k < |r'| ==> Turn(Rest(desc), k, x) == Turn(desc, k + 1, x);
    if DecidedAt(l, r, desc, names, x, k + 1) {
      assert FieldsAre(l[0], r[0], names, Alike);
      forall i | 0 <= i < k ensures FieldsAre(l'[i], r'[i], names, Alike) {
        assert FieldsAre(l[i + 1], r[i + 1], names, Alike);
      }
    }
    if FieldsAre(l[0], r[0], names, Alike) && DecidedAt(l', r', Rest(desc), names, x, k) {
      forall i | 0 <= i < k + 1 ensures FieldsAre(l[i], r[i], names, Alike) {
        assert 0 < i ==> FieldsAre(l'[i - 1], r'[i - 1], names, Alike);
      }
    }
  }

  lemma DecidedIff(l: Doc, r: Doc, desc: seq<bool>, names: bool, x: Side)
    requires x != Alike
    ensures DocsAre(l, r, desc, names, x) <==> exists k: nat :: DecidedAt(l, r, desc, names, x, k)
  {
    hide FieldsAre;
    if DocsAre(l, r, desc, names, x) {
      var k :| 0 <= k <= |l| && k <= |r|
        && (forall i :: 0 <= i < k ==> FieldsAre(l[i], r[i], names, Alike))
        && if k == |l| then k < |r| && x == Before
           else if k == |r| then x == After
           else FieldsAre(l[k], r[k], names, Turn(desc, k, x));
      assert DecidedAt(l, r, desc, names, x, k);
    }
  }

  lemma DocsForward(l: Doc, r: Doc, desc: seq<bool>, names: bool, x: Side)
    requires l != [] && r != [] && x != Alike && DocsAre(l, r, desc, names, x)
    requires FieldsAre(l[0], r[0], names, Alike) ==> forall y: Side :: FieldsAre(l[0], r[0], names, y) ==> y == Alike
    ensures if FieldsAre(l[0], r[0], names, Alike) then DocsAre(l[1..], r[1..], Rest(desc), names, x)
      else FieldsAre(l[0], r[0], names, Turn(desc, 0, x))
  {
    hide FieldsAre, DocsAre;
    DecidedIff(l, r, desc, names, x);
    DecidedIff(l[1..], r[1..], Rest(desc), names, x);
    var k: nat :| DecidedAt(l, r, desc, names, x, k);
    if k > 0 {
      DecidedRest(l, r, desc, names, x, k - 1);
    }
  }

  lemma DocsBack(l: Doc, r: Doc, desc: seq<bool>, names: bool, x: Side)
    requires l != [] && r != [] && x != Alike
    requires if FieldsAre(l[0], r[0], names, Alike) then DocsAre(l[1..], r[1..], Rest(desc), names, x)
      else FieldsAre(l[0], r[0], names, Turn(desc, 0, x))
    ensures DocsAre(l, r, desc, names, x)
  {
    hide FieldsAre, DocsAre;
    DecidedIff(l, r, desc, names, x);
    DecidedIff(l[1..], r[1..], Rest(desc), names, x);
    if FieldsAre(l[0], r[0], names, Alike) {
      var k: nat :| DecidedAt(l[1..], r[1..], Rest(desc), names, x, k);
      DecidedRest(l, r, desc, names, x, k);
    } else {
      assert DecidedAt(l, r, desc, names, x, 0);
    }
  }

  lemma DocsEnd(l: Doc, r: Doc, desc: seq<bool>, names: bool, x: Side)
    requires l == [] || r == []
    ensures DocsAre(l, r, desc, names, x) <==> x == if l != [] then After else if r != [] then Before else Alike
  {
    hide FieldsAre;
    if x != Alike {
      DecidedIff(l, r, desc, names, x);
      assert DecidedAt(l, r, desc, names, x, 0) <==> x == if l != [] then After else if r != [] then Before else Alike;
    }
  }

  // ---------------------------------------------------------------- what the comparison computes

  lemma {:induction false} ValueIff(l: Value, r: Value, x: Side)
    requires Canonical(l) == Canonical(r)
    ensures Place(l) == Place(r) && (ValuesAre(l, r, x) <==> SideOf(ValueCompare(l, r)) == x)
    decreases l, 0
  {
    hide Lexi, CStr, TwoStrCmp, BlockCompare, EncodeDoc, Payload, DocCompare, NumberCompare, BytesAre, StringsAre, BlocksAre,
      NumbersAre, DocsAre;
    PlaceIff(l, r);
    match l {
      case Double(_) => NumbersIff(l, r, x);
      case Int(_) => NumbersIff(l, r, x);
      case Long(_) => NumbersIff(l, r, x);
      case Oid(oid) => BytesIff(oid, r.oid, x);
      case Str(s) => BytesIff(CStr(s), CStr(r.s), x);
      case Symbol(s) => BytesIff(CStr(s), CStr(r.s), x);
      case Code(s) => BytesIff(CStr(s), CStr(r.s), x);
      case Object(d) => DocIff(d, r.doc, [], true, x);
      case Array(d) => DocIff(d, r.doc, [], true, x);
      case DBRef(_, _) => BlocksIff(Payload(l), Payload(r), x);
      case BinData(sub, data) => BlocksIff([sub] + data, [r.subtype] + r.data, x);
      case RegEx(p, f) => StringsIff(p + [0] + f, r.pattern + [0] + r.flags, x);
      case CodeWScope(s, d) => StringsIff(s + [0] + EncodeDoc(d), r.s + [0] + EncodeDoc(r.scope), x);
      case _ =>
    }
  }

  lemma {:induction false} FieldIff(l: Field, r: Field, names: bool, x: Side)
    ensures FieldsAre(l, r, names, x) <==> SideOf(FieldCompare(l, r, names)) == x
    decreases l, 1
  {
    hide Lexi, CStr, Canonical, Place, ValueCompare, ValuesAre, BytesAre;
    PlaceIff(l.value, r.value);
    LexiIff(CStr(l.name), CStr(r.name));
    BytesIff(CStr(l.name), CStr(r.name), x);
    if Canonical(l.value) == Canonical(r.value) {
      ValueIff(l.value, r.value, x);
    }
  }

  /** woCompare of two documents is negative, zero or positive exactly if the first comes before the second, is like it, or
      comes after it: under any directions of the keys, with names or without. */
  lemma {:induction false} DocIff(l: Doc, r: Doc, desc: seq<bool>, names: bool, x: Side)
    ensures DocsAre(l, r, desc, names, x) <==> SideOf(DocCompare(l, r, desc, names)) == x
    decreases l, 2
  {
    hide FieldsAre, DocsAre, FieldCompare;
    if l == [] || r == [] {
      DocsEnd(l, r, desc, names, x);
    } else {
      forall y: Side ensures FieldsAre(l[0], r[0], names, y) <==> SideOf(FieldCompare(l[0], r[0], names)) == y {
        FieldIff(l[0], r[0], names, y);
      }
      DocsStep(l, r, desc, names, x);
      DocIff(l[1..], r[1..], Rest(desc), names, x);
    }
  }
}
