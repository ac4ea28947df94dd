/** What valid() promises a reader: an accepted object can be read to its end, unless a BinData length is negative. */
module BsonValidReads {
  import opened Bytes
  import opened BsonFormat
  import opened BsonWalk
  import opened BsonValid

  /** No BinData that the iteration from `pos` meets has a negative length. valid() does not look at them. */
  predicate LengthsFrom(b: seq<byte>, pos: nat, theend: int)
    requires ValidFrom(b, pos, theend)
    decreases |b| - pos, 0
  {
    hide BoundedSize, StrNLen, ElementOk, ObjectsOk;
    if b[pos] == 0 then true
    else
      var at := pos + 1 + StrNLen(b, pos + 1, theend - pos) + 1;
      var next := at + BoundedSize(b, b[pos], at, theend + 1 - at).value;
      LengthAt(b, b[pos], at) && LengthsWithin(b, b[pos], at) && LengthsFrom(b, next, theend)
  }

  predicate LengthAt(b: seq<byte>, code: byte, at: nat) {
    code == 5 && at + 4 <= |b| ==> 0 <= S32(b, at)
  }

  predicate Lengths(b: seq<byte>, at: nat)
    requires ObjValid(b, at)
    decreases |b| - at, 1
  {
    LengthsFrom(b, at + 4, at + S32(b, at) - 1)
  }

  predicate LengthsWithin(b: seq<byte>, code: byte, at: nat)
    requires at <= |b| && ElementOk(b, code, at) && ObjectsOk(b, code, at)
    decreases |b| - at, 2
  {
    if code == 3 || code == 4 then Lengths(b, at)
    else if code == 15 then Lengths(b, at + 8 + S32(b, at + 4))
    else true
  }

  /** An accepted object ends with its end marker. */
  lemma {:induction false} ValidEnd(b: seq<byte>, pos: nat, theend: int)
    requires ValidFrom(b, pos, theend)
    ensures pos <= theend < |b| && b[theend] == 0
    decreases |b| - pos
  {
    hide BoundedSize, StrNLen, ElementOk, ObjectsOk;
    if b[pos] != 0 {
      var at := pos + 1 + StrNLen(b, pos + 1, theend - pos) + 1;
      ValidEnd(b, at + BoundedSize(b, b[pos], at, theend + 1 - at).value, theend);
    }
  }

  /** With a zero byte ahead, a bounded search finds what the unbounded one finds. */
  lemma {:induction false} ZeroAhead(b: seq<byte>, at: nat, theend: int)
    requires at <= theend < |b| && b[theend] == 0
    ensures StrLen(b, at).Some? && at + StrLen(b, at).value <= theend
    ensures StrNLen(b, at, theend + 1 - at) == StrLen(b, at).value
    decreases theend - at
  {
    if b[at] != 0 {
      ZeroAhead(b, at + 1, theend);
    }
  }

  /** In an accepted object the bounded size is the size the plain iterator computes. */
  lemma SizesAgree(b: seq<byte>, code: byte, at: nat, theend: int)
    requires 0 <= theend && at <= theend + 1 && theend < |b| && b[theend] == 0
    requires BoundedSize(b, code, at, theend + 1 - at).Some?
    requires at + BoundedSize(b, code, at, theend + 1 - at).value <= theend
    ensures PayloadSize(b, code, at) == BoundedSize(b, code, at, theend + 1 - at)
  {
    hide StrLen, StrNLen, S32;
    if code == 11 {
      NothingLeft(b, at);
      assert at <= theend;
      ZeroAhead(b, at, theend);
      var p := at + StrLen(b, at).value + 1;
      NothingLeft(b, p);
      assert p <= theend;
      ZeroAhead(b, p, theend);
    }
  }

  lemma NothingLeft(b: seq<byte>, at: nat)
    requires at <= |b|
    ensures StrNLen(b, at, 0) == -1
  {
    hide StrLen;
  }

  /** A checked scalar is readable, unless it is a BinData of negative length. */
  lemma ScalarReads(b: seq<byte>, code: byte, at: nat, n: nat)
    requires at + n <= |b| && PayloadSize(b, code, at) == Some(n) && ElementOk(b, code, at)
    requires code != 0 && code != 3 && code != 4 && code != 15
    ensures ScalarAt(b, code, at, n).Some? <==> LengthAt(b, code, at)
  {
    hide StrLen, U32, U64, S64;
    if code == 11 {
      RegExReads(b, at, n);
    }
  }

  lemma RegExReads(b: seq<byte>, at: nat, n: nat)
    requires at + n <= |b| && PayloadSize(b, 11, at) == Some(n)
    ensures CStringAt(b, at).Some? && CStringAt(b, at + |CStringAt(b, at).value| + 1).Some?
  {
    hide StrLen;
  }

  lemma {:induction false} ObjReads(b: seq<byte>, at: nat)
    requires ObjValid(b, at)
    ensures WalkDoc(b, at).Some? <==> Lengths(b, at)
    decreases |b| - at, 1
  {
    hide ValidFrom, WalkFrom, LengthsFrom, S32;
    ValidEnd(b, at + 4, at + S32(b, at) - 1);
    FromReads(b, at + 4, at + S32(b, at) - 1);
  }

  lemma {:induction false} ValueReads(b: seq<byte>, code: byte, at: nat, n: nat)
    requires at + n <= |b| && PayloadSize(b, code, at) == Some(n) && code != 0
    requires ElementOk(b, code, at) && ObjectsOk(b, code, at)
    ensures ValueAt(b, code, at, n).Some? <==> LengthAt(b, code, at) && LengthsWithin(b, code, at)
    decreases |b| - at, 2
  {
    hide S32, StrNLen, WalkDoc, ObjValid, Lengths, ScalarAt;
    if code == 3 || code == 4 {
      ObjReads(b, at);
    } else if code == 15 {
      ObjReads(b, at + 8 + S32(b, at + 4));
    } else {
      ScalarReads(b, code, at, n);
    }
  }

  lemma {:induction false} FromReads(b: seq<byte>, pos: nat, theend: int)
    requires ValidFrom(b, pos, theend)
    ensures WalkFrom(b, pos, theend).Some? <==> LengthsFrom(b, pos, theend)
    decreases |b| - pos, 0
  {
    hide S32, StrLen, BoundedSize, PayloadSize, ElementOk, ObjectsOk, ValueAt, LengthsWithin, LengthAt;
    if b[pos] != 0 {
      ValidEnd(b, pos, theend);
      var at := pos + 1 + StrNLen(b, pos + 1, theend - pos) + 1;
      var n := BoundedSize(b, b[pos], at, theend + 1 - at).value;
      ValidEnd(b, at + n, theend);
      SizesAgree(b, b[pos], at, theend);
      if 0 <= n {
        ValueReads(b, b[pos], at, n);
        FromReads(b, at + n, theend);
      } else {
        NegativeSize(b, b[pos], at, n);
      }
    }
  }

  /** Only a BinData of negative length can have a negative size and pass the checks. */
  lemma NegativeSize(b: seq<byte>, code: byte, at: nat, n: int)
    requires at <= |b| && PayloadSize(b, code, at) == Some(n) && n < 0
    requires ElementOk(b, code, at) && ObjectsOk(b, code, at)
    ensures !LengthAt(b, code, at)
  {
    hide StrLen, U32;
  }

  // ---------------------------------------------------------------- what an accepted element is like

  /** The iteration of valid() from `pos` comes to an element at `p` whose value is at `at`. */
  predicate Meets(b: seq<byte>, pos: nat, theend: int, p: nat, at: nat)
    requires ValidFrom(b, pos, theend)
    decreases |b| - pos
  {
    hide BoundedSize, StrNLen, ElementOk, ObjectsOk;
    b[pos] != 0 &&
    var v := pos + 1 + StrNLen(b, pos + 1, theend - pos) + 1;
    (p == pos && at == v) || Meets(b, v + BoundedSize(b, b[pos], v, theend + 1 - v).value, theend, p, at)
  }

  lemma {:induction false} MetOk(b: seq<byte>, pos: nat, theend: int, p: nat, at: nat)
    requires ValidFrom(b, pos, theend) && Meets(b, pos, theend, p, at)
    ensures p < at <= |b| && b[p] != 0 && ElementOk(b, b[p], at) && ObjectsOk(b, b[p], at)
    decreases |b| - pos
  {
    hide BoundedSize, StrNLen, ElementOk, ObjectsOk;
    var v := pos + 1 + StrNLen(b, pos + 1, theend - pos) + 1;
    if !(p == pos && at == v) {
      MetOk(b, v + BoundedSize(b, b[pos], v, theend + 1 - v).value, theend, p, at);
    }
  }

  /** Strings, symbols, code and references have a text inside the memory that ends, by its stored size, with a zero byte. */
  lemma TextEnds(b: seq<byte>, pos: nat, theend: int, p: nat, at: nat)
    requires ValidFrom(b, pos, theend) && Meets(b, pos, theend, p, at)
    ensures p < at <= |b| && (b[p] in {0x02, 0x0C, 0x0D, 0x0E} ==>
      && at + 4 <= |b| && 0 < S32(b, at) < LIMIT && at + 4 + S32(b, at) <= |b| && b[at + 4 + S32(b, at) - 1] == 0)
  {
    hide ValidFrom, Meets, ObjectsOk, U32;
    MetOk(b, pos, theend, p, at);
  }

  /** Embedded objects and arrays are accepted themselves. Code with scope is a C string of its stored size; its scope, right
      behind, is an accepted object; and the total size is that of sizes, code and scope. */
  lemma ObjectsAccepted(b: seq<byte>, pos: nat, theend: int, p: nat, at: nat)
    requires ValidFrom(b, pos, theend) && Meets(b, pos, theend, p, at)
    ensures p < at <= |b| && (b[p] == 0x03 || b[p] == 0x04 ==> ObjValid(b, at))
    ensures b[p] == 0x0F ==>
      && at + 8 <= |b| && 0 < S32(b, at + 4) && at + 8 + S32(b, at + 4) + 4 <= |b|
      && var scope := at + 8 + S32(b, at + 4);
      && b[scope - 1] == 0 && 0 !in b[at + 8..scope - 1]
      && ObjValid(b, scope) && S32(b, at) == 4 + 4 + S32(b, at + 4) + S32(b, scope)
  {
    hide ValidFrom, Meets, ObjValid, S32;
    MetOk(b, pos, theend, p, at);
  }

  // ---------------------------------------------------------------- a negative length

  const NEGATIVE: seq<byte> := [11, 0, 0, 0, 5, 0, 255, 255, 255, 255, 0]

  /** A BinData of length -1, whose subtype would be the end marker: accepted, and not readable. */
  lemma NegativeAccepted()
    ensures ObjValid(NEGATIVE, 0) && WalkDoc(NEGATIVE, 0).None?
  {
    var b := NEGATIVE;
    assert S32(b, 0) == 11;
    assert S32(b, 6) == -1;
    assert StrLen(b, 5) == Some(0);
    assert BoundedSize(b, 5, 6, 5) == Some(4);
    assert ValidFrom(b, 10, 10);
    assert ValidFrom(b, 4, 10);
    assert !LengthsFrom(b, 4, 10);
    ObjReads(b, 0);
  }
}
