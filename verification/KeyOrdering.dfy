/** Comparing by a key pattern: with the pattern itself, and with the bits precomputed from it. */
module KeyOrdering {
  import opened Bytes
  import opened Document
  import opened Doubles
  import opened Compare

  // ---------------------------------------------------------------- single bits

  /** 1 << n in 32 bits. */
  function Bit(n: nat): bv32 {
    if n == 0 then 1 else Bit(n - 1) << 1
  }

  lemma BitTop()
    ensures Bit(31) == 0x8000_0000 && Bit(32) == 0
  {
    assert Bit(8) == 0x100;
    assert Bit(16) == 0x1_0000;
    assert Bit(24) == 0x100_0000;
    assert Bit(31) == 0x8000_0000;
  }

  lemma {:induction false} ZeroStays(n: nat, m: nat)
    requires n <= m && Bit(n) == 0
    ensures Bit(m) == 0
  {
    if n < m {
      ZeroStays(n, m - 1);
    }
  }

  /** From 32 on no bit is left; before that there is one. */
  lemma BitZeroIff(n: nat)
    ensures Bit(n) == 0 <==> 32 <= n
  {
    hide Bit;
    BitTop();
    if 32 <= n {
      ZeroStays(32, n);
    } else if Bit(n) == 0 {
      ZeroStays(n, 31);
    }
  }

  predicate Apart(x: bv32, y: bv32) { x & y == 0 }

  lemma {:induction false} BitsApart(i: nat, j: nat)
    requires i < j
    ensures Apart(Bit(i), Bit(j))
  {
    if i == 0 {
      LowBit(Bit(j - 1));
    } else {
      BitsApart(i - 1, j - 1);
      ShiftAnd(Bit(i - 1), Bit(j - 1));
    }
  }

  lemma LowBit(x: bv32)
    ensures 1 & (x << 1) == 0
  {
  }

  lemma ShiftAnd(x: bv32, y: bv32)
    requires x & y == 0
    ensures (x << 1) & (y << 1) == 0
  {
  }

  predicate Has(b: bv32, mask: bv32) { b & mask != 0 }

  function With(b: bv32, mask: bv32): bv32 { b | mask }

  lemma SetOther(b: bv32, x: bv32, y: bv32)
    requires Apart(x, y)
    ensures Has(With(b, x), y) <==> Has(b, y)
  {
    OrApart(b, x, y);
  }

  lemma OrApart(b: bv32, x: bv32, y: bv32)
    requires x & y == 0
    ensures (b | x) & y == b & y
  {
  }

  lemma SetSame(b: bv32, x: bv32)
    requires x != 0
    ensures Has(With(b, x), x)
  {
    OrSame(b, x);
  }

  lemma OrSame(b: bv32, x: bv32)
    ensures (b | x) & x == x
  {
  }

  lemma ApartSwap(x: bv32, y: bv32)
    requires Apart(x, y)
    ensures Apart(y, x)
  {
  }

  /** Setting one bit sets that bit and no other. */
  lemma SetBit(b: bv32, n: nat, i: nat)
    requires n < 32
    ensures Has(With(b, Bit(n)), Bit(i)) <==> i == n || Has(b, Bit(i))
  {
    hide Bit, Has, With, Apart;
    if i < n {
      BitsApart(i, n);
      ApartSwap(Bit(i), Bit(n));
      SetOther(b, Bit(n), Bit(i));
    } else if n < i {
      BitsApart(n, i);
      SetOther(b, Bit(n), Bit(i));
    } else {
      BitZeroIff(n);
      SetSame(b, Bit(n));
    }
  }

  lemma NoBits(b: bv32)
    ensures !Has(0, b) && !Has(b, 0)
  {
  }

  // ---------------------------------------------------------------- the fast form

  /** number() < 0 */
  predicate Negative(v: Value) {
    match v
    case Int(i) => i < 0
    case Long(n) => ToDouble(n) < 0
    case Double(bits) => (match DoubleValue(bits) case Some(x) => x < 0 case None => bits == 0xFFF0_0000_0000_0000)
    case _ => false
  }

  /** Ints and longs below zero; doubles with the sign bit, but neither minus zero nor one of the patterns that are not a
      number; and nothing else. */
  lemma NegativeIff(v: Value)
    requires v.Double? ==> v.bits < TWO64
    ensures Negative(v) <==>
      || (v.Int? && v.i < 0) || (v.Long? && v.n < 0)
      || (v.Double? && 0x8000_0000_0000_0000 < v.bits <= 0xFFF0_0000_0000_0000)
  {
    hide Pow2, RoundNat, DoubleValue;
    if v.Long? && v.n < 0 {
      RoundMonotone(1, -v.n);
      OneStays();
    } else if v.Double? {
      NegativeDouble(v.bits);
    }
  }

  lemma OneStays()
    ensures RoundNat(1) == 1
  {
  }

  lemma NegativeDouble(bits: nat)
    requires bits < TWO64
    ensures match DoubleValue(bits)
      case Some(x) => bits < 0xFFF0_0000_0000_0000 && (x < 0 <==> 0x8000_0000_0000_0000 < bits)
      case None => 0x7FF0_0000_0000_0000 <= bits < 0x8000_0000_0000_0000 || 0xFFF0_0000_0000_0000 <= bits
  {
    hide Pow2;
    var e, f := bits / TWO52 % 2048, bits % TWO52;
    var high := bits / TWO63 % 2;
    assert bits == high * TWO63 + e * TWO52 + f;
    if 0 < e < 2047 {
      TimesStrict(0, f + TWO52, Pow2(e - 1));
    }
  }

  datatype Ordering = Ordering(bits: bv32, nkeys: nat) {
    predicate Descending(mask: bv32) { Has(bits, mask) }
  }

  /** The bits are those of the pattern. */
  ghost predicate Encodes(o: Ordering, k: Doc) {
    o.nkeys == |k| <= 32 && forall i: nat :: o.Descending(Bit(i)) <==> i < |k| && Negative(k[i].value)
  }

  /** Ordering::make: at most 32 keys. */
  method Make(k: Doc) returns (o: Option<Ordering>)
    ensures o.Some? <==> |k| <= 32
    ensures o.Some? ==> Encodes(o.value, k)
  {
    hide Bit, Has, With, Negative;
    var b: bv32 := 0;
    var n := 0;
    forall i: nat ensures !Has(b, Bit(i)) {
      NoBits(Bit(i));
    }
    while n < |k|
      invariant n <= |k| && n <= 32
      invariant Encodes(Ordering(b, n), k[..n])
    {
      if 31 < n {
        return None;
      }
      if Negative(k[n].value) {
        forall i: nat ensures Has(With(b, Bit(n)), Bit(i)) <==> i == n || Has(b, Bit(i)) {
          SetBit(b, n, i);
        }
        b := With(b, Bit(n));
      }
      n := n + 1;
    }
    assert k[..n] == k;
    o := Some(Ordering(b, n));
  }

  function Directions(o: Ordering): seq<bool> {
    seq(32, i requires 0 <= i => o.Descending(Bit(i)))
  }

  /** woCompare with an Ordering: the mask moves along with the iterators. */
  method CompareByOrdering(l: Doc, r: Doc, o: Ordering, names: bool) returns (x: int)
    ensures x == DocCompare(l, r, Directions(o), names)
  {
    hide FieldCompare, DocCompare, Bit, Has;
    var i := 0;
    var mask: bv32 := 1;
    ghost var desc := Directions(o);
    FirstMask();
    while true
      invariant i <= |l| && i <= |r| && mask == Bit(i)
      invariant |desc| == (if i < 32 then 32 - i else 0) && forall j: nat :: j < |desc| ==> desc[j] == o.Descending(Bit(i + j))
      invariant DocCompare(l, r, Directions(o), names) == DocCompare(l[i..], r[i..], desc, names)
      decreases |l| - i
    {
      AtEnd(l[i..], r[i..], desc, names);
      if i == |l| {
        return if i == |r| then 0 else -1;
      }
      if i == |r| {
        return 1;
      }
      NextField(l[i..], r[i..], desc, names);
      x := FieldCompare(l[i], r[i], names);
      BitZeroIff(i);
      NoBits(o.bits);
      if o.Descending(mask) {
        x := -x;
      }
      if x != 0 {
        return;
      }
      NextMask(i);
      mask := mask << 1;
      desc := Rest(desc);
      i := i + 1;
    }
  }

  lemma FirstMask()
    ensures Bit(0) == 1
  {
  }

  lemma NextMask(i: nat)
    ensures Bit(i + 1) == Bit(i) << 1
  {
  }

  lemma AtEnd(l: Doc, r: Doc, desc: seq<bool>, names: bool)
    ensures l == [] ==> DocCompare(l, r, desc, names) == (if r == [] then 0 else -1)
    ensures l != [] && r == [] ==> DocCompare(l, r, desc, names) == 1
  {
    hide FieldCompare;
  }

  // ---------------------------------------------------------------- the pattern itself

  function KeyDirections(k: Doc): seq<bool> {
    seq(|k|, i requires 0 <= i < |k| => Negative(k[i].value))
  }

  /** The iterator over the pattern is asked for an element behind its end marker. */
  predicate RunsOut(l: Doc, r: Doc, k: Doc, names: bool) {
    k != [] && |k| < |l| && |k| < |r| && forall i :: 0 <= i <= |k| ==> FieldCompare(l[i], r[i], names) == 0
  }

  /** A document of two fields, compared with itself by its first. */
  lemma RunsOutExample()
    ensures var d := [Field([97], Null), Field([98], Null)]; RunsOut(d, d, [Field([97], Int(1))], true)
  {
    var d := [Field([97], Null), Field([98], Null)];
    forall i | 0 <= i <= 1 ensures FieldCompare(d[i], d[i], true) == 0 {
      LexiChain(CStr(d[i].name), CStr(d[i].name), []);
    }
  }

  /** woCompare with a key pattern. None where the iterator over the pattern asserts. */
  method CompareByPattern(l: Doc, r: Doc, k: Doc, names: bool) returns (x: Option<int>)
    ensures x.None? <==> RunsOut(l, r, k, names)
    ensures x.Some? ==> x.value == DocCompare(l, r, KeyDirections(k), names)
  {
    hide FieldCompare, DocCompare, Negative;
    AtEnd(l, r, KeyDirections(k), names);
    if l == [] {
      return Some(if r == [] then 0 else -1);
    }
    if r == [] {
      return Some(1);
    }
    var ordered := k != [];
    var i := 0;
    ghost var desc := KeyDirections(k);
    while true
      invariant i <= |l| && i <= |r| && (ordered ==> i <= |k| + 1)
      invariant forall j :: 0 <= j < i ==> FieldCompare(l[j], r[j], names) == 0
      invariant |desc| == (if i < |k| then |k| - i else 0) && forall j: nat :: j < |desc| ==> desc[j] == Negative(k[i + j].value)
      invariant DocCompare(l, r, KeyDirections(k), names) == DocCompare(l[i..], r[i..], desc, names)
      decreases |l| - i
    {
      if ordered && i == |k| + 1 {
        return None;
      }
      var descending := ordered && i < |k| && Negative(k[i].value);
      AtEnd(l[i..], r[i..], desc, names);
      if i == |l| {
        return Some(if i == |r| then 0 else -1);
      }
      if i == |r| {
        return Some(1);
      }
      NextField(l[i..], r[i..], desc, names);
      var y := FieldCompare(l[i], r[i], names);
      if descending {
        y := -y;
      }
      if y != 0 {
        return Some(y);
      }
      desc := Rest(desc);
      i := i + 1;
    }
  }

  // ---------------------------------------------------------------- the two agree

  /** Keys behind the end of the directions are ascending. */
  lemma {:induction false} SameDirections(l: Doc, r: Doc, d: seq<bool>, e: seq<bool>, names: bool)
    requires forall i: nat :: (i < |d| && d[i]) == (i < |e| && e[i])
    ensures DocCompare(l, r, d, names) == DocCompare(l, r, e, names)
    decreases |l|
  {
    hide FieldCompare;
    if l != [] && r != [] {
      assert Flip(d, FieldCompare(l[0], r[0], names)) == Flip(e, FieldCompare(l[0], r[0], names)) by {
        assert (0 < |d| && d[0]) == (0 < |e| && e[0]);
      }
      forall i: nat ensures (i < |Rest(d)| && Rest(d)[i]) == (i < |Rest(e)| && Rest(e)[i]) {
        assert (i + 1 < |d| && d[i + 1]) == (i + 1 < |e| && e[i + 1]);
      }
      SameDirections(l[1..], r[1..], Rest(d), Rest(e), names);
    }
  }

  lemma OrderingAgrees(l: Doc, r: Doc, k: Doc, o: Ordering, names: bool)
    requires Encodes(o, k)
    ensures DocCompare(l, r, Directions(o), names) == DocCompare(l, r, KeyDirections(k), names)
  {
    hide DocCompare, Bit, Has, Negative;
    var d, e := Directions(o), KeyDirections(k);
    forall i: nat ensures (i < |d| && d[i]) == (i < |e| && e[i]) {
      assert o.Descending(Bit(i)) <==> i < |k| && Negative(k[i].value);
    }
    SameDirections(l, r, d, e, names);
  }

  /** For a pattern of at most 32 keys the fast form gives what the pattern gives, for all documents, wherever the pattern
      gives anything: it fails exactly when both documents go on, equal, beyond the pattern's end marker. */
  method CompareBothWays(l: Doc, r: Doc, k: Doc, names: bool) returns (fast: int, slow: Option<int>)
    requires |k| <= 32
    ensures slow.Some? ==> slow.value == fast
    ensures slow.None? <==> RunsOut(l, r, k, names)
  {
    hide DocCompare, Encodes, RunsOut;
    var o := Make(k);
    OrderingAgrees(l, r, k, o.value, names);
    fast := CompareByOrdering(l, r, o.value, names);
    slow := CompareByPattern(l, r, k, names);
  }
}
