/** Doubles as the standard IEEE 754 defines them: the number that 64 bits stand for, and the double nearest to a long. */
module DoublesIeee {
  import opened Bytes
  import opened Document
  import opened Doubles

  // ---------------------------------------------------------------- the number

  /** 2 to the power `e`. */
  function PowR(e: int): real {
    if 0 <= e then Pow2(e) as real else 1.0 / (Pow2(-e) as real)
  }

  function Sign(bits: nat): real { if bits / TWO63 % 2 == 1 then -1.0 else 1.0 }

  function Exponent(bits: nat): nat { bits / TWO52 % 2048 }

  function Fraction(bits: nat): real { (bits % TWO52) as real / (TWO52 as real) }

  /** Section 3.4: a biased exponent of 11 bits, and 52 bits of fraction behind a one, or, where the exponent is least,
      behind a zero. */
  function Ieee(bits: nat): real {
    if Exponent(bits) == 0 then Sign(bits) * PowR(-1022) * Fraction(bits)
    else Sign(bits) * PowR(Exponent(bits) - 1023) * (1.0 + Fraction(bits))
  }

  /** Neither an infinity nor not a number. */
  predicate Finite(v: Value) {
    v.Double? ==> Exponent(v.bits) < 2047
  }

  /** The number a comparison sees. */
  function RealValue(v: Value): real
    requires IsNumber(v)
  {
    match v
    case Int(i) => i as real
    case Long(n) => ToDouble(n) as real
    case Double(bits) => Ieee(bits)
  }

  lemma {:induction false} Pow2Add(a: nat, b: nat)
    ensures Pow2(a + b) == Pow2(a) * Pow2(b)
    decreases a
  {
    if a > 0 {
      Pow2Add(a - 1, b);
      assert Pow2(a + b) == 2 * (Pow2(a - 1) * Pow2(b));
      Twice(Pow2(a - 1), Pow2(b));
    }
  }

  lemma Twice(a: int, b: int)
    ensures 2 * (a * b) == (2 * a) * b
  {
  }

  lemma Pow52()
    ensures Pow2(52) == TWO52
  {
    assert Pow2(4) == 16;
    assert Pow2(8) == 0x100;
    Pow2Add(8, 8);
    Pow2Add(16, 4);
    Pow2Add(16, 16);
    Pow2Add(32, 20);
  }

  lemma CastTimes(a: int, b: int)
    ensures (a * b) as real == (a as real) * (b as real)
  {
  }

  /** In units of 2 to the power -1074. */
  lemma PowUnits(e: int)
    requires -1074 <= e
    ensures PowR(e) * (Pow2(1074) as real) == Pow2(e + 1074) as real
  {
    hide Pow2;
    if 0 <= e {
      Pow2Add(e, 1074);
      CastTimes(Pow2(e), Pow2(1074));
    } else {
      Pow2Add(-e, e + 1074);
      CastTimes(Pow2(-e), Pow2(e + 1074));
      Cancel(Pow2(-e) as real, Pow2(e + 1074) as real);
    }
  }

  lemma Cancel(x: real, y: real)
    requires x != 0.0
    ensures 1.0 / x * (x * y) == y
  {
  }

  /** What the bits stand for, in those units. */
  lemma DoubleReal(bits: nat)
    requires Exponent(bits) < 2047
    ensures DoubleValue(bits).Some? && DoubleValue(bits).value as real == Ieee(bits) * (Pow2(1074) as real)
  {
    hide Pow2, PowR;
    var e: nat, f: nat := Exponent(bits), bits % TWO52;
    if e == 0 {
      LeastReal(Sign(bits), f);
    } else {
      NormalReal(Sign(bits), e, f);
    }
  }

  lemma LeastReal(s: real, f: nat)
    ensures s * PowR(-1022) * (f as real / (TWO52 as real)) * (Pow2(1074) as real) == s * (f as real)
  {
    hide Pow2, PowR;
    Pow52();
    PowUnits(-1022);
    Units(s, PowR(-1022), f as real / (TWO52 as real), Pow2(1074) as real, TWO52 as real);
  }

  lemma NormalReal(s: real, e: nat, f: nat)
    requires 0 < e
    ensures s * PowR(e - 1023) * (1.0 + f as real / (TWO52 as real)) * (Pow2(1074) as real)
      == s * (((f + TWO52) * Pow2(e - 1)) as real)
  {
    hide Pow2, PowR;
    var p := Pow2(e - 1);
    Pow52();
    PowUnits(e - 1023);
    Pow2Add(52, e - 1);
    CastTimes(TWO52, p);
    CastTimes(f + TWO52, p);
    Units(s, PowR(e - 1023), 1.0 + f as real / (TWO52 as real), Pow2(1074) as real, TWO52 as real * (p as real));
    Scale(f as real, TWO52 as real, p as real);
  }

  lemma Units(s: real, p: real, m: real, u: real, w: real)
    requires p * u == w
    ensures s * p * m * u == s * (m * w)
  {
    assert s * p * m * u == s * m * (p * u);
  }

  lemma Scale(f: real, c: real, p: real)
    requires c != 0.0
    ensures (1.0 + f / c) * (c * p) == (f + c) * p
  {
    assert f / c * c == f;
    assert (1.0 + f / c) * c == c + f;
    assert (1.0 + f / c) * (c * p) == (1.0 + f / c) * c * p;
  }

  // ---------------------------------------------------------------- the nearest double

  /** The spacing around `m` is this power of 2. */
  function UlpLog(m: nat): (j: nat)
    ensures Ulp(m) == Pow2(j)
  {
    if m < TWO53 then 0 else 1 + UlpLog(m / 2)
  }

  /** A double between 2 to the 52nd and 2 to the 53rd times a power of 2 is a multiple of it. */
  lemma NoneBetween(c: nat, q: nat, j: nat)
    requires Exponent(c) < 2047 && TWO52 <= q < TWO53
    ensures var x, w := DoubleValue(c).value, Pow2(j + 1074); x <= q * w || (q + 1) * w <= x
  {
    hide Pow2;
    var x, w := DoubleValue(c).value, Pow2(j + 1074);
    Times(0, q, w);
    if x > 0 {
      var e: nat, g := Exponent(c), c % TWO52 + TWO52;
      if e == 0 {
        Times(TWO52, q, w);
        Pow52();
        Times(1, w, TWO52);
      } else if e - 1 < j + 1074 {
        Smaller(g, e - 1, j + 1074);
        Times(TWO52, q, w);
      } else {
        var t := Multiple(g, e - 1, j + 1074);
        if t <= q {
          Times(t, q, w);
        } else {
          Times(q + 1, t, w);
        }
      }
    }
  }

  lemma Smaller(g: nat, a: nat, b: nat)
    requires g < TWO53 && a < b
    ensures g * Pow2(a) < TWO52 * Pow2(b)
  {
    hide Pow2;
    Pow2Less(a, b);
    TimesStrict(g, TWO53, Pow2(a));
    Times(2 * Pow2(a), Pow2(b), TWO52);
    assert TWO53 * Pow2(a) == 2 * Pow2(a) * TWO52;
  }

  lemma {:induction false} Pow2Less(a: nat, b: nat)
    requires a < b
    ensures 2 * Pow2(a) <= Pow2(b)
    decreases b
  {
    if a + 1 < b {
      Pow2Less(a, b - 1);
    }
  }

  lemma Multiple(g: nat, a: nat, b: nat) returns (t: nat)
    requires b <= a
    ensures g * Pow2(a) == t * Pow2(b) && t == g * Pow2(a - b)
  {
    hide Pow2;
    Pow2Add(a - b, b);
    t := g * Pow2(a - b);
    Regroup(g, Pow2(a - b), Pow2(b));
  }

  lemma Regroup(a: int, b: int, c: int)
    ensures a * (b * c) == a * b * c
  {
  }

  lemma DoubleParts(c: nat, x: int)
    requires DoubleValue(c) == Some(x) && 0 < x
    ensures var e, g := Exponent(c), c % TWO52 + TWO52;
      g < TWO53 && if e == 0 then x < TWO52 else x == g * Pow2(e - 1)
  {
    hide Pow2;
    if Exponent(c) > 0 {
      TimesStrict(0, c % TWO52 + TWO52, Pow2(Exponent(c) - 1));
    }
  }

  /** An odd multiple is a double whose last bit is one. */
  lemma OddLast(c: nat, q: nat, j: nat)
    requires TWO52 <= q < TWO53 && q % 2 == 1
    requires DoubleValue(c) == Some(q * Pow2(j + 1074))
    ensures c % 2 == 1
  {
    hide Pow2, Exponent, DoubleValue;
    var w := Pow2(j + 1074);
    var e: nat, g := Exponent(c), c % TWO52 + TWO52;
    TimesStrict(0, q, w);
    DoubleParts(c, q * w);
    Times(TWO52, q, w);
    Times(1, w, TWO52);
    if 0 < e {
      if e - 1 < j + 1074 {
        Smaller(g, e - 1, j + 1074);
      }
      SameMultiple(g, e - 1 - (j + 1074), q, j + 1074);
    }
    LastBit(c);
  }

  lemma SameMultiple(g: nat, d: nat, q: nat, b: nat)
    requires g * Pow2(d + b) == q * Pow2(b) && q % 2 == 1
    ensures g == q
  {
    hide Pow2;
    var t := Multiple(g, d + b, b);
    SameFactor(t, q, Pow2(b));
    if d > 0 {
      EvenPower(d);
      EvenTimes(g, Pow2(d));
    } else {
      PowZero();
    }
  }

  lemma PowZero()
    ensures Pow2(0) == 1
  {
  }

  lemma LastBit(c: nat)
    ensures c % TWO52 % 2 == c % 2
  {
  }

  lemma SameFactor(a: int, b: int, w: nat)
    requires a * w == b * w && 1 <= w
    ensures a == b
  {
    if a < b {
      TimesStrict(a, b, w);
    } else if b < a {
      TimesStrict(b, a, w);
    }
  }

  lemma EvenPower(k: nat)
    requires 0 < k
    ensures Pow2(k) % 2 == 0
  {
  }

  lemma EvenTimes(g: int, p: int)
    requires p % 2 == 0
    ensures g * p % 2 == 0
  {
    assert g * p == 2 * (g * (p / 2));
  }

  function Abs(x: int): nat { if x < 0 then -x else x }

  /** A large number between two multiples of the spacing, and the one it is rounded to, in units. */
  lemma LargeParts(m: nat) returns (q: nat, r: nat, u: nat, j: nat)
    requires TWO53 <= m
    ensures j == UlpLog(m)
    ensures TWO52 <= q < TWO53 && r < u && u * Pow2(1074) == Pow2(j + 1074)
    ensures m * Pow2(1074) == q * (u * Pow2(1074)) + r * Pow2(1074)
    ensures RoundNat(m) * Pow2(1074) == (if 2 * r < u || (2 * r == u && q % 2 == 0) then q else q + 1) * (u * Pow2(1074))
  {
    hide Pow2, Ulp;
    j, u := UlpLog(m), Ulp(m);
    q, r := m / u, m % u;
    UlpBounds(m);
    LargeUlp(m);
    DivParts(m, u);
    QuotientIn(m, u);
    Pow2Add(j, 1074);
    Regroup(q, u, Pow2(1074));
    Regroup(Nearest(m, u), u, Pow2(1074));
    Distribute(q * u, r, Pow2(1074));
  }

  lemma Distribute(a: int, b: int, p: int)
    ensures (a + b) * p == a * p + b * p
  {
  }

  /** No double is nearer to `m`, and where another is as near, its last bit is one. */
  lemma NearestNat(m: nat, c: nat, x: int)
    requires Exponent(c) < 2047 && DoubleValue(c) == Some(x)
    ensures var y, z := m * Pow2(1074), RoundNat(m) * Pow2(1074);
      Abs(z - y) <= Abs(x - y) && (Abs(z - y) == Abs(x - y) && x != z ==> c % 2 == 1)
  {
    hide Pow2, Exponent, DoubleValue, RoundNat;
    if m < TWO53 {
      RoundSmall(m);
    } else {
      var q, r, u, j := LargeParts(m);
      NoneBetween(c, q, j);
      Rounded(q, r, u, Pow2(1074));
      Nearer(x, q, r, u, Pow2(1074));
      OddNeighbour(c, x, q, j);
    }
  }

  lemma OddNeighbour(c: nat, x: int, q: nat, j: nat)
    requires DoubleValue(c) == Some(x) && TWO52 <= q < TWO53
    ensures x == (if q % 2 == 1 then q else q + 1) * Pow2(j + 1074) ==> c % 2 == 1
  {
    hide Pow2, Exponent, DoubleValue;
    if x == (if q % 2 == 1 then q else q + 1) * Pow2(j + 1074) {
      OddLast(c, if q % 2 == 1 then q else q + 1, j);
    }
  }

  lemma RoundSmall(m: nat)
    requires m < TWO53
    ensures RoundNat(m) == m
  {
  }

  lemma LargeUlp(m: nat)
    requires TWO53 <= m
    ensures 1 < Ulp(m)
  {
  }

  lemma QuotientIn(m: nat, u: nat)
    requires 1 <= u && TWO52 * u <= m < TWO53 * u
    ensures TWO52 <= m / u < TWO53
  {
    DivParts(m, u);
    if m / u < TWO52 {
      Times(m / u + 1, TWO52, u);
    }
    if TWO53 <= m / u {
      Times(TWO53, m / u, u);
    }
  }

  /** Which half of the way between two multiples a number is in, after scaling. */
  lemma Rounded(q: nat, r: nat, u: nat, p: nat)
    requires r < u && 1 <= p
    ensures r * p < u * p && (2 * r < u <==> 2 * (r * p) < u * p) && (2 * r == u <==> 2 * (r * p) == u * p)
  {
    TimesStrict(r, u, p);
    if 2 * r < u {
      TimesStrict(2 * r, u, p);
    } else if u < 2 * r {
      TimesStrict(u, 2 * r, p);
    }
  }

  lemma Nearer(x: int, q: nat, r: nat, u: nat, p: nat)
    requires r < u && 1 <= p && r * p < u * p
    requires (2 * r < u <==> 2 * (r * p) < u * p) && (2 * r == u <==> 2 * (r * p) == u * p)
    requires x <= q * (u * p) || (q + 1) * (u * p) <= x
    ensures var n := if 2 * r < u || (2 * r == u && q % 2 == 0) then q else q + 1;
      var y, z := q * (u * p) + r * p, n * (u * p);
      && Abs(z - y) <= Abs(x - y)
      && (Abs(z - y) == Abs(x - y) && x != z ==>
        if q % 2 == 1 then x == q * (u * p) else x == (q + 1) * (u * p))
  {
    var w := u * p;
    assert (q + 1) * w == q * w + w;
  }

  function Flipped(c: nat): nat { if c / TWO63 % 2 == 1 then c - TWO63 else c + TWO63 }

  lemma FlippedBits(c: nat)
    ensures var d := Flipped(c);
      && (d == c + TWO63 || d == c - TWO63) && d / TWO63 % 2 == 1 - c / TWO63 % 2
  {
  }

  lemma SameLow(c: nat, d: nat)
    requires d == c + TWO63
    ensures d % 2 == c % 2 && d % TWO52 == c % TWO52 && d / TWO52 == c / TWO52 + 2048
  {
  }

  function Magnitude(e: nat, f: nat): nat { if e == 0 then f else (f + TWO52) * Pow2(e - 1) }

  lemma SignAndMagnitude(c: nat)
    requires Exponent(c) < 2047
    ensures var m: int := Magnitude(Exponent(c), c % TWO52);
      DoubleValue(c) == Some(if c / TWO63 % 2 == 1 then -m else m)
  {
    hide Pow2;
  }

  lemma SameExponent(c: nat, d: nat)
    requires d / TWO52 == c / TWO52 + 2048
    ensures Exponent(d) == Exponent(c)
  {
  }

  lemma FlippedSign(c: nat)
    ensures Flipped(c) % 2 == c % 2 && Exponent(Flipped(c)) == Exponent(c)
    ensures Exponent(c) < 2047 ==> DoubleValue(c).Some? && DoubleValue(Flipped(c)) == Some(-DoubleValue(c).value)
  {
    hide DoubleValue, Flipped, Exponent, Magnitude;
    var d := Flipped(c);
    FlippedBits(c);
    if d == c + TWO63 {
      SameLow(c, d);
      SameExponent(c, d);
    } else {
      SameLow(d, c);
      SameExponent(d, c);
    }
    if Exponent(c) < 2047 {
      SignAndMagnitude(c);
      SignAndMagnitude(d);
    }
  }

  function AbsR(x: real): real { if x < 0.0 then -x else x }

  lemma NearestInt(n: int, c: nat, x: int)
    requires Exponent(c) < 2047 && DoubleValue(c) == Some(x)
    ensures var y, z := n * Pow2(1074), ToDouble(n) * Pow2(1074);
      Abs(z - y) <= Abs(x - y) && (Abs(z - y) == Abs(x - y) && x != z ==> c % 2 == 1)
  {
    hide Pow2, Exponent, DoubleValue, Flipped, RoundNat;
    if 0 <= n {
      NearestNat(n, c, x);
    } else {
      FlippedSign(c);
      NearestNat(-n, Flipped(c), -x);
      NegatedTimes(n, Pow2(1074));
      NegatedTimes(ToDouble(n), Pow2(1074));
    }
  }

  /** Section 4.3.1, round to nearest, ties to even: no double is nearer to `n` than what a long is converted to, and where
      a different one is as near, that one has an odd last bit. */
  lemma ToDoubleNearest(n: int, c: nat)
    requires Exponent(c) < 2047
    ensures var x, y, z := Ieee(c), n as real, ToDouble(n) as real;
      AbsR(z - y) <= AbsR(x - y) && (AbsR(z - y) == AbsR(x - y) && x != z ==> c % 2 == 1)
  {
    hide Pow2, Exponent, Ieee, DoubleValue, ToDouble, Abs, AbsR;
    DoubleReal(c);
    NearestInt(n, c, DoubleValue(c).value);
    InUnits(Ieee(c), n, ToDouble(n), DoubleValue(c).value, Pow2(1074));
  }

  lemma NegatedTimes(a: int, u: nat)
    ensures -a * u == -(a * u)
  {
  }

  /** Distances in units and distances. */
  lemma InUnits(v: real, n: int, z: int, x: int, u: nat)
    requires 1 <= u && x as real == v * (u as real)
    ensures Abs(z * u - n * u) <= Abs(x - n * u) <==> AbsR(z as real - n as real) <= AbsR(v - n as real)
    ensures Abs(z * u - n * u) == Abs(x - n * u) <==> AbsR(z as real - n as real) == AbsR(v - n as real)
    ensures x == z * u <==> v == z as real
  {
    hide Abs, AbsR;
    CastTimes(z, u);
    DistanceInUnits(v, n, x, u);
    DistanceInUnits(z as real, n, z * u, u);
    Scaled2(AbsR(z as real - n as real), AbsR(v - n as real), u as real);
    Scaled2(v, z as real, u as real);
    assert x == z * u <==> x as real == (z * u) as real;
  }

  lemma DistanceInUnits(v: real, n: int, x: int, u: nat)
    requires 1 <= u && x as real == v * (u as real)
    ensures Abs(x - n * u) as real == AbsR(v - n as real) * (u as real)
  {
    CastTimes(n, u);
    Distance(v, n as real, u as real);
  }

  lemma Distance(a: real, b: real, u: real)
    requires 0.0 < u
    ensures AbsR(a * u - b * u) == AbsR(a - b) * u
  {
    assert a * u - b * u == (a - b) * u;
    if a < b {
      PositiveTimes(b - a, u);
    } else {
      PositiveTimes(a - b, u);
    }
  }

  lemma PositiveTimes(a: real, u: real)
    requires 0.0 <= a && 0.0 < u
    ensures 0.0 <= a * u
  {
  }

  lemma Scaled2(a: real, b: real, u: real)
    requires 0.0 < u
    ensures (a <= b <==> a * u <= b * u) && (a == b <==> a * u == b * u)
  {
    assert b * u - a * u == (b - a) * u;
  }

  // ---------------------------------------------------------------- the result is a double

  /** A number of 53 bits, the first one set, times a power of 2. */
  lemma Packed(e: nat, g: nat) returns (b: nat)
    requires 0 < e < 2047 && TWO52 <= g < TWO53
    ensures Exponent(b) == e && DoubleValue(b) == Some(g * Pow2(e - 1))
  {
    hide Pow2;
    b := e * TWO52 + (g - TWO52);
    assert b / TWO52 == e && b % TWO52 == g - TWO52;
    assert b / TWO63 == 0;
  }

  /** The first bit of a small number. */
  function Log(m: nat): (k: nat)
    requires 0 < m
    ensures Pow2(k) <= m < 2 * Pow2(k)
  {
    if m == 1 then 0 else 1 + Log(m / 2)
  }

  lemma ZeroPacked()
    ensures Exponent(0) == 0 && DoubleValue(0) == Some(0)
  {
  }

  lemma SmallPacked(m: nat) returns (b: nat)
    requires m < TWO53
    ensures Exponent(b) < 2047 && DoubleValue(b) == Some(m * Pow2(1074))
  {
    hide Pow2, DoubleValue, Exponent, Log;
    if m == 0 {
      ZeroPacked();
      b := 0;
    } else {
      var k := Log(m);
      LogSmall(k, m);
      var g := m * Pow2(52 - k);
      Pow2Add(52 - k, k);
      Pow52();
      Times(Pow2(k), m, Pow2(52 - k));
      TimesStrict(m, 2 * Pow2(k), Pow2(52 - k));
      b := Packed(k + 1023, g);
      Pow2Add(52 - k, k + 1022);
      Regroup(m, Pow2(52 - k), Pow2(k + 1022));
    }
  }

  lemma LogSmall(k: nat, m: nat)
    requires Pow2(k) <= m < TWO53
    ensures k <= 52
  {
    hide Pow2;
    if 53 <= k {
      Pow52();
      Pow2Less(52, k);
    }
  }

  lemma {:induction false} UlpLogSmall(m: nat, k: nat)
    requires m < TWO53 * Pow2(k)
    ensures UlpLog(m) <= k
    decreases k
  {
    if TWO53 <= m {
      if k > 0 {
        UlpLogSmall(m / 2, k - 1);
      }
    }
  }

  lemma LargePacked(m: nat) returns (b: nat)
    requires TWO53 <= m <= TWO63
    ensures Exponent(b) < 2047 && DoubleValue(b) == Some(RoundNat(m) * Pow2(1074))
  {
    hide Pow2, RoundNat, DoubleValue;
    var q, r, u, j := LargeParts(m);
    assert Pow2(11) == 2048 by { PowEleven(); }
    UlpLogSmall(m, 11);
    var n := if 2 * r < u || (2 * r == u && q % 2 == 0) then q else q + 1;
    if n < TWO53 {
      b := Packed(j + 1075, n);
    } else {
      b := Packed(j + 1076, TWO52);
      Pow2Next(j + 1074);
      assert TWO52 * (2 * Pow2(j + 1074)) == TWO53 * Pow2(j + 1074);
    }
  }

  lemma PowEleven()
    ensures Pow2(11) == 2048
  {
    assert Pow2(5) == 32;
  }

  lemma Pow2Next(k: nat)
    ensures Pow2(k + 1) == 2 * Pow2(k)
  {
  }

  lemma NatPacked(m: nat) returns (b: nat)
    requires m <= TWO63
    ensures Exponent(b) < 2047 && DoubleValue(b) == Some(RoundNat(m) * Pow2(1074))
  {
    hide Pow2, Exponent, DoubleValue, RoundNat;
    if m < TWO53 {
      RoundSmall(m);
      b := SmallPacked(m);
    } else {
      b := LargePacked(m);
    }
  }

  lemma IntPacked(n: int) returns (b: nat)
    requires -TWO63 <= n <= TWO63
    ensures Exponent(b) < 2047 && DoubleValue(b) == Some(ToDouble(n) * Pow2(1074))
  {
    hide Pow2, Exponent, DoubleValue, Flipped, RoundNat;
    b := NatPacked(if 0 <= n then n else -n);
    if n < 0 {
      NegatedTimes(RoundNat(-n), Pow2(1074));
      FlippedSign(b);
      b := Flipped(b);
    }
  }

  /** What a long is converted to is a double. */
  lemma ToDoubleIsDouble(n: int) returns (b: nat)
    requires -TWO63 <= n <= TWO63
    ensures Exponent(b) < 2047 && Ieee(b) == ToDouble(n) as real
  {
    hide Pow2, Exponent, Ieee, DoubleValue, ToDouble;
    b := IntPacked(n);
    DoubleReal(b);
    CastTimes(ToDouble(n), Pow2(1074));
    Scaled2(Ieee(b), ToDouble(n) as real, Pow2(1074) as real);
  }
}
