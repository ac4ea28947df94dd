/** The numbers a comparison sees: what a double stands for, and what becomes of a long converted to one. */
module Doubles {
  import opened Bytes
  import opened Document

  const TWO52: int := 0x10_0000_0000_0000
  const TWO53: int := 0x20_0000_0000_0000

  // ---------------------------------------------------------------- converting a long

  /** The spacing of doubles around `m`. */
  function Ulp(m: nat): (u: nat)
    ensures 1 <= u
  {
    if m < TWO53 then 1 else 2 * Ulp(m / 2)
  }

  /** To the nearest multiple of the spacing, ties to the even one. */
  function RoundNat(m: nat): nat {
    Nearest(m, Ulp(m)) * Ulp(m)
  }

  function Nearest(m: nat, u: nat): nat
    requires 1 <= u
  {
    var q, r := m / u, m % u;
    if 2 * r < u || (2 * r == u && q % 2 == 0) then q else q + 1
  }

  /** (double) n, the default rounding. */
  function ToDouble(n: int): int {
    var magnitude: int := RoundNat(if 0 <= n then n else -n);
    if 0 <= n then magnitude else -magnitude
  }

  lemma {:induction false} UlpBounds(m: nat)
    ensures m < TWO53 * Ulp(m)
    ensures 1 < Ulp(m) ==> TWO52 * Ulp(m) <= m
    decreases m
  {
    if TWO53 <= m {
      UlpBounds(m / 2);
    }
  }

  lemma {:induction false} UlpMonotone(m: nat, n: nat)
    requires m <= n
    ensures Ulp(m) == Ulp(n) || 2 * Ulp(m) <= Ulp(n)
    decreases m
  {
    if TWO53 <= m {
      UlpMonotone(m / 2, n / 2);
    }
  }

  lemma DivMonotone(m: nat, n: nat, u: nat)
    requires 1 <= u && m <= n
    ensures m / u <= n / u
  {
    if n / u < m / u {
      DivParts(m, u);
      DivParts(n, u);
      Times(n / u + 1, m / u, u);
    }
  }

  lemma DivParts(m: nat, u: nat)
    requires 1 <= u
    ensures m == (m / u) * u + m % u && m % u < u
  {
  }

  lemma Times(a: int, b: int, u: nat)
    requires a <= b
    ensures a * u <= b * u
  {
  }

  lemma NearestMonotone(m: nat, n: nat, u: nat)
    requires 1 <= u && m <= n
    ensures Nearest(m, u) <= Nearest(n, u)
  {
    DivMonotone(m, n, u);
    DivParts(m, u);
    DivParts(n, u);
  }

  /** A quotient bounded by the spacing. */
  lemma QuotientBound(m: nat, u: nat)
    requires 1 <= u
    ensures m < TWO53 * u ==> Nearest(m, u) <= TWO53
    ensures TWO52 * u <= m ==> TWO52 <= Nearest(m, u)
  {
    DivParts(m, u);
    if m < TWO53 * u && TWO53 <= m / u {
      Times(TWO53, m / u, u);
    }
    if TWO52 * u <= m && m / u < TWO52 {
      Times(m / u + 1, TWO52, u);
    }
  }

  /** Rounding never reverses an order. */
  lemma RoundMonotone(m: nat, n: nat)
    requires m <= n
    ensures RoundNat(m) <= RoundNat(n)
  {
    hide Nearest, Ulp;
    var u, w := Ulp(m), Ulp(n);
    UlpMonotone(m, n);
    if u == w {
      NearestMonotone(m, n, u);
      Times(Nearest(m, u), Nearest(n, u), u);
    } else {
      UlpBounds(m);
      UlpBounds(n);
      QuotientBound(m, u);
      QuotientBound(n, w);
      Times(Nearest(m, u), TWO53, u);
      Times(TWO52, Nearest(n, w), w);
    }
  }

  lemma ToDoubleMonotone(m: int, n: int)
    requires m <= n
    ensures ToDouble(m) <= ToDouble(n)
  {
    hide RoundNat;
    if 0 <= m {
      RoundMonotone(m, n);
    } else if n < 0 {
      RoundMonotone(-n, -m);
    }
  }

  /** Up to 2 to the 53rd the conversion is exact. */
  lemma ToDoubleExact(n: int)
    requires -TWO53 <= n <= TWO53
    ensures ToDouble(n) == n
  {
  }

  // ---------------------------------------------------------------- what a double stands for

  function Pow2(n: nat): (p: nat)
    ensures 1 <= p
  {
    if n == 0 then 1 else 2 * Pow2(n - 1)
  }

  /** The value of a finite double, in units of the least positive one, which is 2 to the power -1074. */
  function DoubleValue(bits: nat): Option<int> {
    var negative := bits / TWO63 % 2 == 1;
    var exponent := bits / TWO52 % 2048;
    var fraction := bits % TWO52;
    if exponent == 2047 then None
    else
      var magnitude := if exponent == 0 then fraction else (fraction + TWO52) * Pow2(exponent - 1);
      Some(if negative then -magnitude else magnitude)
  }

  predicate IsNumber(v: Value) { v.Double? || v.Int? || v.Long? }

  /** number(), in the same units. None for infinities and NaN. */
  function Scaled(v: Value): Option<int>
    requires IsNumber(v)
  {
    match v
    case Int(i) => Some(i * Pow2(1074))
    case Long(n) => Some(ToDouble(n) * Pow2(1074))
    case Double(bits) => DoubleValue(bits)
  }

  lemma TimesStrict(a: int, b: int, u: nat)
    requires a < b && 1 <= u
    ensures a * u < b * u
  {
  }

  /** Longs keep their order, if not their difference, when they are converted. */
  lemma LongsScaled(m: int, n: int)
    requires m <= n
    ensures Scaled(Long(m)).value <= Scaled(Long(n)).value
    ensures Scaled(Long(m)) == Scaled(Long(n)) <==> ToDouble(m) == ToDouble(n)
  {
    hide Pow2, ToDouble;
    ToDoubleMonotone(m, n);
    Times(ToDouble(m), ToDouble(n), Pow2(1074));
    if ToDouble(m) < ToDouble(n) {
      TimesStrict(ToDouble(m), ToDouble(n), Pow2(1074));
    }
  }
}
