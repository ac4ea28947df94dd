/** The number-aware string order of field names, and the order of dotted names built on it. */
module LexNum {
  import opened Bytes

  const ZERO: byte := 48
  const TOP: byte := 255

  /** `char` is signed: bytes from 128 up compare below the others. */
  function Signed(c: byte): int { if c < 128 then c else c - 256 }

  function Sign(x: int): int { if x < 0 then -1 else if x > 0 then 1 else 0 }

  // ---------------------------------------------------------------- the order, on tokens

  datatype Token = Plain(c: int) | Number(value: nat) | Top

  /** The end of the run of digits at the front. */
  function DigitRun(s: seq<byte>): (n: nat)
    ensures n <= |s|
    ensures forall i :: 0 <= i < n ==> IsDigit(s[i])
    ensures n < |s| ==> !IsDigit(s[n])
  {
    if s != [] && IsDigit(s[0]) then 1 + DigitRun(s[1..]) else 0
  }

  function Digit(c: byte): nat
    requires IsDigit(c)
  {
    c as int - 48
  }

  /** The number written by decimal digits after a part worth `acc`. */
  function Value(acc: nat, d: seq<byte>): nat
    requires forall i :: 0 <= i < |d| ==> IsDigit(d[i])
    decreases d
  {
    if d == [] then acc else Value(10 * acc + Digit(d[0]), d[1..])
  }

  /** A string as the order reads it: maximal digit runs are numbers of any length, byte 255 is above everything. */
  function Tokens(s: seq<byte>): seq<Token>
    decreases |s|
  {
    if s == [] then []
    else if s[0] == TOP then [Top] + Tokens(s[1..])
    else if IsDigit(s[0]) then
      var n := DigitRun(s);
      [Number(Value(0, s[..n]))] + Tokens(s[n..])
    else [Plain(Signed(s[0]))] + Tokens(s[1..])
  }

  function TokenCompare(a: Token, b: Token): int {
    match (a, b)
    case (Plain(c), Plain(d)) => Sign(c - d)
    case (Plain(_), _) => -1
    case (Number(_), Plain(_)) => 1
    case (Number(m), Number(n)) => Sign(m - n)
    case (Number(_), Top) => -1
    case (Top, Top) => 0
    case (Top, _) => 1
  }

  /** Lexicographic order of token sequences, a prefix first. */
  function Compare(a: seq<Token>, b: seq<Token>): int {
    if a == [] then (if b == [] then 0 else -1)
    else if b == [] then 1
    else
      var x := TokenCompare(a[0], b[0]);
      if x != 0 then x else Compare(a[1..], b[1..])
  }

  function Order(s: seq<byte>, t: seq<byte>): int { Compare(Tokens(s), Tokens(t)) }

  lemma {:induction false} CompareSwap(a: seq<Token>, b: seq<Token>)
    ensures Compare(b, a) == -Compare(a, b)
  {
    if a != [] && b != [] { CompareSwap(a[1..], b[1..]); }
  }

  lemma {:induction false} CompareEqual(a: seq<Token>, b: seq<Token>)
    ensures Compare(a, b) == 0 <==> a == b
  {
    if a != [] && b != [] {
      CompareEqual(a[1..], b[1..]);
      assert a == [a[0]] + a[1..] && b == [b[0]] + b[1..];
    }
  }

  lemma {:induction false} CompareTransitive(a: seq<Token>, b: seq<Token>, c: seq<Token>)
    requires Compare(a, b) <= 0 && Compare(b, c) <= 0
    ensures Compare(a, c) <= 0
  {
    if a != [] && b != [] && c != [] && TokenCompare(a[0], b[0]) == 0 && TokenCompare(b[0], c[0]) == 0 {
      CompareTransitive(a[1..], b[1..], c[1..]);
    }
  }

  /** What qsort needs: antisymmetric, transitive, total, and equal exactly on equal tokens. */
  lemma OrderIsTotalPreorder(s: seq<byte>, t: seq<byte>, u: seq<byte>)
    ensures Order(t, s) == -Order(s, t)
    ensures Order(s, t) <= 0 && Order(t, u) <= 0 ==> Order(s, u) <= 0
    ensures Order(s, t) == 0 <==> Tokens(s) == Tokens(t)
  {
    hide Tokens;
    CompareSwap(Tokens(s), Tokens(t));
    CompareEqual(Tokens(s), Tokens(t));
    if Order(s, t) <= 0 && Order(t, u) <= 0 {
      CompareTransitive(Tokens(s), Tokens(t), Tokens(u));
    }
  }

  /** How strings compare that differ in their first bytes: characters by their signed value, below numbers, which are
      below byte 255. */
  lemma FirstsDecide(s: seq<byte>, t: seq<byte>)
    requires s != [] && t != [] && s[0] != t[0] && !(IsDigit(s[0]) && IsDigit(t[0]))
    ensures Order(s, t) < 0 <==>
      if t[0] == 255 then true
      else if s[0] == 255 then false
      else if IsDigit(t[0]) then true
      else if IsDigit(s[0]) then false
      else if s[0] < 128 && t[0] < 128 then s[0] < t[0]
      else if s[0] >= 128 && t[0] >= 128 then s[0] < t[0]
      else s[0] >= 128
  {
    hide DigitRun, Value;
  }

  /** And strings that begin with the same byte, not a digit: by what is behind it. */
  lemma SameFirst(c: byte, s: seq<byte>, t: seq<byte>)
    requires !IsDigit(c)
    ensures Order([c] + s, [c] + t) == Order(s, t)
  {
    TokensBehind(c, s);
    TokensBehind(c, t);
    var x := if c == TOP then Top else Plain(Signed(c));
    assert ([x] + Tokens(s))[1..] == Tokens(s) && ([x] + Tokens(t))[1..] == Tokens(t);
  }

  lemma TokensBehind(c: byte, s: seq<byte>)
    requires !IsDigit(c)
    ensures Tokens([c] + s) == [if c == TOP then Top else Plain(Signed(c))] + Tokens(s)
  {
    assert ([c] + s)[1..] == s;
  }

  /** A string comes before those that it starts. */
  lemma EmptyIsFirst(s: seq<byte>)
    requires s != []
    ensures Order([], s) < 0
  {
  }

  // ---------------------------------------------------------------- comparing digit runs without their values

  predicate Digits(d: seq<byte>) { forall i :: 0 <= i < |d| ==> IsDigit(d[i]) }

  /** strncmp over the first bytes of two strings of at least that length. */
  function StrNCmp(d: seq<byte>, e: seq<byte>): int
    requires |d| == |e|
  {
    if d == [] then 0 else if d[0] != e[0] then d[0] - e[0] else StrNCmp(d[1..], e[1..])
  }

  lemma {:induction false} ValueMonotone(a: nat, d: seq<byte>, b: nat, e: seq<byte>)
    requires Digits(d) && Digits(e) && |d| == |e| && a < b
    ensures Value(a, d) < Value(b, e)
    decreases d
  {
    if d != [] {
      ValueMonotone(10 * a + Digit(d[0]), d[1..], 10 * b + Digit(e[0]), e[1..]);
    }
  }

  lemma {:induction false} SameLength(a: nat, d: seq<byte>, e: seq<byte>)
    requires Digits(d) && Digits(e) && |d| == |e|
    ensures Sign(StrNCmp(d, e)) == Sign(Value(a, d) - Value(a, e))
    decreases d
  {
    if d != [] {
      if d[0] == e[0] {
        SameLength(10 * a + Digit(d[0]), d[1..], e[1..]);
      } else if d[0] < e[0] {
        ValueMonotone(10 * a + Digit(d[0]), d[1..], 10 * a + Digit(e[0]), e[1..]);
      } else {
        ValueMonotone(10 * a + Digit(e[0]), e[1..], 10 * a + Digit(d[0]), d[1..]);
      }
    }
  }

  lemma {:induction false} ValueSplit(a: nat, d: seq<byte>, k: nat)
    requires Digits(d) && k <= |d|
    ensures Value(a, d) == Value(Value(a, d[..k]), d[k..])
    ensures 0 < a ==> 0 < Value(a, d[..k])
    decreases d
  {
    if k > 0 {
      ValueSplit(10 * a + Digit(d[0]), d[1..], k - 1);
      assert d[1..][..k - 1] == d[..k][1..] && d[1..][k - 1..] == d[k..];
    } else {
      assert d[k..] == d;
    }
  }

  /** Without leading zeros, the longer run is the larger number. */
  lemma LongerIsLarger(d: seq<byte>, e: seq<byte>)
    requires Digits(d) && Digits(e) && |d| > |e| && d[0] != ZERO
    ensures Value(0, d) > Value(0, e)
  {
    var k := |d| - |e|;
    ValueSplit(Digit(d[0]), d[1..], k - 1);
    assert d[1..][k - 1..] == d[k..];
    ValueMonotone(0, e, Value(Digit(d[0]), d[1..][..k - 1]), d[k..]);
  }

  lemma {:induction false} LeadingZeros(d: seq<byte>, k: nat)
    requires Digits(d) && k <= |d| && forall i :: 0 <= i < k ==> d[i] == ZERO
    ensures Value(0, d) == Value(0, d[k..])
  {
    if k > 0 {
      LeadingZeros(d[1..], k - 1);
      assert d[1..][k - 1..] == d[k..];
    } else {
      assert d[k..] == d;
    }
  }

  // ---------------------------------------------------------------- lexNumCmp

  /** The byte a C pointer sees: the terminator at the end. */
  function At(s: seq<byte>, i: nat): byte { if i < |s| then s[i] else 0 }

  method SkipZeros(s: seq<byte>, i: nat) returns (k: nat)
    requires i <= |s|
    ensures i <= k <= |s| && (forall x :: i <= x < k ==> s[x] == ZERO) && At(s, k) != ZERO
  {
    k := i;
    while At(s, k) == ZERO
      invariant i <= k <= |s| && forall x :: i <= x < k ==> s[x] == ZERO
      decreases |s| - k
    {
      k := k + 1;
    }
  }

  method SkipDigits(s: seq<byte>, i: nat) returns (k: nat)
    requires i <= |s|
    ensures i <= k <= |s| && Digits(s[i..k]) && !IsDigit(At(s, k))
  {
    k := i;
    while IsDigit(At(s, k))
      invariant i <= k <= |s| && Digits(s[i..k])
      decreases |s| - k
    {
      assert s[i..k + 1] == s[i..k] + [s[k]];
      k := k + 1;
    }
  }

  /** One digit run, consumed with its leading zeros, is one number token. */
  lemma NumberStep(s: seq<byte>, i: nat, z: nat, e: nat)
    requires i < |s| && IsDigit(s[i]) && i <= z <= e <= |s|
    requires (forall x :: i <= x < z ==> s[x] == ZERO) && Digits(s[z..e]) && !IsDigit(At(s, e))
    ensures i < e && Tokens(s[i..]) == [Number(Value(0, s[z..e]))] + Tokens(s[e..])
  {
    var t, n := s[i..], e - i;
    forall x | 0 <= x < n ensures IsDigit(t[x]) {
      if i + x >= z { assert t[x] == s[z..e][i + x - z]; }
    }
    RunEnd(t, n);
    assert t[..n] == s[i..e] && t[n..] == s[e..];
    LeadingZeros(s[i..e], z - i);
    assert s[i..e][z - i..] == s[z..e];
  }

  lemma {:induction false} RunEnd(t: seq<byte>, n: nat)
    requires n <= |t| && (forall x :: 0 <= x < n ==> IsDigit(t[x])) && (n < |t| ==> !IsDigit(t[n]))
    ensures DigitRun(t) == n
  {
    if n > 0 {
      RunEnd(t[1..], n - 1);
    }
  }

  lemma PlainStep(s: seq<byte>, i: nat)
    requires i < |s| && !IsDigit(s[i])
    ensures Tokens(s[i..]) == [if s[i] == TOP then Top else Plain(Signed(s[i]))] + Tokens(s[i + 1..])
  {
    assert s[i..][1..] == s[i + 1..];
  }

  /** How two digit runs without leading zeros compare: by length, then byte by byte. */
  lemma RunsCompare(d: seq<byte>, e: seq<byte>)
    requires Digits(d) && Digits(e) && (d != [] ==> d[0] != ZERO) && (e != [] ==> e[0] != ZERO)
    ensures Sign(Value(0, d) - Value(0, e)) ==
      if |d| > |e| then 1 else if |d| < |e| then -1 else Sign(StrNCmp(d, e))
  {
    if |d| > |e| {
      LongerIsLarger(d, e);
    } else if |d| < |e| {
      LongerIsLarger(e, d);
    } else {
      SameLength(0, d, e);
    }
  }

  /** Strings that begin with digits: by the numbers these write, leading zeros or not, and then by what is behind. */
  lemma NumbersDecide(d: seq<byte>, x: seq<byte>, e: seq<byte>, y: seq<byte>)
    requires Digits(d) && Digits(e) && d != [] && e != []
    requires (x == [] || !IsDigit(x[0])) && (y == [] || !IsDigit(y[0]))
    ensures Order(d + x, e + y) == if Value(0, d) != Value(0, e) then Sign(Value(0, d) - Value(0, e)) else Order(x, y)
  {
    hide Value, Tokens;
    NumberFirst(d, x);
    NumberFirst(e, y);
    var a, b := [Number(Value(0, d))] + Tokens(x), [Number(Value(0, e))] + Tokens(y);
    assert a[1..] == Tokens(x) && b[1..] == Tokens(y);
  }

  lemma NumberFirst(d: seq<byte>, x: seq<byte>)
    requires Digits(d) && d != [] && (x == [] || !IsDigit(x[0]))
    ensures Tokens(d + x) == [Number(Value(0, d))] + Tokens(x)
  {
    hide Value, DigitRun;
    var t := d + x;
    assert t[0] == d[0];
    RunEnd(t, |d|);
    assert t[..|d|] == d && t[|d|..] == x;
  }

  /** The sign of lexNumCmp is the token order, for strings of any length. */
  method LexNumCmp(s1: seq<byte>, s2: seq<byte>) returns (r: int)
    requires NoNul(s1) && NoNul(s2)
    ensures Sign(r) == Order(s1, s2)
  {
    hide Tokens, Value, StrNCmp;
    var i, j := 0, 0;
    assert s1[0..] == s1 && s2[0..] == s2;
    while At(s1, i) != 0 && At(s2, j) != 0
      invariant i <= |s1| && j <= |s2|
      invariant Order(s1, s2) == Order(s1[i..], s2[j..])
      decreases |s1| - i
    {
      var p1, p2 := s1[i] == TOP, s2[j] == TOP;
      var n1, n2 := IsDigit(s1[i]), IsDigit(s2[j]);
      HeadTokens(s1, i);
      HeadTokens(s2, j);
      if p1 && !p2 {
        return 1;
      }
      if p2 && !p1 {
        return -1;
      }
      if n1 && n2 {
        var z1 := SkipZeros(s1, i);
        var z2 := SkipZeros(s2, j);
        var e1 := SkipDigits(s1, z1);
        var e2 := SkipDigits(s2, z2);
        NumberStep(s1, i, z1, e1);
        NumberStep(s2, j, z2, e2);
        RunsCompare(s1[z1..e1], s2[z2..e2]);
        var len1, len2 := e1 - z1, e2 - z2;
        if len1 > len2 {
          return 1;
        } else if len2 > len1 {
          return -1;
        }
        r := StrNCmp(s1[z1..e1], s2[z2..e2]);
        if r != 0 {
          return;
        }
        i, j := e1, e2;
        continue;
      }
      if n1 {
        return 1;
      }
      if n2 {
        return -1;
      }
      if Signed(s1[i]) > Signed(s2[j]) {
        return 1;
      }
      if Signed(s2[j]) > Signed(s1[i]) {
        return -1;
      }
      i, j := i + 1, j + 1;
    }
    EndOfString(s1, i);
    EndOfString(s2, j);
    if At(s1, i) != 0 {
      return 1;
    }
    if At(s2, j) != 0 {
      return -1;
    }
    return 0;
  }

  lemma HeadTokens(s: seq<byte>, i: nat)
    requires i < |s|
    ensures Tokens(s[i..]) != []
    ensures var t := Tokens(s[i..])[0];
      if IsDigit(s[i]) then t.Number? else t == if s[i] == TOP then Top else Plain(Signed(s[i]))
    ensures !IsDigit(s[i]) ==> Tokens(s[i..])[1..] == Tokens(s[i + 1..])
  {
    if !IsDigit(s[i]) { PlainStep(s, i); }
  }

  lemma EndOfString(s: seq<byte>, i: nat)
    requires NoNul(s) && i <= |s|
    ensures At(s, i) == 0 <==> Tokens(s[i..]) == []
  {
    if i < |s| { HeadTokens(s, i); }
  }
}
