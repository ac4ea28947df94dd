/** Printed strings, names and numbers, and the rules that read them. */
module JsonPieces {
  import opened Bytes
  import opened Document
  import opened JsonText
  import opened JsonGrammar

  /** The names that start a special form which is not part of this model. */
  predicate StartsSpecial(n: seq<byte>) {
    n == DATE_NAME || n == OID_NAME || n == BINARY_NAME || n == REGEX_NAME
  }

  lemma ByteAt(t: seq<byte>, p: nat, x: seq<byte>, i: nat)
    requires Holds(t, p, x) && i < |x|
    ensures p + i < |t| && t[p + i] == x[i]
  {
    assert t[p..p + |x|][i] == x[i];
  }

  // ---------------------------------------------------------------- white space

  predicate Spaces(t: seq<byte>, a: nat, b: nat) {
    a <= b <= |t| && forall i :: a <= i < b ==> IsSpace(t[i])
  }

  lemma {:induction false} SkipTo(t: seq<byte>, a: nat, b: nat)
    requires Spaces(t, a, b) && (b == |t| || !IsSpace(t[b]))
    ensures Skip(t, a) == b
    decreases b - a
  {
    if a < b {
      SkipTo(t, a + 1, b);
    }
  }

  lemma {:induction false} BlanksAreSpaces(n: nat)
    ensures forall i :: 0 <= i < |Blanks(n)| ==> IsSpace(Blanks(n)[i])
  {
    if n != 0 {
      BlanksAreSpaces(n - 1);
    }
  }

  lemma SpacesAt(t: seq<byte>, p: nat, x: seq<byte>)
    requires Holds(t, p, x) && forall i :: 0 <= i < |x| ==> IsSpace(x[i])
    ensures Spaces(t, p, p + |x|)
  {
    forall i | p <= i < p + |x| ensures IsSpace(t[i]) {
      ByteAt(t, p, x, i - p);
    }
  }

  // ---------------------------------------------------------------- strings

  /** Each byte is read back as it was escaped. */
  lemma ByteBack(t: seq<byte>, p: nat, c: byte)
    requires Holds(t, p, EscapeByte(c))
    ensures p + |EscapeByte(c)| <= |t|
    ensures Chars(t, p, QUOTE) == Before([c], Chars(t, p + |EscapeByte(c)|, QUOTE))
  {
    var x := EscapeByte(c);
    ByteAt(t, p, x, 0);
    if 1 < |x| {
      ByteAt(t, p, x, 1);
    }
    if |x| == 6 {
      ByteAt(t, p, x, 2);
      ByteAt(t, p, x, 3);
      ByteAt(t, p, x, 4);
      ByteAt(t, p, x, 5);
      UnitBack(t, p, c);
    }
  }

  lemma UnitBack(t: seq<byte>, p: nat, c: byte)
    requires p + 6 <= |t| && c <= 0x1f
    requires t[p] == BACKSLASH && t[p + 1] == 117 && t[p + 2] == t[p + 3] == 48
    requires t[p + 4] == HexDigit(c / 16) && t[p + 5] == HexDigit(c % 16)
    ensures Chars(t, p, QUOTE) == Before([c], Chars(t, p + 6, QUOTE))
  {
    assert HexValue(t[p + 4]) * 16 + HexValue(t[p + 5]) == c;
    assert Hex4(t, p + 2);
  }

  /** The parser's `str` undoes `escape`, for arbitrary bytes. */
  lemma {:induction false} CharsBack(t: seq<byte>, p: nat, s: seq<byte>)
    requires Holds(t, p, Escape(s) + [QUOTE])
    ensures Chars(t, p, QUOTE) == Ok(s, p + |Escape(s)| + 1)
    decreases |s|
  {
    hide EscapeByte, Chars;
    if s == [] {
      assert Escape(s) + [QUOTE] == [QUOTE];
      ByteAt(t, p, [QUOTE], 0);
      ClosingQuote(t, p);
    } else {
      assert Escape(s) + [QUOTE] == EscapeByte(s[0]) + (Escape(s[1..]) + [QUOTE]);
      HoldsParts(t, p, EscapeByte(s[0]), Escape(s[1..]) + [QUOTE]);
      ByteBack(t, p, s[0]);
      CharsBack(t, p + |EscapeByte(s[0])|, s[1..]);
      assert [s[0]] + s[1..] == s;
    }
  }

  lemma ClosingQuote(t: seq<byte>, p: nat)
    requires p < |t| && t[p] == QUOTE
    ensures Chars(t, p, QUOTE) == Ok([], p + 1)
  {
  }

  lemma QuotedBack(t: seq<byte>, p: nat, s: seq<byte>)
    requires Holds(t, p, Quoted(s))
    ensures p < |t| && t[p] == QUOTE && p + |Quoted(s)| <= |t|
    ensures Chars(t, p + 1, QUOTE) == Ok(s, p + |Quoted(s)|)
  {
    hide Escape, Chars;
    assert Quoted(s) == [QUOTE] + (Escape(s) + [QUOTE]);
    HoldsParts(t, p, [QUOTE], Escape(s) + [QUOTE]);
    ByteAt(t, p, [QUOTE], 0);
    CharsBack(t, p + 1, s);
  }

  lemma {:induction false} PlainEscape(s: seq<byte>)
    requires forall i :: 0 <= i < |s| ==> s[i] > 0x1f && s[i] != QUOTE && s[i] != BACKSLASH
    ensures Escape(s) == s
  {
    if s != [] {
      PlainEscape(s[1..]);
      assert EscapeByte(s[0]) == [s[0]];
    }
  }

  lemma PlainQuoted(t: seq<byte>, p: nat, s: seq<byte>)
    requires Holds(t, p, [QUOTE] + s + [QUOTE])
    requires forall i :: 0 <= i < |s| ==> s[i] > 0x1f && s[i] != QUOTE && s[i] != BACKSLASH
    ensures p + 1 <= |t| && Chars(t, p + 1, QUOTE).Ok? && Chars(t, p + 1, QUOTE).v == s
  {
    hide Chars, Escape;
    PlainEscape(s);
    QuotedBack(t, p, s);
  }

  /** A quoted name in the text is that literal exactly if it is that name. */
  lemma LiteralIff(t: seq<byte>, p: nat, n: seq<byte>, x: seq<byte>)
    requires Holds(t, p, Quoted(n))
    requires forall i :: 0 <= i < |x| ==> x[i] > 0x1f && x[i] != QUOTE && x[i] != BACKSLASH
    ensures Holds(t, p, Literal(x)) <==> n == x
  {
    hide Chars, Escape;
    QuotedBack(t, p, n);
    if Holds(t, p, Literal(x)) {
      PlainQuoted(t, p, x);
    }
    if n == x {
      PlainEscape(x);
    }
  }

  /** The special starts of objects are those with a name of that kind. */
  lemma SpecialIff(t: seq<byte>, p: nat, n: seq<byte>)
    requires Holds(t, p, Quoted(n))
    ensures SpecialAt(t, p) <==> StartsSpecial(n)
  {
    hide Quoted, Literal, Holds;
    LiteralIff(t, p, n, DATE_NAME);
    LiteralIff(t, p, n, OID_NAME);
    LiteralIff(t, p, n, BINARY_NAME);
    LiteralIff(t, p, n, REGEX_NAME);
  }

  lemma NameBack(t: seq<byte>, pos: nat, p: nat, n: seq<byte>)
    requires Spaces(t, pos, p) && Holds(t, p, Quoted(n)) && NoNul(n)
    ensures Name(t, pos) == if Reserved(n) then Fail else Ok(n, p + |Quoted(n)|)
  {
    hide Chars, Quoted, Reserved;
    QuotedBack(t, p, n);
    SkipTo(t, pos, p);
  }

  // ---------------------------------------------------------------- numbers

  lemma {:induction false} DigitsAreDigits(n: nat)
    ensures forall i :: 0 <= i < |Digits(n)| ==> IsDigit(Digits(n)[i])
    ensures DecimalValue(Digits(n)) == n
  {
    if 10 <= n {
      DigitsAreDigits(n / 10);
      assert Digits(n)[..|Digits(n)| - 1] == Digits(n / 10);
    } else {
      assert DecimalValue([48 + n]) == 10 * DecimalValue([]) + n by {
        assert [48 + n][..0] == [];
      }
    }
  }

  function Pow10(k: nat): nat {
    if k == 0 then 1 else 10 * Pow10(k - 1)
  }

  lemma {:induction false} DigitsLength(n: nat, k: nat)
    requires 1 <= k && n < Pow10(k)
    ensures |Digits(n)| <= k
  {
    if 10 <= n {
      DigitsLength(n / 10, k - 1);
    }
  }

  /** A long has at most 19 digits. */
  lemma LongDigits(n: nat)
    requires n <= TWO63
    ensures |Digits(n)| <= 19
  {
    assert Pow10(3) == 1000;
    assert Pow10(6) == 1000000;
    assert Pow10(9) == 1000000000;
    assert Pow10(12) == 1000000000000;
    assert Pow10(15) == 1000000000000000;
    assert Pow10(18) == 1000000000000000000;
    DigitsLength(n, 19);
  }

  lemma {:induction false} DigitsEndAt(t: seq<byte>, a: nat, b: nat)
    requires a <= b < |t| && (forall i :: a <= i < b ==> IsDigit(t[i])) && !IsDigit(t[b])
    ensures DigitsEnd(t, a) == b
    decreases b - a
  {
    if a < b {
      DigitsEndAt(t, a + 1, b);
    }
  }

  predicate Closed(t: seq<byte>, p: nat) {
    p < |t| && (t[p] == SPACE || t[p] == COMMA)
  }

  /** The digits of a number in the text. */
  lemma DigitsBack(t: seq<byte>, p: nat, n: nat)
    requires Holds(t, p, Digits(n)) && Closed(t, p + |Digits(n)|)
    ensures DigitsEnd(t, p) == p + |Digits(n)| && t[p..DigitsEnd(t, p)] == Digits(n)
  {
    hide Digits;
    DigitsAreDigits(n);
    forall i | p <= i < p + |Digits(n)| ensures IsDigit(t[i]) {
      ByteAt(t, p, Digits(n), i - p);
    }
    DigitsEndAt(t, p, p + |Digits(n)|);
  }

  /** What the rule makes of digits that end at `e`. */
  lemma NumberIs(t: seq<byte>, p: nat, negative: bool, e: nat, m: int)
    requires p < |t| && t[p] != 43 && (negative <==> t[p] == MINUS)
    requires var p1 := if negative then p + 1 else p;
      p1 < e <= p1 + 19 && Closed(t, e) && e == DigitsEnd(t, p1) && DecimalValue(t[p1..e]) == m
    ensures Number(t, p) == Ranged(if negative then -m else m, e)
  {
    hide DigitsEnd, DecimalValue, Ranged;
  }

  lemma DigitsValue(t: seq<byte>, p: nat, m: nat)
    requires m <= TWO63 && Holds(t, p, Digits(m)) && Closed(t, p + |Digits(m)|)
    ensures p < |t| && IsDigit(t[p])
    ensures var e := p + |Digits(m)|; p < e <= p + 19 && e == DigitsEnd(t, p) && DecimalValue(t[p..e]) == m
  {
    hide Digits, DigitsEnd, DecimalValue;
    DigitsAreDigits(m);
    LongDigits(m);
    ByteAt(t, p, Digits(m), 0);
    DigitsBack(t, p, m);
  }

  lemma NumberBack(t: seq<byte>, p: nat, n: int)
    requires -TWO63 <= n < TWO63 && Holds(t, p, IntText(n)) && Closed(t, p + |IntText(n)|)
    ensures p < |t| && (IsDigit(t[p]) || t[p] == MINUS)
    ensures Number(t, p) == Ranged(n, p + |IntText(n)|)
  {
    hide Digits, DigitsEnd, DecimalValue, Ranged, Holds, Closed, Number;
    if n < 0 {
      HoldsParts(t, p, [MINUS], Digits(-n));
      ByteAt(t, p, [MINUS], 0);
      DigitsValue(t, p + 1, -n);
      NumberIs(t, p, true, p + 1 + |Digits(-n)|, -n);
    } else {
      DigitsValue(t, p, n);
      NumberIs(t, p, false, p + |Digits(n)|, n);
    }
  }
}
