/** The characters, names and numbers of JSON text, also those that the printer never writes: what each of them stands for,
    told apart from the functions that read them. */
module JsonLexemes {
  import opened Bytes
  import opened Document
  import opened BsonFormat
  import opened JsonText
  import opened JsonGrammar
  import opened JsonPieces

  // ---------------------------------------------------------------- characters

  const HEX: string := "0123456789abcdef"
  const UPPER_HEX: string := "0123456789ABCDEF"

  lemma HexText()
    ensures Ascii(HEX) == [48, 49, 50, 51, 52, 53, 54, 55, 56, 57, 97, 98, 99, 100, 101, 102]
    ensures Ascii(UPPER_HEX) == [48, 49, 50, 51, 52, 53, 54, 55, 56, 57, 65, 66, 67, 68, 69, 70]
  {
  }

  /** Both cases are read, and the lower one is printed. */
  lemma HexDigitIs(k: nat)
    requires k < 16
    ensures HexValue(Ascii(HEX)[k]) == HexValue(Ascii(UPPER_HEX)[k]) == k && HexDigit(k) == Ascii(HEX)[k]
  {
    hide Ascii;
    HexText();
  }

  /** No other byte is a digit. */
  lemma HexOnly(c: byte)
    ensures HexValue(c) < 16 ==> c in Ascii(HEX) || c in Ascii(UPPER_HEX)
  {
    hide Ascii;
    HexText();
    if HexValue(c) < 16 {
      assert c == Ascii(HEX)[HexValue(c)] || c == Ascii(UPPER_HEX)[HexValue(c)];
    }
  }

  /** The number that one to three bytes of UTF-8 encode, by section 3 of RFC 3629. */
  function Decoded(b: seq<byte>): Option<int> {
    if |b| == 1 && b[0] < 0x80 then Some(b[0])
    else if |b| == 2 && 0xc0 <= b[0] < 0xe0 && Continues(b[1]) then Some((b[0] as int - 0xc0) * 0x40 + (b[1] as int - 0x80))
    else if |b| == 3 && 0xe0 <= b[0] < 0xf0 && Continues(b[1]) && Continues(b[2]) then
      Some((b[0] as int - 0xe0) * 0x1000 + (b[1] as int - 0x80) * 0x40 + (b[2] as int - 0x80))
    else None
  }

  predicate Continues(c: byte) { 0x80 <= c < 0xc0 }

  /** An escaped code unit becomes its UTF-8 encoding, the shortest. */
  lemma Utf8Decoded(first: byte, second: byte)
    ensures Decoded(Utf8(first, second)) == Some(0x100 * first + second)
    ensures var n := 0x100 * first + second; |Utf8(first, second)| == if n < 0x80 then 1 else if n < 0x800 then 2 else 3
  {
    if 0x08 <= first {
      Middle(first, second);
    }
  }

  lemma Middle(first: byte, second: byte)
    ensures (first * 4 + second / 64) % 64 == first % 16 * 4 + second / 64
  {
    var q, r := first / 16, first % 16;
    assert first * 4 + second / 64 == 64 * q + (4 * r + second / 64);
    Rest64(q, 4 * r + second / 64);
  }

  lemma Rest64(q: int, r: int)
    requires 0 <= r < 64
    ensures (64 * q + r) % 64 == r
  {
  }

  /** Bytes of one length that encode the same are the same. */
  lemma DecodedUnique(a: seq<byte>, b: seq<byte>)
    requires |a| == |b| && Decoded(a).Some? && Decoded(a) == Decoded(b)
    ensures a == b
  {
    if |a| == 1 {
      assert a == [a[0]] && b == [b[0]];
    } else if |a| == 2 {
      Places(0, a[0] as int - 0xc0, a[1] as int - 0x80, 0, b[0] as int - 0xc0, b[1] as int - 0x80);
      assert a == [a[0], a[1]] && b == [b[0], b[1]];
    } else {
      Places(a[0] as int - 0xe0, a[1] as int - 0x80, a[2] as int - 0x80, b[0] as int - 0xe0, b[1] as int - 0x80, b[2] as int - 0x80);
      assert a == [a[0], a[1], a[2]] && b == [b[0], b[1], b[2]];
    }
  }

  lemma Places(x: int, y: int, z: int, u: int, v: int, w: int)
    requires 0 <= y < 0x40 && 0 <= z < 0x40 && 0 <= v < 0x40 && 0 <= w < 0x40
    requires x * 0x1000 + y * 0x40 + z == u * 0x1000 + v * 0x40 + w
    ensures x == u && y == v && z == w
  {
  }

  /** The letters that stand for a control character. */
  lemma EscapeLetters(c: byte)
    ensures forall k :: 0 <= k < 6 ==> EscapeLetter(Ascii("bfnrtv")[k]) == [[8, 12, 10, 13, 9, 11][k]]
    ensures EscapeLetter(c) != [] <==> c in Ascii("bfnrtv")
  {
    assert Ascii("bfnrtv") == [98, 102, 110, 114, 116, 118];
    if EscapeLetter(c) != [] {
      assert c == 98 || c == 102 || c == 110 || c == 114 || c == 116 || c == 118;
    }
  }

  /** The four digits behind `\u`. */
  function Unit(t: seq<byte>, i: nat): nat
    requires i + 4 <= |t|
  {
    0x1000 * HexValue(t[i]) + 0x100 * HexValue(t[i + 1]) + 0x10 * HexValue(t[i + 2]) + HexValue(t[i + 3])
  }

  /** A character inside quotes: an escaped letter, an escaped code unit, any other escaped byte but `x` and the digits, and
      unescaped all but control characters. Whatever else there is does not match. */
  lemma CharIs(t: seq<byte>, i: nat)
    requires i < |t|
    ensures var (s, next) := Char(t, i);
      if t[i] != BACKSLASH then if t[i] < 0x20 then next == i else (s, next) == ([t[i]], i + 1)
      else if i + 1 == |t| then next == i
      else if t[i + 1] in Ascii("bfnrtv") then (s, next) == (EscapeLetter(t[i + 1]), i + 2)
      else if t[i + 1] in Ascii("u") && Hex4(t, i + 2) then next == i + 6 && Decoded(s) == Some(Unit(t, i + 2))
      else if t[i + 1] in Ascii("x0123456789") then next == i
      else (s, next) == ([t[i + 1]], i + 2)
  {
    hide EscapeLetter, HexValue, Utf8, Decoded;
    if t[i] == BACKSLASH && i + 1 < |t| {
      var c := t[i + 1];
      EscapeLetters(c);
      assert Ascii("u") == [117];
      assert Ascii("x0123456789") == [120, 48, 49, 50, 51, 52, 53, 54, 55, 56, 57];
      assert c in Ascii("x0123456789") <==> c == 120 || IsDigit(c);
      if c == 117 && Hex4(t, i + 2) {
        Pairs(HexValue(t[i + 2]), HexValue(t[i + 3]));
        Pairs(HexValue(t[i + 4]), HexValue(t[i + 5]));
        Utf8Decoded(HexValue(t[i + 2]) * 16 + HexValue(t[i + 3]), HexValue(t[i + 4]) * 16 + HexValue(t[i + 5]));
      }
    }
  }

  lemma Pairs(a: nat, b: nat)
    requires a < 16 && b < 16
    ensures a * 16 + b < 256
  {
  }

  // ---------------------------------------------------------------- white space

  lemma SpaceIs(c: byte)
    ensures IsSpace(c) <==> c in Ascii(" \t\n\r") + [11, 12]
  {
    assert Ascii(" \t\n\r") == [32, 9, 10, 13];
  }

  /** The skipper stops at the first byte that is none. */
  lemma {:induction false} SkipIs(t: seq<byte>, pos: nat)
    requires pos <= |t|
    ensures var p := Skip(t, pos); Spaces(t, pos, p) && (p == |t| || !IsSpace(t[p]))
    decreases |t| - pos
  {
    hide IsSpace;
    if pos < |t| && IsSpace(t[pos]) {
      SkipIs(t, pos + 1);
    }
  }

  // ---------------------------------------------------------------- names

  predicate IsLetter(c: byte) { 'a' as int <= c <= 'z' as int || 'A' as int <= c <= 'Z' as int }

  /** Letters, `$` and `_`; behind the first also digits. */
  lemma NameCharIs(c: byte, first: bool)
    ensures NameChar(c, first) <==>
      IsLetter(c) || c in Ascii("$_") || (!first && '0' as int <= c <= '9' as int)
  {
    assert Ascii("$_") == [36, 95];
  }

  /** An unquoted name is as long as it can be. */
  lemma {:induction false} NameEndIs(t: seq<byte>, pos: nat)
    requires pos <= |t|
    ensures var e := NameEnd(t, pos);
      (forall i :: pos <= i < e ==> NameChar(t[i], false)) && (e == |t| || !NameChar(t[e], false))
    decreases |t| - pos
  {
    hide NameChar;
    if pos < |t| && NameChar(t[pos], false) {
      NameEndIs(t, pos + 1);
    }
  }

  /** A name in either quotes, if it is none of the six that are reserved; or an identifier. */
  lemma NameIs(t: seq<byte>, pos: nat)
    requires pos <= |t|
    ensures var p, r := Skip(t, pos), Name(t, pos);
      if p == |t| then r.Fail?
      else if t[p] in Ascii("\"'") then
        var s := Chars(t, p + 1, t[p]);
        if s.Ok? && s.v !in ReservedNames() then r == Ok(CStr(s.v), s.next) else !r.Ok?
      else if NameChar(t[p], true) then r == Ok(CStr(t[p..NameEnd(t, p + 1)]), NameEnd(t, p + 1))
      else r.Fail?
  {
    hide Chars, NameChar, NameEnd, CStr, Reserved, ReservedNames;
    assert Ascii("\"'") == [34, 39];
    var p := Skip(t, pos);
    if p < |t| && Chars(t, p + 1, t[p]).Ok? {
      ReservedIs(Chars(t, p + 1, t[p]).v);
    }
  }

  function ReservedNames(): seq<seq<byte>> {
    [Ascii("$oid"), Ascii("$binary"), Ascii("$type"), Ascii("$date"), Ascii("$regex"), Ascii("$options")]
  }

  lemma ReservedIs(n: seq<byte>)
    ensures Reserved(n) <==> n in ReservedNames()
  {
    hide Ascii;
    NamesAre();
  }

  lemma NamesAre()
    ensures OID_NAME == Ascii("$oid") && BINARY_NAME == Ascii("$binary") && TYPE_NAME == Ascii("$type")
    ensures DATE_NAME == Ascii("$date") && REGEX_NAME == Ascii("$regex") && OPTIONS_NAME == Ascii("$options")
    ensures REF_NAME == Ascii("$ref") && ID_NAME == Ascii("$id")
  {
  }

  /** The punctuation and the literal values. */
  lemma MarksAre()
    ensures [QUOTE, COMMA, COLON, BACKSLASH] == Ascii("\",:\\")
    ensures [LBRACKET, RBRACKET, LBRACE, RBRACE] == Ascii("[]{}")
    ensures [SPACE, NEWLINE, MINUS, DOT] == Ascii(" \n-.")
    ensures TRUE_TEXT == Ascii("true") && FALSE_TEXT == Ascii("false") && NULL_TEXT == Ascii("null")
  {
  }

  // ---------------------------------------------------------------- numbers

  /** The value of decimal digits, the first one most significant. */
  function Decimal(d: seq<byte>): int {
    if d == [] then 0 else (d[0] as int - '0' as int) * Pow10(|d| - 1) + Decimal(d[1..])
  }

  lemma {:induction false} DecimalEnd(d: seq<byte>, c: byte)
    ensures Decimal(d + [c]) == 10 * Decimal(d) + (c as int - 48)
    decreases |d|
  {
    if d == [] {
      assert d + [c] == [c];
    } else {
      assert (d + [c])[1..] == d[1..] + [c];
      DecimalEnd(d[1..], c);
      Tens(d[0] as int - 48, |d| - 1);
    }
  }

  lemma Tens(a: int, k: nat)
    ensures a * Pow10(k + 1) == 10 * (a * Pow10(k))
  {
  }

  lemma {:induction false} DecimalIs(d: seq<byte>)
    requires forall i :: 0 <= i < |d| ==> IsDigit(d[i])
    ensures DecimalValue(d) == Decimal(d)
    decreases |d|
  {
    if d != [] {
      var init := d[..|d| - 1];
      DecimalIs(init);
      DecimalEnd(init, d[|d| - 1]);
      assert d == init + [d[|d| - 1]];
    }
  }

  /** What is printed for a number are its decimal digits, without leading zeros. */
  lemma {:induction false} DigitsAre(n: nat)
    ensures Decimal(Digits(n)) == n && (forall i :: 0 <= i < |Digits(n)| ==> IsDigit(Digits(n)[i]))
    ensures Digits(n)[0] == '0' as int <==> n == 0
    ensures n == 0 ==> |Digits(n)| == 1
    decreases n
  {
    if 10 <= n {
      DigitsAre(n / 10);
      DecimalEnd(Digits(n / 10), 48 + n % 10);
    }
  }

  lemma {:induction false} DigitsEndIs(t: seq<byte>, pos: nat)
    requires pos <= |t|
    ensures var e := DigitsEnd(t, pos); e == |t| || !IsDigit(t[e])
    decreases |t| - pos
  {
    if pos < |t| && IsDigit(t[pos]) {
      DigitsEndIs(t, pos + 1);
    }
  }

  lemma NumberFrom(t: seq<byte>, p: nat, p1: nat, e: nat, e1: nat, d: seq<byte>)
    requires p < |t| && p1 == (if t[p] == 43 || t[p] == 45 then p + 1 else p) && e == DigitsEnd(t, p1)
    requires e1 == (if e <= p1 + 19 then e else p1 + 19) && d == t[p1..e1] && forall i :: 0 <= i < |d| ==> IsDigit(d[i])
    ensures var m: int := DecimalValue(d);
      Number(t, p) == if e < |t| && (t[e] == 46 || t[e] == 101 || t[e] == 69) then Unsupported
                      else if e == p1 then Fail
                      else Ranged(if t[p] == 45 then -m else m, e1)
  {
    hide DigitsEnd, DecimalValue, Ranged, IsDigit;
  }

  predicate IsSign(c: byte) { c == '+' as int || c == '-' as int }

  predicate MakesReal(c: byte) { c == '.' as int || c == 'e' as int || c == 'E' as int }

  /** A number, where its digits end at `e`: a real number if a point or an exponent follows; otherwise the first 19 digits
      with their sign, as an int or a long, as it fits. */
  lemma NumberMeans(t: seq<byte>, p: nat, p1: nat, e: nat, e1: nat)
    requires p < |t| && p1 == (if IsSign(t[p]) then p + 1 else p) && e == DigitsEnd(t, p1)
    requires e1 == if e <= p1 + 19 then e else p1 + 19
    ensures var m := Decimal(t[p1..e1]);
      Number(t, p) == if e < |t| && MakesReal(t[e]) then Unsupported
                      else if e == p1 then Fail
                      else Fitted(if t[p] == '-' as int then -m else m, e1)
  {
    hide DigitsEnd, DecimalValue, Decimal, Number, Ranged, Fitted;
    var d := t[p1..e1];
    assert forall i :: 0 <= i < |d| ==> d[i] == t[p1 + i];
    NumberFrom(t, p, p1, e, e1, d);
    DecimalIs(d);
    FittedIs(if t[p] == 45 then -Decimal(d) else Decimal(d), e1);
  }

  function Fitted(n: int, next: nat): Parsed<Value> {
    if -0x8000_0000 <= n <= 0x7fff_ffff then Ok(Int(n), next)
    else if -0x8000_0000_0000_0000 <= n <= 0x7fff_ffff_ffff_ffff then Ok(Long(n), next)
    else Fail
  }

  lemma FittedIs(n: int, next: nat)
    ensures Fitted(n, next) == Ranged(n, next)
  {
  }

  // ---------------------------------------------------------------- object ids

  /** Two digits to a byte, the first one more significant. */
  lemma OidIs(s: seq<byte>, i: nat)
    requires IsOid(s) && i < 12
    ensures Ascii(HEX)[OidOf(s)[i] / 16] == Lower(s[2 * i]) && Ascii(HEX)[OidOf(s)[i] % 16] == Lower(s[2 * i + 1])
  {
    hide Ascii, HexValue, Lower;
    var a, b := HexValue(s[2 * i]), HexValue(s[2 * i + 1]);
    HexBack(s[2 * i]);
    HexBack(s[2 * i + 1]);
    Halves(a, b);
    assert OidOf(s)[i] == a * 16 + b;
  }

  lemma Halves(a: nat, b: nat)
    requires a < 16 && b < 16
    ensures (a * 16 + b) / 16 == a && (a * 16 + b) % 16 == b
  {
  }

  function Lower(c: byte): byte { if 'A' as int <= c <= 'Z' as int then c + 32 else c }

  lemma HexBack(c: byte)
    requires HexValue(c) < 16
    ensures Ascii(HEX)[HexValue(c)] == Lower(c)
  {
    hide Ascii;
    HexText();
  }
}
