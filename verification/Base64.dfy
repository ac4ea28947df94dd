/** Base64 as the BSON library computes it, against section 4 of RFC 4648. Shifts and masks of bytes are written as
    the arithmetic they denote; `Base64Bits` relates the two. */
module Base64 {
  import opened Bytes

  const PAD: byte := 61   // '='

  /** The 64-character alphabet: A-Z, a-z, 0-9, + and /. */
  function EncodeChar(i: nat): (c: byte)
    requires i < 64
    ensures c != PAD
  {
    if i < 26 then 65 + i else if i < 52 then 71 + i else if i < 62 then i - 4 else if i == 62 then 43 else 47
  }

  /** The inverse table: zero outside the alphabet. */
  function DecodeChar(c: byte): (i: nat)
    ensures i < 64
  {
    if 65 <= c <= 90 then c - 65 else if 97 <= c <= 122 then c - 71 else if 48 <= c <= 57 then c + 4
    else if c == 43 then 62 else if c == 47 then 63 else 0
  }

  const UPPER: string := "ABCDEFGHIJKLMNOPQRSTUVWXYZ"
  const LOWER: string := "abcdefghijklmnopqrstuvwxyz"
  const DIGITS: string := "0123456789"

  /** The alphabet of the standard, letter by letter. */
  lemma AlphabetIs(i: nat)
    requires i < 64
    ensures EncodeChar(i) as int ==
      (if i < 26 then UPPER[i] else if i < 52 then LOWER[i - 26] else if i < 62 then DIGITS[i - 52] else "+/"[i - 62]) as int
    ensures PAD == '=' as int
  {
    if i < 26 {
      UpperIs(i);
    } else if i < 52 {
      LowerIs(i - 26);
    } else if i < 62 {
      DigitsAre(i - 52);
    }
  }

  lemma UpperIs(i: nat)
    requires i < 26
    ensures UPPER[i] as int == 65 + i
  {
  }

  lemma LowerIs(i: nat)
    requires i < 26
    ensures LOWER[i] as int == 97 + i
  {
  }

  lemma DigitsAre(i: nat)
    requires i < 10
    ensures DIGITS[i] as int == 48 + i
  {
  }

  lemma DecodeEncodeChar(i: nat)
    requires i < 64
    ensures DecodeChar(EncodeChar(i)) == i
  {
  }

  lemma EncodeDecodeChar(c: byte)
    ensures DecodeChar(c) != 0 || c == 65 ==> EncodeChar(DecodeChar(c)) == c
  {
  }

  // ---------------------------------------------------------------- the standard's definition

  /** The 24-bit input group, and its four 6-bit digits. */
  function Group(b0: int, b1: int, b2: int): int { 0x1_0000 * b0 + 0x100 * b1 + b2 }

  function Digit(group: int, k: nat): (d: nat)
    requires k < 4
    ensures d < 64
  {
    (if k == 0 then group / 0x4_0000 else if k == 1 then group / 0x1000 else if k == 2 then group / 0x40 else group) % 64
  }

  /** The four characters of an input group. */
  function GroupChars(b0: byte, b1: byte, b2: byte): (c: seq<byte>)
    ensures |c| == 4
  {
    var g := Group(b0, b1, b2);
    [EncodeChar(Digit(g, 0)), EncodeChar(Digit(g, 1)), EncodeChar(Digit(g, 2)), EncodeChar(Digit(g, 3))]
  }

  /** Section 4: groups of three bytes become four characters; a tail is filled with zero bits and padded. */
  function Encoded(s: seq<byte>): seq<byte> {
    if s == [] then []
    else if |s| == 1 then GroupChars(s[0], 0, 0)[..2] + [PAD, PAD]
    else if |s| == 2 then GroupChars(s[0], s[1], 0)[..3] + [PAD]
    else GroupChars(s[0], s[1], s[2]) + Encoded(s[3..])
  }

  /** The three bytes of four decoded digits, as the shifts and masks give them. */
  function Bytes0(d0: int, d1: int): byte { d0 % 64 * 4 + d1 / 16 % 4 }
  function Bytes1(d1: int, d2: int): byte { d1 % 16 * 16 + d2 / 4 % 16 }
  function Bytes2(d2: int, d3: int): byte { d2 % 4 * 64 + d3 % 64 }

  function DecodedGroup(c0: byte, c1: byte, c2: byte, c3: byte): seq<byte> {
    var d0, d1, d2, d3 := DecodeChar(c0), DecodeChar(c1), DecodeChar(c2), DecodeChar(c3);
    var buf := [Bytes0(d0, d1), Bytes1(d1, d2), Bytes2(d2, d3)];
    if c3 == PAD then (if c2 == PAD then buf[..1] else buf[..2]) else buf
  }

  function Decoded(s: seq<byte>): seq<byte>
    requires |s| % 4 == 0
  {
    if s == [] then [] else DecodedGroup(s[0], s[1], s[2], s[3]) + Decoded(s[4..])
  }

  /** Section 10: the test vectors for a whole group and for both tails. */
  lemma Vectors()
    ensures Encoded(Ascii("f")) == Ascii("Zg==") && Encoded(Ascii("fo")) == Ascii("Zm8=") && Encoded(Ascii("foo")) == Ascii("Zm9v")
  {
    hide Ascii, GroupChars;
    VectorTexts();
    VectorGroups();
    assert [102, 111, 111][3..] == [];
  }

  lemma VectorTexts()
    ensures Ascii("f") == [102] && Ascii("fo") == [102, 111] && Ascii("foo") == [102, 111, 111]
    ensures Ascii("Zg==") == [90, 103, PAD, PAD] && Ascii("Zm8=") == [90, 109, 56, PAD] && Ascii("Zm9v") == [90, 109, 57, 118]
  {
  }

  lemma VectorGroups()
    ensures GroupChars(102, 0, 0) == [90, 103, 65, 65] && GroupChars(102, 111, 0) == [90, 109, 56, 65]
    ensures GroupChars(102, 111, 111) == [90, 109, 57, 118]
  {
    hide Digit, Group;
    DigitsOf(102, 0, 0);
    DigitsOf(102, 111, 0);
    DigitsOf(102, 111, 111);
  }

  lemma GroupBytes(b0: byte, b1: byte, b2: byte)
    ensures var g := Group(b0, b1, b2);
      && Bytes0(Digit(g, 0), Digit(g, 1)) == b0
      && Bytes1(Digit(g, 1), Digit(g, 2)) == b1
      && Bytes2(Digit(g, 2), Digit(g, 3)) == b2
  {
    hide Group, Digit, Bytes0, Bytes1, Bytes2;
    DigitsOf(b0, b1, b2);
    Join0(b0, b1);
    Join1(b0, b1, b2);
    Join2(b1, b2);
  }

  lemma Join0(b0: int, b1: int)
    requires 0 <= b0 < 256 && 0 <= b1 < 256
    ensures Bytes0(b0 / 4, b0 % 4 * 16 + b1 / 16) == b0
  {
    Cut16(b0 % 4, b1 / 16);
  }

  lemma Join1(b0: int, b1: int, b2: int)
    requires 0 <= b0 < 256 && 0 <= b1 < 256 && 0 <= b2 < 256
    ensures Bytes1(b0 % 4 * 16 + b1 / 16, b1 % 16 * 4 + b2 / 64) == b1
  {
    Cut16(b0 % 4, b1 / 16);
    Cut4(b1 % 16, b2 / 64);
  }

  lemma Join2(b1: int, b2: int)
    requires 0 <= b1 < 256 && 0 <= b2 < 256
    ensures Bytes2(b1 % 16 * 4 + b2 / 64, b2 % 64) == b2
  {
    Cut4(b1 % 16, b2 / 64);
  }

  lemma Cut16(q: int, h: int)
    requires 0 <= q < 4 && 0 <= h < 16
    ensures (q * 16 + h) / 16 % 4 == q && (q * 16 + h) % 16 == h && 0 <= q * 16 + h < 64
  {
  }

  lemma Cut4(q: int, h: int)
    requires 0 <= q < 16 && 0 <= h < 4
    ensures (q * 4 + h) / 4 % 16 == q && (q * 4 + h) % 4 == h && 0 <= q * 4 + h < 64
  {
  }

  /** The digits cut the bytes at bits 2, 4 and 6. */
  lemma DigitsOf(b0: byte, b1: byte, b2: byte)
    ensures var g := Group(b0, b1, b2);
      && Digit(g, 0) == b0 / 4
      && Digit(g, 1) == b0 % 4 * 16 + b1 / 16
      && Digit(g, 2) == b1 % 16 * 4 + b2 / 64
      && Digit(g, 3) == b2 % 64
  {
    var g := Group(b0, b1, b2);
    Shift18(b0, b1, b2);
    Shift12(b0, b1, b2);
    Shift6(b0, b1, b2);
    Shift0(b0, b1, b2);
  }

  lemma Shift18(b0: int, b1: int, b2: int)
    requires 0 <= b0 < 256 && 0 <= b1 < 256 && 0 <= b2 < 256
    ensures Group(b0, b1, b2) / 0x4_0000 % 64 == b0 / 4
  {
    var q, r := b0 / 4, b0 % 4 * 0x1_0000 + b1 * 0x100 + b2;
    assert Group(b0, b1, b2) == 0x4_0000 * q + r && 0 <= q < 64 && 0 <= r < 0x4_0000;
    Over18(q, r);
  }

  lemma Over18(q: int, r: int)
    requires 0 <= q < 64 && 0 <= r < 0x4_0000
    ensures (0x4_0000 * q + r) / 0x4_0000 == q && q % 64 == q
  {
  }

  lemma Shift12(b0: int, b1: int, b2: int)
    requires 0 <= b0 < 256 && 0 <= b1 < 256 && 0 <= b2 < 256
    ensures Group(b0, b1, b2) / 0x1000 % 64 == b0 % 4 * 16 + b1 / 16
  {
    var q, r := 16 * b0 + b1 / 16, b1 % 16 * 0x100 + b2;
    assert Group(b0, b1, b2) == 0x1000 * q + r && 0 <= r < 0x1000;
    Rem64(b0 / 4, b0 % 4 * 16 + b1 / 16);
  }

  lemma Shift6(b0: int, b1: int, b2: int)
    requires 0 <= b0 < 256 && 0 <= b1 < 256 && 0 <= b2 < 256
    ensures Group(b0, b1, b2) / 0x40 % 64 == b1 % 16 * 4 + b2 / 64
  {
    var q, r := 1024 * b0 + 4 * b1 + b2 / 64, b2 % 64;
    assert Group(b0, b1, b2) == 0x40 * q + r && 0 <= r < 0x40;
    Rem64(16 * b0 + b1 / 16, b1 % 16 * 4 + b2 / 64);
  }

  lemma Shift0(b0: int, b1: int, b2: int)
    requires 0 <= b2 < 256
    ensures Group(b0, b1, b2) % 64 == b2 % 64
  {
    Rem64(1024 * b0 + 4 * b1 + b2 / 64, b2 % 64);
  }

  /** One group, whole or padded, decodes to its bytes. */
  lemma GroupRoundTrip(b0: byte, b1: byte, b2: byte)
    ensures var c := GroupChars(b0, b1, b2);
      && DecodedGroup(c[0], c[1], c[2], c[3]) == [b0, b1, b2]
      && (b2 == 0 ==> DecodedGroup(c[0], c[1], c[2], PAD) == [b0, b1])
      && (b1 == b2 == 0 ==> DecodedGroup(c[0], c[1], PAD, PAD) == [b0])
  {
    hide Group, Digit, EncodeChar, DecodeChar, Bytes0, Bytes1, Bytes2;
    var g := Group(b0, b1, b2);
    GroupBytes(b0, b1, b2);
    DecodeEncodeChar(Digit(g, 0));
    DecodeEncodeChar(Digit(g, 1));
    DecodeEncodeChar(Digit(g, 2));
    DecodeEncodeChar(Digit(g, 3));
  }

  /** Decoding an encoding gives the bytes back, whatever the length. */
  lemma {:induction false} RoundTrip(s: seq<byte>)
    ensures |Encoded(s)| % 4 == 0 && Decoded(Encoded(s)) == s
  {
    hide GroupChars, DecodedGroup, Encoded, Decoded;
    EncodedStep(s);
    DecodedNone();
    if |s| >= 3 {
      GroupRoundTrip(s[0], s[1], s[2]);
      RoundTrip(s[3..]);
      DecodedStep(GroupChars(s[0], s[1], s[2]), Encoded(s[3..]));
      assert s == [s[0], s[1], s[2]] + s[3..];
    } else if |s| == 2 {
      GroupRoundTrip(s[0], s[1], 0);
      DecodedStep(GroupChars(s[0], s[1], 0)[..3] + [PAD], []);
      assert Encoded(s) + [] == Encoded(s);
    } else if |s| == 1 {
      GroupRoundTrip(s[0], 0, 0);
      DecodedStep(GroupChars(s[0], 0, 0)[..2] + [PAD, PAD], []);
      assert Encoded(s) + [] == Encoded(s);
    }
  }

  lemma DecodedNone()
    ensures Decoded([]) == []
  {
  }

  lemma DecodedStep(c: seq<byte>, rest: seq<byte>)
    requires |c| == 4 && |rest| % 4 == 0
    ensures |c + rest| % 4 == 0 && Decoded(c + rest) == DecodedGroup(c[0], c[1], c[2], c[3]) + Decoded(rest)
  {
    hide DecodedGroup;
    assert (c + rest)[4..] == rest;
  }

  lemma EncodedStep(s: seq<byte>)
    ensures s == [] ==> Encoded(s) == []
    ensures |s| == 1 ==> Encoded(s) == GroupChars(s[0], 0, 0)[..2] + [PAD, PAD]
    ensures |s| == 2 ==> Encoded(s) == GroupChars(s[0], s[1], 0)[..3] + [PAD]
    ensures |s| >= 3 ==> Encoded(s) == GroupChars(s[0], s[1], s[2]) + Encoded(s[3..])
  {
  }

  // What the code hands to the alphabet: a byte shifted left loses its high bits, and the alphabet masks with 0x3f.
  function Index0(b0: int): nat requires 0 <= b0 { b0 / 4 }
  function Index1(b0: int, b1: int): nat requires 0 <= b1 { b0 * 16 % 256 + b1 / 16 }
  function Index2(b1: int, b2: int): nat requires 0 <= b2 { b1 % 16 * 4 + b2 / 64 }
  function Index3(b2: int): nat { b2 % 64 }

  /** The shifts and masks of the code select the characters of the group. */
  lemma CodeChars(b0: byte, b1: byte, b2: byte)
    ensures GroupChars(b0, b1, b2) ==
      [EncodeChar(Index0(b0) % 64), EncodeChar(Index1(b0, b1) % 64), EncodeChar(Index2(b1, b2) % 64),
       EncodeChar(Index3(b2) % 64)]
  {
    hide Group, Digit, EncodeChar, Index0, Index1, Index2, Index3;
    DigitsOf(b0, b1, b2);
    Masked(b0, b1, b2);
  }

  lemma Masked(b0: int, b1: int, b2: int)
    requires 0 <= b0 < 256 && 0 <= b1 < 256 && 0 <= b2 < 256
    ensures Index0(b0) % 64 == b0 / 4 && Index1(b0, b1) % 64 == b0 % 4 * 16 + b1 / 16
    ensures Index2(b1, b2) % 64 == b1 % 16 * 4 + b2 / 64 && Index3(b2) % 64 == b2 % 64
  {
    hide Index0, Index1, Index2, Index3;
    Masked0(b0, b2);
    Masked1(b0, b1 / 16);
    Masked2(b1, b2);
    assert Index1(b0, b1) == b0 * 16 % 256 + b1 / 16 by { IndexOne(b0, b1); }
  }

  lemma IndexOne(b0: int, b1: int)
    requires 0 <= b1
    ensures Index1(b0, b1) == b0 * 16 % 256 + b1 / 16
  {
  }

  lemma Masked0(b0: int, b2: int)
    requires 0 <= b0 < 256 && 0 <= b2 < 256
    ensures Index0(b0) % 64 == b0 / 4 && Index3(b2) % 64 == b2 % 64
  {
  }

  lemma Masked2(b1: int, b2: int)
    requires 0 <= b1 < 256 && 0 <= b2 < 256
    ensures Index2(b1, b2) % 64 == b1 % 16 * 4 + b2 / 64
  {
    Cut4(b1 % 16, b2 / 64);
  }

  lemma Masked1(b: int, h: int)
    requires 0 <= b < 256 && 0 <= h < 16
    ensures (b * 16 % 256 + h) % 64 == b % 4 * 16 + h
  {
    var k, l, m := b / 16, b % 16 / 4, b % 4;
    assert b == 16 * k + 4 * l + m && 4 * l + m < 16 by { Parts16(b); }
    Rem256(k, 64 * l + 16 * m);
    Rem64(l, 16 * m + h);
  }

  lemma Parts16(b: int)
    requires 0 <= b
    ensures b == 16 * (b / 16) + 4 * (b % 16 / 4) + b % 4 && 0 <= 4 * (b % 16 / 4) + b % 4 < 16
  {
    var q, c := b / 16, b % 16;
    assert b == 16 * q + c;
    Parts4(c);
    Rem4(4 * q + c / 4, c % 4);
    assert b == 4 * (4 * q + c / 4) + c % 4;
  }

  lemma Parts4(c: int)
    ensures c == 4 * (c / 4) + c % 4
  {
  }

  lemma Rem4(q: int, r: int)
    requires 0 <= r < 4
    ensures (4 * q + r) % 4 == r
  {
  }

  lemma Rem256(q: int, r: int)
    requires 0 <= r < 256
    ensures (256 * q + r) % 256 == r
  {
  }

  lemma Rem64(q: int, r: int)
    requires 0 <= r < 64
    ensures (64 * q + r) % 64 == r
  {
  }

  // ---------------------------------------------------------------- the code

  lemma TwoChars(before: seq<byte>, g: seq<byte>)
    requires |g| == 4
    ensures before + [g[0]] + [g[1]] + [PAD, PAD] == before + (g[..2] + [PAD, PAD])
  {
  }

  lemma ThreeChars(before: seq<byte>, g: seq<byte>)
    requires |g| == 4
    ensures before + [g[0]] + [g[1]] + [g[2]] + [PAD] == before + (g[..3] + [PAD])
  {
  }

  lemma FourChars(before: seq<byte>, g: seq<byte>, rest: seq<byte>)
    requires |g| == 4
    ensures before + [g[0]] + [g[1]] + [g[2]] + [g[3]] + rest == before + (g + rest)
  {
    assert [g[0]] + [g[1]] + [g[2]] + [g[3]] == g;
  }

  class Alphabet {
    const table: array<byte>

    ghost predicate Valid()
      reads this, table
    {
      table.Length == 257 && forall c :: 0 <= c < 256 ==> table[c] == DecodeChar(c)
    }

    constructor ()
      ensures Valid() && fresh(table)
    {
      table := new byte[257](_ => 0);
      new;
      var i := 0;
      while i < 64
        invariant i <= 64
        invariant forall c: byte :: table[c] == if DecodeChar(c) < i && EncodeChar(DecodeChar(c)) == c then DecodeChar(c) else 0
      {
        DecodeEncodeChar(i);
        table[EncodeChar(i)] := i;
        i := i + 1;
      }
      forall c: byte ensures table[c] == DecodeChar(c) {
        EncodeDecodeChar(c);
      }
    }

    /** e(): the mask keeps the index in the table. */
    method E(x: nat) returns (c: byte)
      ensures c == EncodeChar(x % 64)
    {
      c := EncodeChar(x % 64);
    }

    method Encode(data: seq<byte>) returns (ss: seq<byte>)
      ensures ss == Encoded(data)
    {
      hide Encoded, GroupChars, EncodeChar, Index0, Index1, Index2, Index3;
      ss := [];
      var size, i := |data|, 0;
      assert data[0..] == data;
      while i < size
        invariant i <= size && i % 3 == 0
        invariant ss + Encoded(data[i..]) == Encoded(data)
      {
        var left, start := size - i, data[i..];
        ghost var before := ss;
        EncodedStep(start);
        var c := E(Index0(start[0]));
        ss := ss + [c];
        if left == 1 {
          CodeChars(start[0], 0, 0);
          c := E(Index1(start[0], 0));
          ss := ss + [c];
          TwoChars(before, GroupChars(start[0], 0, 0));
          break;
        }
        c := E(Index1(start[0], start[1]));
        ss := ss + [c];
        if left == 2 {
          CodeChars(start[0], start[1], 0);
          c := E(Index2(start[1], 0));
          ss := ss + [c];
          ThreeChars(before, GroupChars(start[0], start[1], 0));
          break;
        }
        CodeChars(start[0], start[1], start[2]);
        c := E(Index2(start[1], start[2]));
        ss := ss + [c];
        c := E(Index3(start[2]));
        ss := ss + [c];
        assert start[3..] == data[i + 3..];
        FourChars(before, GroupChars(start[0], start[1], start[2]), Encoded(start[3..]));
        i := i + 3;
      }
      EncodedStep([]);
      assert i == size ==> data[i..] == [] && ss + [] == ss;
      var mod := size % 3;
      if mod == 1 {
        ss := ss + [PAD, PAD];
      } else if mod == 2 {
        ss := ss + [PAD];
      }
    }

    method DecodeGroup(c0: byte, c1: byte, c2: byte, c3: byte) returns (out: seq<byte>)
      requires Valid()
      ensures out == DecodedGroup(c0, c1, c2, c3)
    {
      hide DecodeChar, Bytes0, Bytes1, Bytes2;
      var d0, d1, d2, d3 := table[c0], table[c1], table[c2], table[c3];
      var buf := [Bytes0(d0, d1), Bytes1(d1, d2), Bytes2(d2, d3)];
      var len := 3;
      if c3 == PAD {
        len := 2;
        if c2 == PAD {
          len := 1;
        }
      }
      out := buf[..len];
    }

    /** None where the source's assertion on the length fails. */
    method Decode(s: seq<byte>) returns (r: Option<seq<byte>>)
      requires Valid()
      ensures r == if |s| % 4 == 0 then Some(Decoded(s)) else None
    {
      hide DecodedGroup;
      if |s| % 4 != 0 {
        return None;
      }
      var ss, i := [], 0;
      assert s[0..] == s;
      while i < |s|
        invariant i <= |s| && i % 4 == 0
        invariant ss + Decoded(s[i..]) == Decoded(s)
      {
        var out := DecodeGroup(s[i], s[i + 1], s[i + 2], s[i + 3]);
        ss := ss + out;
        assert s[i..][4..] == s[i + 4..];
        i := i + 4;
      }
      assert s[i..] == [] && ss + [] == ss;
      r := Some(ss);
    }
  }
}
