/** The shifts, masks and joins of the Base64 code, on bit vectors. */
module Base64Bits {
  import opened Base64

  /** Shifts and masks are quotients and remainders. */
  lemma CutBits2(u: bv8)
    ensures u as int == (u >> 2) as int * 4 + (u & 0x3) as int
    ensures (u >> 2) as int == u as int / 4 && (u & 0x3) as int == u as int % 4
  {
  }

  lemma CutBits4(u: bv8)
    ensures u as int == (u >> 4) as int * 16 + (u & 0xF) as int
    ensures (u >> 4) as int == u as int / 16 && (u & 0xF) as int == u as int % 16
  {
  }

  lemma CutBits6(u: bv8)
    ensures u as int == (u >> 6) as int * 64 + (u & 0x3F) as int
    ensures (u >> 6) as int == u as int / 64 && (u & 0x3F) as int == u as int % 64
  {
  }

  /** What the source joins with `|` can be cut apart again. */
  lemma CutJoined(x: bv8, y: bv8)
    ensures var u := (x << 4) | ((y >> 4) & 0xF); u >> 4 == x & 0xF && u & 0xF == y >> 4
    ensures var u := ((x & 0xF) << 2) | ((y >> 6) & 0x3); u >> 2 == x & 0xF && u & 0x3 == y >> 6
    ensures var u := ((x << 2) & 0xFC) | ((y >> 4) & 0x3); u >> 2 == x & 0x3F && u & 0x3 == (y >> 4) & 0x3
    ensures var u := ((x << 4) & 0xF0) | ((y >> 2) & 0xF); u >> 4 == x & 0xF && u & 0xF == (y >> 2) & 0xF
    ensures var u := ((x << 6) & 0xC0) | (y & 0x3F); u >> 6 == x & 0x3 && u & 0x3F == y & 0x3F
  {
  }

  /** The expressions of the encoder. */
  lemma EncodeBits(x: bv8, y: bv8)
    ensures (x >> 2) as int == Index0(x as int)
    ensures ((x << 4) | ((y >> 4) & 0xF)) as int == Index1(x as int, y as int)
    ensures (((x & 0xF) << 2) | ((y >> 6) & 0x3)) as int == Index2(x as int, y as int)
    ensures (x & 0x3F) as int == Index3(x as int)
  {
    hide Index1, Index2;
    EncodeBits1(x, y);
    EncodeBits2(x, y);
    CutBits2(x);
    CutBits6(x);
  }

  lemma EncodeBits1(x: bv8, y: bv8)
    ensures ((x << 4) | ((y >> 4) & 0xF)) as int == Index1(x as int, y as int)
  {
    CutJoined(x, y);
    CutBits4((x << 4) | ((y >> 4) & 0xF));
    CutBits4(x);
    CutBits4(y);
    Sixteen(x as int / 16, x as int % 16);
  }

  lemma Sixteen(q: int, r: int)
    requires 0 <= r < 16
    ensures (q * 16 + r) * 16 % 256 == r * 16
  {
  }

  lemma EncodeBits2(x: bv8, y: bv8)
    ensures (((x & 0xF) << 2) | ((y >> 6) & 0x3)) as int == Index2(x as int, y as int)
  {
    CutJoined(x, y);
    CutBits2(((x & 0xF) << 2) | ((y >> 6) & 0x3));
    CutBits4(x);
    CutBits6(y);
  }

  /** The expressions of the decoder. */
  lemma DecodeBits(x: bv8, y: bv8)
    ensures (((x << 2) & 0xFC) | ((y >> 4) & 0x3)) as int == Bytes0(x as int, y as int)
    ensures (((x << 4) & 0xF0) | ((y >> 2) & 0xF)) as int == Bytes1(x as int, y as int)
    ensures (((x << 6) & 0xC0) | (y & 0x3F)) as int == Bytes2(x as int, y as int)
  {
    DecodeBits0(x, y);
    DecodeBits1(x, y);
    DecodeBits2(x, y);
  }

  lemma DecodeBits0(x: bv8, y: bv8)
    ensures (((x << 2) & 0xFC) | ((y >> 4) & 0x3)) as int == Bytes0(x as int, y as int)
  {
    CutJoined(x, y);
    CutBits2(((x << 2) & 0xFC) | ((y >> 4) & 0x3));
    CutBits6(x);
    CutBits4(y);
    CutBits2(y >> 4);
  }

  lemma DecodeBits1(x: bv8, y: bv8)
    ensures (((x << 4) & 0xF0) | ((y >> 2) & 0xF)) as int == Bytes1(x as int, y as int)
  {
    CutJoined(x, y);
    CutBits4(((x << 4) & 0xF0) | ((y >> 2) & 0xF));
    CutBits4(x);
    CutBits2(y);
    CutBits4(y >> 2);
  }

  lemma DecodeBits2(x: bv8, y: bv8)
    ensures (((x << 6) & 0xC0) | (y & 0x3F)) as int == Bytes2(x as int, y as int)
  {
    CutJoined(x, y);
    CutBits6(((x << 6) & 0xC0) | (y & 0x3F));
    CutBits2(x);
    CutBits6(y);
  }
}
