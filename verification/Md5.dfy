/** Streaming MD5 against the block definition of sections 3.1 to 3.5 of RFC 1321; the block function is a parameter. */
module Md5 {
  import opened Bytes

  type word = x: int | 0 <= x < 0x1_0000_0000

  const INT_MAX: nat := 0x7FFF_FFFF

  /** The four registers A, B, C and D. */
  datatype Registers = Registers(a: word, b: word, c: word, d: word)

  type Block = (Registers, seq<byte>) -> Registers

  const INITIAL := Registers(0x67452301, 0xefcdab89, 0x98badcfe, 0x10325476)

  // ---------------------------------------------------------------- the definition

  /** The block function folded over a message of whole blocks. */
  ghost function Fold(f: Block, r: Registers, m: seq<byte>): Registers
    requires |m| % 64 == 0
    decreases |m|
  {
    if m == [] then r else Fold(f, f(r, m[..64]), m[64..])
  }

  /** A 64-bit quantity, low-order word first. */
  function LE64(n: nat): (b: seq<byte>)
    requires n < TWO64
    ensures |b| == 8
  {
    LE32(n % TWO32) + LE32(n / TWO32)
  }

  /** The length field of the padding: the bit count modulo 2^64. */
  function LengthBytes(n: nat): (b: seq<byte>)
    ensures |b| == 8
  {
    LE64(8 * n % TWO64)
  }

  function Zeros(n: nat): (z: seq<byte>)
    ensures |z| == n
  {
    seq(n, _ => 0)
  }

  /** Sections 3.1 and 3.2: a one bit, as few zero bits as leave 64 bits of the last block, and the length in bits
      modulo 2^64. */
  ghost predicate IsPadded(m: seq<byte>, p: seq<byte>) {
    exists z: nat ::
      z < 64 && (|m| + 1 + z) % 64 == 56 && p == m + ([0x80] + Zeros(z)) + LengthBytes(|m|)
  }

  function RegisterBytes(r: Registers): (d: seq<byte>)
    ensures |d| == 16
  {
    LE32(r.a) + LE32(r.b) + LE32(r.c) + LE32(r.d)
  }

  /** Section 3.3: the registers start as these bytes, low-order bytes first, and the digest begins with the low-order byte
      of A and ends with the high-order byte of D. */
  lemma InitialBytes()
    ensures RegisterBytes(INITIAL) ==
      [0x01, 0x23, 0x45, 0x67, 0x89, 0xab, 0xcd, 0xef, 0xfe, 0xdc, 0xba, 0x98, 0x76, 0x54, 0x32, 0x10]
  {
    hide LE32;
    InitialWords();
  }

  lemma InitialWords()
    ensures LE32(INITIAL.a) == [0x01, 0x23, 0x45, 0x67] && LE32(INITIAL.b) == [0x89, 0xab, 0xcd, 0xef]
    ensures LE32(INITIAL.c) == [0xfe, 0xdc, 0xba, 0x98] && LE32(INITIAL.d) == [0x76, 0x54, 0x32, 0x10]
  {
    hide LE32;
    WordIs(INITIAL.a, 0x01, 0x23, 0x45, 0x67);
    WordIs(INITIAL.b, 0x89, 0xab, 0xcd, 0xef);
    WordIs(INITIAL.c, 0xfe, 0xdc, 0xba, 0x98);
    WordIs(INITIAL.d, 0x76, 0x54, 0x32, 0x10);
  }

  lemma WordIs(n: nat, b0: byte, b1: byte, b2: byte, b3: byte)
    requires n == b0 + 0x100 * (b1 + 0x100 * (b2 + 0x100 * b3))
    ensures n < TWO32 && LE32(n) == [b0, b1, b2, b3]
  {
    assert n / 0x100 == b1 + 0x100 * (b2 + 0x100 * b3);
    assert n / 0x100 / 0x100 == b2 + 0x100 * b3;
  }

  /** Each register keeps its place in the digest, and is there with its low-order byte first. */
  lemma RegisterPlaces(r: Registers)
    ensures var d := RegisterBytes(r); U32(d, 0) == r.a && U32(d, 4) == r.b && U32(d, 8) == r.c && U32(d, 12) == r.d
  {
    hide LE32, U32;
    var d := RegisterBytes(r);
    assert d[0..4] == LE32(r.a)[0..4] && d[4..8] == LE32(r.b)[0..4] && d[8..12] == LE32(r.c)[0..4] && d[12..16] == LE32(r.d)[0..4];
    U32Frame(d, 0, LE32(r.a), 0);
    U32Frame(d, 4, LE32(r.b), 0);
    U32Frame(d, 8, LE32(r.c), 0);
    U32Frame(d, 12, LE32(r.d), 0);
  }

  /** Section 3.2: the length in bits, modulo 2 to the 64th, low-order word first. */
  lemma LengthWords(n: nat)
    ensures U32(LengthBytes(n), 0) + TWO32 * U32(LengthBytes(n), 4) == 8 * n % TWO64
  {
    hide LE32, U32;
    var m := 8 * n % TWO64;
    var b := LengthBytes(n);
    assert b[0..4] == LE32(m % TWO32)[0..4] && b[4..8] == LE32(m / TWO32)[0..4];
    U32Frame(b, 0, LE32(m % TWO32), 0);
    U32Frame(b, 4, LE32(m / TWO32), 0);
  }

  /** Sections 3.1 and 3.2, byte by byte: the message, one byte 0x80, zero bytes up to the last eight, and no more than it takes
      to fill the last block. */
  lemma PaddedBytes(m: seq<byte>, p: seq<byte>)
    requires IsPadded(m, p)
    ensures |p| % 64 == 0 && |m| + 9 <= |p| < |m| + 9 + 64
    ensures p[..|m|] == m && p[|m|] == 0x80 && p[|p| - 8..] == LengthBytes(|m|)
    ensures forall k :: |m| < k < |p| - 8 ==> p[k] == 0
  {
    hide LengthBytes;
  }

  /** Section 3.5: the digest of a message. */
  ghost predicate IsDigest(f: Block, m: seq<byte>, d: seq<byte>) {
    exists p :: IsPadded(m, p) && |p| % 64 == 0 && d == RegisterBytes(Fold(f, INITIAL, p))
  }

  lemma DigestUnique(f: Block, m: seq<byte>, d: seq<byte>, e: seq<byte>)
    requires IsDigest(f, m, d) && IsDigest(f, m, e)
    ensures d == e
  {
    hide Fold, LengthBytes, RegisterBytes;
    var p :| IsPadded(m, p) && |p| % 64 == 0 && d == RegisterBytes(Fold(f, INITIAL, p));
    var q :| IsPadded(m, q) && |q| % 64 == 0 && e == RegisterBytes(Fold(f, INITIAL, q));
    var y: nat :| y < 64 && (|m| + 1 + y) % 64 == 56 && p == m + ([0x80] + Zeros(y)) + LengthBytes(|m|);
    var z: nat :| z < 64 && (|m| + 1 + z) % 64 == 56 && q == m + ([0x80] + Zeros(z)) + LengthBytes(|m|);
    PaddingUnique(|m| + 1, y, z);
  }

  lemma PaddingUnique(n: nat, y: nat, z: nat)
    requires y < 64 && z < 64 && (n + y) % 64 == 56 && (n + z) % 64 == 56
    ensures y == z
  {
  }

  lemma {:induction false} FoldAppend(f: Block, r: Registers, m: seq<byte>, n: seq<byte>)
    requires |m| % 64 == 0 && |n| % 64 == 0
    ensures |m + n| % 64 == 0 && Fold(f, r, m + n) == Fold(f, Fold(f, r, m), n)
    decreases |m|
  {
    if m == [] {
      assert m + n == n;
    } else {
      FoldAppend(f, f(r, m[..64]), m[64..], n);
      assert (m + n)[..64] == m[..64] && (m + n)[64..] == m[64..] + n;
    }
  }

  // ---------------------------------------------------------------- the two-word bit count

  function AddWord(x: nat, y: nat): (s: nat)
    ensures s < TWO32
  {
    (x + y) % TWO32
  }

  /** The count after `n` more bytes: high bits from a shift, low bits wrapped, carry seen by comparison. */
  function CountAfter(c0: nat, c1: nat, n: nat): (nat, nat) {
    var nbits := 8 * n % TWO32;
    var c1' := AddWord(c1, n / 0x2000_0000);
    var c0' := AddWord(c0, nbits);
    (c0', if c0' < nbits then AddWord(c1', 1) else c1')
  }

  /** The count words hold eight times the byte count modulo 2^64. */
  ghost predicate Counts(c0: nat, c1: nat, total: nat) {
    c0 < TWO32 && c1 < TWO32 && c0 + TWO32 * c1 == 8 * total % TWO64
  }

  /** Despite the split carry, the update keeps the count exact. */
  lemma CountExact(c0: nat, c1: nat, total: nat, n: nat)
    requires Counts(c0, c1, total) && n <= INT_MAX
    ensures var (d0, d1) := CountAfter(c0, c1, n);
      Counts(d0, d1, total + n)
  {
    hide CountAfter;
    var (d0, d1) := CountAfter(c0, c1, n);
    var q := CountCarry(c0, c1, n);
    Mod64(8 * (total + n), d0 + TWO32 * d1, 8 * total / TWO64 + q);
  }

  /** The new count is the old one plus the bits, less the multiple of 2^64 that falls off. */
  lemma CountCarry(c0: nat, c1: nat, n: nat) returns (q: nat)
    requires c0 < TWO32 && c1 < TWO32 && n <= INT_MAX
    ensures var (d0, d1) := CountAfter(c0, c1, n);
      d0 < TWO32 && d1 < TWO32 && d0 + TWO32 * d1 == c0 + TWO32 * c1 + 8 * n - TWO64 * q
  {
    var hi, lo := n / 0x2000_0000, 8 * n % TWO32;
    assert 8 * n == lo + TWO32 * hi;
    var (d0, d1) := CountAfter(c0, c1, n);
    var carry := if c0 + lo < TWO32 then 0 else 1;
    AddCarry(c0, lo);
    AddCarry(c1, hi);
    AddCarry(AddWord(c1, hi), carry);
    q := (if c1 + hi < TWO32 then 0 else 1) + (if AddWord(c1, hi) + carry < TWO32 then 0 else 1);
  }

  lemma AddCarry(x: nat, y: nat)
    requires x < TWO32 && y < TWO32
    ensures AddWord(x, y) == if x + y < TWO32 then x + y else x + y - TWO32
  {
  }

  lemma Mod64(x: nat, r: nat, k: int)
    requires r < TWO64 && x == r + TWO64 * k
    ensures x % TWO64 == r
  {
  }

  /** The position in the current block, as the code reads it off the low word of the count. */
  lemma OffsetExact(c0: nat, c1: nat, total: nat)
    requires Counts(c0, c1, total)
    ensures c0 / 8 % 64 == total % 64
  {
    var k := 8 * total / TWO64;
    DivideBack(8 * total, TWO64);
    var w := 0x80_0000 * c1 + 0x80_0000_0000_0000 * k;
    assert 8 * (total - 64 * w) == c0;
    Eighth(total - 64 * w);
    SameOffset(c0 / 8, w);
  }

  lemma DivideBack(x: nat, m: nat)
    requires m > 0
    ensures x == x % m + m * (x / m)
  {
  }

  lemma Eighth(x: int)
    ensures 8 * x / 8 == x
  {
  }

  lemma SameOffset(a: nat, w: int)
    ensures (a + 64 * w) % 64 == a % 64
  {
  }
}
