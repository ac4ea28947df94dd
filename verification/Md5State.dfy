/** md5_state_t and its three operations. */
module Md5State {
  import opened Bytes
  import opened Md5

  /** Two's complement wrap-around of an int sum. */
  function WrapInt(x: int): int {
    if x > INT_MAX then x - TWO32 else x
  }

  /** The registers hold a message of whole blocks. */
  ghost predicate AtBoundary(f: Block, r: Registers, m: seq<byte>) {
    |m| % 64 == 0 && r == Fold(f, INITIAL, m)
  }

  /** The registers hold the whole blocks of `m`, and the buffer starts with the rest. */
  ghost predicate Tracks(f: Block, r: Registers, buf: seq<byte>, m: seq<byte>) {
    var k := |m| % 64;
    && |buf| == 64
    && AtBoundary(f, r, m[..|m| - k])
    && buf[..k] == m[|m| - k..]
  }

  lemma BlockStep(f: Block, r: Registers, m: seq<byte>, b: seq<byte>)
    requires AtBoundary(f, r, m) && |b| == 64
    ensures AtBoundary(f, f(r, b), m + b)
  {
    FoldAppend(f, INITIAL, m, b);
    assert b[..64] == b && b[64..] == [];
  }

  lemma Sliced(m: seq<byte>, d: seq<byte>, p: nat, q: nat)
    requires p <= q <= |d|
    ensures m + d[..p] + d[p..q] == m + d[..q]
  {
    assert d[..p] + d[p..q] == d[..q];
  }

  /** Less than a block in all: only the buffer grows. */
  lemma TailStep(f: Block, r: Registers, buf: seq<byte>, m: seq<byte>, d: seq<byte>)
    requires Tracks(f, r, buf, m) && |m| % 64 + |d| < 64
    ensures Tracks(f, r, Blit(buf, |m| % 64, d), m + d)
  {
    hide Fold;
    var k := |m| % 64;
    assert |m + d| % 64 == k + |d|;
    assert (m + d)[..|m| - k] == m[..|m| - k];
    assert Blit(buf, k, d)[..k + |d|] == (m + d)[|m| - k..];
  }

  /** A partial block completed. */
  lemma FillStep(f: Block, r: Registers, buf: seq<byte>, m: seq<byte>, d: seq<byte>)
    requires Tracks(f, r, buf, m) && |d| == 64 - |m| % 64
    ensures AtBoundary(f, f(r, Blit(buf, |m| % 64, d)), m + d)
  {
    hide Fold;
    var k := |m| % 64;
    var b := Blit(buf, k, d);
    BlockStep(f, r, m[..|m| - k], b);
    assert m[..|m| - k] + b == m + d;
  }

  lemma BoundaryTracks(f: Block, r: Registers, buf: seq<byte>, m: seq<byte>)
    requires |buf| == 64 && |m| % 64 == 0
    ensures Tracks(f, r, buf, m) <==> AtBoundary(f, r, m)
  {
    hide Fold;
    assert m[..|m|] == m;
  }

  /** The int sum of the bytes pending behind `length` and of `n` new ones does not wrap around, or is not taken. */
  predicate NoWrap(length: nat, n: nat) {
    n == 0 || length % 64 == 0 || length % 64 + n < 0x8000_0000
  }

  class State {
    const f: Block
    var count0: nat
    var count1: nat
    var abcd: Registers
    var buf: array<byte>
    ghost var msg: seq<byte>

    ghost predicate Valid()
      reads this, buf
    {
      && Counts(count0, count1, |msg|)
      && buf.Length == 64
      && Tracks(f, abcd, buf[..], msg)
    }

    /** md5_init */
    constructor (f: Block)
      ensures Valid() && msg == [] && this.f == f && fresh(buf)
    {
      this.f := f;
      count0, count1, abcd, msg := 0, 0, INITIAL, [];
      buf := new byte[64](_ => 0);
    }

    /** memcpy into the block buffer. */
    method Copy(at: nat, d: seq<byte>)
      requires buf.Length == 64 && at + |d| <= 64
      modifies buf
      ensures buf[..] == Blit(old(buf[..]), at, d)
    {
      forall i | 0 <= i < |d| {
        buf[at + i] := d[i];
      }
    }

    /** The part of md5_append behind a block boundary: whole blocks straight from the input, the rest to the buffer. */
    method AppendBlocks(data: seq<byte>, ghost m: seq<byte>)
      requires buf.Length == 64 && AtBoundary(f, abcd, m)
      modifies `abcd, buf
      ensures Tracks(f, abcd, buf[..], m + data)
    {
      hide Fold, AtBoundary, Tracks;
      var p := 0;
      assert m + data[..0] == m;
      while |data| - p >= 64
        invariant 0 <= p <= |data|
        invariant AtBoundary(f, abcd, m + data[..p])
      {
        BlockStep(f, abcd, m + data[..p], data[p..p + 64]);
        Sliced(m, data, p, p + 64);
        abcd := f(abcd, data[p..p + 64]);
        p := p + 64;
      }
      LastStep(f, abcd, buf[..], m + data[..p], data[p..]);
      Sliced(m, data, p, |data|);
      assert data[..|data|] == data && data[p..|data|] == data[p..];
      Copy(0, data[p..]);
    }

    /** md5_append. It returns false where the source would copy past its buffer: exactly when a partial block is
        pending and the int sum of its length and the input's wraps around. */
    method Append(data: seq<byte>) returns (ok: bool)
      requires Valid() && |data| <= INT_MAX
      modifies this, buf
      ensures buf == old(buf)
      ensures ok <==> NoWrap(old(|msg|), |data|)
      ensures ok ==> Valid() && msg == old(msg) + data
    {
      hide Fold, AtBoundary, Tracks, CountAfter, Counts;
      OffsetExact(count0, count1, |msg|);
      var offset := count0 / 8 % 64;
      if |data| == 0 {
        assert msg + data == msg;
        return true;
      }
      CountExact(count0, count1, |msg|, |data|);
      var (c0, c1) := CountAfter(count0, count1, |data|);
      count0, count1 := c0, c1;
      ghost var m0 := msg;
      msg := msg + data;
      var p := 0;
      if offset != 0 {
        var copy := if WrapInt(offset + |data|) > 64 then 64 - offset else |data|;
        if offset + copy > 64 {
          return false;
        }
        if offset + copy < 64 {
          TailStep(f, abcd, buf[..], m0, data);
          assert data[..copy] == data;
          Copy(offset, data[..copy]);
          return true;
        }
        FillStep(f, abcd, buf[..], m0, data[..copy]);
        Copy(offset, data[..copy]);
        p := copy;
        abcd := f(abcd, buf[..]);
      } else {
        AtStart(f, abcd, buf[..], m0);
        assert m0 + data[..0] == m0;
      }
      assert m0 + data[..p] + data[p..] == m0 + data;
      AppendBlocks(data[p..], m0 + data[..p]);
      ok := true;
    }

    /** md5_finish: whatever the appends were, the digest is that of their concatenation. */
    method Finish() returns (digest: seq<byte>)
      requires Valid()
      modifies this, buf
      ensures IsDigest(f, old(msg), digest)
    {
      hide Fold, AtBoundary, Tracks, Counts, LE32, U32, IsDigest, PadZeros, LengthBytes, RegisterBytes;
      ghost var m := msg;
      OffsetExact(count0, count1, |m|);
      CountBytes(count0, count1, |m|);
      var data := LE32(count0) + LE32(count1);
      var z := PadZeros(count0 / 8);
      PadLength(|m|, count0 / 8);
      var pad := [0x80] + Zeros(z);
      PadBoundary(|m|, z);
      var _ := Append(pad);
      var _ := Append(data);
      AtStart(f, abcd, buf[..], msg);
      PaddedDigest(f, m, z, msg, abcd);
      digest := RegisterBytes(abcd);
    }
  }

  lemma AtStart(f: Block, r: Registers, buf: seq<byte>, m: seq<byte>)
    requires Tracks(f, r, buf, m) && |m| % 64 == 0
    ensures AtBoundary(f, r, m)
  {
    BoundaryTracks(f, r, buf, m);
  }

  /** Behind a boundary, less than a block is left for the buffer. */
  lemma LastStep(f: Block, r: Registers, buf: seq<byte>, m: seq<byte>, d: seq<byte>)
    requires |buf| == 64 && AtBoundary(f, r, m) && |d| < 64
    ensures Tracks(f, r, Blit(buf, 0, d), m + d)
  {
    hide Fold;
    BoundaryTracks(f, r, buf, m);
    TailStep(f, r, buf, m, d);
  }

  /** Zero bytes of padding: the code's mask of an unsigned difference. */
  function PadZeros(c: nat): (z: nat)
    ensures z < 64
  {
    (55 - c) % 64
  }

  lemma PadLength(n: nat, c: nat)
    requires c % 64 == n % 64
    ensures (n + 1 + PadZeros(c)) % 64 == 56
  {
  }

  lemma PadBoundary(n: nat, z: nat)
    requires (n + 1 + z) % 64 == 56
    ensures (n + (1 + z) + 8) % 64 == 0
  {
  }

  lemma CountBytes(c0: nat, c1: nat, total: nat)
    requires Counts(c0, c1, total)
    ensures c0 < TWO32 && c1 < TWO32 && LE32(c0) + LE32(c1) == LengthBytes(total)
  {
    hide LE32, LE64;
    WordPair(c0, c1);
  }

  lemma WordPair(c0: nat, c1: nat)
    requires c0 < TWO32 && c1 < TWO32
    ensures LE64(c0 + TWO32 * c1) == LE32(c0) + LE32(c1)
  {
    hide LE32;
    assert (c0 + TWO32 * c1) % TWO32 == c0 && (c0 + TWO32 * c1) / TWO32 == c1;
  }

  lemma PaddedDigest(f: Block, m: seq<byte>, z: nat, p: seq<byte>, r: Registers)
    requires z < 64 && (|m| + 1 + z) % 64 == 56 && p == m + ([0x80] + Zeros(z)) + LengthBytes(|m|)
    requires AtBoundary(f, r, p)
    ensures IsDigest(f, m, RegisterBytes(r))
  {
    hide Fold, LengthBytes, RegisterBytes;
    assert IsPadded(m, p);
  }

  /** Any way of cutting a message into chunks gives the digest of the message, unless a chunk is so long that the sum wraps
      around where it arrives. */
  method DigestOfChunks(f: Block, chunks: seq<seq<byte>>) returns (ok: bool, digest: seq<byte>)
    requires forall i :: 0 <= i < |chunks| ==> |chunks[i]| <= INT_MAX
    ensures ok <==> forall i :: 0 <= i < |chunks| ==> NoWrap(|Concat(chunks[..i])|, |chunks[i]|)
    ensures ok ==> IsDigest(f, Concat(chunks), digest)
  {
    hide Fold, IsDigest, Tracks, Counts, Concat, LengthBytes, NoWrap;
    NoChunks();
    var st := new State(f);
    var i := 0;
    assert chunks[..0] == [];
    while i < |chunks|
      invariant i <= |chunks| && st.Valid() && st.f == f && st.msg == Concat(chunks[..i])
      invariant fresh(st) && fresh(st.buf)
      invariant forall k :: 0 <= k < i ==> NoWrap(|Concat(chunks[..k])|, |chunks[k]|)
    {
      OneMoreChunk(chunks, i);
      ok := st.Append(chunks[i]);
      if !ok {
        return false, [];
      }
      i := i + 1;
    }
    assert chunks[..i] == chunks;
    digest := st.Finish();
    ok := true;
  }

  /** One pending byte and INT_MAX more do it. */
  method WrapExample(f: Block) returns (ok: bool)
    ensures !ok
  {
    hide Fold, Tracks, Counts;
    var st := new State(f);
    ok := st.Append([0]);
    assert NoWrap(0, 1);
    ok := st.Append(seq(INT_MAX, _ => 0));
  }

  lemma NoChunks()
    ensures Concat([]) == []
  {
  }

  lemma OneMoreChunk(chunks: seq<seq<byte>>, i: nat)
    requires i < |chunks|
    ensures Concat(chunks[..i + 1]) == Concat(chunks[..i]) + chunks[i]
  {
    assert chunks[..i + 1][..i] == chunks[..i];
  }

  function Concat(chunks: seq<seq<byte>>): seq<byte> {
    if chunks == [] then [] else Concat(chunks[..|chunks| - 1]) + chunks[|chunks| - 1]
  }
}
