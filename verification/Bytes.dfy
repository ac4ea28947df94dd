/** Bytes, C strings, little-endian words and block writes: the vocabulary shared by the other modules. */
module Bytes {
  type byte = x: int | 0 <= x < 256

  datatype Option<T> = None | Some(value: T)

  const TWO32: nat := 0x1_0000_0000
  const TWO64: int := 0x1_0000_0000_0000_0000

  const DOT: byte := 46

  predicate IsDigit(c: byte) { 48 <= c <= 57 }

  /** The bytes of a text. */
  function Ascii(s: string): (b: seq<byte>)
    requires forall i :: 0 <= i < |s| ==> s[i] < 128 as char
    ensures |b| == |s| && forall i :: 0 <= i < |s| ==> b[i] == s[i] as int
  {
    seq(|s|, i requires 0 <= i < |s| => s[i] as int)
  }

  predicate NoNul(s: seq<byte>) { 0 !in s }

  /** What a C function sees of a string: the bytes before the first zero. */
  function CStr(s: seq<byte>): (c: seq<byte>)
    ensures NoNul(c) && c <= s
    ensures NoNul(s) ==> c == s
  {
    if s == [] || s[0] == 0 then [] else [s[0]] + CStr(s[1..])
  }

  function Word(b0: int, b1: int, b2: int, b3: int): int {
    b0 + 0x100 * b1 + 0x1_0000 * b2 + 0x100_0000 * b3
  }

  /** The unsigned 32-bit little-endian word stored at `at`. */
  function U32(b: seq<byte>, at: nat): (n: nat)
    requires at + 4 <= |b|
    ensures n < TWO32
  {
    Word(b[at], b[at + 1], b[at + 2], b[at + 3])
  }

  /** The four bytes of an unsigned 32-bit word, least significant first. */
  function LE32(n: nat): (b: seq<byte>)
    requires n < TWO32
    ensures |b| == 4 && U32(b, 0) == n
  {
    var n1 := n / 0x100;
    var n2 := n1 / 0x100;
    [n % 0x100, n1 % 0x100, n2 % 0x100, n2 / 0x100]
  }

  /** `b` with the bytes from `at` on overwritten by `src` (memcpy into a buffer). */
  function Blit(b: seq<byte>, at: nat, src: seq<byte>): (r: seq<byte>)
    requires at + |src| <= |b|
    ensures |r| == |b|
    ensures r[at..at + |src|] == src
    ensures forall i :: 0 <= i < |b| && !(at <= i < at + |src|) ==> r[i] == b[i]
    ensures forall i :: at <= i < at + |src| ==> r[i] == src[i - at]
  {
    b[..at] + src + b[at + |src|..]
  }

  /** `b` with the word at `at` replaced by `n`. */
  function Put32(b: seq<byte>, at: nat, n: nat): (r: seq<byte>)
    requires at + 4 <= |b| && n < TWO32
    ensures |r| == |b| && U32(r, at) == n
    ensures forall i :: 0 <= i < |b| && !(at <= i < at + 4) ==> r[i] == b[i]
  {
    Blit(b, at, LE32(n))
  }

  /** A word depends on its own four bytes only. */
  lemma U32Frame(b: seq<byte>, at: nat, c: seq<byte>, at': nat)
    requires at + 4 <= |b| && at' + 4 <= |c|
    requires b[at..at + 4] == c[at'..at' + 4]
    ensures U32(b, at) == U32(c, at')
  {
    var x, y := b[at..at + 4], c[at'..at' + 4];
    assert x[0] == b[at] && x[1] == b[at + 1] && x[2] == b[at + 2] && x[3] == b[at + 3];
    assert y[0] == c[at'] && y[1] == c[at' + 1] && y[2] == c[at' + 2] && y[3] == c[at' + 3];
  }

  /** Writing inside a window of a larger memory is writing that window. */
  lemma BlitWindow(m: seq<byte>, base: nat, size: nat, at: nat, src: seq<byte>)
    requires base + size <= |m| && at + |src| <= size
    ensures Blit(m, base + at, src)[base..base + size] == Blit(m[base..base + size], at, src)
  {
  }

  /** Equal slices have equal sub-slices. */
  lemma Subslice(p: seq<byte>, q: seq<byte>, a: nat, b: nat, c: nat, d: nat)
    requires a <= c <= d <= b <= |p| == |q|
    requires p[a..b] == q[a..b]
    ensures p[c..d] == q[c..d]
  {
    forall i | c <= i < d ensures p[i] == q[i] {
      assert p[i] == p[a..b][i - a] && q[i] == q[a..b][i - a];
    }
  }

  lemma U32Slice(b: seq<byte>, lo: nat, hi: nat, at: nat)
    requires lo + at + 4 <= hi <= |b|
    ensures U32(b[lo..hi], at) == U32(b, lo + at)
  {
  }

  /** `b` holds `x` at `at`. */
  predicate Holds(b: seq<byte>, at: nat, x: seq<byte>) {
    at + |x| <= |b| && b[at..at + |x|] == x
  }

  lemma HoldsParts(b: seq<byte>, at: nat, x: seq<byte>, y: seq<byte>)
    ensures Holds(b, at, x + y) <==> Holds(b, at, x) && Holds(b, at + |x|, y)
  {
    if at + |x| + |y| <= |b| {
      var z := b[at..at + |x| + |y|];
      assert z[..|x|] == b[at..at + |x|] && z[|x|..] == b[at + |x|..at + |x| + |y|];
      assert z == z[..|x|] + z[|x|..];
      assert (x + y)[..|x|] == x && (x + y)[|x|..] == y;
    }
  }

  lemma Assoc(a: seq<byte>, b: seq<byte>, c: seq<byte>)
    ensures (a + b) + c == a + (b + c)
  {
  }
}
