/** Bytes and the little-endian 32-bit integers of the wire format.

    The client copies host integers with `memcpy` and relies on a little-endian
    host; here the byte order is explicit, so the model is the wire format
    itself, independent of any host. */
module Bytes {

  type byte = x: int | 0 <= x < 256

  const U32_BOUND: int := 0x1_0000_0000

  type u32 = x: int | 0 <= x < 0x1_0000_0000

  /** A C conversion to `uint32_t`: the value modulo 2^32. */
  function Truncate32(n: nat): (r: u32)
    ensures r == n % U32_BOUND
  {
    if n < U32_BOUND then n else n % U32_BOUND
  }

  /** The four bytes of `x`, least significant first. */
  function LE32(x: u32): (r: seq<byte>)
    ensures |r| == 4
  {
    var q1 := x / 256;
    var q2 := q1 / 256;
    var q3 := q2 / 256;
    [x % 256, q1 % 256, q2 % 256, q3]
  }

  /** The integer whose little-endian bytes are `b`. */
  function ParseLE32(b: seq<byte>): u32
    requires |b| == 4
  {
    b[0] as int + 256 * (b[1] as int + 256 * (b[2] as int + 256 * b[3] as int))
  }

  lemma DivMod256(lo: int, hi: int)
    requires 0 <= lo < 256 && 0 <= hi
    ensures (lo + 256 * hi) % 256 == lo
    ensures (lo + 256 * hi) / 256 == hi
  {
  }

  /** Reading back what was written gives the integer that was written. */
  lemma ParseLE32OfLE32(x: u32)
    ensures ParseLE32(LE32(x)) == x
  {
  }

  /** Every four bytes are the encoding of exactly one integer. */
  lemma LE32OfParseLE32(b: seq<byte>)
    requires |b| == 4
    ensures LE32(ParseLE32(b)) == b
  {
    var x := ParseLE32(b);
    var h1: int := b[1] as int + 256 * (b[2] as int + 256 * b[3] as int);
    var h2: int := b[2] as int + 256 * b[3] as int;
    DivMod256(b[0], h1);
    DivMod256(b[1], h2);
    DivMod256(b[2], b[3]);
  }

  /** Distinct integers have distinct encodings. */
  lemma LE32Injective(x: u32, y: u32)
    requires LE32(x) == LE32(y)
    ensures x == y
  {
    ParseLE32OfLE32(x);
    ParseLE32OfLE32(y);
  }

  /** `buf_append`: the first `len` bytes of `data` added at the back of `buf`. */
  function BufAppend(buf: seq<byte>, data: seq<byte>, len: nat): (r: seq<byte>)
    requires len <= |data|
    ensures |r| == |buf| + len
    ensures r[..|buf|] == buf
    ensures r[|buf|..] == data[..len]
  {
    buf + data[..len]
  }

  /** A sequence is its three consecutive slices. */
  lemma SplitAt(s: seq<byte>, i: nat, j: nat)
    requires i <= j <= |s|
    ensures s == s[..i] + s[i..j] + s[j..]
  {
  }

  /** Where the tail of `s` from `p` on is `x + y + z`, the slices of `s` at
      the matching offsets are `x` and `y`. */
  lemma Window(s: seq<byte>, p: nat, x: seq<byte>, y: seq<byte>, z: seq<byte>)
    requires p <= |s| && s[p..] == x + y + z
    ensures p + |x| + |y| <= |s|
    ensures s[p..p + |x|] == x
    ensures s[p + |x|..p + |x| + |y|] == y
    ensures s[p + |x| + |y|..] == z
  {
    assert s[p..p + |x|] == s[p..][..|x|];
    assert s[p + |x|..p + |x| + |y|] == s[p..][|x|..|x| + |y|];
    assert s[p + |x| + |y|..] == s[p..][|x| + |y|..];
  }
}
