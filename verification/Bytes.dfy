/** Bytes, big-endian integers and the small helpers shared by every codec. */
module Bytes {

  type byte = x: int | 0 <= x < 256

  datatype Option<+T> = None | Some(value: T)

  const U32_LIMIT: nat := 0x1_0000_0000

  function Min(a: nat, b: nat): nat {
    if a < b then a else b
  }

  function Max(a: nat, b: nat): nat {
    if a > b then a else b
  }

  /** The 16-bit big-endian encoding of n, truncated as a store to uint16_t is. */
  function U16(n: nat): (field: seq<byte>)
    ensures |field| == 2
  {
    [(n / 256) % 256, n % 256]
  }

  function FromU16(b: seq<byte>): nat
    requires |b| == 2
  {
    (b[0] as int) * 256 + b[1]
  }

  /** The 32-bit big-endian encoding of n, truncated as a store to uint32_t is. */
  function U32(n: nat): (field: seq<byte>)
    ensures |field| == 4
  {
    U16(n / 65536) + U16(n)
  }

  function FromU32(b: seq<byte>): nat
    requires |b| == 4
  {
    FromU16(b[..2]) * 65536 + FromU16(b[2..])
  }

  lemma U16RoundTrip(n: nat)
    ensures FromU16(U16(n)) == n % 65536
  {
    var high := n / 256;
    var low, k, middle := n % 256, high / 256, high % 256;
    assert n == 256 * high + low && high == 256 * k + middle;
    Remainder16(n, k, 256 * middle + low);
  }

  lemma Remainder16(n: nat, k: nat, r: nat)
    requires n == 65536 * k + r && r < 65536
    ensures n % 65536 == r
  {
  }

  lemma U32RoundTrip(n: nat)
    ensures FromU32(U32(n)) == n % U32_LIMIT
  {
    U16RoundTrip(n / 65536);
    U16RoundTrip(n);
    assert U32(n)[..2] == U16(n / 65536);
    assert U32(n)[2..] == U16(n);
  }

  lemma U16Injective(b: seq<byte>)
    requires |b| == 2
    ensures U16(FromU16(b)) == b && FromU16(b) < 65536
  {
  }

  /** n copies of b: what memset leaves behind. */
  function Fill(b: byte, n: nat): (r: seq<byte>)
    ensures |r| == n
    ensures forall i :: 0 <= i < n ==> r[i] == b
  {
    seq(n, i => b)
  }

  /** chunk_skip: empty when skipping to the end or past it. */
  function Skip(s: seq<byte>, n: nat): seq<byte> {
    if |s| > n then s[n..] else []
  }

  /** pad_len: how much to add to reach the next multiple of the alignment. */
  function PadLen(size: nat, alignment: nat): (p: nat)
    requires alignment > 0
    ensures p < alignment && (size + p) % alignment == 0
  {
    var r := size % alignment;
    if r != 0 then
      assert size + (alignment - r) == alignment * (size / alignment) + alignment;
      MultipleHasNoRemainder(size / alignment + 1, alignment);
      assert (size / alignment + 1) * alignment == size + (alignment - r);
      alignment - r
    else 0
  }

  lemma MultipleHasNoRemainder(k: int, m: nat)
    requires m > 0
    ensures (k * m) % m == 0
  {
    var q, r := (k * m) / m, (k * m) % m;
    assert k * m == q * m + r;
    SmallMultiple(k - q, m);
  }

  lemma SmallMultiple(d: int, m: nat)
    requires m > 0
    ensures 0 <= d * m < m ==> d == 0
  {
    if d > 0 {
      assert d * m == m + (d - 1) * m;
    } else if d < 0 {
      assert d * m == (d + 1) * m - m;
    }
  }

  /** Bit test on a byte; `mask` is a power of two. */
  predicate HasFlag(flags: byte, mask: nat)
    requires mask > 0
  {
    (flags / mask) % 2 == 1
  }

  /** memcpy of src into dst at the given position. */
  method CopyInto(dst: array<byte>, at: nat, src: seq<byte>)
    requires at + |src| <= dst.Length
    modifies dst
    ensures dst[at..at + |src|] == src
    ensures forall i :: 0 <= i < dst.Length && !(at <= i < at + |src|) ==> dst[i] == old(dst[i])
  {
    for n := 0 to |src|
      invariant dst[at..at + n] == src[..n]
      invariant forall i :: 0 <= i < dst.Length && !(at <= i < at + n) ==> dst[i] == old(dst[i])
    {
      dst[at + n] := src[n];
    }
  }
}
