/** Bytes and the block-copy primitives that the C sources get from the C library. */
module Bytes {
  type byte = b: int | 0 <= b < 256

  /** `memcpy`: the two ranges must not overlap, which is exactly what the C library demands. */
  method MemCopy(dst: array<byte>, d: nat, src: array<byte>, s: nat, n: nat)
    requires d + n <= dst.Length && s + n <= src.Length
    requires dst != src || s + n <= d || d + n <= s
    modifies dst
    ensures forall k | d <= k < d + n :: dst[k] == old(src[s + (k - d)])
    ensures forall k | 0 <= k < d || d + n <= k < dst.Length :: dst[k] == old(dst[k])
  {
    forall i | 0 <= i < n {
      dst[d + i] := src[s + i];
    }
  }

  /** `s` with `x` written from position `at` on. */
  function Patch(s: seq<byte>, at: nat, x: seq<byte>): (r: seq<byte>)
    requires at + |x| <= |s|
    ensures |r| == |s|
    ensures forall a | 0 <= a < |s| :: r[a] == if at <= a < at + |x| then x[a - at] else s[a]
  {
    s[..at] + x + s[at + |x|..]
  }
}
