/** Node buffers as sequences of bytes. */
module Bytes {
  type Byte = b: int | 0 <= b < 256

  function Min(a: int, b: int): int {
    if a <= b then a else b
  }

  /** `Buffer.subarray(lo, hi)`: both ends are clamped to the buffer, and a crossed range is empty. */
  function Subarray(s: seq<Byte>, lo: nat, hi: nat): seq<Byte> {
    if lo <= hi && lo <= |s| then s[lo..Min(hi, |s|)] else []
  }

  /** The big-endian number a buffer spells. */
  function Value(s: seq<Byte>): nat {
    if s == [] then 0 else 256 * Value(s[..|s| - 1]) + s[|s| - 1]
  }

  function Zeros(n: nat): (z: seq<Byte>)
    ensures |z| == n && forall i :: 0 <= i < n ==> z[i] == 0
  {
    seq(n, _ => 0)
  }
}
