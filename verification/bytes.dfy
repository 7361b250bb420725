/** Bytes as the driver sees them: the elements of a `Uint8Array`. */
module ByteSeq {

  type Byte = b: int | 0 <= b < 256
  type Bytes = seq<Byte>

  /** Reads element `i` the way the JavaScript bitwise operators see `bytes[i]`:
      past the end the element is `undefined`, which those operators convert to 0. */
  function At(s: Bytes, i: nat): (b: Byte)
    ensures i < |s| ==> b == s[i]
    ensures i >= |s| ==> b == 0
  {
    if i < |s| then s[i] else 0
  }

  /** `n` zero bytes: a freshly allocated `Uint8Array(n)`. */
  function Zeros(n: nat): (z: Bytes)
    ensures |z| == n
    ensures forall i :: 0 <= i < n ==> z[i] == 0
  {
    seq(n, _ => 0)
  }

  /** `s.subarray(lo, hi)` for `0 <= lo <= hi`: both ends are clamped to the length. */
  function Subarray(s: Bytes, lo: nat, hi: nat): (r: Bytes)
    requires lo <= hi
    ensures lo <= |s| ==> r == s[lo..if hi <= |s| then hi else |s|]
    ensures lo > |s| ==> r == []
  {
    if lo >= |s| then [] else if hi <= |s| then s[lo..hi] else s[lo..]
  }
}
