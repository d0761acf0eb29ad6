/** Bytes, byte vectors and the small helpers both programs share. */
module Bytes {

  /** One octet, as held in a Rust `Vec<u8>`. */
  newtype byte = x: int | 0 <= x < 256

  type Bytes = seq<byte>

  datatype Option<T> = None | Some(value: T)

  /** n zero bytes: the fill that `vec![0; n]` and `resize(n, 0)` produce. */
  function Zeros(n: nat): (z: Bytes)
    ensures |z| == n
    ensures forall i :: 0 <= i < n ==> z[i] == 0
  {
    seq(n, _ => 0)
  }

  /** True if no byte of s is the NUL byte. */
  predicate NoZero(s: Bytes) {
    forall i :: 0 <= i < |s| ==> s[i] != 0
  }

  /**
   * `Vec::resize(n, fill)` applied to s: the vector keeps its first n
   * bytes when it is at least that long, and is extended with copies of
   * fill up to length n otherwise.
   */
  function Resize(s: Bytes, n: nat, fill: byte): (r: Bytes)
    ensures |r| == n
    ensures |s| >= n ==> r == s[..n]
    ensures |s| < n ==> r[..|s|] == s
    ensures forall i :: |s| <= i < n ==> r[i] == fill
  {
    if |s| >= n then s[..n] else s + seq(n - |s|, _ => fill)
  }
}
