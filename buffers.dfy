/**
 * Element types of the typed buffers a column batch owns, and the growth
 * rule of a pool-backed buffer (`DataBuffer<T>::resize`), seen only through
 * its length and contents.
 */
module Buffers {

  /** `char` / `unsigned char` entries: null indicators and union tags. */
  newtype Byte = x: int | 0 <= x < 0x100

  /** `int64_t` entries: long values, string lengths, list offsets, decimal64 values, scales. */
  newtype Int64 = x: int | -0x8000_0000_0000_0000 <= x < 0x8000_0000_0000_0000

  /** `uint64_t` entries: per-row offsets into a union child. */
  newtype UInt64 = x: int | 0 <= x < 0x1_0000_0000_0000_0000

  /** `Int128` entries: decimal128 values. */
  newtype Int128 = x: int | -0x8000_0000_0000_0000_0000_0000_0000_0000 <= x < 0x8000_0000_0000_0000_0000_0000_0000_0000

  /** The eight bytes of a `double`; the model never computes with them. */
  type DoubleBits = bv64

  /** A `char*` into byte storage that the string batch does not own. */
  type Address = nat

  /** `s` is a prefix of `t`. */
  predicate IsPrefix<T(==)>(s: seq<T>, t: seq<T>) {
    |s| <= |t| && t[..|s|] == s
  }

  /**
   * A buffer grown to `n` entries: the old entries stay at their indices and
   * the new ones hold `fill` (the C++ buffer leaves them unspecified).
   */
  function Grown<T(==)>(s: seq<T>, n: nat, fill: T): (r: seq<T>)
    requires |s| <= n
    ensures |r| == n
    ensures IsPrefix(s, r)
    ensures forall i :: |s| <= i < n ==> r[i] == fill
  {
    s + seq(n - |s|, _ => fill)
  }

  /** A freshly allocated buffer of `n` entries. */
  function Allocated<T(==)>(n: nat, fill: T): (r: seq<T>)
    ensures |r| == n
  {
    Grown([], n, fill)
  }
}
