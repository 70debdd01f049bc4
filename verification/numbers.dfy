/** Fixed-width integer types of the protocol package, as subsets of `int`. */
module Numbers {

  const Two64: int := 0x1_0000_0000_0000_0000

  /** Go `uint64`: device short IDs and counter values. */
  type uint64 = x: int | 0 <= x < Two64

  /** Go `int64` (and Go `int` on 64-bit platforms). */
  type int64 = x: int | -0x8000_0000_0000_0000 <= x < 0x8000_0000_0000_0000

  /** Go `int32`. */
  type int32 = x: int | -0x8000_0000 <= x < 0x8000_0000

  type byte = bv8

  const MaxUint64: uint64 := Two64 - 1

  /** Go's `x++` on a `uint64`: adds one modulo 2^64. */
  function Increment(x: uint64): (r: uint64)
    ensures x < MaxUint64 ==> r == x + 1
    ensures x == MaxUint64 ==> r == 0
  {
    (x + 1) % Two64
  }

  function Max(a: uint64, b: uint64): (r: uint64)
    ensures r >= a && r >= b
    ensures r == a || r == b
  {
    if a >= b then a else b
  }
}
