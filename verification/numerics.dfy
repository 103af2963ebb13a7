/** Go's fixed-width integer behaviour that the model needs spelled out. */
module Numerics {

  /** Go's `int32`. Circle radii are stored with this type. */
  newtype int32 = x: int | -0x8000_0000 <= x < 0x8000_0000

  /** True when the mathematical sum of two int32 values is itself an int32. */
  predicate NoOverflow32(a: int32, b: int32)
  {
    -0x8000_0000 <= a as int + b as int < 0x8000_0000
  }

  /** Go's `a + b` on int32: two's-complement addition, wrapping modulo 2^32. */
  function AddInt32(a: int32, b: int32): (r: int32)
    ensures NoOverflow32(a, b) ==> r as int == a as int + b as int
    ensures a as int + b as int >= 0x8000_0000 ==> r as int == a as int + b as int - 0x1_0000_0000
    ensures a as int + b as int < -0x8000_0000 ==> r as int == a as int + b as int + 0x1_0000_0000
  {
    ((a as int + b as int + 0x8000_0000) % 0x1_0000_0000 - 0x8000_0000) as int32
  }
}
