/** Rust's fixed-width numbers. Dafny integers are unbounded, so each width is a
    newtype and every conversion between widths is written out. */
module Numeric {

  newtype Byte = x: int | 0 <= x < 0x100

  newtype I64 = x: int | -0x8000_0000_0000_0000 <= x < 0x8000_0000_0000_0000

  newtype U64 = x: int | 0 <= x < 0x1_0000_0000_0000_0000

  /** An `f64`, kept as its IEEE-754 bit pattern: the model only moves floats around. */
  newtype F64 = x: int | 0 <= x < 0x1_0000_0000_0000_0000

  /** `x as i64` for a `u64`: values from 2^63 up wrap to negative numbers. */
  function WrapToI64(x: U64): (r: I64)
    ensures x < 0x8000_0000_0000_0000 ==> r as int == x as int
    ensures x >= 0x8000_0000_0000_0000 ==> r < 0 && r as int == x as int - 0x1_0000_0000_0000_0000
  {
    if x < 0x8000_0000_0000_0000 then x as int as I64
    else (x as int - 0x1_0000_0000_0000_0000) as I64
  }

  /** No two `u64` values wrap to the same `i64`, so nothing is lost by the cast. */
  lemma WrapToI64Injective(x: U64, y: U64)
    requires WrapToI64(x) == WrapToI64(y)
    ensures x == y
  {
  }
}
