/** Machine types of the source language that the keyboard types carry. */
module Primitives {

  /** An unsigned 8-bit integer, `u8`. */
  newtype u8 = x: int | 0 <= x < 0x100
}
