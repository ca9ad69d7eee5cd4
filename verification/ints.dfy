/** The fixed-width integer of the C# code the store's codec meets. */
module Ints {
  /** A C# `int`: a 32-bit two's-complement integer. */
  newtype int32 = x: int | -0x8000_0000 <= x < 0x8000_0000
}
