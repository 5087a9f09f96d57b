/** Fixed-width machine integers of the program, as ranges of `int`. */
module Ints {

  const U32_LIMIT: int := 0x1_0000_0000

  /** `usize`, assuming a 64-bit target. */
  const USIZE_LIMIT: int := 0x1_0000_0000_0000_0000

  /** One past `isize::MAX` on a 64-bit target: the largest allocation a `Vec` may ask for. */
  const ISIZE_LIMIT: int := 0x8000_0000_0000_0000

  type uint32 = x: int | 0 <= x < 0x1_0000_0000

  type usize = x: int | 0 <= x < 0x1_0000_0000_0000_0000

  newtype byte = x: int | 0 <= x < 256
}
