/** Types that several modules use. */
module Basics {

  datatype Option<+T> = None | Some(value: T)

  type Byte = b: int | 0 <= b < 0x100
  type U16 = x: int | 0 <= x < 0x1_0000
  type U32 = x: int | 0 <= x < 0x1_0000_0000
  type U64 = x: int | 0 <= x < 0x1_0000_0000_0000_0000
}
