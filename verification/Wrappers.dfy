/** Optional values and the fixed-width integers that the specs carry. */
module Wrappers {

  datatype Option<+T> = None | Some(value: T)

  type u16 = x: int | 0 <= x < 0x1_0000
  type i32 = x: int | -0x8000_0000 <= x < 0x8000_0000
}
