// Types that several modules share.
module Wrappers {
  // A pointer that may be NULL.
  datatype Option<T> = None | Some(value: T)

  type uint32 = x: int | 0 <= x < 0x1_0000_0000
}
