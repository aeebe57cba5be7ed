// Types that all components share.

module Basics {
  type byte = b: int | 0 <= b < 256
  type Bytes = seq<byte>

  newtype int64 = x: int | -0x8000_0000_0000_0000 <= x < 0x8000_0000_0000_0000

  datatype Option<+T> = None | Some(value: T)

  function Min(a: int, b: int): int { if a < b then a else b }
}
