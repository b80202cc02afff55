/** Types shared by every module: an optional value, and the C integer widths the code relies on. */
module Wrappers {
  datatype Option<+T> = None | Some(value: T)

  type uint8 = x: int | 0 <= x < 0x100
  type uint32 = x: int | 0 <= x < 0x1_0000_0000

  type Bytes = seq<uint8>
}
