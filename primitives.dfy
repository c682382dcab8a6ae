/**
 * Machine-level value types shared by the two programs: bytes and the
 * fixed-width unsigned integers they store, plus an Option for "no value".
 */
module Primitives {

  /** An octet as read from or written to a file. */
  type byte = x: int | 0 <= x < 0x100

  type u16 = x: int | 0 <= x < 0x1_0000

  type u32 = x: int | 0 <= x < 0x1_0000_0000

  type u64 = x: int | 0 <= x < 0x1_0000_0000_0000_0000

  datatype Option<+T> = None | Some(value: T)
}
