/** Machine integer widths that appear in the modelled code, as ranges over the mathematical integers. */
module Bytes {

  /** Rust's u8. */
  type uint8 = b: int | 0 <= b < 0x100

  /** Rust's u16, a UTF-16 code unit. */
  type uint16 = w: int | 0 <= w < 0x1_0000

  /** One more than the largest Rust u64. */
  const UINT64_LIMIT: int := 0x1_0000_0000_0000_0000
}
