/** Rust's `u8`, for byte buffers. */
module Bytes {
  type Byte = x: int | 0 <= x < 256
}
