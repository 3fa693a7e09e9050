module Bytes {
  /** unsigned char. */
  newtype Byte = b: int | 0 <= b < 256
}
