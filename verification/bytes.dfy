/** Bytes as both tools read and write them. */
module Bytes {
  /** One 8-bit value: a channel sample, a code byte or a file byte. */
  type Byte = b: int | 0 <= b < 256
}
