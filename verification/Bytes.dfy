/** Bytes as numbers, for the modules that count rather than shift. */
module Bytes {
  type Byte = b: int | 0 <= b < 256
}
