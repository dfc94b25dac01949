/** Octets, as Python's `bytes` holds them. */
module Bytes {

  type Byte = b: int | 0 <= b < 256
}
