/** Octets, as Python's `bytes` holds them. */
module Bytes {
  newtype byte = b: int | 0 <= b < 0x100
}
