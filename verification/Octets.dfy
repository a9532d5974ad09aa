/** The bytes that the two character devices carry. */
module Octets {
  newtype Byte = x: int | 0 <= x < 256
}
