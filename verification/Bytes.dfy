/** The unit of every buffer. */
module Bytes {
  type byte = bv8
}
