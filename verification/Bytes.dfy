/** Bytes of memory and of serialized data. */
module Bytes {
  type Byte = x: nat | x < 256
}
