/** The byte type shared by the models that read raw memory. */
module Bytes {
  type byte = x: int | 0 <= x < 256
}
