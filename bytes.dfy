/** The unsigned 8-bit values that keymaps and grayscale pixels are made of. */
module Bytes {
  type Byte = v: int | 0 <= v < 256
}
