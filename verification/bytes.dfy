/** Octets, as the elements of a JavaScript `Uint8Array`. */
module Bytes {

  /** One octet: the value `new Uint8Array(buffer)[i]` yields. */
  type byte = x: int | 0 <= x < 256
}
