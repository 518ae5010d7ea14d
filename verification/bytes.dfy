/** Octets, the unit of Python's `bytes`, shared by the UTF-8 and base64 codecs. */
module Bytes {

  type byte = b: int | 0 <= b < 256
}
