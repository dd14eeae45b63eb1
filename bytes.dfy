/** Bytes as the files and digests hold them, read as unsigned values. */
module Bytes {

  newtype byte = b: int | 0 <= b < 256
}
