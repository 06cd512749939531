/** Characters and the contents of disk pages. */
module ByteValues {
  type Byte = c: int | 0 <= c < 256
}
