// The bytes all buffers hold.
module ByteType {
  type Byte = b: int | 0 <= b < 256
}
