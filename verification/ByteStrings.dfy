/** Bytes and byte strings, the material of every hashed, encoded or compared text. */
module ByteStrings {
  newtype byte = b: int | 0 <= b < 256

  type Bytes = seq<byte>
}
