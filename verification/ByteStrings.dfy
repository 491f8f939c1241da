/** Strings of bytes, as Lua has them. */
module ByteStrings {
  type Byte = x: int | 0 <= x < 256

  type Bytes = seq<Byte>

  predicate IsDigit(c: int) {
    48 <= c <= 57
  }
}
