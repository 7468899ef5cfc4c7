/** Strings as the sources have them: a length and that many bytes. */
module Texts {
  type Byte = x: int | 0 <= x < 256
  type Text = seq<Byte>

  const NEWLINE: Byte := 10
}
