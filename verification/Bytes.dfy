/** Bytes, machine words and optional values shared by the other modules. */
module Bytes {

  type byte = x: int | 0 <= x < 256

  /** A 64-bit unsigned machine word. */
  type word = x: int | 0 <= x < 0x1_0000_0000_0000_0000

  const WORD_SIZE := 0x1_0000_0000_0000_0000

  datatype Option<+T> = None | Some(value: T)
}
