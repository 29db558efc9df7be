/** What several components share. */
module Common {

  datatype Option<T> = None | Some(value: T)

  const U32 := 0x1_0000_0000
  const U64 := 0x1_0000_0000_0000_0000

  /** The first number past a signed 64-bit one. */
  const S64 := 0x8000_0000_0000_0000
}
