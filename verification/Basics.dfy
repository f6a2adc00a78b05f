/** What several components share: optional values, and how many values words and doublewords have. */
module Basics {
  datatype Option<T> = None | Some(value: T)

  const WORD: nat := 0x1_0000_0000
  const DWORD: nat := 0x1_0000_0000_0000_0000
}
