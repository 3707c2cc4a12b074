/** Widths of the C types the runtime stores sizes in, and sizes of what it stores. */
module Sizes {
  const U16 := 0x1_0000
  const U32 := 0x1_0000_0000

  const ADDRESS_SIZE := 8      // pointers and words
  const ANY_SIZE := 24
  const SEQUENCE_SIZE := 16
}
