/** Sizes of the machine's words and pages. */
module Sizes {
  const U32: nat := 0x1_0000_0000
  const U64: nat := 0x1_0000_0000_0000_0000
  const PAGE_SIZE: nat := 0x1000
}
