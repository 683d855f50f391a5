/** Sizes and addresses of the kernel heap. */
module HeapLayout {
  /** A hole's header: its size and two links, four bytes each. */
  const HEADER: nat := 12
  /** What precedes the bytes handed to the caller: the size of the block. */
  const SIZE_WORD: nat := 4
  const PAGE: nat := 4096
  const HEAP_START: nat := 0xC0C0_0000
  /** The last 4 MB of the address space hold the page tables; the heap must end before. */
  const HEAP_LIMIT: nat := 0xFFC0_0000
}
