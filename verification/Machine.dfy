/** The sizes the whole kernel shares. */
module Machine {
  const PAGE_SIZE: nat := 0x1000
  const HALF_WORD: nat := 0x1_0000_0000             // 2^32
  const WORD: nat := 0x1_0000_0000_0000_0000        // 2^64
}
