/** Sizes that several parts of the system share. */
module Constants {
  const U32 := 0x1_0000_0000

  const SECTOR_SIZE := 512
  const SECTOR_BITS := 4096             // 8 * SECTOR_SIZE
  const DIR_ENTRY_SIZE := 16
  const NR_DEFAULT_FILE_SECTS := 2048

  const NUL := 0 as char
}
