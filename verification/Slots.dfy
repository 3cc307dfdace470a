/** The flash map: two image slots, two journal sectors, four metadata sectors. */
module Slots {
  import opened Bytes

  const FLASH_SIZE: nat := 0x8_0000
  const SECTOR: nat := 0x1000
  const PHRASE: nat := 8

  const SLOT_A: word := 0
  const SLOT_B: word := 1
  const UNKNOWN: word := 0x7FFF_FFFF

  const SLOT_SIZE: nat := 0x3_8000
  /** The header occupies the last sector of a slot; the payload ends below it. */
  const HEADER_OFFSET: nat := 0x3_7000
  const HEADER_SIZE: nat := 64

  const JOURNAL_BASE: nat := 0x7_8000
  const JOURNAL_SIZE: nat := 128
  const METADATA_BASE: nat := 0x7_A000
  const METADATA_SIZE: nat := 80
  /** The end of the last metadata sector. */
  const RECORDS_END: nat := 0x7_E000
  const MAX_TRIAL_ATTEMPTS: word := 3

  /** A slot that exists: BootSlot_IsValidId. */
  type slot = s: word | s <= 1

  predicate IsSlot(s: word) { s <= 1 }

  function Other(s: slot): slot { 1 - s }

  function Base(s: slot): word { if s == SLOT_A then 0x8000 else 0x4_0000 }

  function HeaderAddress(s: slot): word { Base(s) + HEADER_OFFSET }

  /** BootSlot_ContainsRange. */
  predicate ContainsRange(s: word, address: int, length: int) {
    IsSlot(s) && length > 0 && Base(s) <= address < Base(s) + SLOT_SIZE
    && length <= Base(s) + SLOT_SIZE - address
  }

  function JournalAddress(copy: nat): nat { JOURNAL_BASE + copy * SECTOR }

  function MetadataAddress(s: slot, copy: nat): nat { METADATA_BASE + (s * 2 + copy) * SECTOR }
}
