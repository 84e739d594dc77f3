/** Sizes that every part of the memory subsystem agrees on. */
module Sizes {
  const PAGE_SIZE: nat := 4096
  const U64_MAX: nat := 0xFFFF_FFFF_FFFF_FFFF
}
