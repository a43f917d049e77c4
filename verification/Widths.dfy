/** The largest unsigned integers of the fixed widths of the source, and the size of a block header. */
module Widths {
  const U64_MAX: nat := 0xFFFF_FFFF_FFFF_FFFF
  const U32_MAX: nat := 0xFFFF_FFFF

  /** Header of a block file; the magnitudes follow (include/checkpoint/CheckpointBlockCodec.hpp). */
  const HEADER_SIZE: nat := 112
}
