/** Limits of the format that several parts of the program share (jpeglib.h). */
module Limits {
  /** Tables are numbered from zero. */
  const NUM_QUANT_TBLS := 4
  const NUM_HUFF_TBLS := 4
  const NUM_ARITH_TBLS := 16

  const MAX_COMPS_IN_SCAN := 4
}
