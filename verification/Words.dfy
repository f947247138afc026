/** The fixed-width integers of the two implementations. */
module Words {

  const TWO31: int := 0x8000_0000
  const TWO32: nat := 0x1_0000_0000
  const MAX_INT64: int := 0x7FFF_FFFF_FFFF_FFFF
  const U64_MAX: nat := 0xFFFF_FFFF_FFFF_FFFF

  type U32 = n: nat | n < TWO32
}
