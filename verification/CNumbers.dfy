/** The widths of the C integer types in the LP64 data model. */
module CNumbers {

  const INT_MAX: int := 0x7FFF_FFFF
  const LONG_MAX: int := 0x7FFF_FFFF_FFFF_FFFF
  /** One more than the largest unsigned int. */
  const UINT: int := 0x1_0000_0000
  /** One more than the largest unsigned long, which is also the largest size_t. */
  const ULONG: int := 0x1_0000_0000_0000_0000

  predicate IsInt(x: int) {
    -INT_MAX - 1 <= x <= INT_MAX
  }
}
