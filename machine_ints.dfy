/** The C++ integer types the exercises use, as ranges of mathematical
    integers, so that every wrap-around and truncation is written out. */
module MachineInts {
  const UINT_MAX: int := 0xFFFF_FFFF
  const INT_MAX: int := 0x7FFF_FFFF
  const INT_MIN: int := -0x8000_0000

  /** unsigned int. */
  newtype u32 = x: int | 0 <= x <= UINT_MAX
  /** size_t. */
  newtype u64 = x: int | 0 <= x <= 0xFFFF_FFFF_FFFF_FFFF
  /** int. */
  newtype i32 = x: int | INT_MIN <= x <= INT_MAX

  /** Conversion to unsigned int: the value modulo 2^32, as for an unsigned
      addition that overflows or a size_t narrowed to unsigned int. */
  function ToU32(x: int): (r: u32)
    ensures 0 <= x <= UINT_MAX ==> r as int == x
    ensures r as int == x % (UINT_MAX + 1)
  {
    (x % (UINT_MAX + 1)) as u32
  }
}
