/** The machine integers of the source. Every arithmetic step on these types is checked to stay
in range, so code written with them has no overflow. */
module MachineInts {
  newtype int64 = x: int | -0x8000_0000_0000_0000 <= x < 0x8000_0000_0000_0000
  newtype uint64 = x: int | 0 <= x < 0x1_0000_0000_0000_0000

  const MAX_INT64: int64 := 0x7FFF_FFFF_FFFF_FFFF
  const MIN_INT64: int64 := -0x8000_0000_0000_0000

  predicate FitsInt64(x: int) {
    MIN_INT64 as int <= x <= MAX_INT64 as int
  }

  /** The conversion int64(u), which wraps. */
  function Wrap(u: uint64): int64 {
    if u <= MAX_INT64 as uint64 then u as int64 else (u as int - 0x1_0000_0000_0000_0000) as int64
  }
}
