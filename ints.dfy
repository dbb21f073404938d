/** Fixed-width unsigned integers of the Rust sources and their saturating
    arithmetic, written out over Dafny's unbounded integers. */
module Ints {
  const U32_MAX: nat := 0xFFFF_FFFF
  const U64_MAX: nat := 0xFFFF_FFFF_FFFF_FFFF

  type u32 = x: nat | x <= U32_MAX
  type u64 = x: nat | x <= U64_MAX

  /** Rust's `u64::saturating_sub`: the difference, or zero below zero. */
  function SaturatingSub(a: u64, b: u64): (r: u64)
    ensures a >= b ==> r + b == a
    ensures a < b ==> r == 0
  {
    if a >= b then a - b else 0
  }
}
