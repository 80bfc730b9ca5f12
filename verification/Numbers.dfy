/** Machine integers and clock seconds, shared by every module that computes with them. */
module Numbers {
  /** Whole seconds, as an instant since the epoch or as a duration. */
  type Seconds = int

  const I32_MIN: int := -0x8000_0000
  const I32_MAX: int := 0x7fff_ffff
  const I64_MIN: int := -0x8000_0000_0000_0000
  const I64_MAX: int := 0x7fff_ffff_ffff_ffff
  const U32_MAX: nat := 0xffff_ffff
  const U64_MODULUS: nat := 0x1_0000_0000_0000_0000
}
