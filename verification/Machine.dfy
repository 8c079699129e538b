/** Machine integers of the modelled program (64-bit targets). */
module Machine {
  const U32_MAX: nat := 0xFFFF_FFFF

  newtype u32 = x: int | 0 <= x <= 0xFFFF_FFFF

  newtype byte = x: int | 0 <= x < 256
}
