/** Monotonic time in nanoseconds, of Types.hs. */
module Clock {
  import opened Bits

  /** diffNs: subtraction of 64-bit words, which wraps around when now is before start */
  function Elapsed(start: u64, now: u64): u64 {
    ((now as int) - start) % 0x1_0000_0000_0000_0000
  }
}
