/** 64-bit words: timestamps in nanoseconds, and counters. */
module Words {
  const U64: nat := 0x1_0000_0000_0000_0000

  /** The difference of two timestamps, which wraps if the clock ran backwards. */
  function Since(now: nat, earlier: nat): int {
    if now >= earlier then now - earlier else now + U64 - earlier
  }

  /** The atomic add, which wraps. */
  function Add64(a: nat, b: nat): nat {
    if a + b < U64 then a + b else a + b - U64
  }
}
