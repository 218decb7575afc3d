/** Times and durations in nanoseconds, as Go's time package has them. */
module Clock {
  const MAX_DURATION := 0x7FFF_FFFF_FFFF_FFFF

  const ZERO_TIME := -62135596800000000000

  const MILLISECOND := 1_000_000
  const MINUTE := 60_000_000_000

  /** Time.Sub: a difference clamped to 64 bits. */
  function Sub(t: int, u: int): int {
    if t - u > MAX_DURATION then MAX_DURATION else if t - u < -MAX_DURATION - 1 then -MAX_DURATION - 1 else t - u
  }
}
