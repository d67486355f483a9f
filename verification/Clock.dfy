/** Readings of the monotonic clock, in nanoseconds. */
module Clock {
  const SECOND := 1_000_000_000

  /** `saturating_duration_since`. */
  function Since(now: nat, then_: nat): nat {
    if now >= then_ then now - then_ else 0
  }
}
