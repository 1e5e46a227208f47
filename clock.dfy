/** Time as the standard library measures it, in whole nanoseconds: an
    `Instant` is a reading of the monotonic clock, a wall-clock reading counts
    from the Unix epoch, and a `Duration` is a non-negative span. */
module Clock {
  const NANOS_PER_SEC: nat := 1_000_000_000

  /** `Instant::duration_since` and `Instant::elapsed` (the span from `earlier`
      to `later`), which give zero rather than a negative span. */
  function Elapsed(earlier: int, later: int): nat {
    if later >= earlier then later - earlier else 0
  }

  /** `Duration::as_secs`: the whole seconds of a span. */
  function AsSecs(d: nat): nat {
    d / NANOS_PER_SEC
  }
}
