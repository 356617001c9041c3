/** The clock readings the source takes from one wall clock, here in nanoseconds. */
module Clock {
  /** Time.Unix(): whole seconds. */
  function Sec(now: nat): nat {
    now / 1_000_000_000
  }

  /** dtime.NowMs(): whole milliseconds. */
  function Ms(now: nat): nat {
    now / 1_000_000
  }

  const DEFAULT_TIMEOUT_MS: int := 300_000
}
