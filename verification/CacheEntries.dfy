/** The value stored in the cache (proxy/cache.hpp) and the clock it is judged by.

    Times are `system_clock` ticks (nanoseconds) in a signed 64-bit integer; `time_t` values are
    seconds.  Both wrap around, which `Wrap64` writes out. */
module CacheEntries {

  datatype Option<+T> = None | Some(value: T)

  const TICKS_PER_SECOND := 1_000_000_000
  const TWO_TO_THE_63 := 0x8000_0000_0000_0000
  const TWO_TO_THE_64 := 0x1_0000_0000_0000_0000

  /** A 64-bit signed integer: `time_t`, `long` and the tick count of a `time_point`. */
  type int64 = x: int | -TWO_TO_THE_63 <= x < TWO_TO_THE_63

  /** A reading of the system clock; the proxy runs after the epoch. */
  type Tick = x: int | 0 <= x < TWO_TO_THE_63

  predicate Fits64(x: int) { -TWO_TO_THE_63 <= x < TWO_TO_THE_63 }

  /** Two's complement reduction to 64 bits. */
  function Wrap64(x: int): int64 {
    (x + TWO_TO_THE_63) % TWO_TO_THE_64 - TWO_TO_THE_63
  }

  /** `time(NULL)`: the clock in whole seconds. */
  function Seconds(now: Tick): (seconds: int64)
    ensures seconds * 1_000_000_000 <= now < (seconds + 1) * 1_000_000_000
  {
    now / TICKS_PER_SECOND
  }

  /** `system_clock::from_time_t`: seconds to ticks, in 64-bit arithmetic. */
  function FromTimeT(seconds: int64): int64 { Wrap64(seconds * TICKS_PER_SECOND) }

  datatype CacheEntry = CacheEntry(
    data: string,
    responseLine: string,
    headers: map<string, string>,
    creationTime: Tick,
    expiresTime: int64,
    requiresValidation: bool,
    etag: string,
    lastModified: string)
  {
    /** A tick value of 0 means "no expiry". */
    predicate IsExpired(now: Tick) {
      requiresValidation || (expiresTime != 0 && now > expiresTime)
    }
  }
}
