/** Failure-carrying return values: Go's `(T, error)` pairs become one of these. */
module Results {

  datatype Option<+T> = None | Some(value: T)

  datatype Result<+T, +E> = Ok(value: T) | Err(error: E)
}

/** Durations and instants, as counts of nanoseconds (Go's `time.Duration`). */
module Durations {

  const Nanosecond: int := 1
  const Second: int := 1_000_000_000 * Nanosecond
  const Minute: int := 60 * Second
  const Hour: int := 60 * Minute
}
