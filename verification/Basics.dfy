/** Shared vocabulary: optional values and time constants in nanoseconds. */
module Basics {

  datatype Option<+T> = None | Some(value: T)

  const SECOND: int := 1_000_000_000
  const MINUTE: int := 60 * SECOND
  const HOUR: int := 60 * MINUTE

  function Max(a: int, b: int): int {
    if a < b then b else a
  }
}
