/** Small vocabulary shared by every module of the model. */
module Base {

  /** An optional value: the source's nil-able pointer. */
  datatype Option<+T> = None | Some(value: T)

  /** Instants and durations are integers counting nanoseconds, as in Go's time package. */
  const SECOND: int := 1_000_000_000

  const HOUR: int := 3600 * SECOND

  function Min(a: int, b: int): int { if a < b then a else b }

  function Max(a: int, b: int): int { if a < b then b else a }

  predicate NonDecreasing(s: seq<int>) {
    forall i, j | 0 <= i < j < |s| :: s[i] <= s[j]
  }
}
