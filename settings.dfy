/**
 * The overlay's tuning constants and the time arithmetic built on them.
 *
 * Timestamps are `datetime` values; their differences are `timedelta`s, which
 * are exact at microsecond resolution. The model counts time in integer
 * microseconds, so every threshold comparison is an exact integer comparison.
 */
module Settings {

  const CLEAR_ROW_MILLIS: int := 2250
  const NEW_ROW_MILLIS: int := 1380
  const ROW_HEIGHT_PX: int := 60
  const DISTANCE_BETWEEN_LABELS: int := 45
  const HOLD_MS_THRESHOLD: int := 75
  const ROW_WIDTH_PX: int := 410
  const ICON_SIZE: int := 32

  /** A point in time, in microseconds. */
  type Instant = int

  /** `timedelta(milliseconds = ms)`, in microseconds. */
  function Millis(ms: int): int
  {
    ms * 1000
  }

  /**
   * The number of labels a row holds: how many label pitches fit into the
   * row's pixel width (an icon plus the gap that follows it).
   */
  function MaxLabels(): (n: nat)
    ensures n == 9
    ensures n * DISTANCE_BETWEEN_LABELS <= ROW_WIDTH_PX < (n + 1) * DISTANCE_BETWEEN_LABELS
  {
    ROW_WIDTH_PX / (ICON_SIZE + (DISTANCE_BETWEEN_LABELS - ICON_SIZE))
  }

  /**
   * `int(delta.total_seconds() * 1000)`: the whole milliseconds in a delta
   * given in microseconds, truncated toward zero as Python's `int` does.
   */
  function ElapsedMs(deltaUs: int): (ms: int)
    ensures 0 <= deltaUs ==> 0 <= ms && ms * 1000 <= deltaUs < ms * 1000 + 1000
    ensures deltaUs < 0 ==> ms <= 0 && ms * 1000 - 1000 < deltaUs <= ms * 1000
  {
    if deltaUs >= 0 then deltaUs / 1000 else -((-deltaUs) / 1000)
  }

  /** A repeat of the trailing key this soon is a hold (auto-repeat). */
  predicate IsHoldGap(deltaUs: int)
  {
    deltaUs < Millis(HOLD_MS_THRESHOLD)
  }

  /** A pause this long starts a new row. */
  predicate IsNewRowGap(deltaUs: int)
  {
    deltaUs > Millis(NEW_ROW_MILLIS)
  }

  /** A row idle this long is cleared by the next sweep. */
  predicate IsClearGap(deltaUs: int)
  {
    deltaUs > Millis(CLEAR_ROW_MILLIS)
  }
}
