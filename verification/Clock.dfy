/** Clock readings are ticks; durations are compared in whole seconds or hours. A duration cast truncates
    toward zero. */
module Clock {
  const TICKS_PER_SECOND := 1_000_000_000
  const TICKS_PER_HOUR := 3_600_000_000_000

  function Seconds(ticks: int): int {
    if ticks >= 0 then ticks / TICKS_PER_SECOND else -((-ticks) / TICKS_PER_SECOND)
  }

  function Hours(ticks: int): int {
    if ticks >= 0 then ticks / TICKS_PER_HOUR else -((-ticks) / TICKS_PER_HOUR)
  }

  /** Whole seconds, of a billion nanoseconds, lie between zero and the duration, less than one away from it. */
  lemma SecondsTruncate(ticks: int)
    ensures ticks >= 0 ==> 0 <= ticks - Seconds(ticks) * 1_000_000_000 < 1_000_000_000 && Seconds(ticks) >= 0
    ensures ticks <= 0 ==> -1_000_000_000 < ticks - Seconds(ticks) * 1_000_000_000 <= 0 && Seconds(ticks) <= 0
  {
  }

  /** An hour is 3600 seconds. */
  lemma HoursTruncate(ticks: int)
    ensures ticks >= 0 ==> 0 <= ticks - Hours(ticks) * 3600 * 1_000_000_000 < 3600 * 1_000_000_000 && Hours(ticks) >= 0
    ensures ticks <= 0 ==> -3600 * 1_000_000_000 < ticks - Hours(ticks) * 3600 * 1_000_000_000 <= 0 && Hours(ticks) <= 0
  {
  }
}
