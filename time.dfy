/** Time as integer milliseconds since the epoch, with days of fixed length. */
module Time {

  const MinuteMs: int := 60_000
  const HourMs: int := 3_600_000
  const DayMs: int := 86_400_000

  /** Midnight of the day that contains `now`. */
  function DayStart(now: int): (d: int)
    ensures d <= now < d + DayMs
    ensures d % DayMs == 0
  {
    now - now % DayMs
  }
}
