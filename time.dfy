/** Lengths of time in milliseconds, the unit of every instant (`Date.getTime()`). */
module Time {

  const MinuteMs: int := 60_000
  const HourMs: int := 3_600_000
  const DayMs: int := 86_400_000
}
