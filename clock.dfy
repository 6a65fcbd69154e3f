/**
 * Time as the controller sees it: JavaScript `Date` values are millisecond
 * counts since the epoch. Local time is taken to be UTC with no daylight
 * saving, so every day is exactly `DayMs` long.
 */
module Clock {

  const MinuteMs: int := 60_000
  const HourMs: int := 3_600_000
  const DayMs: int := 86_400_000

  /** `setHours(0, 0, 0, 0)`: the start of the day holding `t`. */
  function Midnight(t: int): (m: int)
    ensures m % DayMs == 0
    ensures m <= t < m + DayMs
  {
    t - t % DayMs
  }

  /** `getDay()`: 0 for Sunday through 6 for Saturday (the epoch fell on a Thursday). */
  function Weekday(t: int): (d: int)
    ensures 0 <= d < 7
  {
    (t / DayMs + 4) % 7
  }

  /**
   * `new Date(y, m, d, hour, 0, 0)` where y, m, d name the day starting at
   * `dayStart`; an hour of 24 or more rolls over into the following days.
   */
  function AtHour(dayStart: int, hour: int): int
  {
    dayStart + hour * HourMs
  }

  /** Truncating to midnight does not change the weekday. */
  lemma WeekdayOfMidnight(t: int)
    ensures Weekday(Midnight(t)) == Weekday(t)
  {
    assert Midnight(t) / DayMs == t / DayMs;
  }

  /** The epoch, 1970-01-01T00:00Z, fell on a Thursday; the millisecond before it on a Wednesday. */
  lemma EpochIsThursday()
    ensures Weekday(0) == 4
    ensures Weekday(-1) == 3
  {
  }

  /** Each day's weekday is the one after the previous day's. */
  lemma WeekdayNextDay(t: int)
    ensures Weekday(t + DayMs) == (Weekday(t) + 1) % 7
  {
    assert (t + DayMs) / DayMs == t / DayMs + 1;
  }

  /** 1 January 2024 was a Monday and 6 January 2024 a Saturday. */
  lemma KnownWeekdays()
    ensures Weekday(1_704_067_200_000) == 1
    ensures Weekday(1_704_499_200_000) == 6
  {
  }

  /** The day index of `t`: its midnight is that many days after the epoch. */
  lemma MidnightIsDayIndex(t: int)
    ensures Midnight(t) == (t / DayMs) * DayMs
  {
  }

  /** Two instants on the same day have the same midnight. */
  lemma {:induction false} MidnightUnique(t: int, m: int)
    requires m % DayMs == 0 && m <= t < m + DayMs
    ensures Midnight(t) == m
  {
    var q := m / DayMs;
    assert m == q * DayMs;
    assert t / DayMs == q;
  }

  /** Hour 24 + h of one day is hour h of the next. */
  lemma HourRollsOver(dayStart: int, h: int)
    ensures AtHour(dayStart, h + 24) == AtHour(dayStart + DayMs, h)
  {
  }

  /** Later hours of one day give later instants. */
  lemma AtHourMonotone(dayStart: int, h1: int, h2: int)
    requires h1 <= h2
    ensures AtHour(dayStart, h1) <= AtHour(dayStart, h2)
    ensures h1 < h2 ==> AtHour(dayStart, h1) < AtHour(dayStart, h2)
  {
  }

  /** A `Date` built from a whole hour lies a whole number of hours after midnight. */
  lemma AtHourOnTheHour(dayStart: int, hour: int)
    ensures (AtHour(dayStart, hour) - dayStart) % HourMs == 0
  {
    assert AtHour(dayStart, hour) - dayStart == hour * HourMs;
  }

  /** Two whole-hour offsets are never one millisecond apart. */
  lemma WholeHoursApart(a: int, b: int)
    requires a % HourMs == 0 && b % HourMs == 0
    ensures b != a + 1 && b != a - 1
  {
    var p, q := a / HourMs, b / HourMs;
    assert a == p * HourMs && b == q * HourMs;
  }
}
