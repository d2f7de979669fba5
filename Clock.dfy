/** Time units and the calendar fields of an instant.

    An instant is an integer number of microseconds since a local midnight
    (the epoch); a duration is an integer number of microseconds.  Days are
    exactly 24 hours long: time zones and daylight saving are not modelled.
    Division and remainder by a positive constant are floor division and a
    non-negative remainder, as for Python's datetime arithmetic. */
module Clock {

  const SECOND: int := 1_000_000
  const MINUTE: int := 60_000_000
  const HOUR: int := 3_600_000_000
  const DAY: int := 86_400_000_000

  /** Microseconds elapsed since the midnight that starts the instant's day. */
  function TimeOfDay(t: int): (r: int)
    ensures 0 <= r < DAY
  {
    t % DAY
  }

  /** Index of the instant's day, counted from the epoch. */
  function DayIndex(t: int): int
  {
    t / DAY
  }

  /** datetime.hour */
  function Hour(t: int): (h: int)
    ensures 0 <= h < 24
  {
    TimeOfDay(t) / HOUR
  }

  /** Microseconds elapsed since the start of the instant's hour. */
  function PastTheHour(t: int): (r: int)
    ensures 0 <= r < HOUR
  {
    TimeOfDay(t) % HOUR
  }

  /** datetime.minute */
  function Minute(t: int): (m: int)
    ensures 0 <= m < 60
  {
    PastTheHour(t) / MINUTE
  }

  /** datetime.second */
  function Second(t: int): (s: int)
    ensures 0 <= s < 60
  {
    (PastTheHour(t) % MINUTE) / SECOND
  }

  /** datetime.microsecond */
  function Microsecond(t: int): (u: int)
    ensures 0 <= u < SECOND
  {
    PastTheHour(t) % SECOND
  }

  /** The instant is split exactly into its day, its hour and the calendar
      fields below the hour. */
  lemma Decompose(t: int)
    ensures t == DayIndex(t) * DAY + Hour(t) * HOUR + PastTheHour(t)
    ensures PastTheHour(t) == Minute(t) * MINUTE + Second(t) * SECOND + Microsecond(t)
  {
    var p := PastTheHour(t);
    assert p % SECOND == (p % MINUTE) % SECOND;
  }

  /** An instant written as a day index and an offset inside that day has
      exactly those as its day index and time of day. */
  lemma FieldsOf(t: int, d: int, tod: int)
    requires 0 <= tod < DAY && t == d * DAY + tod
    ensures DayIndex(t) == d && TimeOfDay(t) == tod
  {
  }

  /** A time of day written as an hour and an offset inside that hour has
      exactly those as its hour and offset. */
  lemma HourSplit(tod: int, h: int, rest: int)
    requires 0 <= h < 24 && 0 <= rest < HOUR && tod == h * HOUR + rest
    ensures tod / HOUR == h && tod % HOUR == rest
  {
  }

  /** t.replace(minute=0, second=0, microsecond=0) */
  function StartOfHour(t: int): (r: int)
    ensures DayIndex(r) == DayIndex(t) && Hour(r) == Hour(t)
    ensures Minute(r) == 0 && Second(r) == 0 && Microsecond(r) == 0
    ensures r <= t < r + HOUR
  {
    Decompose(t);
    var r := DayIndex(t) * DAY + Hour(t) * HOUR;
    FieldsOf(r, DayIndex(t), Hour(t) * HOUR);
    HourSplit(Hour(t) * HOUR, Hour(t), 0);
    r
  }

  /** t.replace(hour=h) */
  function WithHour(t: int, h: int): (r: int)
    requires 0 <= h < 24
    ensures DayIndex(r) == DayIndex(t) && Hour(r) == h && PastTheHour(r) == PastTheHour(t)
    ensures Minute(r) == Minute(t) && Second(r) == Second(t) && Microsecond(r) == Microsecond(t)
  {
    Decompose(t);
    var r := t + (h - Hour(t)) * HOUR;
    FieldsOf(r, DayIndex(t), h * HOUR + PastTheHour(t));
    HourSplit(h * HOUR + PastTheHour(t), h, PastTheHour(t));
    r
  }
}
