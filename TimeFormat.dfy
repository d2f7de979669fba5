/** format_time: a duration shown as HH:MM:SS, and the reading of such a text
    back into its fields. */
module TimeFormat {
  import opened Clock

  /** timedelta.seconds: the whole seconds of a duration once whole days are
      taken out (Python keeps this field in 0..86399, also for negative
      durations) and microseconds are dropped. */
  function SecondsField(td: int): (s: int)
    ensures 0 <= s < 86400
  {
    (td / SECOND) % 86400
  }

  function Digit(d: int): (c: char)
    requires 0 <= d <= 9
    ensures '0' <= c <= '9'
  {
    ('0' as int + d) as char
  }

  predicate IsDigit(c: char)
  {
    '0' <= c <= '9'
  }

  function DigitValue(c: char): int
  {
    c as int - '0' as int
  }

  /** f"{n:02d}" for a number of at most two digits. */
  function Pad2(n: int): (s: string)
    requires 0 <= n <= 99
    ensures |s| == 2 && IsDigit(s[0]) && IsDigit(s[1])
    ensures 10 * DigitValue(s[0]) + DigitValue(s[1]) == n
  {
    [Digit(n / 10), Digit(n % 10)]
  }

  /** The shape of every text format_time produces. */
  predicate IsClockText(s: string)
  {
    && |s| == 8
    && IsDigit(s[0]) && IsDigit(s[1]) && s[2] == ':'
    && IsDigit(s[3]) && IsDigit(s[4]) && s[5] == ':'
    && IsDigit(s[6]) && IsDigit(s[7])
  }

  function HoursOf(s: string): int
    requires IsClockText(s)
  {
    10 * DigitValue(s[0]) + DigitValue(s[1])
  }

  function MinutesOf(s: string): int
    requires IsClockText(s)
  {
    10 * DigitValue(s[3]) + DigitValue(s[4])
  }

  function SecondsOf(s: string): int
    requires IsClockText(s)
  {
    10 * DigitValue(s[6]) + DigitValue(s[7])
  }

  /** The number of seconds a clock text stands for. */
  function ClockValue(s: string): int
    requires IsClockText(s)
  {
    HoursOf(s) * 3600 + MinutesOf(s) * 60 + SecondsOf(s)
  }

  /** format_time (divmod by 3600, then by 60, each field padded to two digits). */
  function FormatTime(td: int): (r: string)
    ensures IsClockText(r)
  {
    var hours, remainder := SecondsField(td) / 3600, SecondsField(td) % 3600;
    var minutes, seconds := remainder / 60, remainder % 60;
    Pad2(hours) + ":" + Pad2(minutes) + ":" + Pad2(seconds)
  }

  /** Reading the text back gives hours in 0..23, minutes and seconds in 0..59,
      and together exactly the seconds field of the duration. */
  lemma {:induction false} FormatTimeFields(td: int)
    ensures var r := FormatTime(td);
      && 0 <= HoursOf(r) <= 23 && 0 <= MinutesOf(r) <= 59 && 0 <= SecondsOf(r) <= 59
      && ClockValue(r) == SecondsField(td)
  {
    var s := SecondsField(td);
    var r := FormatTime(td);
    var hours, remainder := s / 3600, s % 3600;
    var minutes, seconds := remainder / 60, remainder % 60;
    assert r[0..2] == Pad2(hours) && r[3..5] == Pad2(minutes) && r[6..8] == Pad2(seconds);
    assert HoursOf(r) == hours && MinutesOf(r) == minutes && SecondsOf(r) == seconds;
  }

  /** Two durations are shown alike exactly when their seconds fields agree:
      whole days and microseconds never show, everything else does. */
  lemma FormatTimeSameIff(a: int, b: int)
    ensures FormatTime(a) == FormatTime(b) <==> SecondsField(a) == SecondsField(b)
  {
    FormatTimeFields(a);
    FormatTimeFields(b);
  }

  /** Adding whole days or a fraction of a second does not change the text. */
  lemma FormatTimeIgnoresDaysAndMicroseconds(td: int, days: int, micros: int)
    requires 0 <= td % SECOND + micros < SECOND
    ensures FormatTime(td + days * DAY + micros) == FormatTime(td)
  {
    var q := td / SECOND;
    assert td == q * SECOND + td % SECOND;
    var td' := td + days * DAY + micros;
    assert td' == (q + days * 86400) * SECOND + (td % SECOND + micros);
    assert td' / SECOND == q + days * 86400;
    assert SecondsField(td') == SecondsField(td);
  }

  /** For a duration of less than a day the text shows the remaining time
      floored to whole seconds. */
  lemma FormatTimeShowsWholeSeconds(td: int)
    requires 0 <= td < DAY
    ensures ClockValue(FormatTime(td)) == td / SECOND
  {
    assert td / SECOND < 86400;
    FormatTimeFields(td);
  }

  /** The text displayed on expiry is the text of a zero duration. */
  lemma ZeroText()
    ensures FormatTime(0) == "00:00:00"
  {
  }
}
