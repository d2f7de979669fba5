/** The two daily checkpoints, 04:00 and 16:00: finding the next one after a
    given instant (reset_timer) and recognising the instant one is reached
    (check_special_times). */
module Checkpoint {
  import opened Clock

  const MORNING: int := 4
  const AFTERNOON: int := 16

  /** An instant that is exactly 04:00:00.000000 or 16:00:00.000000. */
  predicate IsCheckpoint(t: int)
  {
    (Hour(t) == MORNING || Hour(t) == AFTERNOON)
    && Minute(t) == 0 && Second(t) == 0 && Microsecond(t) == 0
  }

  /** The test made once per tick: hour 4 or 16, minute 0, second 0.  The
      microseconds are not compared. */
  predicate IsCheckpointInstant(now: int)
    ensures IsCheckpoint(now) ==> IsCheckpointInstant(now)
  {
    (Hour(now) == MORNING || Hour(now) == AFTERNOON) && Minute(now) == 0 && Second(now) == 0
  }

  /** The next 04:00 or 16:00 after `now`: today at 4, today at 16 or
      tomorrow at 4, chosen on the hour of `now`. */
  function NextCheckpoint(now: int): (next: int)
    ensures now < next <= now + 12 * HOUR
    ensures IsCheckpoint(next)
  {
    var base := StartOfHour(now);
    Decompose(now);
    if Hour(base) < MORNING then WithHour(base, MORNING)
    else if Hour(base) < AFTERNOON then WithHour(base, AFTERNOON)
    else
      var next := WithHour(base, MORNING) + DAY;
      FieldsOf(next, DayIndex(now) + 1, MORNING * HOUR);
      next
  }

  /** A checkpoint is a whole hour: its day and hour place it exactly. */
  lemma CheckpointAt(c: int)
    requires IsCheckpoint(c)
    ensures c == DayIndex(c) * DAY + Hour(c) * HOUR
  {
    Decompose(c);
  }

  /** NextCheckpoint is the earliest checkpoint strictly after `now`: every
      checkpoint after `now` is at or after it. */
  lemma {:induction false} NextCheckpointIsEarliest(now: int, c: int)
    requires IsCheckpoint(c) && now < c
    ensures NextCheckpoint(now) <= c
  {
    var next := NextCheckpoint(now);
    CheckpointAt(c);
    CheckpointAt(next);
    Decompose(now);
    var dn, dc := DayIndex(now), DayIndex(c);
    if dc == dn {
      assert Hour(c) > Hour(now) || (Hour(c) == Hour(now) && c > now);
      assert Hour(c) >= Hour(now);
    } else if dc > dn {
      assert dc * DAY >= dn * DAY + DAY;
    }
  }

  /** The tick's test holds exactly during the first second of a checkpoint. */
  lemma CheckpointInstantIff(now: int)
    ensures IsCheckpointInstant(now) <==> IsCheckpoint(now - Microsecond(now))
  {
    Decompose(now);
    var t := now - Microsecond(now);
    FieldsOf(t, DayIndex(now), TimeOfDay(now) - Microsecond(now));
    Decompose(t);
  }
}
