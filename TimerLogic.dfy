/** The countdown timer's state machine as values: the state closed over by
    the app (duration, end time, active flag, flashing flag, warning text) and
    the effect on it of the start/pause button, the reset button and one tick
    of the update loop, each at a single instant `now`. */
module TimerLogic {
  import opened Wrappers
  import opened Clock
  import opened TimeFormat
  import opened Checkpoint

  /** The duration a timer gets by default: three hours. */
  const DEFAULT_DURATION: int := 3 * HOUR

  /** The fixed warning shown when a start is refused. */
  const UNREACHABLE_WARNING: string := "カフェタッチ間に合わないよ！"

  /** The text shown when the countdown reaches zero. */
  const EXPIRED_TEXT: string := "00:00:00"

  datatype Timer = Timer(
    duration: int,          // timer_duration, in microseconds
    endTime: Option<int>,   // end_time, an instant or None
    active: bool,           // timer_active
    flashing: bool,         // flashing: the alert is running
    warning: string)        // warning_text.value

  /** The state the app starts in. */
  const INITIAL: Timer := Timer(DEFAULT_DURATION, None, false, false, "")

  /** What every reachable state satisfies. */
  predicate Inv(t: Timer)
  {
    && 0 < t.duration <= DEFAULT_DURATION
    && (t.active ==> t.endTime.Some?)
    && (t.warning == "" || t.warning == UNREACHABLE_WARNING)
  }

  /** The guard of start_timer: the countdown would end in an hour after 04:00
      (or 16:00) while `now` is still before that hour.  Only the hour fields
      are compared. */
  predicate DeadlineUnreachable(now: int, future: int)
    ensures DeadlineUnreachable(now, future) ==> Hour(now) < AFTERNOON && Hour(future) > MORNING
  {
    || (Hour(future) > MORNING && Hour(now) < MORNING)
    || (Hour(future) > AFTERNOON && Hour(now) < AFTERNOON)
  }

  /** start_timer: pause a running timer; otherwise start a countdown of the
      whole duration from `now`, unless the deadline is unreachable. */
  function Start(t: Timer, now: int): (r: Timer)
    ensures r.duration == t.duration && r.flashing == t.flashing
    ensures t.active ==> !r.active
  {
    if !t.active then
      var future := now + t.duration;
      if DeadlineUnreachable(now, future) then
        t.(warning := UNREACHABLE_WARNING, active := false)
      else
        t.(endTime := Some(future), active := true, warning := "")
    else
      t.(active := false)
  }

  /** reset_timer: stop the alert, then arm the timer to the next checkpoint
      when that is no further away than the current duration, and otherwise
      go back to the default duration, stopped. */
  function Reset(t: Timer, now: int): (r: Timer)
    ensures !r.flashing && r.warning == "" && 0 < r.duration
    ensures r.active <==> r.endTime.Some?
  {
    var next := NextCheckpoint(now);
    if next - now <= t.duration then
      Timer(next - now, Some(next), true, false, "")
    else
      Timer(DEFAULT_DURATION, None, false, false, "")
  }

  /** A state after one tick, and the text the tick puts on the display
      (None: the display is left as it was). */
  datatype TickResult = TickResult(timer: Timer, shown: Option<string>)

  /** The display after a tick that put `shown` on it, when it read `before`. */
  function Displayed(shown: Option<string>, before: string): string
  {
    match shown
    case Some(text) => text
    case None => before
  }

  /** The countdown part of a tick of update_timer. */
  function CountDown(t: Timer, now: int): (r: TickResult)
    ensures r.timer.endTime == t.endTime && r.timer.duration == t.duration
    ensures r.shown.Some? <==> t.active && t.endTime.Some?
  {
    if t.active && t.endTime.Some? then
      var remaining := t.endTime.value - now;
      if remaining <= 0 then
        TickResult(t.(active := false, flashing := true), Some(EXPIRED_TEXT))
      else
        TickResult(t, Some(FormatTime(remaining)))
    else
      TickResult(t, None)
  }

  /** One tick of update_timer: the countdown, then check_special_times,
      which raises the alert at a checkpoint instant. */
  function Tick(t: Timer, now: int): (r: TickResult)
    ensures r.timer.endTime == t.endTime && r.timer.duration == t.duration
    ensures r.timer.warning == t.warning
    ensures r.timer.active ==> t.active
    ensures r.shown.Some? <==> t.active && t.endTime.Some?
  {
    var r := CountDown(t, now);
    if IsCheckpointInstant(now) then r.(timer := r.timer.(flashing := true)) else r
  }

  // ---------------------------------------------------------------------
  // The invariant

  lemma InitialInv()
    ensures Inv(INITIAL) && !INITIAL.flashing && INITIAL.endTime == None
  {
  }

  lemma StartPreservesInv(t: Timer, now: int)
    requires Inv(t)
    ensures Inv(Start(t, now))
  {
  }

  lemma ResetPreservesInv(t: Timer, now: int)
    requires Inv(t)
    ensures Inv(Reset(t, now))
  {
  }

  lemma TickPreservesInv(t: Timer, now: int)
    requires Inv(t)
    ensures Inv(Tick(t, now).timer)
  {
  }

  // ---------------------------------------------------------------------
  // start_timer

  /** Pressing start on a running timer only pauses it. */
  lemma StartPauses(t: Timer, now: int)
    requires t.active
    ensures var r := Start(t, now);
      && !r.active && r.endTime == t.endTime && r.duration == t.duration
      && r.warning == t.warning && r.flashing == t.flashing
  {
  }

  /** For a duration of at most three hours the hour-granularity guard refuses
      exactly the countdowns that would end an hour or more after the next
      checkpoint; a countdown that ends less than an hour past it is let
      through. */
  lemma {:induction false} UnreachableIff(now: int, d: int)
    requires 0 <= d <= DEFAULT_DURATION
    ensures DeadlineUnreachable(now, now + d) <==> now + d >= NextCheckpoint(now) + HOUR
  {
    Decompose(now);
    var day := DayIndex(now);
    var future := now + d;
    var h := Hour(now);
    if h < AFTERNOON {
      FieldsOf(future, day, future - day * DAY);
      if h < MORNING {
        assert NextCheckpoint(now) == day * DAY + MORNING * HOUR;
        assert Hour(future) < AFTERNOON;
      } else {
        assert NextCheckpoint(now) == day * DAY + AFTERNOON * HOUR;
      }
    } else {
      assert NextCheckpoint(now) == (day + 1) * DAY + MORNING * HOUR;
    }
  }

  /** Pressing start on a stopped timer: it starts a countdown of the whole
      duration from `now` exactly when that countdown ends less than an hour
      after the next checkpoint; otherwise it shows the warning and changes
      nothing else. */
  lemma StartWhenStopped(t: Timer, now: int)
    requires Inv(t) && !t.active
    ensures var r := Start(t, now);
      && (r.active <==> now + t.duration < NextCheckpoint(now) + HOUR)
      && (r.active ==> r.endTime == Some(now + t.duration) && r.warning == "")
      && (!r.active ==> r.endTime == t.endTime && r.warning == UNREACHABLE_WARNING)
      && r.duration == t.duration && r.flashing == t.flashing
  {
    UnreachableIff(now, t.duration);
  }

  /** Pausing and starting again restarts the whole duration from the second
      press: the time that had already elapsed is discarded. */
  lemma ResumeRestartsDuration(t: Timer, pausedAt: int, resumedAt: int)
    requires Inv(t) && t.active
    requires Start(Start(t, pausedAt), resumedAt).active
    ensures Start(Start(t, pausedAt), resumedAt).endTime == Some(resumedAt + t.duration)
  {
  }

  // ---------------------------------------------------------------------
  // reset_timer

  /** reset_timer always clears the alert and the warning; it arms the timer
      exactly when the next checkpoint is within the current duration, and
      then the countdown ends at that checkpoint, the earliest one after
      `now`, no more than twelve hours away; otherwise the timer is stopped
      with the default duration and no end time. */
  lemma {:induction false} ResetOutcome(t: Timer, now: int)
    ensures var r := Reset(t, now);
      && !r.flashing && r.warning == ""
      && (r.active <==> NextCheckpoint(now) - now <= t.duration)
      && (r.active ==>
            && r.endTime.Some? && IsCheckpoint(r.endTime.value)
            && r.duration == r.endTime.value - now
            && 0 < r.duration <= 12 * HOUR
            && (forall c | now < c < r.endTime.value :: !IsCheckpoint(c)))
      && (!r.active ==> r.duration == DEFAULT_DURATION && r.endTime == None)
  {
    var r := Reset(t, now);
    if r.active {
      forall c | now < c < r.endTime.value
        ensures !IsCheckpoint(c)
      {
        if IsCheckpoint(c) {
          NextCheckpointIsEarliest(now, c);
        }
      }
    }
  }

  /** Resetting twice at the same instant gives the state of a single reset
      exactly when the first reset armed the timer or the next checkpoint is
      more than the default duration away. */
  lemma ResetTwiceIff(t: Timer, now: int)
    ensures Reset(Reset(t, now), now) == Reset(t, now)
            <==> Reset(t, now).active || NextCheckpoint(now) - now > DEFAULT_DURATION
  {
  }

  /** In particular a second reset changes nothing when the first one armed
      the timer or the duration already was the default. */
  lemma ResetTwiceStable(t: Timer, now: int)
    requires Reset(t, now).active || t.duration == DEFAULT_DURATION
    ensures Reset(Reset(t, now), now) == Reset(t, now)
  {
    ResetTwiceIff(t, now);
  }

  /** But reset is not idempotent: at 13:00 with one hour left on the
      duration, the first reset goes back to three hours and stopped, the
      second arms the timer to 16:00. */
  lemma ResetNotIdempotent(day: int)
    ensures var now := day * DAY + 13 * HOUR;
      var t := INITIAL.(duration := HOUR);
      && Reset(t, now) == INITIAL
      && Reset(Reset(t, now), now) == Timer(3 * HOUR, Some(now + 3 * HOUR), true, false, "")
  {
    var now := day * DAY + 13 * HOUR;
    FieldsOf(now, day, 13 * HOUR);
    assert NextCheckpoint(now) == now + 3 * HOUR;
  }

  // ---------------------------------------------------------------------
  // update_timer, one tick

  /** A tick never moves the end time, never changes the duration and never
      touches the warning. */
  lemma TickKeepsSettings(t: Timer, now: int)
    ensures var r := Tick(t, now).timer;
      r.endTime == t.endTime && r.duration == t.duration && r.warning == t.warning
  {
  }

  /** A running timer whose end time has come stops, shows zero and raises
      the alert. */
  lemma TickExpires(t: Timer, now: int)
    requires t.active && t.endTime.Some? && t.endTime.value <= now
    ensures var r := Tick(t, now);
      && !r.timer.active && r.timer.flashing
      && r.shown == Some(EXPIRED_TEXT) && EXPIRED_TEXT == FormatTime(0)
  {
    ZeroText();
  }

  /** A running timer with time left keeps running and shows the time left,
      floored to whole seconds when it is less than a day. */
  lemma TickShowsRemaining(t: Timer, now: int)
    requires t.active && t.endTime.Some? && now < t.endTime.value
    ensures var r := Tick(t, now);
      && r.timer.active
      && r.shown == Some(FormatTime(t.endTime.value - now))
      && (t.endTime.value - now < DAY ==>
            ClockValue(r.shown.value) == (t.endTime.value - now) / SECOND)
  {
    var remaining := t.endTime.value - now;
    assert CountDown(t, now) == TickResult(t, Some(FormatTime(remaining)));
    if remaining < DAY {
      FormatTimeShowsWholeSeconds(remaining);
    }
  }

  /** A stopped timer is not changed by a tick, and nothing is shown. */
  lemma TickWhenStopped(t: Timer, now: int)
    requires !t.active
    ensures var r := Tick(t, now);
      r.timer.(flashing := t.flashing) == t && r.shown == None
  {
  }

  /** Starting and ticking at the same instant shows the whole duration. */
  lemma StartThenTick(t: Timer, now: int)
    requires Inv(t) && !t.active && Start(t, now).active
    ensures var r := Tick(Start(t, now), now);
      && r.shown == Some(FormatTime(t.duration))
      && ClockValue(r.shown.value) == t.duration / SECOND
  {
    FormatTimeShowsWholeSeconds(t.duration);
  }

  // ---------------------------------------------------------------------
  // The update loop: ticks at successive instants

  /** The state after the loop of update_timer has ticked at each of the
      instants, in order (and no button was pressed meanwhile). */
  function Run(t: Timer, instants: seq<int>): (r: Timer)
    decreases |instants|
    ensures r.endTime == t.endTime && r.duration == t.duration
  {
    if instants == [] then t else Run(Tick(t, instants[0]).timer, instants[1..])
  }

  /** The text on the display after the loop has ticked at each of the
      instants, when it read `before` at the start: the text of the last tick
      that showed one, or `before` if none did. */
  function LastShown(t: Timer, instants: seq<int>, before: string): (r: string)
    decreases |instants|
    ensures !t.active ==> r == before
  {
    if instants == [] then before
    else
      var front := instants[..|instants| - 1];
      RunKeepsSettings(t, front);
      Displayed(Tick(Run(t, front), instants[|instants| - 1]).shown, LastShown(t, front, before))
  }

  /** Running the loop over two stretches of instants is running it over both. */
  lemma {:induction false} RunAppend(t: Timer, xs: seq<int>, ys: seq<int>)
    ensures Run(t, xs + ys) == Run(Run(t, xs), ys)
    decreases |xs|
  {
    if xs == [] {
      assert xs + ys == ys;
    } else {
      assert (xs + ys)[1..] == xs[1..] + ys;
      RunAppend(Tick(t, xs[0]).timer, xs[1..], ys);
    }
  }

  /** One more tick at the end of a run: the state and the display it leaves. */
  lemma RunStep(t: Timer, xs: seq<int>, x: int, before: string)
    ensures Run(t, xs + [x]) == Tick(Run(t, xs), x).timer
    ensures LastShown(t, xs + [x], before)
            == Displayed(Tick(Run(t, xs), x).shown, LastShown(t, xs, before))
  {
    RunAppend(t, xs, [x]);
    assert (xs + [x])[..|xs|] == xs;
  }

  /** Any number of ticks keeps the state invariant. */
  lemma {:induction false} RunPreservesInv(t: Timer, instants: seq<int>)
    requires Inv(t)
    ensures Inv(Run(t, instants))
    decreases |instants|
  {
    if instants != [] {
      TickPreservesInv(t, instants[0]);
      RunPreservesInv(Tick(t, instants[0]).timer, instants[1..]);
    }
  }

  /** Ticks never move the end time, change the duration or the warning,
      start a stopped timer, or stop a running alert. */
  lemma {:induction false} RunKeepsSettings(t: Timer, instants: seq<int>)
    ensures var r := Run(t, instants);
      && r.endTime == t.endTime && r.duration == t.duration && r.warning == t.warning
      && (r.active ==> t.active)
      && (t.flashing ==> r.flashing)
    decreases |instants|
  {
    if instants != [] {
      RunKeepsSettings(Tick(t, instants[0]).timer, instants[1..]);
    }
  }

  /** A running timer stops with the alert raised once the loop has ticked at
      or after its end time, and it keeps running, silent unless a
      checkpoint instant raised the alert, while every tick is before it. */
  lemma {:induction false} RunExpires(t: Timer, instants: seq<int>)
    requires t.active && t.endTime.Some?
    ensures var r := Run(t, instants);
      && ((exists i | 0 <= i < |instants| :: t.endTime.value <= instants[i])
            ==> !r.active && r.flashing)
      && ((forall i | 0 <= i < |instants| :: instants[i] < t.endTime.value)
            ==> && r.active
                && (r.flashing <==> (|| t.flashing
                                     || exists i | 0 <= i < |instants| :: IsCheckpointInstant(instants[i]))))
    decreases |instants|
  {
    if instants != [] {
      var t' := Tick(t, instants[0]).timer;
      var rest := instants[1..];
      if t.endTime.value <= instants[0] {
        assert !t'.active && t'.flashing;
        RunKeepsSettings(t', rest);
      } else {
        RunExpires(t', rest);
        if exists i | 0 <= i < |instants| :: t.endTime.value <= instants[i] {
          var i :| 0 <= i < |instants| && t.endTime.value <= instants[i];
          assert t.endTime.value <= rest[i - 1];
        }
        if exists i | 0 <= i < |rest| :: IsCheckpointInstant(rest[i]) {
          var i :| 0 <= i < |rest| && IsCheckpointInstant(rest[i]);
          assert IsCheckpointInstant(instants[i + 1]);
        }
        if exists i | 0 <= i < |instants| :: IsCheckpointInstant(instants[i]) {
          var i :| 0 <= i < |instants| && IsCheckpointInstant(instants[i]);
          if i > 0 {
            assert IsCheckpointInstant(rest[i - 1]);
          }
        }
      }
    }
  }

  // ---------------------------------------------------------------------
  // The alert

  /** After a tick the alert runs exactly when it already ran, the countdown
      expired at this tick, or the clock reads 04:00:00 or 16:00:00. */
  lemma TickAlert(t: Timer, now: int)
    ensures Tick(t, now).timer.flashing
            <==> || t.flashing
                 || (t.active && t.endTime.Some? && t.endTime.value <= now)
                 || IsCheckpointInstant(now)
  {
  }

  /** Only reset stops the alert: start and tick keep it running, reset
      always stops it. */
  lemma OnlyResetStopsAlert(t: Timer, now: int)
    ensures t.flashing ==> Start(t, now).flashing && Tick(t, now).timer.flashing
    ensures !Reset(t, now).flashing
  {
  }

  // ---------------------------------------------------------------------
  // Worked instants

  /** At 13:00 the default three hours end at 16:00 and the start is
      accepted. */
  lemma StartAtOnePm(day: int)
    ensures var now := day * DAY + 13 * HOUR;
      var r := Start(INITIAL, now);
      r.active && r.endTime == Some(day * DAY + 16 * HOUR) && r.warning == ""
  {
    var now := day * DAY + 13 * HOUR;
    FieldsOf(now, day, 13 * HOUR);
    FieldsOf(now + DEFAULT_DURATION, day, 16 * HOUR);
  }

  /** At 14:00 the default three hours would end at 17:00, past 16:00: the
      start is refused with the warning. */
  lemma StartAtTwoPm(day: int)
    ensures var now := day * DAY + 14 * HOUR;
      var r := Start(INITIAL, now);
      !r.active && r.endTime == None && r.warning == UNREACHABLE_WARNING
  {
    var now := day * DAY + 14 * HOUR;
    FieldsOf(now, day, 14 * HOUR);
    FieldsOf(now + DEFAULT_DURATION, day, 17 * HOUR);
  }

  /** A tick at exactly 04:00 or 16:00 raises the alert. */
  lemma TickAtCheckpoint(t: Timer, day: int, hour: int)
    requires hour == MORNING || hour == AFTERNOON
    ensures Tick(t, day * DAY + hour * HOUR).timer.flashing
  {
    var now := day * DAY + hour * HOUR;
    FieldsOf(now, day, hour * HOUR);
  }
}
