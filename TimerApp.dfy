/** The state that `main` keeps in closed-over variables and widget values,
    as an object whose handlers update it in place.  Every handler reads the
    clock once, as its parameter `now`. */
module TimerApp {
  import opened Wrappers
  import opened TimeFormat
  import opened Checkpoint
  import TimerLogic

  /** The background colours: Alice Blue, the neutral one, and red. */
  const NEUTRAL: string := "#f0f8ff"
  const ALERT: string := "red"
  const COLORS: seq<string> := [NEUTRAL, ALERT]

  /** The colour shown by the k-th wake-up of the flashing loop (from 0). */
  function FlashColor(k: nat): (c: string)
    ensures c == (if k % 2 == 0 then NEUTRAL else ALERT)
  {
    COLORS[k % 2]
  }

  /** The start button's label for a running or a stopped timer. */
  function Label(active: bool): (s: string)
    ensures s == "Pause" <==> active
    ensures s == "Start" <==> !active
  {
    if active then "Pause" else "Start"
  }

  /** The background after the loop has woken at each of the instants, when
      it was `before` at the start: each pass that is not at a checkpoint
      instant puts back the neutral colour. */
  function BackgroundAfter(instants: seq<int>, before: string): (r: string)
    decreases |instants|
    ensures r == if forall i | 0 <= i < |instants| :: IsCheckpointInstant(instants[i])
                 then before else NEUTRAL
  {
    if instants == [] then before
    else
      var front := instants[..|instants| - 1];
      var last := instants[|instants| - 1];
      assert forall i | 0 <= i < |front| :: front[i] == instants[i];
      if IsCheckpointInstant(last) then BackgroundAfter(front, before) else NEUTRAL
  }

  /** One more pass at the end of a run: the background it leaves. */
  lemma BackgroundStep(xs: seq<int>, x: int, before: string)
    ensures BackgroundAfter(xs + [x], before)
            == if IsCheckpointInstant(x) then BackgroundAfter(xs, before) else NEUTRAL
  {
    assert (xs + [x])[..|xs|] == xs;
  }

  class App {
    var timerDuration: int
    var endTime: Option<int>
    var timerActive: bool
    var flashing: bool
    var warning: string
    var display: string        // timer_display.value
    var startLabel: string     // start_button.text
    var background: string     // page.bgcolor

    /** The timer state these fields hold. */
    function State(): TimerLogic.Timer
      reads this
    {
      TimerLogic.Timer(timerDuration, endTime, timerActive, flashing, warning)
    }

    ghost predicate Valid()
      reads this
    {
      && TimerLogic.Inv(State())
      && startLabel == Label(timerActive)
      && (background == NEUTRAL || background == ALERT)
    }

    /** The set-up at the top of `main` and the widgets' initial values. */
    constructor ()
      ensures Valid()
      ensures State() == TimerLogic.INITIAL
      ensures display == FormatTime(TimerLogic.DEFAULT_DURATION) && background == NEUTRAL
    {
      timerDuration := TimerLogic.DEFAULT_DURATION;
      endTime := None;
      timerActive := false;
      flashing := false;
      background := NEUTRAL;
      display := FormatTime(TimerLogic.DEFAULT_DURATION);
      warning := "";
      startLabel := "Start";
    }

    /** start_timer */
    method StartTimer(now: int)
      requires Valid()
      modifies this
      ensures Valid()
      ensures State() == TimerLogic.Start(old(State()), now)
      ensures display == old(display) && background == old(background)
    {
      if !timerActive {
        var future := now + timerDuration;
        if TimerLogic.DeadlineUnreachable(now, future) {
          warning := TimerLogic.UNREACHABLE_WARNING;
          startLabel := "Start";
          timerActive := false;
        } else {
          endTime := Some(future);
          timerActive := true;
          startLabel := "Pause";
          warning := "";
        }
      } else {
        timerActive := false;
        startLabel := "Start";
      }
    }

    /** reset_timer */
    method ResetTimer(now: int)
      requires Valid()
      modifies this
      ensures Valid()
      ensures State() == TimerLogic.Reset(old(State()), now)
      ensures display == FormatTime(timerDuration) && background == NEUTRAL
    {
      timerActive := false;
      startLabel := "Start";
      flashing := false;
      background := NEUTRAL;

      var next := NextCheckpoint(now);
      if next - now <= timerDuration {
        timerDuration := next - now;
        endTime := Some(next);
        timerActive := true;
        startLabel := "Pause";
      } else {
        timerDuration := TimerLogic.DEFAULT_DURATION;
        endTime := None;
      }

      display := FormatTime(timerDuration);
      warning := "";
    }

    /** One pass of the loop in update_timer: the countdown, then
        check_special_times.  Raising the alert is recorded by setting
        `flashing`, which is what the flashing task does first. */
    method Tick(now: int)
      requires Valid()
      modifies this
      ensures Valid()
      ensures State() == TimerLogic.Tick(old(State()), now).timer
      ensures display == TimerLogic.Displayed(TimerLogic.Tick(old(State()), now).shown, old(display))
      ensures background == if IsCheckpointInstant(now) then old(background) else NEUTRAL
    {
      if timerActive && endTime.Some? {
        var remaining := endTime.value - now;
        if remaining <= 0 {
          timerActive := false;
          startLabel := "Start";
          display := TimerLogic.EXPIRED_TEXT;
          flashing := true;
        } else {
          display := FormatTime(remaining);
        }
      }

      if IsCheckpointInstant(now) {
        flashing := true;
      } else {
        background := NEUTRAL;
      }
    }

    /** The loop of update_timer, over the instants at which it wakes up. */
    method RunLoop(instants: seq<int>)
      requires Valid()
      modifies this
      ensures Valid()
      ensures State() == TimerLogic.Run(old(State()), instants)
      ensures display == TimerLogic.LastShown(old(State()), instants, old(display))
      ensures background == BackgroundAfter(instants, old(background))
    {
      ghost var t0, d0, b0 := State(), display, background;
      assert instants[..0] == [];
      var i := 0;
      while i < |instants|
        invariant 0 <= i <= |instants|
        invariant Valid()
        invariant State() == TimerLogic.Run(t0, instants[..i])
        invariant display == TimerLogic.LastShown(t0, instants[..i], d0)
        invariant background == BackgroundAfter(instants[..i], b0)
      {
        Pass(t0, d0, b0, instants, i);
        i := i + 1;
      }
      assert instants[..i] == instants;
    }

    /** The pass of the loop at instants[i], after the passes at the instants
        before it that started from timer `t0`, display `d0` and background
        `b0`. */
    method Pass(ghost t0: TimerLogic.Timer, ghost d0: string, ghost b0: string,
                instants: seq<int>, i: int)
      requires 0 <= i < |instants|
      requires Valid()
      requires State() == TimerLogic.Run(t0, instants[..i])
      requires display == TimerLogic.LastShown(t0, instants[..i], d0)
      requires background == BackgroundAfter(instants[..i], b0)
      modifies this
      ensures Valid()
      ensures State() == TimerLogic.Run(t0, instants[..i + 1])
      ensures display == TimerLogic.LastShown(t0, instants[..i + 1], d0)
      ensures background == BackgroundAfter(instants[..i + 1], b0)
    {
      ghost var done := instants[..i];
      assert instants[..i + 1] == done + [instants[i]];
      TimerLogic.RunStep(t0, done, instants[i], d0);
      BackgroundStep(done, instants[i], b0);
      Tick(instants[i]);
    }

    /** flash_background, observed over its first `wakeups` wake-ups: it
        raises the alert, then each wake-up while the alert runs shows the
        next colour of the two, beginning with the neutral one. */
    method FlashBackground(wakeups: nat)
      requires Valid()
      modifies this
      ensures Valid()
      ensures State() == old(State()).(flashing := true)
      ensures background == if wakeups == 0 then old(background) else FlashColor(wakeups - 1)
      ensures display == old(display)
    {
      flashing := true;
      var i := 0;
      // In the source the loop ends only when a reset clears `flashing`
      // between two wake-ups; that exit is not modelled, so the guard's
      // first conjunct stays true here.
      while flashing && i < wakeups
        invariant 0 <= i <= wakeups && flashing
        invariant Valid()
        invariant State() == old(State()).(flashing := true) && display == old(display)
        invariant background == if i == 0 then old(background) else FlashColor(i - 1)
      {
        background := COLORS[i % 2];
        i := i + 1;
      }
    }
  }
}
