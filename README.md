# BlueArchiveTimer: the countdown timer and checkpoint alert

BlueArchiveTimer is a one-window countdown timer. It counts down a duration
(three hours by default). It refuses to start a countdown that would end an
hour or more after the next of the two daily checkpoints, 04:00 and 16:00. Its reset button arms the
timer to end at the next checkpoint when that checkpoint is close enough. When
the countdown expires, or when the clock reads exactly 04:00:00 or 16:00:00,
the window background starts flashing between Alice Blue and red. Only a reset
stops the flashing.

In the source this state machine lives in closures inside `main`. Here it is
modelled in two layers:

- **Values** (`TimerLogic`): a `Timer` datatype holding the closed-over state
  (`timer_duration`, `end_time`, `timer_active`, `flashing`, the warning
  text). `Start`, `Reset` and `Tick` are functions of a state and the current
  instant `now`. The lemmas about them carry the properties.
- **Object** (`TimerApp.App`): a class with the same fields plus the displayed
  text, the start button's label and the background colour. Its handler
  methods update the fields in place. Each method's postcondition ties the new
  state to the matching `TimerLogic` function of the old state.

Instants are integer microseconds since a local midnight; durations are integer
microseconds. A day is exactly 24 hours (module `Clock`). `format_time` and its
inverse reading are in `TimeFormat`. The next checkpoint and the per-tick
checkpoint test are in `Checkpoint`.

Three behaviours of the code are easy to misread:

- Reset arms the timer when the next checkpoint is within the *current*
  `timer_duration`, not within the three-hour default.
- Resuming after a pause starts a fresh countdown of the whole duration from
  the moment of resuming. It does not reuse the old end time.
- Reset is not idempotent. `TimerLogic.ResetTwiceIff` states exactly when two
  resets in a row agree, and `TimerLogic.ResetNotIdempotent` gives an instant
  where they do not.

The start guard compares hours only. For any duration up to three hours,
`TimerLogic.UnreachableIff` shows that it refuses exactly the countdowns that
would end one hour or more after the next checkpoint. So a start at 13:30 with
three hours is accepted, although it ends at 16:30.

## Model

| member | source | states |
|---|---|---|
| `Clock.Hour` | BlueArchiveTimer.py:54-55 | the hour of day of an instant (`datetime.hour`), in 0..23 |
| `Clock.Minute` | BlueArchiveTimer.py:31 | the minute field (`datetime.minute`), in 0..59 |
| `Clock.Second` | BlueArchiveTimer.py:31 | the second field (`datetime.second`), in 0..59 |
| `Clock.Microsecond` | BlueArchiveTimer.py:79 | the microsecond field (`datetime.microsecond`), in 0..999999 |
| `Clock.StartOfHour` | BlueArchiveTimer.py:79 | `replace(minute=0, second=0, microsecond=0)`: same day and hour, zero minute, second and microsecond, at most an hour before the instant |
| `Clock.WithHour` | BlueArchiveTimer.py:81-85 | `replace(hour=h)`: same day, hour h, minute, second and microsecond unchanged |
| `TimeFormat.SecondsField` | BlueArchiveTimer.py:21 | `timedelta.seconds`: the whole seconds of a duration once whole days are removed, in 0..86399 |
| `TimeFormat.Pad2` | BlueArchiveTimer.py:23 | a two-digit zero-padded field whose digits read back as the number |
| `TimeFormat.FormatTime` | BlueArchiveTimer.py:20-23 | the text has the `HH:MM:SS` shape: 8 characters, digits and two colons |
| `TimeFormat.FormatTimeFields` | BlueArchiveTimer.py:20-23 | reading the text back gives hours in 0..23, minutes and seconds in 0..59, and `hours*3600 + minutes*60 + seconds` equals `td.seconds` |
| `TimeFormat.FormatTimeSameIff` | BlueArchiveTimer.py:20-23 | two durations give the same text if and only if their `td.seconds` agree |
| `TimeFormat.FormatTimeIgnoresDaysAndMicroseconds` | BlueArchiveTimer.py:21 | adding whole days, or microseconds that stay within the same second, does not change the text |
| `TimeFormat.FormatTimeShowsWholeSeconds` | BlueArchiveTimer.py:105-112 | for a duration under a day, the text shows that duration floored to whole seconds |
| `TimeFormat.ZeroText` | BlueArchiveTimer.py:109 | the expiry text `00:00:00` is the text of a zero duration |
| `Checkpoint.NextCheckpoint` | BlueArchiveTimer.py:79-85 | the next checkpoint is strictly after `now`, at most 12 hours ahead, at hour 4 or 16 with zero minute, second and microsecond |
| `Checkpoint.NextCheckpointIsEarliest` | BlueArchiveTimer.py:79-85 | every 04:00 or 16:00 instant strictly after `now` is at or after the computed one, so it is the earliest |
| `Checkpoint.IsCheckpointInstant` | BlueArchiveTimer.py:31 | the per-tick test (hour 4 or 16, minute 0, second 0) holds at every exact checkpoint; `CheckpointInstantIff` states exactly when it holds |
| `Checkpoint.CheckpointInstantIff` | BlueArchiveTimer.py:31 | the per-tick test holds exactly during the first second of a checkpoint (microseconds are not compared) |
| `TimerLogic.DeadlineUnreachable` | BlueArchiveTimer.py:54-56 | the start guard refuses only before 16:00 and only when the countdown ends after hour 4; `UnreachableIff` states exactly when it refuses |
| `TimerLogic.Start` | BlueArchiveTimer.py:48-69 | start/pause never changes the duration or the alert, and on a running timer it stops it; `StartPauses`, `StartWhenStopped` and `ResumeRestartsDuration` state the rest |
| `TimerLogic.Reset` | BlueArchiveTimer.py:71-98 | reset stops the alert, clears the warning, leaves a positive duration, and the timer runs exactly when it has an end time; `ResetOutcome` and `ResetTwiceIff` state the rest |
| `TimerLogic.CountDown` | BlueArchiveTimer.py:104-112 | the countdown part of a tick never changes the end time or the duration, and puts text on the display exactly when the timer runs; `TickExpires` and `TickShowsRemaining` state which text |
| `TimerLogic.Tick` | BlueArchiveTimer.py:104-115 | a whole pass keeps the end time, the duration and the warning, never starts a stopped timer, and shows text exactly when the timer runs; `TickAlert` states when it raises the alert |
| `TimerLogic.Run` | BlueArchiveTimer.py:103-116 | any number of passes keeps the end time and the duration; `RunKeepsSettings`, `RunExpires` and `RunAppend` state the rest |
| `TimerLogic.LastShown` | BlueArchiveTimer.py:103-116 | the display after a run is the text of the last pass that showed one, or the earlier text if none did; a run on a stopped timer leaves the display as it was |
| `TimerLogic.InitialInv` | BlueArchiveTimer.py:12-15 | the initial state (3 hours, no end time, stopped, not flashing) satisfies the state invariant |
| `TimerLogic.StartPreservesInv` | BlueArchiveTimer.py:48-69 | start/pause keeps the duration in (0, 3h], keeps `timer_active` implying an end time, and leaves the warning empty or the fixed message |
| `TimerLogic.ResetPreservesInv` | BlueArchiveTimer.py:71-98 | reset keeps the same invariant |
| `TimerLogic.TickPreservesInv` | BlueArchiveTimer.py:104-115 | a tick keeps the same invariant |
| `TimerLogic.StartPauses` | BlueArchiveTimer.py:65-67 | on a running timer start only pauses: it clears `timer_active` and keeps the end time, the duration, the warning and the alert |
| `TimerLogic.UnreachableIff` | BlueArchiveTimer.py:52-56 | for a duration of at most 3 hours, the hour-granularity guard holds if and only if the countdown would end at least one hour after the next checkpoint |
| `TimerLogic.StartWhenStopped` | BlueArchiveTimer.py:51-64 | on a stopped timer, start succeeds if and only if the countdown ends less than an hour after the next checkpoint. Success sets the end to `now + duration` and clears the warning. Refusal sets the warning and keeps the end time. Both keep the duration and the alert |
| `TimerLogic.ResumeRestartsDuration` | BlueArchiveTimer.py:52-62 | pausing and then starting again gives end time = resume instant + full duration, so elapsed time is discarded |
| `TimerLogic.ResetOutcome` | BlueArchiveTimer.py:74-97 | reset always clears the alert and the warning. It arms if and only if the next checkpoint is within the current duration. When armed, it ends at that checkpoint, the earliest after `now` and at most 12h away, with duration = end - now. Otherwise it is stopped with 3h and no end time |
| `TimerLogic.ResetTwiceIff` | BlueArchiveTimer.py:87-94 | a second reset at the same instant agrees with the first if and only if the first armed the timer or the next checkpoint is more than 3h away |
| `TimerLogic.ResetTwiceStable` | BlueArchiveTimer.py:87-94 | a second reset changes nothing when the first armed the timer or the duration was already 3h |
| `TimerLogic.ResetNotIdempotent` | BlueArchiveTimer.py:87-94 | at 13:00 with a 1h duration, the first reset gives the stopped 3h state and the second arms the timer to 16:00 |
| `TimerLogic.TickKeepsSettings` | BlueArchiveTimer.py:104-112 | a tick never changes the end time, the duration or the warning |
| `TimerLogic.TickExpires` | BlueArchiveTimer.py:104-110 | a running timer whose end time has come stops, shows `00:00:00` (= the text of zero) and raises the alert |
| `TimerLogic.TickShowsRemaining` | BlueArchiveTimer.py:104-112 | a running timer with time left keeps running and shows `format_time(end - now)`, which is the time left floored to seconds when it is under a day |
| `TimerLogic.TickWhenStopped` | BlueArchiveTimer.py:104 | a tick on a stopped timer changes no timer state other than possibly raising the alert, and shows nothing |
| `TimerLogic.StartThenTick` | BlueArchiveTimer.py:61-62 | a successful start followed by a tick at the same instant shows the whole duration |
| `TimerLogic.RunAppend` | BlueArchiveTimer.py:103-116 | ticking over two stretches of instants in turn is ticking over their concatenation |
| `TimerLogic.RunPreservesInv` | BlueArchiveTimer.py:103-116 | any number of loop passes keeps the state invariant |
| `TimerLogic.RunKeepsSettings` | BlueArchiveTimer.py:103-116 | loop passes never change the end time, the duration or the warning, never start a stopped timer, and never stop a running alert |
| `TimerLogic.RunExpires` | BlueArchiveTimer.py:103-112 | a running timer ends stopped with the alert raised once some pass is at or after its end time. While every pass is before the end time it keeps running, and the alert runs if and only if it already ran or some pass was at a checkpoint instant |
| `TimerLogic.TickAlert` | BlueArchiveTimer.py:31-32 | after a tick the alert runs if and only if it already ran, the countdown expired at this tick, or the clock reads hour 4 or 16 with zero minute and second |
| `TimerLogic.OnlyResetStopsAlert` | BlueArchiveTimer.py:76 | start and tick never stop a running alert, and reset always stops it |
| `TimerLogic.StartAtOnePm` | BlueArchiveTimer.py:52-62 | at 13:00 the default start is accepted and ends at 16:00 the same day |
| `TimerLogic.StartAtTwoPm` | BlueArchiveTimer.py:52-59 | at 14:00 the default start is refused with the warning, and the timer stays stopped with no end time |
| `TimerLogic.TickAtCheckpoint` | BlueArchiveTimer.py:29-32 | a tick at exactly 04:00 or 16:00 raises the alert |
| `TimerApp.FlashColor` | BlueArchiveTimer.py:40-43 | the k-th wake-up shows the neutral colour for even k and red for odd k |
| `TimerApp.Label` | BlueArchiveTimer.py:58-67 | the start button reads "Pause" exactly when the timer runs and "Start" exactly when it is stopped (also set at lines 75, 91 and 108) |
| `TimerApp.BackgroundAfter` | BlueArchiveTimer.py:29-35 | after a run the background is neutral unless every pass was at a checkpoint instant, in which case it is unchanged |
| `TimerApp.App.constructor` | BlueArchiveTimer.py:12-18 | the initial state, the 3h text on the display and the neutral background |
| `TimerApp.App.StartTimer` | BlueArchiveTimer.py:48-69 | the new state is `Start(old state, now)`; the invariant and the button label are kept; the display and background are untouched |
| `TimerApp.App.ResetTimer` | BlueArchiveTimer.py:71-98 | the new state is `Reset(old state, now)`; the display shows the new duration and the background is neutral |
| `TimerApp.App.Tick` | BlueArchiveTimer.py:104-115 | the new state is `Tick(old state, now)`; the display shows the tick's text or is unchanged; the background is reset to neutral unless the clock is at a checkpoint instant |
| `TimerApp.App.RunLoop` | BlueArchiveTimer.py:103-116 | after the loop has woken at each given instant, the state is `Run(old state, instants)`, the display is `LastShown(old state, instants, old display)`, the background is `BackgroundAfter(instants, old background)`, and the invariant holds |
| `TimerApp.App.Pass` | BlueArchiveTimer.py:104-115 | the pass at `instants[i]` extends the run: from state `Run`, display `LastShown` and background `BackgroundAfter` of the first `i` instants it reaches the same three of the first `i + 1`, and keeps the invariant |
| `TimerApp.App.FlashBackground` | BlueArchiveTimer.py:37-46 | raises the alert; after k wake-ups the background is the colour of wake-up k-1, starting with neutral; nothing else changes |

## Left out

- The Flet window, widgets and `page.update()` calls (BlueArchiveTimer.py:6-10, 118-159) are presentation. Displayed text, the button label and the background are modelled as fields only.
- `update_current_time` and its `strftime("%H:%M")` text (BlueArchiveTimer.py:25-27) are display-only and are not modelled.
- The asyncio scheduling of the driver (`sleep(1)` and task creation) is not modelled. One pass of the `while True` loop is `App.Tick`, and `App.RunLoop` runs it over a finite sequence of instants chosen by the caller. Button presses between passes are not interleaved inside one run.
- Clock reads become one `now` parameter per handler. The source reads the clock one to three times per handler, microseconds apart (`start_timer` reads it a second time only when the first test of its guard passes).
- Time zones, daylight saving and the datetime range limits (years 1..9999) are not modelled. Every day has 24 hours.
- `remaining.total_seconds() <= 0` is modelled as `remaining <= 0` on integer microseconds. The float keeps the sign exactly, so the two agree.
- TimerApp.App.FlashBackground: models a bounded number of wake-ups of the unbounded `while flashing` loop. It does not model a reset arriving between two wake-ups (the way the loop actually ends), nor several flashing tasks running at once.
- TimerApp.App.Tick: raising the alert is modelled as setting `flashing` in the same tick. In the source a new task sets it when it first runs.
