# LED helper of the alarm-partition follower, in Dafny

The follower firmware drives a status LED through a small C++ class, `LED`
(`follower/ledhelper.h`). The class holds a pin number, an on-duration and
an off-duration, a mode (`OFF`, `ON`, `BLINKING`), a tracked level
(`isLedOn`) and the `millis()` time of the last blink toggle. The main loop
calls `update()` once per iteration: in `OFF` it drives the pin low, in
`ON` high, and in `BLINKING` it toggles the tracked level and the pin once
the current phase has lasted its duration. Elapsed time is
`now - lastStateChangeMillis` on 32-bit `unsigned long`, which stays
correct when `millis()` wraps around every 2^32 ms.

The model is functional. An `LED` object is an immutable record
(`LedHelper.Led`). The clock reading is a parameter of the operations that
read it. A pin write is a returned value (`Silent`, `Drive(Low)`,
`Drive(High)`). `unsigned long` is an integer in [0, 2^32) with explicit
reduction modulo 2^32 (`UnsignedLong`).

Beyond the per-call contracts, the model states:

- A reference definition on an ideal, never-wrapping clock (`IdealClock`).
  The class refines it whenever every poll comes less than 2^32 ms after the
  last toggle. The bound is tight.
- Whole runs of polls and mode changes (`Traces`). The configuration never
  changes. The steady modes repeat their level. Re-entering blinking resumes
  from the stale timestamp. A run does not depend on the clock's origin. A
  regularly polled blinking LED behaves ideally across any number of wraps.

Files: `unsigned_long.dfy` (32-bit arithmetic), `led.dfy` (the class),
`ideal.dfy` (ideal-clock reference), `traces.dfy` (runs).

## Model

| member | source | states |
|---|---|---|
| UnsignedLong.Sub | follower/ledhelper.h:36 | `now - last` on `unsigned long`: the plain difference when `now >= last`, otherwise the difference plus 2^32. Adding the result back to `last` gives `now` |
| UnsignedLong.WrapOfDifference | follower/ledhelper.h:34-36 | the unsigned difference of two wrapped clock readings is the wrapped difference of the readings |
| UnsignedLong.ElapsedAcrossRollover | follower/ledhelper.h:6-10 | the class computes elapsed time from two 32-bit readings of an unbounded clock. When fewer than 2^32 ticks separate them, the result is exactly the true tick count, however often the counter wrapped |
| UnsignedLong.SubShiftInvariant | follower/ledhelper.h:36-40 | the elapsed-time computation depends only on the distance between readings. Shifting both by the same amount modulo 2^32 leaves it unchanged |
| LedHelper.Create | follower/ledhelper.h:17-22 | construction gives mode OFF, `isLedOn` false, the timestamp equal to the construction-time clock reading, and pin and durations equal to the arguments |
| LedHelper.SetLedState | follower/ledhelper.h:24-26 | sets the mode and nothing else: tracked level, timestamp, pin and durations are unchanged. There is no pin write |
| LedHelper.Update | follower/ledhelper.h:28-46 | OFF writes Low and ON writes High, with no field changed. BLINKING toggles once the phase has lasted its duration (on-duration while lit, off-duration while dark): it flips the level, stamps `now` and writes the new level. Otherwise it writes nothing and changes nothing. The level flips at most once per call, and only in BLINKING. Configuration and mode never change |
| LedHelper.UpdateTimeShift | follower/ledhelper.h:34-44 | a poll of the object on a clock shifted by any amount (wrapping) does exactly what the unshifted poll does. So toggles fall at the same tick counts whether or not `millis()` wraps |
| LedHelper.RepeatedPollIsIdempotent | follower/ledhelper.h:28-45 | with positive durations, a second poll at the same instant changes nothing. In BLINKING it also writes nothing |
| LedHelper.ZeroDurationTogglesEveryPoll | follower/ledhelper.h:36-44 | with both durations zero, a blinking LED toggles on every poll, even twice at the same instant |
| IdealClock.IdealUpdate | follower/ledhelper.h:28-46 | reference poll on an unbounded clock. The mode is kept, and the toggle timestamp never moves backwards or past `now` |
| IdealClock.UpdateRefinesIdeal | follower/ledhelper.h:34-44 | when a poll comes less than 2^32 ms after the last toggle, polling the class with the wrapped reading gives the ideal poll's write and the wrapped image of its state |
| IdealClock.WindowIsTight | follower/ledhelper.h:36-40 | a poll exactly 2^32 ms after the last toggle reads elapsed time 0. A blinking LED with a positive phase then stays silent where the ideal LED toggles |
| Traces.Run | follower/ledhelper.h:17-45 | a run of events writes one output per event and never changes pin, on-duration or off-duration |
| Traces.RunAppend | follower/ledhelper.h:24-45 | running two stretches of events in turn is running their concatenation |
| Traces.SteadyModeRepeatsLevel | follower/ledhelper.h:29-32 | in OFF (ON), every poll of any run of polls writes Low (High), and the object is left exactly as it was |
| Traces.StaleTimestampOnReentry | follower/ledhelper.h:24-45 | BLINKING, then OFF, any number of polls, then BLINKING restores the old tracked level and timestamp. The time spent off counts towards the next toggle |
| Traces.RunTimeShift | follower/ledhelper.h:34-44 | a whole run started on a shifted clock gives the same writes and the shifted final state |
| Traces.BlinkExample | follower/ledhelper.h:36-44 | with on 100 ms and off 200 ms, dark since 0: polls at 50, 200, 290 and 301 give nothing, High, nothing, Low. The final timestamp is 301 |
| Traces.BlinkExampleAcrossRollover | follower/ledhelper.h:34-44 | the same example with readings that straddle the wrap (2^32 - 100, 50, 140, 151) gives the same writes |
| Traces.RunRefinesIdeal | follower/ledhelper.h:28-46 | when every poll of a run is within 2^32 ms after the toggle current at that moment, the class on the wrapping clock writes exactly what the ideal LED writes and ends in the corresponding state |
| Traces.EpochIsWellPolled | follower/ledhelper.h:34-44 | polls that read a non-decreasing clock less than 2^32 ms past the starting timestamp, with any mode changes in between, are all within the window |
| Traces.FirstEpochMatchesIdeal | follower/ledhelper.h:17-45 | a LED constructed at ideal time `t0` and polled at non-decreasing times before `t0 + 2^32` behaves exactly like the ideal LED, even if its readings wrap |
| Traces.RegularBlinkingIsWellPolled | follower/ledhelper.h:34-44 | a LED left blinking and polled at least every `2^32 - max(on, off)` ms, with its first poll within the window, stays within the window on every poll. By `RunRefinesIdeal` it behaves ideally across any number of wraps |

## Left out

- The hardware calls `pinMode`, `digitalWrite` and `millis()`. `millis()` becomes the `now` parameter. `digitalWrite` becomes the returned `Output`. `pinMode` at construction has no counterpart, because it only configures the hardware.
- The `int` width of the pin number. The pin is stored and never computed with, so it is an unbounded `int`.
- The public `state` field can also be assigned directly. A direct assignment has the same effect as `SetLedState`, so it is not modelled separately.
- An enum value outside `OFF`, `ON`, `BLINKING` (possible in C++ only through a cast) would make `update()` do nothing. The three-constructor `LedState` excludes it.
- Polling cadence and real-time behaviour depend on the caller's loop, not on this class. The rollover lemmas take the poll times as given.
- Concurrent calls on one object are not modelled. The class is used from a single-threaded main loop.
