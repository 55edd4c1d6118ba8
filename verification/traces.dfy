/**
 Runs of the LED: the caller's main loop interleaves `setLedState` calls
 with `update()` polls. A run records, per event, what was written to the
 pin. Properties of whole runs: the configuration never changes, the
 steady modes repeat their level, re-entering blinking resumes from the
 old timestamp, a run does not depend on where the clock started, and a
 run on the wrapping 32-bit clock is the ideal run as long as polls stay
 inside the measurable window.
 */
module Traces {
  import opened UnsignedLong
  import opened LedHelper
  import opened IdealClock

  /** One call into the object, with the clock reading of a poll. */
  datatype Event<T> = Poll(now: T) | Select(state: LedState)

  /** The object after a run and the pin writes of each event in turn. */
  datatype Trace = Trace(led: Led, outs: seq<Output>)

  datatype IdealTrace = IdealTrace(blinker: Blinker, outs: seq<Output>)

  /** A run made of polls only, at the given clock readings. */
  function Polls<T>(ts: seq<T>): (es: seq<Event<T>>)
    ensures |es| == |ts|
    ensures forall i :: 0 <= i < |ts| ==> es[i] == Poll(ts[i])
  {
    seq(|ts|, i requires 0 <= i < |ts| => Poll(ts[i]))
  }

  function Apply(s: Led, e: Event<ULong>): Step {
    match e
    case Poll(now) => Update(s, now)
    case Select(state) => Step(SetLedState(s, state), Silent)
  }

  /** The object after the events `es`, one pin write (or `Silent`) per
      event. No event changes the pin number or the durations. */
  function Run(s: Led, es: seq<Event<ULong>>): (r: Trace)
    ensures |r.outs| == |es|
    ensures SameConfig(s, r.led)
    decreases |es|
  {
    if es == [] then Trace(s, [])
    else
      var st := Apply(s, es[0]);
      var rest := Run(st.led, es[1..]);
      Trace(rest.led, [st.out] + rest.outs)
  }

  /** Running two stretches of events one after the other is running their
      concatenation. */
  lemma {:induction false} RunAppend(s: Led, a: seq<Event<ULong>>, b: seq<Event<ULong>>)
    ensures Run(s, a + b) ==
      var first := Run(s, a);
      var second := Run(first.led, b);
      Trace(second.led, first.outs + second.outs)
    decreases |a|
  {
    if a == [] {
      assert a + b == b;
    } else {
      assert (a + b)[1..] == a[1..] + b;
      RunAppend(Apply(s, a[0]).led, a[1..], b);
    }
  }

  /** In the Off and On modes a run of polls writes the mode's level on
      every poll and leaves the object exactly as it was: the blink phase
      and its timestamp are frozen while the LED is not blinking. */
  lemma {:induction false} SteadyModeRepeatsLevel(s: Led, ts: seq<ULong>)
    requires s.state != Blinking
    ensures Run(s, Polls(ts)).led == s
    ensures forall i :: 0 <= i < |ts| ==>
      Run(s, Polls(ts)).outs[i] == Drive(if s.state == On then High else Low)
    decreases |ts|
  {
    if ts != [] {
      assert Polls(ts)[1..] == Polls(ts[1..]);
      SteadyModeRepeatsLevel(s, ts[1..]);
    }
  }

  /** Switching a LED off, polling it for any stretch of time and switching
      it back to blinking restores exactly the phase and the timestamp it
      had: the time spent off counts towards the next toggle. */
  lemma StaleTimestampOnReentry(s: Led, ts: seq<ULong>)
    ensures Run(s, [Select(Off)] + Polls(ts) + [Select(Blinking)]).led ==
      s.(state := Blinking)
  {
    var off := SetLedState(s, Off);
    assert Run(s, [Select(Off)]).led == off;
    SteadyModeRepeatsLevel(off, ts);
    RunAppend(s, [Select(Off)], Polls(ts));
    RunAppend(s, [Select(Off)] + Polls(ts), [Select(Blinking)]);
  }

  /** The events of a run on a clock that reads `d` more. */
  function ShiftEvents(es: seq<Event<ULong>>, d: ULong): (r: seq<Event<ULong>>)
    ensures |r| == |es|
  {
    seq(|es|, i requires 0 <= i < |es| =>
      match es[i]
      case Poll(now) => Poll(Add(now, d))
      case Select(state) => Select(state))
  }

  /** A run does not depend on the clock's origin: starting from the shifted
      object and polling at shifted readings gives the same writes and the
      shifted final object, however the shift makes the readings wrap. */
  lemma {:induction false} RunTimeShift(s: Led, es: seq<Event<ULong>>, d: ULong)
    ensures Run(Shift(s, d), ShiftEvents(es, d)) ==
      var r := Run(s, es); Trace(Shift(r.led, d), r.outs)
    decreases |es|
  {
    if es != [] {
      assert ShiftEvents(es, d)[1..] == ShiftEvents(es[1..], d);
      if es[0].Poll? {
        UpdateTimeShift(s, es[0].now, d);
      }
      RunTimeShift(Apply(s, es[0]).led, es[1..], d);
    }
  }

  /** The worked example of a blinking LED with a 100 ms on-duration and a
      200 ms off-duration, dark with its last toggle at 0: a poll at 50 does
      nothing, at 200 it lights, at 290 nothing (only 90 ms on), at 301 it
      goes dark. */
  lemma BlinkExample(pin: int)
    ensures
      var r := Run(Led(pin, 100, 200, false, 0, Blinking), Polls([50, 200, 290, 301]));
      r.outs == [Silent, Drive(High), Silent, Drive(Low)] &&
      r.led == Led(pin, 100, 200, false, 301, Blinking)
  {
    var s0 := Led(pin, 100, 200, false, 0, Blinking);
    var ts: seq<ULong> := [50, 200, 290, 301];
    assert Polls(ts)[1..] == Polls(ts[1..]);
    assert Polls(ts[1..])[1..] == Polls(ts[2..]);
    assert Polls(ts[2..])[1..] == Polls(ts[3..]);
    assert Polls(ts[3..])[1..] == [];
  }

  /** The same example with the clock 150 ms short of wrapping at the last
      toggle: the readings 2^32 - 100, 50, 140 and 151 straddle the wrap, and
      the LED lights and goes dark at the same points. */
  lemma BlinkExampleAcrossRollover(pin: int)
    ensures
      var r := Run(Led(pin, 100, 200, false, MOD - 150, Blinking),
                   Polls([MOD - 100, 50, 140, 151]));
      r.outs == [Silent, Drive(High), Silent, Drive(Low)] &&
      r.led == Led(pin, 100, 200, false, 151, Blinking)
  {
    var d: ULong := MOD - 150;
    var s0 := Led(pin, 100, 200, false, 0, Blinking);
    var ts: seq<ULong> := [50, 200, 290, 301];
    BlinkExample(pin);
    RunTimeShift(s0, Polls(ts), d);
    assert ShiftEvents(Polls(ts), d) == Polls([MOD - 100, 50, 140, 151]);
  }

  // ---- Runs on the ideal clock ----

  function IdealApply(b: Blinker, e: Event<nat>): IdealStep {
    match e
    case Poll(now) => IdealUpdate(b, now)
    case Select(state) => IdealStep(b.(state := state), Silent)
  }

  function IdealRun(b: Blinker, es: seq<Event<nat>>): (r: IdealTrace)
    ensures |r.outs| == |es|
    decreases |es|
  {
    if es == [] then IdealTrace(b, [])
    else
      var st := IdealApply(b, es[0]);
      var rest := IdealRun(st.blinker, es[1..]);
      IdealTrace(rest.blinker, [st.out] + rest.outs)
  }

  /** The events the class sees: the ideal readings wrapped to 32 bits. */
  function WrapEvents(es: seq<Event<nat>>): (r: seq<Event<ULong>>)
    ensures |r| == |es|
  {
    seq(|es|, i requires 0 <= i < |es| =>
      match es[i]
      case Poll(now) => Poll(Wrap(now))
      case Select(state) => Select(state))
  }

  /** Every poll of the ideal run comes within the window of the toggle
      timestamp current at that moment. */
  predicate WellPolled(b: Blinker, es: seq<Event<nat>>)
    decreases |es|
  {
    es == [] ||
    ((es[0].Poll? ==> InWindow(b, es[0].now)) &&
     WellPolled(IdealApply(b, es[0]).blinker, es[1..]))
  }

  /** Rollover safety for whole runs: when every poll is in its window, the
      class running on the wrapping `millis()` counter writes exactly what
      the ideal LED writes and ends in the corresponding state. */
  lemma {:induction false} RunRefinesIdeal(b: Blinker, es: seq<Event<nat>>)
    requires WellPolled(b, es)
    ensures Run(Abs(b), WrapEvents(es)) ==
      var r := IdealRun(b, es); Trace(Abs(r.blinker), r.outs)
    decreases |es|
  {
    if es != [] {
      assert WrapEvents(es)[1..] == WrapEvents(es[1..]);
      if es[0].Poll? {
        UpdateRefinesIdeal(b, es[0].now);
      }
      RunRefinesIdeal(IdealApply(b, es[0]).blinker, es[1..]);
    }
  }

  /** All polls of `es` read the ideal clock in [lo, hi). */
  predicate PollsBetween(es: seq<Event<nat>>, lo: int, hi: int) {
    forall i :: 0 <= i < |es| && es[i].Poll? ==> lo <= es[i].now < hi
  }

  /** The polls of `es` read a clock that never goes backwards. */
  predicate PollsNondecreasing(es: seq<Event<nat>>) {
    forall i, j :: 0 <= i < j < |es| && es[i].Poll? && es[j].Poll? ==> es[i].now <= es[j].now
  }

  /** Any run whose polls read a non-decreasing clock less than 2^32 ms past
      the toggle timestamp it starts from is well polled, whatever the mode
      changes in between. */
  lemma {:induction false} EpochIsWellPolled(b: Blinker, es: seq<Event<nat>>, hi: int)
    requires hi <= b.lastChange + MOD
    requires PollsBetween(es, b.lastChange, hi)
    requires PollsNondecreasing(es)
    ensures WellPolled(b, es)
    decreases |es|
  {
    if es != [] {
      var b' := IdealApply(b, es[0]).blinker;
      var rest := es[1..];
      assert PollsNondecreasing(rest) by {
        forall i, j | 0 <= i < j < |rest| && rest[i].Poll? && rest[j].Poll?
          ensures rest[i].now <= rest[j].now
        {
          assert rest[i] == es[i + 1] && rest[j] == es[j + 1];
        }
      }
      assert PollsBetween(rest, b'.lastChange, hi) by {
        forall i | 0 <= i < |rest| && rest[i].Poll?
          ensures b'.lastChange <= rest[i].now < hi
        {
          assert rest[i] == es[i + 1];
          if es[0].Poll? {
            assert es[0].now <= es[i + 1].now;
          }
        }
      }
      EpochIsWellPolled(b', rest, hi);
    }
  }

  /** A freshly built LED, constructed at ideal time `t0`, behaves exactly
      like the ideal LED for its first 2^32 ms, even when its `millis()`
      readings wrap during that time. */
  lemma FirstEpochMatchesIdeal(pin: int, on: ULong, off: ULong, t0: nat, es: seq<Event<nat>>)
    requires PollsBetween(es, t0, t0 + MOD)
    requires PollsNondecreasing(es)
    ensures
      var b := Blinker(pin, on, off, false, t0, Off);
      Run(Create(pin, on, off, Wrap(t0)), WrapEvents(es)) ==
        var r := IdealRun(b, es); Trace(Abs(r.blinker), r.outs)
  {
    var b := Blinker(pin, on, off, false, t0, Off);
    EpochIsWellPolled(b, es, t0 + MOD);
    RunRefinesIdeal(b, es);
  }

  /** The longer of the two phase durations. */
  function MaxPhase(b: Blinker): ULong {
    if b.onTime >= b.offTime then b.onTime else b.offTime
  }

  /** Consecutive readings never go backwards and are less than `gap` apart. */
  predicate RegularPolls(ts: seq<nat>, gap: int) {
    forall i :: 0 <= i < |ts| - 1 ==> ts[i] <= ts[i + 1] < ts[i] + gap
  }

  /** Rollover safety for a LED left blinking: polled at least every
      2^32 - max(on, off) ms, its first poll inside the window, it behaves
      like the ideal LED forever, across any number of wraps of `millis()`.
      After each poll the phase has either just restarted or has lasted
      less than its duration, so the next poll is still inside the window. */
  lemma {:induction false} RegularBlinkingIsWellPolled(b: Blinker, ts: seq<nat>)
    requires b.state == Blinking
    requires |ts| > 0 ==> InWindow(b, ts[0])
    requires RegularPolls(ts, MOD - MaxPhase(b))
    ensures WellPolled(b, Polls(ts))
    decreases |ts|
  {
    if ts != [] {
      var b' := IdealUpdate(b, ts[0]).blinker;
      assert Polls(ts)[1..] == Polls(ts[1..]);
      assert MaxPhase(b') == MaxPhase(b);
      if |ts| > 1 {
        assert ts[0] <= ts[1] < ts[0] + MOD - MaxPhase(b);
        assert InWindow(b', ts[1]);
      }
      assert RegularPolls(ts[1..], MOD - MaxPhase(b')) by {
        forall i | 0 <= i < |ts[1..]| - 1
          ensures ts[1..][i] <= ts[1..][i + 1] < ts[1..][i] + MOD - MaxPhase(b)
        {
          assert ts[1..][i] == ts[i + 1] && ts[1..][i + 1] == ts[i + 2];
        }
      }
      RegularBlinkingIsWellPolled(b', ts[1..]);
    }
  }
}
