/**
 The `LED` class of the follower firmware: one output pin driven in one of
 three modes (off, steadily on, blinking), advanced by a poll once per loop
 iteration.

 The class reads the clock with `millis()` and writes the pin with
 `digitalWrite`. Here the clock reading is a parameter of the operations
 that read it, and the pin write is part of the result: `Update` returns
 the new object state together with the level it wrote, if any.
 */
module LedHelper {
  import opened UnsignedLong

  /** The class's `LedState` enum: the mode the caller selects. */
  datatype LedState = Off | On | Blinking

  /** A logic level written to the pin. */
  datatype Level = Low | High

  /** What one operation wrote to the pin: nothing, or one level. */
  datatype Output = Silent | Drive(level: Level)

  /** The fields of one `LED` object. `isLedOn` and `lastChange` track the
      blink phase; `state` is the public mode field. */
  datatype Led = Led(
    pin: int,
    onTime: ULong,
    offTime: ULong,
    isLedOn: bool,
    lastChange: ULong,
    state: LedState)

  /** The result of one poll: the object after it and what it wrote. */
  datatype Step = Step(led: Led, out: Output)

  /** The level that corresponds to the tracked blink phase. */
  function LevelOf(isLedOn: bool): Level {
    if isLedOn then High else Low
  }

  /** The fields fixed at construction are the same in both objects. */
  predicate SameConfig(a: Led, b: Led) {
    a.pin == b.pin && a.onTime == b.onTime && a.offTime == b.offTime
  }

  /** How long the current blink phase lasts: the on-duration while the
      LED is lit, the off-duration while it is dark. */
  function PhaseLength(s: Led): ULong {
    if s.isLedOn then s.onTime else s.offTime
  }

  /** Time since the last blink toggle, as the class computes it: unsigned
      subtraction, correct across a wrap of the clock. */
  function Elapsed(s: Led, now: ULong): ULong {
    Sub(now, s.lastChange)
  }

  /** The constructor `LED(pin, on, off)`, with `now` the `millis()` reading
      taken during construction. The pin-direction call is hardware set-up
      and has no counterpart in the state. */
  function Create(pin: int, on: ULong, off: ULong, now: ULong): (s: Led)
    ensures s.state == Off
    ensures !s.isLedOn && s.lastChange == now
    ensures s.pin == pin && s.onTime == on && s.offTime == off
  {
    Led(pin, on, off, false, now, Off)
  }

  /** `setLedState`: selects a mode. It writes nothing to the pin (its
      result carries no `Output`) and changes no other field; the new mode
      takes effect at the next `Update`. */
  function SetLedState(s: Led, state: LedState): (s': Led)
    ensures s'.state == state
    ensures SameConfig(s, s')
    ensures s'.isLedOn == s.isLedOn && s'.lastChange == s.lastChange
  {
    s.(state := state)
  }

  /** `update()`, with `now` the `millis()` reading it takes.
      Off drives the pin low and On drives it high on every poll, touching
      no field. Blinking toggles the tracked level, stamps the toggle time
      and writes the new level once the current phase has lasted its
      duration; before that it does nothing at all. */
  function Update(s: Led, now: ULong): (r: Step)
    ensures SameConfig(s, r.led) && r.led.state == s.state
    ensures s.state == Off ==> r == Step(s, Drive(Low))
    ensures s.state == On ==> r == Step(s, Drive(High))
    ensures s.state == Blinking && Elapsed(s, now) >= PhaseLength(s) ==>
      && r.led.isLedOn == !s.isLedOn
      && r.led.lastChange == now
      && r.out == Drive(LevelOf(r.led.isLedOn))
    ensures s.state == Blinking && Elapsed(s, now) < PhaseLength(s) ==>
      r == Step(s, Silent)
    // The tracked level flips only while blinking, at most once per poll,
    // and the flip is always written to the pin.
    ensures r.led.isLedOn != s.isLedOn ==> s.state == Blinking && r.out == Drive(LevelOf(r.led.isLedOn))
  {
    match s.state
    case Off => Step(s, Drive(Low))
    case On => Step(s, Drive(High))
    case Blinking =>
      var elapsed := Sub(now, s.lastChange);
      if s.isLedOn && elapsed >= s.onTime then
        Step(s.(isLedOn := false, lastChange := now), Drive(Low))
      else if !s.isLedOn && elapsed >= s.offTime then
        Step(s.(isLedOn := true, lastChange := now), Drive(High))
      else
        Step(s, Silent)
  }

  /** The same object on a clock that reads `d` more: only the timestamp
      moves. */
  function Shift(s: Led, d: ULong): Led {
    s.(lastChange := Add(s.lastChange, d))
  }

  /** The behaviour of `Update` depends on clock readings only through
      their differences. A poll of the shifted object at the shifted time
      does exactly what the original poll does, so a run that straddles the
      wrap of `millis()` toggles at the same tick counts as one that does
      not. */
  lemma UpdateTimeShift(s: Led, now: ULong, d: ULong)
    ensures Update(Shift(s, d), Add(now, d)) ==
      var r := Update(s, now); Step(Shift(r.led, d), r.out)
  {
    SubShiftInvariant(now, s.lastChange, d);
  }

  /** Polling a blinking LED again at the same instant changes nothing and
      writes nothing, provided both durations are positive: the first poll
      either stayed silent or restarted the phase at `now`. */
  lemma RepeatedPollIsIdempotent(s: Led, now: ULong)
    requires s.onTime > 0 && s.offTime > 0
    ensures var r := Update(s, now);
      Update(r.led, now).led == r.led &&
      (s.state == Blinking ==> Update(r.led, now).out == Silent)
  {
  }

  /** With a zero duration the restart does not hold the level: a blinking
      LED whose both durations are zero toggles on every poll, even two
      polls at the same instant. */
  lemma ZeroDurationTogglesEveryPoll(s: Led, now: ULong)
    requires s.state == Blinking && s.onTime == 0 && s.offTime == 0
    ensures Update(s, now).led.isLedOn != s.isLedOn
    ensures Update(Update(s, now).led, now).led.isLedOn == s.isLedOn
  {
  }
}
