/**
 A reference definition of the blinking LED on an ideal clock: time is an
 unbounded count of milliseconds since start-up that never wraps, and the
 time elapsed since a toggle is plain integer subtraction. This is the
 behaviour the class means to have; the lemmas here show that the class,
 running on the 32-bit `millis()` counter, has exactly this behaviour as
 long as no poll comes 2^32 ms or more after the last toggle, and that the
 bound cannot be relaxed.
 */
module IdealClock {
  import opened UnsignedLong
  import opened LedHelper

  /** An LED whose toggle timestamp is a reading of the ideal clock. */
  datatype Blinker = Blinker(
    pin: int,
    onTime: ULong,
    offTime: ULong,
    isLedOn: bool,
    lastChange: nat,
    state: LedState)

  datatype IdealStep = IdealStep(blinker: Blinker, out: Output)

  /** The LED object whose `millis()`-based fields correspond to `b`. */
  function Abs(b: Blinker): (s: Led)
    ensures s.lastChange == Wrap(b.lastChange)
  {
    Led(b.pin, b.onTime, b.offTime, b.isLedOn, Wrap(b.lastChange), b.state)
  }

  /** One poll at ideal time `now`, with no modular arithmetic anywhere:
      a blinking LED toggles once the phase has truly lasted its duration. */
  function IdealUpdate(b: Blinker, now: nat): (r: IdealStep)
    ensures r.blinker.state == b.state
    // The toggle timestamp only moves forward on a clock that does.
    ensures b.lastChange <= now ==> b.lastChange <= r.blinker.lastChange <= now
  {
    match b.state
    case Off => IdealStep(b, Drive(Low))
    case On => IdealStep(b, Drive(High))
    case Blinking =>
      var phase := if b.isLedOn then b.onTime else b.offTime;
      if now - b.lastChange >= phase then
        IdealStep(b.(isLedOn := !b.isLedOn, lastChange := now), Drive(LevelOf(!b.isLedOn)))
      else
        IdealStep(b, Silent)
  }

  /** A poll is within the window the 32-bit clock can measure when it
      comes no earlier than the last toggle and less than 2^32 ms after it. */
  predicate InWindow(b: Blinker, now: nat) {
    b.lastChange <= now < b.lastChange + MOD
  }

  /** Single-poll refinement: inside the window, polling the class with the
      wrapped clock reading does exactly what the ideal LED does. */
  lemma UpdateRefinesIdeal(b: Blinker, now: nat)
    requires InWindow(b, now)
    ensures Update(Abs(b), Wrap(now)) ==
      var r := IdealUpdate(b, now); Step(Abs(r.blinker), r.out)
  {
    ElapsedAcrossRollover(b.lastChange, now);
  }

  /** The window is tight. A poll exactly 2^32 ms after the toggle reads an
      elapsed time of 0, so a blinking LED with a positive phase length
      stays silent where the ideal LED toggles. This happens, for instance,
      when the mode is switched back to blinking after the LED was held
      off for 2^32 ms: the stale timestamp aliases the current time. */
  lemma WindowIsTight(b: Blinker)
    requires b.state == Blinking
    requires (if b.isLedOn then b.onTime else b.offTime) > 0
    ensures Update(Abs(b), Wrap(b.lastChange + MOD)).out == Silent
    ensures IdealUpdate(b, b.lastChange + MOD).out != Silent
  {
    WrapPeriodic(b.lastChange, 1);
  }
}
