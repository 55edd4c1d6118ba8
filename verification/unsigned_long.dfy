/**
 The `unsigned long` arithmetic the LED helper relies on. On the 8-bit and
 32-bit Arduino targets an `unsigned long` is 32 bits wide, and `millis()`
 returns one: the millisecond clock therefore wraps to 0 roughly every
 49.7 days. Subtraction of two such values is performed modulo 2^32, which
 is what makes `now - lastStateChangeMillis` a correct elapsed time even
 across a wrap.

 Values are modelled as integers in [0, 2^32) and every operation reduces
 explicitly modulo 2^32. Dafny's `%` is Euclidean, so the reduced value is
 never negative, matching C's unsigned arithmetic.
 */
module UnsignedLong {

  /** 2^32: the number of distinct `unsigned long` values. */
  const MOD: int := 0x1_0000_0000

  /** A 32-bit `unsigned long`. */
  type ULong = x: int | 0 <= x < MOD

  /** The conversion of a mathematical integer to `unsigned long`:
      the value congruent to `x` modulo 2^32. */
  function Wrap(x: int): (r: ULong)
    ensures 0 <= x < MOD ==> r == x
    ensures MOD <= x < 2 * MOD ==> r == x - MOD
    ensures -MOD <= x < 0 ==> r == x + MOD
  {
    x % MOD
  }

  /** C's `a - b` on `unsigned long`. */
  function Sub(a: ULong, b: ULong): (r: ULong)
    ensures a >= b ==> r == a - b
    ensures a < b ==> r == a - b + MOD
    ensures Add(b, r) == a
  {
    Wrap(a - b)
  }

  /** C's `a + b` on `unsigned long`. */
  function Add(a: ULong, b: ULong): (r: ULong)
    ensures a + b < MOD ==> r == a + b
    ensures a + b >= MOD ==> r == a + b - MOD
  {
    Wrap(a + b)
  }

  /** Adding a whole number of periods does not change the residue. */
  lemma {:induction false} WrapPeriodic(x: int, k: int)
    ensures Wrap(x + k * MOD) == Wrap(x)
  {
    var q := x / MOD;
    assert x == q * MOD + Wrap(x);
    assert x + k * MOD == (q + k) * MOD + Wrap(x);
  }

  /** Wrapping commutes with subtraction: the difference of two wrapped
      clock readings is the wrapped difference of the readings. */
  lemma WrapOfDifference(x: int, y: int)
    ensures Sub(Wrap(x), Wrap(y)) == Wrap(x - y)
  {
    var qx, qy := x / MOD, y / MOD;
    assert x == qx * MOD + Wrap(x);
    assert y == qy * MOD + Wrap(y);
    assert x - y == (Wrap(x) - Wrap(y)) + (qx - qy) * MOD;
    WrapPeriodic(Wrap(x) - Wrap(y), qx - qy);
  }

  /** Rollover safety of the elapsed-time computation: whenever the true
      number of ticks between two readings of an unbounded clock is below
      2^32, the unsigned difference of the 32-bit readings is exactly that
      number, however many times the 32-bit counter has wrapped. */
  lemma ElapsedAcrossRollover(earlier: int, now: int)
    requires earlier <= now < earlier + MOD
    ensures Sub(Wrap(now), Wrap(earlier)) == now - earlier
  {
    WrapOfDifference(now, earlier);
  }

  /** The elapsed time between two readings depends only on their
      distance: moving both by the same offset `d` (as a clock that started
      at a different moment would) leaves it unchanged. */
  lemma SubShiftInvariant(a: ULong, b: ULong, d: ULong)
    ensures Sub(Add(a, d), Add(b, d)) == Sub(a, b)
  {
    WrapOfDifference(a + d, b + d);
  }
}
