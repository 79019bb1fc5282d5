/**
 Angle wrapping over the reals. The half-turn constant `pi` is a parameter
 (any positive real), so the properties below hold for the exact value of
 the circle constant and do not depend on its decimal expansion.
 */
module Angles {

  /** `q` whole periods of length `m`. */
  function Multiple(m: real, q: int): real {
    m * q as real
  }

  /**
   The remainder of `a` modulo `m` with the sign of the divisor, the way
   floor-based remainder on floating-point numbers is defined: `a` minus the
   largest whole multiple of `m` not exceeding it. It lies in `[0, m)` and
   differs from `a` by whole periods.
   */
  function FloorMod(a: real, m: real): (r: real)
    requires m > 0.0
    ensures 0.0 <= r < m
    ensures exists q :: a - r == Multiple(m, q)
  {
    var q := (a / m).Floor;
    FloorBrackets(a, m);
    assert a - (a - Multiple(m, q)) == Multiple(m, q);
    a - Multiple(m, q)
  }

  /** The multiple of `m` at the floor of `a / m` brackets `a` within one period. */
  lemma FloorBrackets(a: real, m: real)
    requires m > 0.0
    ensures Multiple(m, (a / m).Floor) <= a < Multiple(m, (a / m).Floor) + m
  {
    var f := (a / m).Floor as real;
    assert f <= a / m < f + 1.0;
    assert m * (a / m) == a;
    MulMonotone(m, f, a / m);
    MulStrictlyMonotone(m, a / m, f + 1.0);
    assert m * (f + 1.0) == m * f + m;
    assert a < m * f + m;
  }

  /** Multiplying by a positive factor keeps `<=`. */
  lemma MulMonotone(m: real, x: real, y: real)
    requires m > 0.0 && x <= y
    ensures m * x <= m * y
  {
  }

  /** Multiplying by a positive factor keeps `<`. */
  lemma MulStrictlyMonotone(m: real, x: real, y: real)
    requires m > 0.0 && x < y
    ensures m * x < m * y
  {
  }

  /** The only whole number of periods strictly inside one period of zero is zero. */
  lemma MultipleNearZero(m: real, q: int)
    requires m > 0.0
    requires -m < Multiple(m, q) < m
    ensures q == 0
  {
    if q >= 1 {
      MulMonotone(m, 1.0, q as real);
    } else if q <= -1 {
      MulMonotone(m, q as real, -1.0);
    }
  }

  /** Whole periods subtract as their counts do. */
  lemma MultipleDifference(m: real, p: int, q: int)
    ensures Multiple(m, p) - Multiple(m, q) == Multiple(m, p - q)
  {
    assert m * (p - q) as real == m * p as real - m * q as real;
  }

  /** `k` whole turns, a turn being `2 * pi`. */
  function Turns(pi: real, k: int): real {
    Multiple(2.0 * pi, k)
  }

  /**
   Wraps an angle into one turn centred on zero: shift by `pi`, reduce
   modulo `2 * pi`, shift back. The result lies in `[-pi, pi)` and differs
   from the input by a whole number of turns.
   */
  function NormalizeRad(pi: real, rad: real): (r: real)
    requires pi > 0.0
    ensures -pi <= r < pi
    ensures exists k :: r == rad + Turns(pi, k)
  {
    var q := ((rad + pi) / (2.0 * pi)).Floor;
    MultipleDifference(2.0 * pi, 0, q);
    assert FloorMod(rad + pi, 2.0 * pi) - pi == rad + Turns(pi, -q);
    FloorMod(rad + pi, 2.0 * pi) - pi
  }

  /**
   The wrapped angle is the only value in `[-pi, pi)` a whole number of
   turns away from the input.
   */
  lemma NormalizeRadUnique(pi: real, rad: real, k: int)
    requires pi > 0.0
    requires -pi <= rad + Turns(pi, k) < pi
    ensures NormalizeRad(pi, rad) == rad + Turns(pi, k)
  {
    var r := NormalizeRad(pi, rad);
    var j :| r == rad + Turns(pi, j);
    MultipleDifference(2.0 * pi, k, j);
    MultipleNearZero(2.0 * pi, k - j);
  }

  /** An angle already in `[-pi, pi)` is left unchanged. */
  lemma NormalizeRadFixesRange(pi: real, rad: real)
    requires pi > 0.0
    requires -pi <= rad < pi
    ensures NormalizeRad(pi, rad) == rad
  {
    assert Turns(pi, 0) == 0.0;
    NormalizeRadUnique(pi, rad, 0);
  }

  /** Wrapping twice is wrapping once. */
  lemma NormalizeRadIdempotent(pi: real, rad: real)
    requires pi > 0.0
    ensures NormalizeRad(pi, NormalizeRad(pi, rad)) == NormalizeRad(pi, rad)
  {
    NormalizeRadFixesRange(pi, NormalizeRad(pi, rad));
  }

  /** Adding any whole number of turns does not change the wrapped angle. */
  lemma NormalizeRadPeriodic(pi: real, rad: real, k: int)
    requires pi > 0.0
    ensures NormalizeRad(pi, rad + Turns(pi, k)) == NormalizeRad(pi, rad)
  {
    var r := NormalizeRad(pi, rad);
    var j :| r == rad + Turns(pi, j);
    MultipleDifference(2.0 * pi, j, k);
    NormalizeRadUnique(pi, rad + Turns(pi, k), j - k);
  }

  /** The half-open range includes `-pi` but not `pi`: an input of `pi` wraps to `-pi`. */
  lemma NormalizeRadOfPi(pi: real)
    requires pi > 0.0
    ensures NormalizeRad(pi, pi) == -pi
  {
    assert Turns(pi, -1) == -2.0 * pi;
    NormalizeRadUnique(pi, pi, -1);
  }
}
