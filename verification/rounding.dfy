/**
 * `percentify(value, max_value)`: `round(value / max_value * 100)`.
 *
 * The script computes `value / max_value * 100` in floating point and rounds
 * it with Python's `round`, which sends an exact half to the even neighbour.
 * The model rounds the exact rational 100 * value / max the same way. Both
 * agree except where the exact value is a half-integer that the float does
 * not hit exactly: a float product can land just above or below the half, so
 * `round` may then pick the other neighbour. Away from halves the exact value
 * is at least 1 / (2 * max) from the rounding boundary, far more than the
 * float error for any count a text can reach.
 */
module Rounding {

  /** `round(n / d)` for integers: the nearest integer, an exact half going to the even one. */
  function RoundHalfEven(n: int, d: int): (r: int)
    requires d > 0
    ensures IsRoundHalfEven(n, d, r)
  {
    var q, m := n / d, n % d;
    assert n == q * d + m && 0 <= m < d;
    assert (q + 1) * d == q * d + d;
    if 2 * m < d then q
    else if 2 * m > d then q + 1
    else if q % 2 == 0 then q
    else q + 1
  }

  /** The nearest integer to n / d, an exact half going to the even one. */
  predicate IsRoundHalfEven(n: int, d: int, r: int)
    requires d > 0
  {
    && -d <= 2 * (n - r * d) <= d
    && ((2 * (n - r * d) == d || 2 * (n - r * d) == -d) ==> r % 2 == 0)
  }

  /** Rounding to the nearest integer, ties to even, has exactly one answer. */
  lemma RoundHalfEvenUnique(n: int, d: int, r: int)
    requires d > 0 && IsRoundHalfEven(n, d, r)
    ensures r == RoundHalfEven(n, d)
  {
    NearestUnique(n, d, r, RoundHalfEven(n, d));
  }

  lemma NearestUnique(n: int, d: int, r: int, s: int)
    requires d > 0 && IsRoundHalfEven(n, d, r) && IsRoundHalfEven(n, d, s)
    ensures r == s
  {
    // Both lie within d / 2 of n, measured in multiples of d, so they differ by at most one step,
    // and a step of one would put n exactly half-way between them, where only one is even.
    var k := s - r;
    Distributes(s, r, d);
    assert k * d == (n - r * d) - (n - s * d);
    RoundStepsAreWhole(k, d);
    OneStep(k, d);
    TieBreak(n - r * d, n - s * d, d, r, k);
  }

  lemma Distributes(s: int, r: int, d: int)
    ensures (s - r) * d == s * d - r * d
  {
  }

  lemma OneStep(k: int, d: int)
    requires -1 <= k <= 1
    ensures k * d == if k == 1 then d else if k == -1 then -d else 0
  {
  }

  lemma TieBreak(er: int, es: int, d: int, r: int, k: int)
    requires d > 0 && -d <= 2 * er <= d && -d <= 2 * es <= d
    requires (2 * er == d || 2 * er == -d) ==> r % 2 == 0
    requires (2 * es == d || 2 * es == -d) ==> (r + k) % 2 == 0
    requires -1 <= k <= 1
    requires er - es == if k == 1 then d else if k == -1 then -d else 0
    ensures k == 0
  {
  }

  lemma {:induction false} MulMonotone(a: int, b: int, d: int)
    requires a <= b && d >= 0
    ensures a * d <= b * d
    decreases b - a
  {
    if a < b {
      MulMonotone(a + 1, b, d);
      assert (a + 1) * d == a * d + d;
    }
  }

  lemma RoundStepsAreWhole(k: int, d: int)
    requires d > 0 && -2 * d <= 2 * k * d <= 2 * d
    ensures -1 <= k <= 1
  {
    if k > 1 {
      MulMonotone(2, k, d);
    } else if k < -1 {
      MulMonotone(k, -2, d);
    }
  }

  /** `percentify(value, max)`: the whole percentage nearest to `value / max`, an exact half going to the even one. */
  function Percent(value: nat, max: nat): (r: int)
    requires max > 0
    ensures IsRoundHalfEven(100 * value, max, r)
  {
    RoundHalfEven(100 * value, max)
  }

  /** A count between 0 and the maximum gives a percentage between 0 and 100, and the maximum gives 100. */
  lemma PercentBounds(value: nat, max: nat)
    requires 0 < max && value <= max
    ensures 0 <= Percent(value, max) <= 100
    ensures value == max ==> Percent(value, max) == 100
  {
    var r := Percent(value, max);
    if r < 0 {
      MulMonotone(r, -1, max);
    } else if r > 100 {
      MulMonotone(101, r, max);
      MulMonotone(value, max, 100);
    }
    if value == max {
      RoundHalfEvenUnique(100 * value, max, 100);
    }
  }

  /** A larger count never gets a smaller percentage. */
  lemma PercentMonotone(v1: nat, v2: nat, max: nat)
    requires 0 < max && v1 <= v2
    ensures Percent(v1, max) <= Percent(v2, max)
  {
    var r1, r2 := Percent(v1, max), Percent(v2, max);
    if r1 > r2 {
      // Each is within max / 2 of its target, and the targets are in the other order.
      assert (r1 - r2) * max == 100 * (v1 - v2) + (100 * v2 - r2 * max) - (100 * v1 - r1 * max);
      MulMonotone(1, r1 - r2, max);
      if v1 < v2 {
        MulMonotone(1, v2 - v1, 100);
      }
    }
  }
}
