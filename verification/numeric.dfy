/**
 Numeric helpers shared by both calculators.

 The calculator runs on JavaScript numbers; this model uses exact `real`
 arithmetic throughout and writes out the two places where the host
 turns a number into an integer: `Math.round` and the millisecond
 truncation that `new Date(ms)` applies to its argument.
 */
module Numeric {

  /** Minutes in an hour, the factor behind `hoursToFull * 60`. */
  const MinutesPerHour: real := 60.0

  /** Milliseconds in an hour, the factor `60 * 60 * 1000` of a Date offset. */
  const MillisPerHour: real := 3600000.0

  function Max(a: real, b: real): (r: real)
    ensures r >= a && r >= b
    ensures r == a || r == b
  {
    if a >= b then a else b
  }

  function Min(a: real, b: real): (r: real)
    ensures r <= a && r <= b
    ensures r == a || r == b
  {
    if a <= b then a else b
  }

  /** `Math.round`: the nearest integer, halves rounded towards +infinity. */
  function Round(x: real): (r: int)
    ensures x - 0.5 < r as real <= x + 0.5
  {
    (x + 0.5).Floor
  }

  /** Truncation towards zero, as a Date applies to a fractional time value. */
  function Trunc(x: real): (r: int)
    ensures 0.0 <= x ==> r as real <= x < r as real + 1.0
    ensures x < 0.0 ==> r as real - 1.0 < x <= r as real
  {
    if x >= 0.0 then x.Floor else -((-x).Floor)
  }

  lemma RoundMonotone(x: real, y: real)
    requires x <= y
    ensures Round(x) <= Round(y)
  {
  }

  /** Scaling both sides of an inequality by the same non-negative factor. */
  lemma ScaleMonotone(a: real, b: real, c: real)
    requires a <= b && 0.0 <= c
    ensures a * c <= b * c
    ensures a < b && 0.0 < c ==> a * c < b * c
  {
    assert b * c - a * c == (b - a) * c;
  }

  /** The quotient of two positive quantities is positive and undoes the division. */
  lemma QuotientOfPositives(x: real, d: real)
    requires 0.0 < x && 0.0 < d
    ensures 0.0 < x / d
    ensures (x / d) * d == x
  {
  }
}
