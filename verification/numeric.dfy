/**
 Numeric ground rules shared by the solver and the intersectors: the two
 tolerances of the library, absolute value, min/max, and the transcendental
 functions, which the model takes as parameters rather than defining.
 */
module Numeric {

  /** Leading coefficients at most this large in absolute value are dropped
      before the solver picks a degree. */
  const TOLERANCE: real := 0.000000000001

  /** A cubic discriminant at most this large in absolute value counts as zero. */
  const POLYNOMIAL_TOLERANCE: real := 0.000001

  function Abs(x: real): (r: real)
    ensures 0.0 <= r
    ensures r == x || r == -x
  {
    if x < 0.0 then -x else x
  }

  function Min(a: real, b: real): (r: real)
    ensures r <= a && r <= b
    ensures r == a || r == b
  {
    if a <= b then a else b
  }

  function Max(a: real, b: real): (r: real)
    ensures a <= r && b <= r
    ensures r == a || r == b
  {
    if a <= b then b else a
  }

  /** The platform's math functions, left uninterpreted: `sqrt` is
      `Math.sqrt`, `cbrt` is `Math.pow(_, 1/3)` (only ever applied to
      non-negative values), and `atan2`, `cos`, `sin` are the usual ones. */
  datatype MathLib = MathLib(
    sqrt: real -> real,
    cbrt: real -> real,
    atan2: (real, real) -> real,
    cos: real -> real,
    sin: real -> real)

  /** The one fact about the math functions the proofs rely on: `sqrt`
      returns the non-negative square root of a non-negative argument. */
  ghost predicate SqrtSound(m: MathLib) {
    forall d: real :: 0.0 <= d ==> 0.0 <= m.sqrt(d) && m.sqrt(d) * m.sqrt(d) == d
  }

  /** Squaring is strictly increasing on the non-negative reals. */
  lemma SquareStrictlyIncreasing(a: real, b: real)
    requires 0.0 <= a < b
    ensures a * a < b * b
  {
    calc {
      a * a;
    <= a * b;
    <  b * b;
    }
  }

  /** Non-negative numbers are ordered as their squares are. */
  lemma SquareRootMonotone(a: real, b: real)
    requires 0.0 <= a && 0.0 <= b && a * a <= b * b
    ensures a <= b
  {
    if b < a {
      SquareStrictlyIncreasing(b, a);
    }
  }
}
