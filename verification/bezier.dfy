/**
 Quadratic and cubic Bézier curves: evaluation by repeated linear
 interpolation (de Casteljau), the Bernstein form as an independent
 reference, and the power-basis coefficients the intersectors project.
 */
module Bezier {
  import opened Geometry
  import opened Polynomial

  datatype Curve =
    | Quad(p1: Point, p2: Point, p3: Point)
    | Cubic(p1: Point, p2: Point, p3: Point, p4: Point)

  /** The curve's last control point, where it ends. */
  function Last(c: Curve): Point
  {
    match c
    case Quad(_, _, p3) => p3
    case Cubic(_, _, _, p4) => p4
  }

  /** The point at parameter `t`, by repeated lerp of the control points as
      the intersectors compute it. */
  function PointAt(c: Curve, t: real): Point
  {
    match c
    case Quad(p1, p2, p3) =>
      var p4 := LerpPoint(p1, p2, t);
      var p5 := LerpPoint(p2, p3, t);
      LerpPoint(p4, p5, t)
    case Cubic(p1, p2, p3, p4) =>
      var p5 := LerpPoint(p1, p2, t);
      var p6 := LerpPoint(p2, p3, t);
      var p7 := LerpPoint(p3, p4, t);
      var p8 := LerpPoint(p5, p6, t);
      var p9 := LerpPoint(p6, p7, t);
      LerpPoint(p8, p9, t)
  }

  function QuadBernstein(a: real, b: real, c: real, t: real): real
  {
    (1.0 - t) * (1.0 - t) * a + 2.0 * t * (1.0 - t) * b + t * t * c
  }

  function CubicBernstein(a: real, b: real, c: real, d: real, t: real): real
  {
    (1.0 - t) * (1.0 - t) * (1.0 - t) * a + 3.0 * t * (1.0 - t) * (1.0 - t) * b
      + 3.0 * t * t * (1.0 - t) * c + t * t * t * d
  }

  /** The curve by its defining Bernstein blend of the control points. */
  function Bernstein(c: Curve, t: real): Point
  {
    match c
    case Quad(p1, p2, p3) =>
      Point(QuadBernstein(p1.x, p2.x, p3.x, t), QuadBernstein(p1.y, p2.y, p3.y, t))
    case Cubic(p1, p2, p3, p4) =>
      Point(CubicBernstein(p1.x, p2.x, p3.x, p4.x, t), CubicBernstein(p1.y, p2.y, p3.y, p4.y, t))
  }

  /** The vector coefficients of the curve in the power basis, highest
      degree first: `c2, c1, c0` for a quadratic and `c3, c2, c1, c0` for a
      cubic, each a fixed combination of the control points. */
  function PowerCoefficients(c: Curve): (C: seq<Point>)
    ensures |C| == (if c.Quad? then 3 else 4)
    ensures C[|C| - 1] == c.p1
  {
    match c
    case Quad(p1, p2, p3) =>
      [Point(p1.x + p2.x * -2.0 + p3.x, p1.y + p2.y * -2.0 + p3.y),
       Point(p1.x * -2.0 + p2.x * 2.0, p1.y * -2.0 + p2.y * 2.0),
       p1]
    case Cubic(p1, p2, p3, p4) =>
      [Point(p1.x * -1.0 + p2.x * 3.0 + p3.x * -3.0 + p4.x, p1.y * -1.0 + p2.y * 3.0 + p3.y * -3.0 + p4.y),
       Point(p1.x * 3.0 + p2.x * -6.0 + p3.x * 3.0, p1.y * 3.0 + p2.y * -6.0 + p3.y * 3.0),
       Point(p1.x * -3.0 + p2.x * 3.0, p1.y * -3.0 + p2.y * 3.0),
       p1]
  }

  function Xs(C: seq<Point>): (r: seq<real>)
    ensures |r| == |C| && forall i :: 0 <= i < |C| ==> r[i] == C[i].x
  {
    seq(|C|, i requires 0 <= i < |C| => C[i].x)
  }

  function Ys(C: seq<Point>): (r: seq<real>)
    ensures |r| == |C| && forall i :: 0 <= i < |C| ==> r[i] == C[i].y
  {
    seq(|C|, i requires 0 <= i < |C| => C[i].y)
  }

  /** A vector polynomial evaluated coordinate by coordinate. */
  function EvalPoint(C: seq<Point>, t: real): Point
  {
    Point(Eval(Xs(C), t), Eval(Ys(C), t))
  }

  lemma QuadLerpScalar(a: real, b: real, c: real, t: real)
    ensures Lerp(Lerp(a, b, t), Lerp(b, c, t), t) == (a + b * -2.0 + c) * (t * t) + (a * -2.0 + b * 2.0) * t + a
    ensures Eval([a + b * -2.0 + c, a * -2.0 + b * 2.0, a], t) == Lerp(Lerp(a, b, t), Lerp(b, c, t), t)
    ensures Lerp(Lerp(a, b, t), Lerp(b, c, t), t) == QuadBernstein(a, b, c, t)
  {
    EvalQuadratic(a + b * -2.0 + c, a * -2.0 + b * 2.0, a, t);
  }

  /** `(x + y t + z t^2) t == x t + y t^2 + z t^3`. */
  lemma ShiftDegree(x: real, y: real, z: real, t: real)
    ensures (x + y * t + z * (t * t)) * t == x * t + y * (t * t) + z * (t * t * t)
  {
  }

  /** The quadratic lerp in the power basis. */
  lemma QuadLerpPower(a: real, b: real, c: real, t: real)
    ensures Lerp(Lerp(a, b, t), Lerp(b, c, t), t) == (a + b * -2.0 + c) * (t * t) + (a * -2.0 + b * 2.0) * t + a
  {
  }

  /** One more lerp of two quadratic lerps, multiplied out. */
  lemma CubicLerpPower(a: real, b: real, c: real, d: real, t: real)
    ensures Lerp(Lerp(Lerp(a, b, t), Lerp(b, c, t), t), Lerp(Lerp(b, c, t), Lerp(c, d, t), t), t)
            == (a * -1.0 + b * 3.0 + c * -3.0 + d) * (t * t * t) + (a * 3.0 + b * -6.0 + c * 3.0) * (t * t)
               + (a * -3.0 + b * 3.0) * t + a
  {
    QuadLerpPower(a, b, c, t);
    QuadLerpPower(b, c, d, t);
    CubicOfQuadLerps(a, b, c, d, t, Lerp(Lerp(a, b, t), Lerp(b, c, t), t), Lerp(Lerp(b, c, t), Lerp(c, d, t), t));
  }

  /** The same, with the two quadratic lerps already in power form. */
  lemma CubicOfQuadLerps(a: real, b: real, c: real, d: real, t: real, p8: real, p9: real)
    requires p8 == (a + b * -2.0 + c) * (t * t) + (a * -2.0 + b * 2.0) * t + a
    requires p9 == (b + c * -2.0 + d) * (t * t) + (b * -2.0 + c * 2.0) * t + b
    ensures Lerp(p8, p9, t)
            == (a * -1.0 + b * 3.0 + c * -3.0 + d) * (t * t * t) + (a * 3.0 + b * -6.0 + c * 3.0) * (t * t)
               + (a * -3.0 + b * 3.0) * t + a
  {
    LerpOfQuadratics(a + b * -2.0 + c, a * -2.0 + b * 2.0, a,
                     b + c * -2.0 + d, b * -2.0 + c * 2.0, b,
                     a * -1.0 + b * 3.0 + c * -3.0 + d, a * 3.0 + b * -6.0 + c * 3.0, a * -3.0 + b * 3.0,
                     t, p8, p9);
  }

  /** Lerping from `A(t)` to `B(t)`, two quadratics, gives the cubic with
      coefficients `K3, K2, K1, A0`. */
  lemma LerpOfQuadratics(A2: real, A1: real, A0: real, B2: real, B1: real, B0: real,
                         K3: real, K2: real, K1: real, t: real, p8: real, p9: real)
    requires p8 == A2 * (t * t) + A1 * t + A0
    requires p9 == B2 * (t * t) + B1 * t + B0
    requires K3 == B2 - A2 && K2 == A2 + (B1 - A1) && K1 == A1 + (B0 - A0)
    ensures Lerp(p8, p9, t) == K3 * (t * t * t) + K2 * (t * t) + K1 * t + A0
  {
    var x, y, z := B0 - A0, B1 - A1, B2 - A2;
    assert B2 * (t * t) == A2 * (t * t) + z * (t * t);
    assert B1 * t == A1 * t + y * t;
    assert p9 - p8 == x + y * t + z * (t * t);
    assert (p9 - p8) * t == (x + y * t + z * (t * t)) * t;
    ShiftDegree(x, y, z, t);
    Collect(A2, A1, A0, x, y, z, t, t * t, t * t * t);
    assert K3 * (t * t * t) == z * (t * t * t);
    assert K2 * (t * t) == (A2 + y) * (t * t);
    assert K1 * t == (A1 + x) * t;
  }

  lemma CubicLerpScalar(a: real, b: real, c: real, d: real, t: real)
    ensures Eval([a * -1.0 + b * 3.0 + c * -3.0 + d, a * 3.0 + b * -6.0 + c * 3.0, a * -3.0 + b * 3.0, a], t)
            == Lerp(Lerp(Lerp(a, b, t), Lerp(b, c, t), t), Lerp(Lerp(b, c, t), Lerp(c, d, t), t), t)
    ensures Lerp(Lerp(Lerp(a, b, t), Lerp(b, c, t), t), Lerp(Lerp(b, c, t), Lerp(c, d, t), t), t)
            == CubicBernstein(a, b, c, d, t)
  {
    CubicLerpPower(a, b, c, d, t);
    EvalCubic(a * -1.0 + b * 3.0 + c * -3.0 + d, a * 3.0 + b * -6.0 + c * 3.0, a * -3.0 + b * 3.0, a, t);
    CubicBernsteinExpanded(a, b, c, d, t);
  }

  lemma Collect(A2: real, A1: real, A0: real, x: real, y: real, z: real, T1: real, T2: real, T3: real)
    ensures A2 * T2 + A1 * T1 + A0 + (x * T1 + y * T2 + z * T3) == z * T3 + (A2 + y) * T2 + (A1 + x) * T1 + A0
  {
    assert (A2 + y) * T2 == A2 * T2 + y * T2;
    assert (A1 + x) * T1 == A1 * T1 + x * T1;
  }

  /** The cubic Bernstein blend multiplied out. */
  lemma CubicBernsteinExpanded(a: real, b: real, c: real, d: real, t: real)
    ensures CubicBernstein(a, b, c, d, t)
            == (a * -1.0 + b * 3.0 + c * -3.0 + d) * (t * t * t) + (a * 3.0 + b * -6.0 + c * 3.0) * (t * t)
               + (a * -3.0 + b * 3.0) * t + a
  {
    var u := 1.0 - t;
    assert u * u == 1.0 - 2.0 * t + t * t;
    assert u * u * u == 1.0 - 3.0 * t + 3.0 * (t * t) - t * t * t;
    assert t * u * u == t - 2.0 * (t * t) + t * t * t;
    assert t * t * u == t * t - t * t * t;
  }

  /** The power-basis coefficients describe the same curve as the lerp
      evaluation, at every parameter and in both coordinates. */
  lemma PowerBasisMatchesDeCasteljau(c: Curve, t: real)
    ensures EvalPoint(PowerCoefficients(c), t) == PointAt(c, t)
  {
    var C := PowerCoefficients(c);
    match c
    case Quad(p1, p2, p3) =>
      assert Xs(C) == [p1.x + p2.x * -2.0 + p3.x, p1.x * -2.0 + p2.x * 2.0, p1.x];
      assert Ys(C) == [p1.y + p2.y * -2.0 + p3.y, p1.y * -2.0 + p2.y * 2.0, p1.y];
      QuadLerpScalar(p1.x, p2.x, p3.x, t);
      QuadLerpScalar(p1.y, p2.y, p3.y, t);
    case Cubic(p1, p2, p3, p4) =>
      assert Xs(C) == [p1.x * -1.0 + p2.x * 3.0 + p3.x * -3.0 + p4.x, p1.x * 3.0 + p2.x * -6.0 + p3.x * 3.0,
                       p1.x * -3.0 + p2.x * 3.0, p1.x];
      assert Ys(C) == [p1.y * -1.0 + p2.y * 3.0 + p3.y * -3.0 + p4.y, p1.y * 3.0 + p2.y * -6.0 + p3.y * 3.0,
                       p1.y * -3.0 + p2.y * 3.0, p1.y];
      CubicLerpScalar(p1.x, p2.x, p3.x, p4.x, t);
      CubicLerpScalar(p1.y, p2.y, p3.y, p4.y, t);
  }

  /** The lerp evaluation is the Bernstein blend. */
  lemma DeCasteljauMatchesBernstein(c: Curve, t: real)
    ensures PointAt(c, t) == Bernstein(c, t)
  {
    match c
    case Quad(p1, p2, p3) =>
      QuadLerpScalar(p1.x, p2.x, p3.x, t);
      QuadLerpScalar(p1.y, p2.y, p3.y, t);
    case Cubic(p1, p2, p3, p4) =>
      CubicLerpScalar(p1.x, p2.x, p3.x, p4.x, t);
      CubicLerpScalar(p1.y, p2.y, p3.y, p4.y, t);
  }

  /** The curve starts at its first control point and ends at its last. */
  lemma PointAtEnds(c: Curve)
    ensures PointAt(c, 0.0) == c.p1
    ensures PointAt(c, 1.0) == Last(c)
  {
  }
}
