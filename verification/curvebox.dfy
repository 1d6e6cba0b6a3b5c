/**
 Curve–box intersection: four curve–segment tests against the box's edges
 in the order bottom, right, top, left. Without an accumulator an endpoint
 of the curve inside the closed box already answers 1.
 */
module CurveBox {
  import opened Numeric
  import opened Wrappers
  import opened Polynomial
  import opened Geometry
  import opened Bezier
  import opened CurveLine

  /** The points reported against edge `i` of the box. */
  function EdgeHits(m: MathLib, c: Curve, b: Box, i: nat): seq<Point>
    requires i < 4
  {
    var e := Edges(b)[i];
    Hits(c, e, LineRoots(m, c, e))
  }

  /** All points reported against the box, edge by edge in visiting order. */
  function BoxHits(m: MathLib, c: Curve, b: Box): seq<Point>
  {
    EdgeHits(m, c, b, 0) + EdgeHits(m, c, b, 1) + EdgeHits(m, c, b, 2) + EdgeHits(m, c, b, 3)
  }

  /** The exists-mode answer: an endpoint in the closed box, or a hit on
      some edge. */
  predicate MeetsBox(m: MathLib, c: Curve, b: Box)
  {
    Contains(b, c.p1) || Contains(b, Last(c)) || |BoxHits(m, c, b)| > 0
  }

  /** Intersection of the quadratic curve `p1, p2, p3` with a box. With an
      accumulator the four edges' points are appended bottom, right, top,
      left and the answer is half the new length; without one, the answer
      is 1 when an endpoint lies in the box (no edge is tested then) or
      some edge is hit, and 0 otherwise. */
  method QuadBezierAABB(m: MathLib, p1: Point, p2: Point, p3: Point, b: Box, result: Option<seq<real>>)
    returns (count: real, out: Option<seq<real>>)
    requires WellFormed(b)
    ensures out.Some? == result.Some?
    ensures var c := Quad(p1, p2, p3);
            result.Some? ==>
              && out.value == result.value + Flatten(EdgeHits(m, c, b, 0)) + Flatten(EdgeHits(m, c, b, 1))
                                           + Flatten(EdgeHits(m, c, b, 2)) + Flatten(EdgeHits(m, c, b, 3))
              && count == Half(out.value)
    ensures result.None? && (Contains(b, p1) || Contains(b, p3)) ==> count == 1.0
    ensures result.None? ==> count == (if MeetsBox(m, Quad(p1, p2, p3), b) then 1.0 else 0.0)
  {
    var edges := Edges(b);
    if result.Some? {
      var acc := result;
      var n;
      n, acc := QuadBezierLine(m, p1, p2, p3, edges[0], acc);
      n, acc := QuadBezierLine(m, p1, p2, p3, edges[1], acc);
      n, acc := QuadBezierLine(m, p1, p2, p3, edges[2], acc);
      n, acc := QuadBezierLine(m, p1, p2, p3, edges[3], acc);
      return Half(acc.value), acc;
    }
    if Contains(b, p1) { return 1.0, None; }
    if Contains(b, p3) { return 1.0, None; }
    var hit, none := QuadBezierLine(m, p1, p2, p3, edges[0], None);
    if hit != 0.0 { return 1.0, None; }
    hit, none := QuadBezierLine(m, p1, p2, p3, edges[1], None);
    if hit != 0.0 { return 1.0, None; }
    hit, none := QuadBezierLine(m, p1, p2, p3, edges[2], None);
    if hit != 0.0 { return 1.0, None; }
    hit, none := QuadBezierLine(m, p1, p2, p3, edges[3], None);
    if hit != 0.0 { return 1.0, None; }
    return 0.0, None;
  }

  /** Intersection of the cubic curve `p1, p2, p3, p4` with a box, with the
      same two modes as the quadratic one. */
  method CubicBezierAABB(m: MathLib, p1: Point, p2: Point, p3: Point, p4: Point, b: Box, result: Option<seq<real>>)
    returns (count: real, out: Option<seq<real>>)
    requires WellFormed(b)
    ensures out.Some? == result.Some?
    ensures var c := Cubic(p1, p2, p3, p4);
            result.Some? ==>
              && out.value == result.value + Flatten(EdgeHits(m, c, b, 0)) + Flatten(EdgeHits(m, c, b, 1))
                                           + Flatten(EdgeHits(m, c, b, 2)) + Flatten(EdgeHits(m, c, b, 3))
              && count == Half(out.value)
    ensures result.None? && (Contains(b, p1) || Contains(b, p4)) ==> count == 1.0
    ensures result.None? ==> count == (if MeetsBox(m, Cubic(p1, p2, p3, p4), b) then 1.0 else 0.0)
  {
    var edges := Edges(b);
    if result.Some? {
      var acc := result;
      var n;
      n, acc := CubicBezierLine(m, p1, p2, p3, p4, edges[0], acc);
      n, acc := CubicBezierLine(m, p1, p2, p3, p4, edges[1], acc);
      n, acc := CubicBezierLine(m, p1, p2, p3, p4, edges[2], acc);
      n, acc := CubicBezierLine(m, p1, p2, p3, p4, edges[3], acc);
      return Half(acc.value), acc;
    }
    if Contains(b, p1) { return 1.0, None; }
    if Contains(b, p4) { return 1.0, None; }
    var hit, none := CubicBezierLine(m, p1, p2, p3, p4, edges[0], None);
    if hit != 0.0 { return 1.0, None; }
    hit, none := CubicBezierLine(m, p1, p2, p3, p4, edges[1], None);
    if hit != 0.0 { return 1.0, None; }
    hit, none := CubicBezierLine(m, p1, p2, p3, p4, edges[2], None);
    if hit != 0.0 { return 1.0, None; }
    hit, none := CubicBezierLine(m, p1, p2, p3, p4, edges[3], None);
    if hit != 0.0 { return 1.0, None; }
    return 0.0, None;
  }

  lemma FlattenFour(acc: seq<real>, h0: seq<Point>, h1: seq<Point>, h2: seq<Point>, h3: seq<Point>)
    ensures acc + Flatten(h0) + Flatten(h1) + Flatten(h2) + Flatten(h3) == acc + Flatten(h0 + h1 + h2 + h3)
  {
    FlattenAppend(h0, h1);
    FlattenAppend(h0 + h1, h2);
    FlattenAppend(h0 + h1 + h2, h3);
    AppendFour(acc, Flatten(h0), Flatten(h1), Flatten(h2), Flatten(h3),
               Flatten(h0 + h1), Flatten(h0 + h1 + h2), Flatten(h0 + h1 + h2 + h3));
  }

  /** Four appends in a row, regrouped through the running totals. */
  lemma AppendFour(acc: seq<real>, f0: seq<real>, f1: seq<real>, f2: seq<real>, f3: seq<real>,
                   g1: seq<real>, g2: seq<real>, g3: seq<real>)
    requires g1 == f0 + f1 && g2 == g1 + f2 && g3 == g2 + f3
    ensures acc + f0 + f1 + f2 + f3 == acc + g3
  {
  }

  /** Collect mode appends exactly the box's points, in edge order, so from
      an empty accumulator it answers their number. */
  lemma CollectAppendsBoxHits(m: MathLib, c: Curve, b: Box, acc: seq<real>)
    ensures acc + Flatten(EdgeHits(m, c, b, 0)) + Flatten(EdgeHits(m, c, b, 1))
                + Flatten(EdgeHits(m, c, b, 2)) + Flatten(EdgeHits(m, c, b, 3))
            == acc + Flatten(BoxHits(m, c, b))
    ensures Half(Flatten(BoxHits(m, c, b))) == |BoxHits(m, c, b)| as real
  {
    FlattenFour(acc, EdgeHits(m, c, b, 0), EdgeHits(m, c, b, 1), EdgeHits(m, c, b, 2), EdgeHits(m, c, b, 3));
  }

  /** The two modes differ exactly by the endpoint short-circuit: a curve
      collapsed to a point inside the box answers 1 without an accumulator
      but appends nothing with one. */
  lemma ModesDifferOnContainedPoint(m: MathLib, p: Point, b: Box)
    requires Contains(b, p)
    ensures MeetsBox(m, Quad(p, p, p), b) && BoxHits(m, Quad(p, p, p), b) == []
    ensures MeetsBox(m, Cubic(p, p, p, p), b) && BoxHits(m, Cubic(p, p, p, p), b) == []
  {
    forall e | e in Edges(b) {
      ConstantCurveNoRoots(m, p, e);
    }
  }

  /** Of a box with positive width and height, when `sqrt` is sound and each
      edge's solve is exact, every reported point lies on the box boundary. */
  lemma BoxHitsOnBoundary(m: MathLib, c: Curve, b: Box, p: Point)
    requires SqrtSound(m)
    requires b.xmin < b.xmax && b.ymin < b.ymax
    requires forall i :: 0 <= i < 4 ==> SolvedExactly(c, Edges(b)[i])
    requires p in BoxHits(m, c, b)
    ensures Contains(b, p)
    ensures p.x == b.xmin || p.x == b.xmax || p.y == b.ymin || p.y == b.ymax
  {
    var i: nat :| i < 4 && p in EdgeHits(m, c, b, i);
    EdgeHitsOnBoundary(m, c, b, i, p);
  }

  lemma EdgeHitsOnBoundary(m: MathLib, c: Curve, b: Box, i: nat, p: Point)
    requires SqrtSound(m)
    requires b.xmin < b.xmax && b.ymin < b.ymax
    requires i < 4 && SolvedExactly(c, Edges(b)[i])
    requires p in EdgeHits(m, c, b, i)
    ensures Contains(b, p)
    ensures p.x == b.xmin || p.x == b.xmax || p.y == b.ymin || p.y == b.ymax
  {
    var e := Edges(b)[i];
    HitsOnSegment(m, c, e, p);
    HitsMembership(c, e, LineRoots(m, c, e), p);
    EdgeHitOnBoundary(b, i, p);
  }
}
