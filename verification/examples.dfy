/**
 The library's own test cases, recomputed over exact reals: the curves and
 targets of test/test.js, with the values exact arithmetic gives where the
 tests list rounded floating-point ones.

 Each case goes in small steps — the segment's normal form, the projected
 polynomial, the solver's roots, the reported points — joined by the glue
 lemmas below, so that no single proof has to evaluate the whole pipeline
 on concrete numbers at once. The step lemmas take the curve, segment or
 box as a parameter pinned to its constant by `requires`, so that each
 stage's conclusion is stated over the same terms as the next stage's
 premise. The lemmas that state a line test's outcome name the constants;
 the box test's method keeps the parameter form, for the reason given there.
 */
module Examples {
  import opened Numeric
  import opened Wrappers
  import opened Polynomial
  import opened Geometry
  import opened Bezier
  import opened CurveLine
  import opened CurveBox

  /** The quadratic arch `(0,0), (150,100), (300,0)` of the box test. */
  const Arch: Curve := Quad(Point(0.0, 0.0), Point(150.0, 100.0), Point(300.0, 0.0))

  /** The box `(100, 0, 200, 100)` of the box test. */
  const Frame: Box := Box(100.0, 0.0, 200.0, 100.0)

  /** The cubic hump `(0,0), (100,100), (200,100), (300,0)` of the line tests. */
  const Hump: Curve := Cubic(Point(0.0, 0.0), Point(100.0, 100.0), Point(200.0, 100.0), Point(300.0, 0.0))

  /** The vertical target `(100,0)-(100,100)` of the first line test. */
  const Upright: Segment := Segment(Point(100.0, 0.0), Point(100.0, 100.0))

  /** The diagonal target `(100,0)-(200,100)` of the second line test. */
  const Diagonal: Segment := Segment(Point(100.0, 0.0), Point(200.0, 100.0))

  // ---------------------------------------------------------------------
  // Glue: one pipeline stage at a time
  // ---------------------------------------------------------------------

  lemma PolynomialOf(c: Curve, s: Segment, l: Line, P: seq<real>)
    requires NormalForm(s) == l && Project(PowerCoefficients(c), l) == P
    ensures CurveLinePolynomial(c, s) == P
  {
  }

  // ---------------------------------------------------------------------
  // The two curves
  // ---------------------------------------------------------------------

  lemma ArchProjected(c: Curve, l: Line)
    requires c == Arch
    ensures Project(PowerCoefficients(c), l) == [-200.0 * l.ny, 300.0 * l.nx + 200.0 * l.ny, l.cl]
  {
    assert PowerCoefficients(c) == [Point(0.0, -200.0), Point(300.0, 200.0), Point(0.0, 0.0)];
    ProjectThree(Point(0.0, -200.0), Point(300.0, 200.0), Point(0.0, 0.0), l);
  }

  lemma HumpProjected(c: Curve, l: Line)
    requires c == Hump
    ensures Project(PowerCoefficients(c), l) == [0.0, -300.0 * l.ny, 300.0 * l.nx + 300.0 * l.ny, l.cl]
  {
    assert PowerCoefficients(c) == [Point(0.0, 0.0), Point(0.0, -300.0), Point(300.0, 300.0), Point(0.0, 0.0)];
    ProjectFour(Point(0.0, 0.0), Point(0.0, -300.0), Point(300.0, 300.0), Point(0.0, 0.0), l);
  }

  /** Along the arch, `x` grows linearly and `y` is a parabola. */
  lemma ArchPoint(c: Curve, t: real)
    requires c == Arch
    ensures PointAt(c, t) == Point(300.0 * t, 200.0 * t - 200.0 * (t * t))
  {
  }

  /** Along the hump, `x` grows linearly and `y` is a parabola too: the
      cubic terms cancel. */
  lemma HumpPoint(c: Curve, t: real)
    requires c == Hump
    ensures PointAt(c, t) == Point(300.0 * t, 300.0 * t - 300.0 * (t * t))
  {
  }

  lemma FrameEdges(b: Box)
    requires b == Frame
    ensures Edges(b)[0] == Segment(Point(100.0, 0.0), Point(200.0, 0.0))
    ensures Edges(b)[1] == Segment(Point(200.0, 0.0), Point(200.0, 100.0))
    ensures Edges(b)[2] == Segment(Point(100.0, 100.0), Point(200.0, 100.0))
    ensures Edges(b)[3] == Segment(Point(100.0, 0.0), Point(100.0, 100.0))
  {
  }

  // ---------------------------------------------------------------------
  // quadBezierAABB: the arch against the frame, edge by edge
  // ---------------------------------------------------------------------

  /** The bottom edge lies on the arch's chord: the solver finds the two
      endpoints `t = 1` and `t = 0`, and both fall outside the edge. */
  lemma BottomNormal(s: Segment)
    requires s == Segment(Point(100.0, 0.0), Point(200.0, 0.0))
    ensures NormalForm(s) == Line(0.0, 100.0, 0.0)
  {
  }

  lemma BottomProjected(c: Curve, l: Line)
    requires c == Arch && l == Line(0.0, 100.0, 0.0)
    ensures Project(PowerCoefficients(c), l) == [-20000.0, 20000.0, 0.0]
  {
    ArchProjected(c, l);
  }

  lemma BottomSolve(m: MathLib, P: seq<real>)
    requires m.sqrt(1.0) == 1.0
    requires P == [-20000.0, 20000.0, 0.0]
    ensures GetPolynomialRoots(m, P) == [1.0, 0.0]
  {
    DispatchFullDegree(m, P);
  }

  lemma BottomPolynomial(c: Curve, s: Segment)
    requires c == Arch && s == Segment(Point(100.0, 0.0), Point(200.0, 0.0))
    ensures CurveLinePolynomial(c, s) == [-20000.0, 20000.0, 0.0]
  {
    var l := Line(0.0, 100.0, 0.0);
    BottomNormal(s);
    BottomProjected(c, l);
    PolynomialOf(c, s, l, [-20000.0, 20000.0, 0.0]);
  }

  lemma BottomRoots(m: MathLib, c: Curve, s: Segment)
    requires m.sqrt(1.0) == 1.0
    requires c == Arch && s == Segment(Point(100.0, 0.0), Point(200.0, 0.0))
    ensures LineRoots(m, c, s) == [1.0, 0.0]
  {
    BottomPolynomial(c, s);
    BottomSolve(m, [-20000.0, 20000.0, 0.0]);
  }

  lemma BottomHits(c: Curve, s: Segment)
    requires c == Arch && s == Segment(Point(100.0, 0.0), Point(200.0, 0.0))
    ensures Hits(c, s, [1.0, 0.0]) == []
  {
    HitsOfTwo(c, s, 1.0, 0.0);
    HitsOfOne(c, s, 1.0);
    ArchPoint(c, 1.0);
    ArchPoint(c, 0.0);
  }

  lemma ArchBottom(m: MathLib, c: Curve, b: Box)
    requires m.sqrt(1.0) == 1.0
    requires c == Arch && b == Frame
    ensures EdgeHits(m, c, b, 0) == []
  {
    FrameEdges(b);
    var s := Edges(b)[0];
    BottomRoots(m, c, s);
    BottomHits(c, s);
  }

  /** The right edge is crossed once, at `t = 2/3`. */
  lemma RightNormal(s: Segment)
    requires s == Segment(Point(200.0, 0.0), Point(200.0, 100.0))
    ensures NormalForm(s) == Line(-100.0, 0.0, 20000.0)
  {
  }

  lemma RightProjected(c: Curve, l: Line)
    requires c == Arch && l == Line(-100.0, 0.0, 20000.0)
    ensures Project(PowerCoefficients(c), l) == [0.0, -30000.0, 20000.0]
  {
    ArchProjected(c, l);
  }

  lemma RightPolynomial(c: Curve, s: Segment)
    requires c == Arch && s == Segment(Point(200.0, 0.0), Point(200.0, 100.0))
    ensures CurveLinePolynomial(c, s) == [0.0, -30000.0, 20000.0]
  {
    var l := Line(-100.0, 0.0, 20000.0);
    RightNormal(s);
    RightProjected(c, l);
    PolynomialOf(c, s, l, [0.0, -30000.0, 20000.0]);
  }

  lemma RightSolve(m: MathLib, P: seq<real>)
    requires P == [0.0, -30000.0, 20000.0]
    ensures GetPolynomialRoots(m, P) == [2.0 / 3.0]
  {
    DispatchOneTrimmed(m, P);
  }

  lemma RightRoots(m: MathLib, c: Curve, s: Segment)
    requires c == Arch && s == Segment(Point(200.0, 0.0), Point(200.0, 100.0))
    ensures LineRoots(m, c, s) == [2.0 / 3.0]
  {
    RightPolynomial(c, s);
    RightSolve(m, [0.0, -30000.0, 20000.0]);
  }

  lemma RightHits(c: Curve, s: Segment)
    requires c == Arch && s == Segment(Point(200.0, 0.0), Point(200.0, 100.0))
    ensures Hits(c, s, [2.0 / 3.0]) == [Point(200.0, 400.0 / 9.0)]
  {
    HitsOfOne(c, s, 2.0 / 3.0);
    ArchPoint(c, 2.0 / 3.0);
  }

  lemma ArchRight(m: MathLib, c: Curve, b: Box)
    requires c == Arch && b == Frame
    ensures EdgeHits(m, c, b, 1) == [Point(200.0, 400.0 / 9.0)]
  {
    FrameEdges(b);
    var s := Edges(b)[1];
    RightRoots(m, c, s);
    RightHits(c, s);
  }

  /** The top edge is never reached: the discriminant is negative. */
  lemma TopNormal(s: Segment)
    requires s == Segment(Point(100.0, 100.0), Point(200.0, 100.0))
    ensures NormalForm(s) == Line(0.0, 100.0, -10000.0)
  {
  }

  lemma TopProjected(c: Curve, l: Line)
    requires c == Arch && l == Line(0.0, 100.0, -10000.0)
    ensures Project(PowerCoefficients(c), l) == [-20000.0, 20000.0, -10000.0]
  {
    ArchProjected(c, l);
  }

  lemma TopPolynomial(c: Curve, s: Segment)
    requires c == Arch && s == Segment(Point(100.0, 100.0), Point(200.0, 100.0))
    ensures CurveLinePolynomial(c, s) == [-20000.0, 20000.0, -10000.0]
  {
    var l := Line(0.0, 100.0, -10000.0);
    TopNormal(s);
    TopProjected(c, l);
    PolynomialOf(c, s, l, [-20000.0, 20000.0, -10000.0]);
  }

  lemma TopSolve(m: MathLib, P: seq<real>)
    requires P == [-20000.0, 20000.0, -10000.0]
    ensures GetPolynomialRoots(m, P) == []
  {
    DispatchFullDegree(m, P);
  }

  lemma TopRoots(m: MathLib, c: Curve, s: Segment)
    requires c == Arch && s == Segment(Point(100.0, 100.0), Point(200.0, 100.0))
    ensures LineRoots(m, c, s) == []
  {
    TopPolynomial(c, s);
    TopSolve(m, [-20000.0, 20000.0, -10000.0]);
  }

  lemma ArchTop(m: MathLib, c: Curve, b: Box)
    requires c == Arch && b == Frame
    ensures EdgeHits(m, c, b, 2) == []
  {
    FrameEdges(b);
    var s := Edges(b)[2];
    TopRoots(m, c, s);
  }

  /** The left edge is crossed once, at `t = 1/3`. */
  lemma LeftNormal(s: Segment)
    requires s == Segment(Point(100.0, 0.0), Point(100.0, 100.0))
    ensures NormalForm(s) == Line(-100.0, 0.0, 10000.0)
  {
  }

  lemma LeftProjected(c: Curve, l: Line)
    requires c == Arch && l == Line(-100.0, 0.0, 10000.0)
    ensures Project(PowerCoefficients(c), l) == [0.0, -30000.0, 10000.0]
  {
    ArchProjected(c, l);
  }

  lemma LeftPolynomial(c: Curve, s: Segment)
    requires c == Arch && s == Segment(Point(100.0, 0.0), Point(100.0, 100.0))
    ensures CurveLinePolynomial(c, s) == [0.0, -30000.0, 10000.0]
  {
    var l := Line(-100.0, 0.0, 10000.0);
    LeftNormal(s);
    LeftProjected(c, l);
    PolynomialOf(c, s, l, [0.0, -30000.0, 10000.0]);
  }

  lemma LeftSolve(m: MathLib, P: seq<real>)
    requires P == [0.0, -30000.0, 10000.0]
    ensures GetPolynomialRoots(m, P) == [1.0 / 3.0]
  {
    DispatchOneTrimmed(m, P);
  }

  lemma LeftRoots(m: MathLib, c: Curve, s: Segment)
    requires c == Arch && s == Segment(Point(100.0, 0.0), Point(100.0, 100.0))
    ensures LineRoots(m, c, s) == [1.0 / 3.0]
  {
    LeftPolynomial(c, s);
    LeftSolve(m, [0.0, -30000.0, 10000.0]);
  }

  lemma LeftHits(c: Curve, s: Segment)
    requires c == Arch && s == Segment(Point(100.0, 0.0), Point(100.0, 100.0))
    ensures Hits(c, s, [1.0 / 3.0]) == [Point(100.0, 400.0 / 9.0)]
  {
    HitsOfOne(c, s, 1.0 / 3.0);
    ArchPoint(c, 1.0 / 3.0);
  }

  lemma ArchLeft(m: MathLib, c: Curve, b: Box)
    requires c == Arch && b == Frame
    ensures EdgeHits(m, c, b, 3) == [Point(100.0, 400.0 / 9.0)]
  {
    FrameEdges(b);
    var s := Edges(b)[3];
    LeftRoots(m, c, s);
    LeftHits(c, s);
  }

  lemma Collected(acc: seq<real>, count: real, out: Option<seq<real>>,
                  h0: seq<Point>, h1: seq<Point>, h2: seq<Point>, h3: seq<Point>)
    requires out.Some? && count == Half(out.value)
    requires out.value == acc + Flatten(h0) + Flatten(h1) + Flatten(h2) + Flatten(h3)
    requires acc == [] && h0 == [] && h1 == [Point(200.0, 400.0 / 9.0)] && h2 == [] && h3 == [Point(100.0, 400.0 / 9.0)]
    ensures out == Some([200.0, 400.0 / 9.0, 100.0, 400.0 / 9.0]) && count == 2.0
  {
    assert Flatten(h0) == [] && Flatten(h2) == [];
    assert Flatten(h1) == [200.0, 400.0 / 9.0];
    assert Flatten(h3) == [100.0, 400.0 / 9.0];
    assert out.value == [200.0, 400.0 / 9.0] + [100.0, 400.0 / 9.0];
    assert [200.0, 400.0 / 9.0] + [100.0, 400.0 / 9.0] == [200.0, 400.0 / 9.0, 100.0, 400.0 / 9.0];
  }

  lemma FrameCollect(m: MathLib, p1: Point, p2: Point, p3: Point, b: Box, count: real, out: Option<seq<real>>)
    requires out.Some? && count == Half(out.value)
    requires var c := Quad(p1, p2, p3);
             out.value == [] + Flatten(EdgeHits(m, c, b, 0)) + Flatten(EdgeHits(m, c, b, 1))
                             + Flatten(EdgeHits(m, c, b, 2)) + Flatten(EdgeHits(m, c, b, 3))
    requires var c := Quad(p1, p2, p3);
             && EdgeHits(m, c, b, 0) == [] && EdgeHits(m, c, b, 1) == [Point(200.0, 400.0 / 9.0)]
             && EdgeHits(m, c, b, 2) == [] && EdgeHits(m, c, b, 3) == [Point(100.0, 400.0 / 9.0)]
    ensures out == Some([200.0, 400.0 / 9.0, 100.0, 400.0 / 9.0]) && count == 2.0
  {
    var c := Quad(p1, p2, p3);
    Collected([], count, out, EdgeHits(m, c, b, 0), EdgeHits(m, c, b, 1), EdgeHits(m, c, b, 2), EdgeHits(m, c, b, 3));
  }

  /** The box test: collecting into an empty accumulator reports the right
      crossing and then the left one, and answers 2. The curve and the box
      are parameters pinned by `requires` rather than the constants
      themselves: a call on the constants' literal points would let the
      verifier unfold the intersector on concrete numbers without bound,
      which the staged lemmas exist to avoid. */
  method ArchCrossesFrameTwice(m: MathLib, c: Curve, b: Box) returns (count: real, out: Option<seq<real>>)
    requires m.sqrt(1.0) == 1.0
    requires c == Arch && b == Frame
    ensures out == Some([200.0, 400.0 / 9.0, 100.0, 400.0 / 9.0])
    ensures count == 2.0
  {
    count, out := QuadBezierAABB(m, c.p1, c.p2, c.p3, b, Some([]));
    assert Quad(c.p1, c.p2, c.p3) == c;
    ArchBottom(m, c, b);
    ArchRight(m, c, b);
    ArchTop(m, c, b);
    ArchLeft(m, c, b);
    FrameCollect(m, c.p1, c.p2, c.p3, b, count, out);
  }

  // ---------------------------------------------------------------------
  // cubicBezierLine: the hump against the two targets
  // ---------------------------------------------------------------------

  /** Collect mode with an empty accumulator and a single reported point. */
  lemma OneHitCollected(hits: seq<Point>, p: Point, count: real, out: Option<seq<real>>)
    requires Reported(hits, Some([]), count, out) && hits == [p]
    ensures out == Some([p.x, p.y]) && count == 1.0
  {
    assert Flatten([p]) == [p.x, p.y];
  }

  /** Against the vertical target the cubic and quadratic terms vanish and
      the linear solve gives `t = 1/3`. */
  lemma UprightNormal(s: Segment)
    requires s == Upright
    ensures NormalForm(s) == Line(-100.0, 0.0, 10000.0)
  {
  }

  lemma UprightProjected(c: Curve, l: Line)
    requires c == Hump && l == Line(-100.0, 0.0, 10000.0)
    ensures Project(PowerCoefficients(c), l) == [0.0, 0.0, -30000.0, 10000.0]
  {
    HumpProjected(c, l);
  }

  lemma UprightPolynomial(c: Curve, s: Segment)
    requires c == Hump && s == Upright
    ensures CurveLinePolynomial(c, s) == [0.0, 0.0, -30000.0, 10000.0]
  {
    var l := Line(-100.0, 0.0, 10000.0);
    UprightNormal(s);
    UprightProjected(c, l);
    PolynomialOf(c, s, l, [0.0, 0.0, -30000.0, 10000.0]);
  }

  lemma UprightSolve(m: MathLib, P: seq<real>)
    requires P == [0.0, 0.0, -30000.0, 10000.0]
    ensures GetPolynomialRoots(m, P) == [1.0 / 3.0]
  {
    DispatchTwoTrimmedOfFour(m, P);
  }

  lemma UprightRoots(m: MathLib, c: Curve, s: Segment)
    requires c == Hump && s == Upright
    ensures LineRoots(m, c, s) == [1.0 / 3.0]
  {
    UprightPolynomial(c, s);
    UprightSolve(m, [0.0, 0.0, -30000.0, 10000.0]);
  }

  lemma UprightHits(c: Curve, s: Segment)
    requires c == Hump && s == Upright
    ensures Hits(c, s, [1.0 / 3.0]) == [Point(100.0, 200.0 / 3.0)]
  {
    HitsOfOne(c, s, 1.0 / 3.0);
    HumpPoint(c, 1.0 / 3.0);
  }

  lemma UprightReported(m: MathLib)
    ensures Hits(Hump, Upright, LineRoots(m, Hump, Upright)) == [Point(100.0, 200.0 / 3.0)]
  {
    UprightRoots(m, Hump, Upright);
    UprightHits(Hump, Upright);
  }

  /** Against the diagonal target the cubic term vanishes and the quadratic
      solve gives `t = ±sqrt(4/3)/2`, that is `t * t == 1/3`. */
  lemma DiagonalNormal(s: Segment)
    requires s == Diagonal
    ensures NormalForm(s) == Line(-100.0, 100.0, 10000.0)
  {
  }

  lemma DiagonalProjected(c: Curve, l: Line)
    requires c == Hump && l == Line(-100.0, 100.0, 10000.0)
    ensures Project(PowerCoefficients(c), l) == [0.0, -30000.0, 0.0, 10000.0]
  {
    HumpProjected(c, l);
  }

  lemma DiagonalPolynomial(c: Curve, s: Segment)
    requires c == Hump && s == Diagonal
    ensures CurveLinePolynomial(c, s) == [0.0, -30000.0, 0.0, 10000.0]
  {
    var l := Line(-100.0, 100.0, 10000.0);
    DiagonalNormal(s);
    DiagonalProjected(c, l);
    PolynomialOf(c, s, l, [0.0, -30000.0, 0.0, 10000.0]);
  }

  lemma DiagonalSolve(m: MathLib, P: seq<real>)
    requires P == [0.0, -30000.0, 0.0, 10000.0]
    ensures var e := m.sqrt(4.0 / 3.0); GetPolynomialRoots(m, P) == [0.5 * e, -0.5 * e]
  {
    DispatchOneTrimmed(m, P);
  }

  lemma DiagonalRoots(m: MathLib, c: Curve, s: Segment)
    requires c == Hump && s == Diagonal
    ensures var e := m.sqrt(4.0 / 3.0); LineRoots(m, c, s) == [0.5 * e, -0.5 * e]
  {
    DiagonalPolynomial(c, s);
    DiagonalSolve(m, [0.0, -30000.0, 0.0, 10000.0]);
  }

  /** The positive root `1/sqrt(3)` lies between `1/3` and `2/3`. */
  lemma ThirdRootBounds(t: real)
    requires 0.0 <= t && t * t == 1.0 / 3.0
    ensures 1.0 / 3.0 <= t <= 2.0 / 3.0
  {
    SquareRootMonotone(1.0 / 3.0, t);
    SquareRootMonotone(t, 2.0 / 3.0);
  }

  lemma DiagonalAccepts(c: Curve, s: Segment, t: real)
    requires c == Hump && s == Diagonal
    requires 0.0 <= t && t * t == 1.0 / 3.0
    ensures Accepts(c, s, t)
    ensures PointAt(c, t) == Point(300.0 * t, 300.0 * t - 100.0)
  {
    ThirdRootBounds(t);
    HumpPoint(c, t);
  }

  /** With a sound `sqrt`, the solver's positive root against the diagonal
      is `1/sqrt(3)`. */
  lemma DiagonalRootValue(m: MathLib)
    requires SqrtSound(m)
    ensures var t := 0.5 * m.sqrt(4.0 / 3.0); 0.0 < t && t * t == 1.0 / 3.0
  {
    var e := m.sqrt(4.0 / 3.0);
    assert 0.0 <= e && e * e == 4.0 / 3.0;
    assert (0.5 * e) * (0.5 * e) == 0.25 * (e * e);
  }

  /** The diagonal-line test: of the two roots the solver returns, the
      negative one is discarded and the positive one, `t = 1/sqrt(3)` for a
      sound `sqrt` (`DiagonalRootValue`), is reported at
      `(300 t, 300 t - 100)`, that is `(100 sqrt(3), 100 sqrt(3) - 100)`. */
  lemma DiagonalHitsOf(c: Curve, s: Segment, t: real, u: real)
    requires c == Hump && s == Diagonal
    requires 0.0 <= t && t * t == 1.0 / 3.0 && u < 0.0
    ensures Hits(c, s, [t, u]) == [Point(300.0 * t, 300.0 * t - 100.0)]
  {
    DiagonalAccepts(c, s, t);
    HitsOfTwo(c, s, t, u);
    HitsOfOne(c, s, t);
  }

  /** `DiagonalHitsOf` applied to the two values the solver returns. */
  lemma DiagonalSolvedHits(m: MathLib)
    requires SqrtSound(m)
    ensures var e := m.sqrt(4.0 / 3.0);
            Hits(Hump, Diagonal, [0.5 * e, -0.5 * e]) == [Point(300.0 * (0.5 * e), 300.0 * (0.5 * e) - 100.0)]
  {
    DiagonalRootValue(m);
    DiagonalHitsOf(Hump, Diagonal, 0.5 * m.sqrt(4.0 / 3.0), -0.5 * m.sqrt(4.0 / 3.0));
  }

  /** The diagonal-line test end to end: with a sound `sqrt`, the scan over
      the solver's own roots reports exactly one point, at `t = 1/sqrt(3)`. */
  lemma DiagonalReported(m: MathLib)
    requires SqrtSound(m)
    ensures var t := 0.5 * m.sqrt(4.0 / 3.0);
            0.0 < t && t * t == 1.0 / 3.0
            && Hits(Hump, Diagonal, LineRoots(m, Hump, Diagonal)) == [Point(300.0 * t, 300.0 * t - 100.0)]
  {
    DiagonalRoots(m, Hump, Diagonal);
    DiagonalRootValue(m);
    DiagonalSolvedHits(m);
  }
}
