/**
 Curve–segment intersection: the curve's power-basis coefficients are
 projected onto the segment's line normal, the resulting scalar polynomial
 is solved, roots in `[0,1]` are evaluated by repeated lerp, and points
 that pass the segment's extent check are reported — appended as `x, y` to
 an accumulator when one is given, or as a 1 on the first hit otherwise.
 */
module CurveLine {
  import opened Numeric
  import opened Wrappers
  import opened Polynomial
  import opened Geometry
  import opened Bezier

  /** Each vector coefficient dotted with the line's normal, and the line's
      constant added to the constant term. */
  function Project(C: seq<Point>, l: Line): (P: seq<real>)
    requires |C| > 0
    ensures |P| == |C|
  {
    seq(|C|, i requires 0 <= i < |C| => l.nx * C[i].x + l.ny * C[i].y + (if i == |C| - 1 then l.cl else 0.0))
  }

  lemma ProjectThree(a: Point, b: Point, c: Point, l: Line)
    ensures Project([a, b, c], l) == [l.nx * a.x + l.ny * a.y, l.nx * b.x + l.ny * b.y, l.nx * c.x + l.ny * c.y + l.cl]
  {
    var P := Project([a, b, c], l);
    assert P[0] == l.nx * a.x + l.ny * a.y;
    assert P[1] == l.nx * b.x + l.ny * b.y;
    assert P[2] == l.nx * c.x + l.ny * c.y + l.cl;
  }

  lemma ProjectFour(a: Point, b: Point, c: Point, d: Point, l: Line)
    ensures Project([a, b, c, d], l)
            == [l.nx * a.x + l.ny * a.y, l.nx * b.x + l.ny * b.y, l.nx * c.x + l.ny * c.y, l.nx * d.x + l.ny * d.y + l.cl]
  {
    var P := Project([a, b, c, d], l);
    assert P[0] == l.nx * a.x + l.ny * a.y;
    assert P[1] == l.nx * b.x + l.ny * b.y;
    assert P[2] == l.nx * c.x + l.ny * c.y;
    assert P[3] == l.nx * d.x + l.ny * d.y + l.cl;
  }

  /** The line's normal form applied coefficient by coefficient to the
      coordinate lists `X` and `Y`, with `cl` added to the constant term
      only. */
  function Combine(X: seq<real>, Y: seq<real>, l: Line): (P: seq<real>)
    requires |X| == |Y| > 0
    ensures |P| == |X|
  {
    seq(|X|, i requires 0 <= i < |X| => l.nx * X[i] + l.ny * Y[i] + (if i == |X| - 1 then l.cl else 0.0))
  }

  lemma CombineTail(X: seq<real>, Y: seq<real>, l: Line)
    requires |X| == |Y| > 1
    ensures Combine(X, Y, l)[1..] == Combine(X[1..], Y[1..], l)
  {
    var P, Q := Combine(X, Y, l), Combine(X[1..], Y[1..], l);
    forall i | 0 <= i < |X| - 1
      ensures P[1..][i] == Q[i]
    {
      assert X[1..][i] == X[i + 1] && Y[1..][i] == Y[i + 1];
    }
  }

  /** The arithmetic of one `EvalCombine` step, over plain values: from
      the power forms of the three leading terms, the combined value is the
      normal form at the point. It is a predicate that always holds rather
      than a lemma: a lemma's arguments reach its `requires` through fresh
      variables, so the products there would have to be matched factor by
      factor, while a function's preconditions are checked on the caller's
      own terms, which keeps the inductive step of `EvalCombine` cheap. */
  ghost predicate CombineStep(l: Line, EP: real, EX: real, EY: real, p: real, x: real, y: real,
                              T: real, TX: real, TY: real, e: real, ex: real, ey: real)
    requires EP == p * T + e && EX == x * TX + ex && EY == y * TY + ey && TX == T && TY == T
    requires p == l.nx * x + l.ny * y && e == LineValue(l, Point(ex, ey))
    ensures CombineStep(l, EP, EX, EY, p, x, y, T, TX, TY, e, ex, ey) <==> EP == LineValue(l, Point(EX, EY))
  {
    assert (l.nx * x + l.ny * y) * T == l.nx * (x * T) + l.ny * (y * T);
    true
  }

  /** Evaluation is linear: the combined polynomial's value is the line's
      normal form at the point whose coordinates are the values of `X` and
      `Y`. */
  lemma {:induction false} EvalCombine(X: seq<real>, Y: seq<real>, l: Line, t: real)
    requires |X| == |Y| > 0
    ensures Eval(Combine(X, Y, l), t) == LineValue(l, Point(Eval(X, t), Eval(Y, t)))
    decreases |X|
  {
    var P := Combine(X, Y, l);
    if |X| == 1 {
      assert P[1..] == [] && X[1..] == [] && Y[1..] == [];
      assert Pow(t, 0) == 1.0;
    } else {
      EvalCombine(X[1..], Y[1..], l, t);
      CombineTail(X, Y, l);
      assert CombineStep(l, Eval(P, t), Eval(X, t), Eval(Y, t), P[0], X[0], Y[0],
                        Pow(t, |P| - 1), Pow(t, |X| - 1), Pow(t, |Y| - 1),
                        Eval(P[1..], t), Eval(X[1..], t), Eval(Y[1..], t));
    }
  }

  lemma ProjectIsCombine(C: seq<Point>, l: Line)
    requires |C| > 0
    ensures Project(C, l) == Combine(Xs(C), Ys(C), l)
  {
    var P, Q, X, Y := Project(C, l), Combine(Xs(C), Ys(C), l), Xs(C), Ys(C);
    forall i | 0 <= i < |C|
      ensures P[i] == Q[i]
    {
      assert X[i] == C[i].x && Y[i] == C[i].y;
    }
  }

  /** The projected polynomial is the line's normal form evaluated along
      the vector polynomial. */
  lemma ProjectEval(C: seq<Point>, l: Line, t: real)
    requires |C| > 0
    ensures Eval(Project(C, l), t) == LineValue(l, EvalPoint(C, t))
  {
    ProjectIsCombine(C, l);
    EvalCombine(Xs(C), Ys(C), l, t);
  }

  /** The scalar polynomial, highest degree first, whose roots are the
      parameters where the curve meets the segment's infinite line. */
  function CurveLinePolynomial(c: Curve, s: Segment): (P: seq<real>)
    ensures |P| == (if c.Quad? then 3 else 4)
  {
    Project(PowerCoefficients(c), NormalForm(s))
  }

  /** The constant term of the projection is the line form at the constant
      vector coefficient, and the line's constant `cl` enters nowhere else:
      against the same normal through the origin, every other coefficient
      is unchanged and the constant term differs by exactly `cl`. */
  lemma ProjectConstantTerm(C: seq<Point>, l: Line)
    requires |C| > 0
    ensures Project(C, l)[|C| - 1] == LineValue(l, C[|C| - 1])
    ensures var Z := Project(C, Line(l.nx, l.ny, 0.0));
            Project(C, l)[..|C| - 1] == Z[..|C| - 1] && Project(C, l)[|C| - 1] == Z[|C| - 1] + l.cl
  {
  }

  /** At `t = 0` the polynomial handed to the solver is the line form at the
      curve's start point, and so is its constant term. */
  lemma CurveLinePolynomialAtStart(c: Curve, s: Segment)
    ensures var P := CurveLinePolynomial(c, s);
            P[|P| - 1] == LineValue(NormalForm(s), c.p1) && Eval(P, 0.0) == LineValue(NormalForm(s), c.p1)
  {
    ProjectConstantTerm(PowerCoefficients(c), NormalForm(s));
    CurveLinePolynomialValue(c, s, 0.0);
  }

  /** The curve meets the segment's line exactly where the projected
      polynomial vanishes. */
  lemma CurveLinePolynomialValue(c: Curve, s: Segment, t: real)
    ensures Eval(CurveLinePolynomial(c, s), t) == LineValue(NormalForm(s), PointAt(c, t))
  {
    ProjectEval(PowerCoefficients(c), NormalForm(s), t);
    PowerBasisMatchesDeCasteljau(c, t);
  }

  /** Candidate parameters: the solver's roots of the projected polynomial. */
  function LineRoots(m: MathLib, c: Curve, s: Segment): seq<real>
  {
    GetPolynomialRoots(m, CurveLinePolynomial(c, s))
  }

  /** A parameter is reported when it lies in the curve's domain `[0,1]`
      and its point passes the segment's extent check. */
  predicate Accepts(c: Curve, s: Segment, t: real)
  {
    0.0 <= t && t <= 1.0 && WithinExtent(s, PointAt(c, t))
  }

  /** The points reported for `roots`, in root order. */
  function Hits(c: Curve, s: Segment, roots: seq<real>): (hits: seq<Point>)
    ensures |hits| <= |roots|
  {
    if |roots| == 0 then []
    else
      var t := roots[|roots| - 1];
      Hits(c, s, roots[..|roots| - 1]) + (if Accepts(c, s, t) then [PointAt(c, t)] else [])
  }

  lemma HitsOfOne(c: Curve, s: Segment, t: real)
    ensures Hits(c, s, [t]) == if Accepts(c, s, t) then [PointAt(c, t)] else []
  {
    assert [t][..0] == [];
  }

  lemma HitsOfTwo(c: Curve, s: Segment, t1: real, t2: real)
    ensures Hits(c, s, [t1, t2]) == Hits(c, s, [t1]) + (if Accepts(c, s, t2) then [PointAt(c, t2)] else [])
  {
    assert [t1, t2][..1] == [t1];
  }

  /** A point is reported exactly when some root in `[0,1]` evaluates to it
      and passes the extent check: roots outside the curve's domain, or
      whose point falls outside the segment's extent, never produce one. */
  lemma {:induction false} HitsMembership(c: Curve, s: Segment, roots: seq<real>, p: Point)
    ensures p in Hits(c, s, roots) <==> exists t :: t in roots && Accepts(c, s, t) && p == PointAt(c, t)
    decreases |roots|
  {
    if |roots| > 0 {
      var init := roots[..|roots| - 1];
      var last := roots[|roots| - 1];
      HitsMembership(c, s, init, p);
      assert roots == init + [last];
      if p in Hits(c, s, roots) && p !in Hits(c, s, init) {
        assert Accepts(c, s, last) && p == PointAt(c, last);
      }
      if exists t :: t in roots && Accepts(c, s, t) && p == PointAt(c, t) {
        var t :| t in roots && Accepts(c, s, t) && p == PointAt(c, t);
        if t !in init {
          assert t == last;
        }
      }
    }
  }

  /** One more root adds its point when it is accepted, and nothing otherwise. */
  lemma HitsStep(c: Curve, s: Segment, roots: seq<real>, i: nat)
    requires i < |roots|
    ensures Accepts(c, s, roots[i]) ==> Hits(c, s, roots[..i + 1]) == Hits(c, s, roots[..i]) + [PointAt(c, roots[i])]
    ensures !Accepts(c, s, roots[i]) ==> Hits(c, s, roots[..i + 1]) == Hits(c, s, roots[..i])
  {
    assert roots[..i + 1][..i] == roots[..i];
  }

  /** Scanning fewer roots reports a prefix of the points. */
  lemma {:induction false} HitsPrefix(c: Curve, s: Segment, roots: seq<real>, i: nat)
    requires i <= |roots|
    ensures |Hits(c, s, roots[..i])| <= |Hits(c, s, roots)|
    ensures Hits(c, s, roots[..i]) == Hits(c, s, roots)[..|Hits(c, s, roots[..i])|]
    decreases |roots|
  {
    if i < |roots| {
      assert roots[..|roots| - 1][..i] == roots[..i];
      HitsPrefix(c, s, roots[..|roots| - 1], i);
    } else {
      assert roots[..i] == roots;
    }
  }

  /** The accumulator's wire format: `x, y` of each point in turn. */
  function Flatten(ps: seq<Point>): (r: seq<real>)
    ensures |r| == 2 * |ps|
  {
    if |ps| == 0 then [] else Flatten(ps[..|ps| - 1]) + [ps[|ps| - 1].x, ps[|ps| - 1].y]
  }

  /** Point `i` sits at positions `2i` and `2i+1`. */
  lemma {:induction false} FlattenIndex(ps: seq<Point>, i: nat)
    requires i < |ps|
    ensures Flatten(ps)[2 * i] == ps[i].x && Flatten(ps)[2 * i + 1] == ps[i].y
    decreases |ps|
  {
    if i < |ps| - 1 {
      FlattenIndex(ps[..|ps| - 1], i);
    }
  }

  lemma FlattenSnoc(ps: seq<Point>, p: Point)
    ensures Flatten(ps + [p]) == Flatten(ps) + [p.x, p.y]
  {
    assert (ps + [p])[..|ps|] == ps;
  }

  lemma {:induction false} FlattenAppend(a: seq<Point>, b: seq<Point>)
    ensures Flatten(a + b) == Flatten(a) + Flatten(b)
    decreases |b|
  {
    if |b| > 0 {
      assert (a + b)[..|a + b| - 1] == a + b[..|b| - 1];
      FlattenAppend(a, b[..|b| - 1]);
    } else {
      assert a + b == a;
    }
  }

  /** `result.length / 2`, a JavaScript division. */
  function Half(acc: seq<real>): real
  {
    |acc| as real / 2.0
  }

  /** How an intersector reports `hits`: without an accumulator it answers
      1 if there is any and 0 otherwise; with one, it appends every hit as
      `x, y` after what the accumulator held and answers half the new
      length. */
  predicate Reported(hits: seq<Point>, result: Option<seq<real>>, count: real, out: Option<seq<real>>)
  {
    && out.Some? == result.Some?
    && (result.None? ==> count == (if |hits| > 0 then 1.0 else 0.0))
    && (result.Some? ==> out.value == result.value + Flatten(hits) && count == Half(out.value))
  }

  /** One root of the scan with an accumulator: the accumulator grows by
      the root's point exactly when the root is accepted. */
  lemma CollectStep(c: Curve, s: Segment, roots: seq<real>, i: nat, base: seq<real>, prev: seq<real>)
    requires i < |roots|
    requires prev == base + Flatten(Hits(c, s, roots[..i]))
    ensures var t, p := roots[i], PointAt(c, roots[i]);
            base + Flatten(Hits(c, s, roots[..i + 1])) == if Accepts(c, s, t) then prev + [p.x, p.y] else prev
  {
    HitsStep(c, s, roots, i);
    if Accepts(c, s, roots[i]) {
      FlattenSnoc(Hits(c, s, roots[..i]), PointAt(c, roots[i]));
    }
  }

  /** One root of the scan without an accumulator: while nothing has been
      accepted there is still nothing to report, and the first accepted
      root leaves a non-empty report for the whole list. */
  lemma FirstHitStep(c: Curve, s: Segment, roots: seq<real>, i: nat)
    requires i < |roots| && Hits(c, s, roots[..i]) == []
    ensures !Accepts(c, s, roots[i]) ==> Hits(c, s, roots[..i + 1]) == []
    ensures Accepts(c, s, roots[i]) ==> |Hits(c, s, roots)| > 0
  {
    HitsStep(c, s, roots, i);
    HitsPrefix(c, s, roots, i + 1);
  }

  /** The loop shared by both curve–segment intersectors, including the
      early return of 1 on the first hit when there is no accumulator. */
  method ScanRoots(c: Curve, s: Segment, roots: seq<real>, result: Option<seq<real>>)
    returns (count: real, out: Option<seq<real>>)
    ensures Reported(Hits(c, s, roots), result, count, out)
  {
    var acc := result;
    for i := 0 to |roots|
      invariant acc.Some? == result.Some?
      invariant result.Some? ==> acc.value == result.value + Flatten(Hits(c, s, roots[..i]))
      invariant result.None? ==> Hits(c, s, roots[..i]) == []
    {
      var t := roots[i];
      if acc.Some? {
        CollectStep(c, s, roots, i, result.value, acc.value);
      } else {
        FirstHitStep(c, s, roots, i);
      }
      if 0.0 <= t && t <= 1.0 {
        var p := PointAt(c, t);
        if WithinExtent(s, p) {
          if acc.Some? {
            acc := Some(acc.value + [p.x, p.y]);
          } else {
            return 1.0, None;
          }
        }
      }
    }
    assert roots[..|roots|] == roots;
    count := if acc.Some? then Half(acc.value) else 0.0;
    out := acc;
  }


  /** Intersection of the quadratic curve `p1, p2, p3` with a segment. */
  method QuadBezierLine(m: MathLib, p1: Point, p2: Point, p3: Point, seg: Segment, result: Option<seq<real>>)
    returns (count: real, out: Option<seq<real>>)
    ensures Reported(Hits(Quad(p1, p2, p3), seg, LineRoots(m, Quad(p1, p2, p3), seg)), result, count, out)
  {
    var curve := Quad(p1, p2, p3);
    count, out := ScanRoots(curve, seg, LineRoots(m, curve, seg), result);
  }

  /** Intersection of the cubic curve `p1, p2, p3, p4` with a segment. */
  method CubicBezierLine(m: MathLib, p1: Point, p2: Point, p3: Point, p4: Point, seg: Segment,
                         result: Option<seq<real>>)
    returns (count: real, out: Option<seq<real>>)
    ensures Reported(Hits(Cubic(p1, p2, p3, p4), seg, LineRoots(m, Cubic(p1, p2, p3, p4), seg)), result, count, out)
  {
    var curve := Cubic(p1, p2, p3, p4);
    count, out := ScanRoots(curve, seg, LineRoots(m, curve, seg), result);
  }

  /** Collect mode only appends: the accumulator's old contents are kept as
      a prefix, two values are added per reported point, and the answer is
      half the new length. Exists mode answers 1 exactly when collect mode
      starting from an empty accumulator would answer at least 1. */
  lemma ReportedModes(hits: seq<Point>, acc: seq<real>, c1: real, o1: Option<seq<real>>,
                      c2: real, o2: Option<seq<real>>, c3: real, o3: Option<seq<real>>)
    requires Reported(hits, Some(acc), c1, o1)
    requires Reported(hits, None, c2, o2)
    requires Reported(hits, Some([]), c3, o3)
    ensures o1.value[..|acc|] == acc && |o1.value| == |acc| + 2 * |hits|
    ensures c1 == (|acc| + 2 * |hits|) as real / 2.0
    ensures c3 == |hits| as real
    ensures c2 == 1.0 <==> c3 >= 1.0
    ensures c2 == 0.0 <==> c3 == 0.0
  {
    assert o3.value == Flatten(hits);
  }

  /** Projecting onto the negated normal form negates every coefficient. */
  lemma ProjectNegated(C: seq<Point>, l: Line)
    requires |C| > 0
    ensures Project(C, Line(-l.nx, -l.ny, -l.cl)) == Negate(Project(C, l))
  {
    var P, R := Project(C, l), Project(C, Line(-l.nx, -l.ny, -l.cl));
    forall i | 0 <= i < |C|
      ensures R[i] == -P[i]
    {
      assert -l.nx * C[i].x == -(l.nx * C[i].x);
      assert -l.ny * C[i].y == -(l.ny * C[i].y);
    }
  }

  /** Swapping the segment's endpoints negates the projected polynomial. */
  lemma CurveLinePolynomialReversed(c: Curve, s: Segment)
    ensures CurveLinePolynomial(c, s.Reversed()) == Negate(CurveLinePolynomial(c, s))
  {
    NormalFormReversed(s);
    ProjectNegated(PowerCoefficients(c), NormalForm(s));
  }

  /** Whatever the solver makes of them, the polynomials for a segment and
      for its reverse vanish at exactly the same parameters. */
  lemma ReversedPolynomialSameZeros(c: Curve, s: Segment, t: real)
    ensures Eval(CurveLinePolynomial(c, s.Reversed()), t) == -Eval(CurveLinePolynomial(c, s), t)
    ensures Eval(CurveLinePolynomial(c, s.Reversed()), t) == 0.0 <==> Eval(CurveLinePolynomial(c, s), t) == 0.0
  {
    CurveLinePolynomialReversed(c, s);
    EvalNegate(CurveLinePolynomial(c, s), t);
  }

  lemma {:induction false} HitsReversed(c: Curve, s: Segment, roots: seq<real>)
    ensures Hits(c, s.Reversed(), roots) == Hits(c, s, roots)
    decreases |roots|
  {
    if |roots| > 0 {
      HitsReversed(c, s, roots[..|roots| - 1]);
      WithinExtentReversed(s, PointAt(c, roots[|roots| - 1]));
    }
  }

  /** A segment and its reverse give the same roots and the same reported
      points, in the same order. */
  lemma ReversedSegmentSameHits(m: MathLib, c: Curve, s: Segment)
    ensures LineRoots(m, c, s.Reversed()) == LineRoots(m, c, s)
    ensures Hits(c, s.Reversed(), LineRoots(m, c, s.Reversed())) == Hits(c, s, LineRoots(m, c, s))
  {
    CurveLinePolynomialReversed(c, s);
    GetPolynomialRootsNegate(m, CurveLinePolynomial(c, s));
    HitsReversed(c, s, LineRoots(m, c, s));
  }

  /** A polynomial whose leading coefficients are zero has no roots: two
      zeros of three leave degree 0, and three zeros of four reach the linear
      solver with a zero slope, which it refuses. */
  lemma NoRootsAfterLeadingZeros(m: MathLib, P: seq<real>)
    requires |P| == 3 || |P| == 4
    requires P[0] == 0.0 && P[1] == 0.0
    requires |P| == 4 ==> P[2] == 0.0
    ensures GetPolynomialRoots(m, P) == []
  {
    assert Negligible(P[0]) && Negligible(P[1]);
    assert TrimFrom(P, 2, |P| - 3) == |P| - 3;
  }

  /** A segment collapsed to a point has the zero line form, so nothing is
      reported against it. */
  lemma PointSegmentNoRoots(m: MathLib, c: Curve, s: Segment)
    requires s.a1 == s.a2
    ensures LineRoots(m, c, s) == []
  {
    var P := CurveLinePolynomial(c, s);
    assert forall i :: 0 <= i < |P| ==> P[i] == 0.0;
    NoRootsAfterLeadingZeros(m, P);
  }

  /** A curve whose control points all coincide reports nothing against any
      segment, even one through its point. */
  lemma ConstantCurveNoRoots(m: MathLib, p: Point, s: Segment)
    ensures LineRoots(m, Quad(p, p, p), s) == []
    ensures LineRoots(m, Cubic(p, p, p, p), s) == []
  {
    var Q := CurveLinePolynomial(Quad(p, p, p), s);
    var C := CurveLinePolynomial(Cubic(p, p, p, p), s);
    assert Q[0] == 0.0 && Q[1] == 0.0;
    assert C[0] == 0.0 && C[1] == 0.0 && C[2] == 0.0;
    NoRootsAfterLeadingZeros(m, Q);
    NoRootsAfterLeadingZeros(m, C);
  }

  /** The solve for this curve and segment lands on degree 1 or 2 (always
      so for a quadratic curve) and trimming dropped only exact zeros, so
      the closed-form roots are exact roots of the projected polynomial. */
  predicate SolvedExactly(c: Curve, s: Segment)
  {
    var P := CurveLinePolynomial(c, s);
    Degree(P) <= 2 && forall j :: 0 <= j < TrimmedCount(P) ==> P[j] == 0.0
  }

  /** When `sqrt` is sound and the solve is exact, every reported point lies
      on the segment's line, and then, for a proper segment, in its bounding
      box: on the segment itself. */
  lemma HitsOnSegment(m: MathLib, c: Curve, s: Segment, p: Point)
    requires SqrtSound(m)
    requires SolvedExactly(c, s)
    requires p in Hits(c, s, LineRoots(m, c, s))
    ensures LineValue(NormalForm(s), p) == 0.0
    ensures s.a1 != s.a2 ==> InBoundingBox(s, p)
  {
    var P := CurveLinePolynomial(c, s);
    HitsMembership(c, s, LineRoots(m, c, s), p);
    var t :| t in LineRoots(m, c, s) && Accepts(c, s, t) && p == PointAt(c, t);
    DispatchedRootsSolve(m, P, t);
    EvalDropZeroPrefix(P, TrimmedCount(P), t);
    CurveLinePolynomialValue(c, s, t);
    if s.a1 != s.a2 {
      ExtentBranchesAgreeOnLine(s, p);
    }
  }
}
