# bezier-intersect, modelled in Dafny

A model of the core of `bezier-intersect`. The library intersects quadratic and cubic Bézier curves with line segments and with axis-aligned boxes.

The modelled core has three parts:

- **Root solver.** `getPolynomialRoots` drops leading coefficients whose absolute value is within `1e-12`. It then dispatches to a closed-form solver: linear, quadratic, or cubic (Cardano or trigonometric).
- **Curve–segment intersectors** (`quadBezierLine`, `cubicBezierLine`):
  - write the curve in the power basis;
  - project it onto the normal form of the segment's line;
  - solve the resulting scalar polynomial;
  - evaluate every root in `[0, 1]` by repeated lerp (de Casteljau);
  - keep the points that pass the segment's extent check. That check tests the y range for a vertical segment, the x range for a horizontal one, and the bounding box otherwise.
- **Curve–box intersectors** (`quadBezierAABB`, `cubicBezierAABB`): run the segment test against the four edges in the order bottom, right, top, left.

Both kinds of intersector have two modes:

- **Collect mode** (an accumulator is supplied): they append `x, y` for each point found and answer half the accumulator's new length.
- **Exists mode** (no accumulator): they answer 1 on the first hit and 0 otherwise. The box variant answers 1 straight away when either endpoint of the curve lies inside the closed box.

Modelling choices:

- JavaScript numbers are modelled as exact reals.
- `Math.sqrt`, `Math.pow(_, 1/3)`, `Math.atan2`, `Math.cos` and `Math.sin` are fields of a `MathLib` value passed to every operation that calls a math function. No definition is given for them.
- The lemmas assume at most `SqrtSound`: `sqrt` returns the non-negative square root of a non-negative argument. A few worked examples (`BottomSolve`, `BottomRoots`, `ArchBottom`, `ArchCrossesFrameTwice`) assume only `sqrt(1) = 1`, which `SqrtSound` implies.
- The optional `result` array becomes `Option<seq<real>>`. Any array, even an empty one, is truthy in JavaScript, so `Some([])` is collect mode.

A note on the source's trimming loop, which the model follows and proves: a cubic call with three negligible leading coefficients does not reach degree 0. The loop bound `i <= degree` shrinks as `degree` drops, so the loop stops at degree 1 and the linear solver runs (`TrimmingFloor`, `TrimmedCountIsCappedPrefix`).

Modules:

| module | file | contents |
|---|---|---|
| `Wrappers` | wrappers.dfy | `Option` |
| `Numeric` | numeric.dfy | the two tolerances, `Abs`/`Min`/`Max`, `MathLib` |
| `Polynomial` | polynomial.dfy | evaluation, trimming, the three solvers and the dispatcher |
| `Geometry` | geometry.dfy | points, segments and their normal form, extent check, boxes and their edges |
| `Bezier` | bezier.dfy | curves, lerp evaluation, Bernstein form, power-basis coefficients |
| `CurveLine` | curveline.dfy | the projected polynomial, the root scan, both curve–segment intersectors |
| `CurveBox` | curvebox.dfy | both curve–box intersectors |
| `Examples` | examples.dfy | the library's own test cases, recomputed over exact reals |

## Model

| member | source | states |
|---|---|---|
| Polynomial.Snap | dist/bezier-intersect.js:72 | A cubic discriminant within `1e-6` of zero becomes exactly zero; any other discriminant is kept, and it is then non-zero. |
| Polynomial.EvalNegate | dist/bezier-intersect.js:10-27 | Negating every coefficient negates the value of the polynomial everywhere. |
| Polynomial.TrimFrom | dist/bezier-intersect.js:15-17 | The trimming loop only skips negligible coefficients. When it stops with index still at most the degree, the coefficient there is not negligible. The degree never rises. |
| Polynomial.TrimmedCount | dist/bezier-intersect.js:12-17 | The loop drops `k` leading coefficients, all negligible, and the dispatched degree is `n - k`. If the loop bound did not end it, the next coefficient is not negligible. |
| Polynomial.LeadingNegligibleBound | dist/bezier-intersect.js:15-17 | The first `k` coefficients are all negligible exactly when `k` is at most the length of the negligible prefix. |
| Polynomial.TrimmedCountIsCappedPrefix | dist/bezier-intersect.js:15-17 | The loop drops the whole negligible prefix, capped at `floor(n/2) + 1` coefficients, because its bound `i <= degree` shrinks as `degree` drops. |
| Polynomial.TrimmingFloor | dist/bezier-intersect.js:15-24 | A four-coefficient call never reaches degree 0. A three-coefficient call never goes below degree 0, and reaches degree 0 if and only if its first two coefficients are negligible. |
| Polynomial.LinearRoots | dist/bezier-intersect.js:29-34 | A zero slope gives no root. Otherwise exactly one value is given, and it solves `C1 t + C0 = 0`. |
| Polynomial.LinearRootsExact | dist/bezier-intersect.js:29-34 | A value is reported if and only if the slope is non-zero and the value solves the equation. |
| Polynomial.QuadraticRoots | dist/bezier-intersect.js:36-54 | The solver gives two, one or no values as the discriminant of the normalised quadratic is positive, zero or negative. |
| Polynomial.CompleteSquare | dist/bezier-intersect.js:39-42 | `x` solves `C2 x^2 + C1 x + C0 = 0` if and only if `(2x + C1/C2)^2` equals the discriminant. |
| Polynomial.QuadraticRootsExact | dist/bezier-intersect.js:36-54 | With a sound `sqrt`, a value is reported if and only if it is a real root of the quadratic. A double root is reported once. |
| Polynomial.DepressSubstitution | dist/bezier-intersect.js:60-68 | Substituting `s = t + offset`, with the solver's `offset = C2 / (3 C3)`, turns `C3 t^3 + C2 t^2 + C1 t + C0` into `C3 (s^3 + a s + b)` with the solver's `a` and `b`. So `t` is a root of the cubic exactly when `t + offset` is a root of the depressed cubic. |
| Polynomial.SolveDepressed | dist/bezier-intersect.js:65-103 | A depressed cubic gives one value for a positive snapped discriminant, three for a negative one, and two for zero. |
| Polynomial.CubicRoots | dist/bezier-intersect.js:57-106 | The cubic solver gives one, three or two values as the snapped discriminant is positive, negative or zero. It never gives more than three. A raw discriminant within the tolerance gives two. |
| Polynomial.CubicRootSum | dist/bezier-intersect.js:86-103 | Whatever the math functions return, three roots sum to `-C2/C3`. In the zero-discriminant branch the sum holds only when the second value is counted twice: it is the double root that is reported once. |
| Polynomial.GetPolynomialRoots | dist/bezier-intersect.js:10-27 | A trimmed degree below 1 gives no roots. Otherwise the number of roots is at most the trimmed degree. |
| Polynomial.DispatchFullDegree | dist/bezier-intersect.js:19-24 | A non-negligible leading coefficient sends three coefficients to the quadratic solver and four to the cubic solver. Each solver gets the trailing coefficients, lowest order first. |
| Polynomial.DispatchOneTrimmed | dist/bezier-intersect.js:15-24 | One negligible leading coefficient followed by a non-negligible one drops the solve by exactly one degree. |
| Polynomial.DispatchTwoTrimmedOfFour | dist/bezier-intersect.js:15-24 | Two negligible leading coefficients out of four leave a linear solve on the last two coefficients, whatever the third one is. |
| Polynomial.DispatchedRootsSolve | dist/bezier-intersect.js:10-54 | For a linear or quadratic dispatch with a sound `sqrt`, every reported value is a root of the trimmed polynomial. |
| Polynomial.TrimFromNegate | dist/bezier-intersect.js:15-17 | Trimming only looks at absolute values, so it treats a polynomial and its negation alike. |
| Polynomial.LinearRootsNegate | dist/bezier-intersect.js:29-34 | The linear solver is invariant under negating both coefficients. |
| Polynomial.QuadraticRootsNegate | dist/bezier-intersect.js:36-54 | The quadratic solver is invariant under negating all coefficients, order included. |
| Polynomial.CubicRootsNegate | dist/bezier-intersect.js:57-106 | The cubic solver is invariant under negating all coefficients, order included. |
| Polynomial.GetPolynomialRootsNegate | dist/bezier-intersect.js:10-27 | The dispatcher returns the same roots, in the same order, for a polynomial and its negation. |
| Geometry.NormalForm | dist/bezier-intersect.js:134-137 | The normal-form line passes through both endpoints. Its normal vanishes exactly for a segment collapsed to a point. |
| Geometry.NormalFormIsCross | dist/bezier-intersect.js:134-137 | The normal form at a point is the cross product of the segment direction with the offset of that point from the first endpoint. |
| Geometry.NormalFormReversed | dist/bezier-intersect.js:134-137 | Swapping the endpoints negates the normal and the constant. |
| Geometry.WithinExtentReversed | dist/bezier-intersect.js:116-119 | The extent check does not depend on the direction of the segment. |
| Geometry.ExtentBranchesAgreeOnLine | dist/bezier-intersect.js:166-185 | Over exact reals, for a point on the line of a proper segment, the vertical and horizontal special cases agree with the full bounding-box test. |
| Geometry.BoundingBoxPassesExtent | dist/bezier-intersect.js:166-185 | A point inside the segment's bounding box passes the extent check, in each of its three branches. Lines 307-320 repeat the same check for the cubic. |
| Geometry.ContainsIsDiagonalBox | dist/bezier-intersect.js:201-202 | For a well-formed box, the endpoint test holds exactly for points in the closed rectangle spanned by `(xmin, ymin)` and `(xmax, ymax)`. |
| Geometry.EdgesAreSides | dist/bezier-intersect.js:194-197 | The four edges are, in order, the bottom (`y = ymin`), right (`x = xmax`), top (`y = ymax`) and left (`x = xmin`) sides. For a well-formed box every edge endpoint lies in the closed box. |
| Geometry.EdgeHitOnBoundary | dist/bezier-intersect.js:192-197 | For a box of positive size, a point on an edge's line that passes that edge's check lies in the box and on its boundary. |
| Bezier.PowerCoefficients | dist/bezier-intersect.js:121-130 | The quadratic coefficients are `c2, c1, c0`, with `c0` the start point. |
| Bezier.PowerBasisMatchesDeCasteljau | dist/bezier-intersect.js:236-304 | The power-basis coefficients, evaluated at any `t`, give the same point as the lerp evaluation, for both curve kinds. |
| Bezier.DeCasteljauMatchesBernstein | dist/bezier-intersect.js:287-304 | The lerp evaluation equals the Bernstein blend of the control points. |
| Bezier.QuadLerpScalar | dist/bezier-intersect.js:156-164 | The three quadratic lerps equal both the power-basis polynomial and the Bernstein blend. |
| Bezier.CubicLerpScalar | dist/bezier-intersect.js:287-304 | The six cubic lerps equal both the power-basis polynomial and the Bernstein blend. |
| Bezier.PointAtEnds | dist/bezier-intersect.js:156-164 | The lerp evaluation gives the first control point at `t = 0` and the last at `t = 1`, for the quadratic and, as at lines 287-304, the cubic. |
| Bezier.CubicOfQuadLerps | dist/bezier-intersect.js:296-304 | The final lerp of the two quadratic lerps (`p8`, `p9`) is the cubic power-basis polynomial in the control points. |
| CurveLine.ProjectConstantTerm | dist/bezier-intersect.js:141-146 | The constant term is the normal form at the constant coefficient. The line's constant `cl` enters only there: against the same normal with `cl = 0`, every other coefficient is unchanged and the constant term is smaller by exactly `cl`. |
| CurveLine.EvalCombine | dist/bezier-intersect.js:141-146 | Evaluation is linear: applying the line's normal form coefficient by coefficient to two coordinate lists, with `cl` on the constant term only, gives a polynomial whose value at `t` is the normal form at the point `(X(t), Y(t))`, for any length. |
| CurveLine.ProjectEval | dist/bezier-intersect.js:141-146 | The projected polynomial's value at `t` is the line's normal form applied to the vector polynomial's value at `t`, for any number of coefficients. |
| CurveLine.CurveLinePolynomialValue | dist/bezier-intersect.js:270-276 | The polynomial handed to the solver vanishes at `t` exactly when the curve point at `t` is on the segment's line. |
| CurveLine.CurveLinePolynomialAtStart | dist/bezier-intersect.js:270-276 | The constant term handed to the solver, and the polynomial's value at `t = 0`, are the line's normal form at the curve's start point. |
| CurveLine.Hits | dist/bezier-intersect.js:151-187 | Each root yields at most one point, so there are never more points than roots. |
| CurveLine.HitsMembership | dist/bezier-intersect.js:151-187 | A point is reported if and only if some root in `[0,1]` evaluates to it and passes the extent check. |
| CurveLine.HitsPrefix | dist/bezier-intersect.js:151-187 | Scanning a prefix of the roots reports a prefix of the points. |
| CurveLine.FlattenIndex | dist/bezier-intersect.js:171 | Point `i` is appended at positions `2i` and `2i+1`. |
| CurveLine.FlattenAppend | dist/bezier-intersect.js:171 | Appending the points of two lists one after the other is appending their concatenation. |
| CurveLine.ScanRoots | dist/bezier-intersect.js:151-188 | In collect mode, exactly the accepted points are appended as `x, y`, in root order, after the old contents, and the answer is half the new length. In exists mode the answer is 1 if any point is accepted and 0 otherwise. |
| CurveLine.QuadBezierLine | dist/bezier-intersect.js:108-189 | The quadratic curve–segment intersector reports, in either mode, the accepted points of the roots of its projected polynomial. |
| CurveLine.CubicBezierLine | dist/bezier-intersect.js:211-324 | The cubic curve–segment intersector reports, in either mode, the accepted points of the roots of its projected polynomial. |
| CurveLine.ReportedModes | dist/bezier-intersect.js:188 | Collect mode keeps the old contents as a prefix and adds two numbers per point. Exists mode answers 1 exactly when collecting into an empty accumulator answers at least 1. |
| CurveLine.CurveLinePolynomialReversed | dist/bezier-intersect.js:134-146 | Reversing the segment negates the projected polynomial. |
| CurveLine.HitsReversed | dist/bezier-intersect.js:166-185 | The same roots give the same points against a segment and its reverse. |
| CurveLine.ReversedPolynomialSameZeros | dist/bezier-intersect.js:134-146 | The polynomials for a segment and its reverse are negatives of each other at every `t`, so they vanish at the same parameters. |
| CurveLine.ReversedSegmentSameHits | dist/bezier-intersect.js:108-189 | A segment and its reverse give the same roots and the same reported points, in the same order. |
| CurveLine.NoRootsAfterLeadingZeros | dist/bezier-intersect.js:15-34 | Zero leading coefficients leave no roots when they are two of three or three of four. A quadratic call drops to degree 0; a cubic call reaches the linear solver with a zero slope. |
| CurveLine.PointSegmentNoRoots | dist/bezier-intersect.js:134-146 | A segment collapsed to a point gives a zero polynomial, so no roots. |
| CurveLine.ConstantCurveNoRoots | dist/bezier-intersect.js:121-146 | A curve whose control points all coincide reports nothing against any segment, even one through its point. |
| CurveLine.HitsOnSegment | dist/bezier-intersect.js:141-185 | Assume a sound `sqrt` and a solve that lands on degree 1 or 2, where trimming dropped only exact zeros. Then every reported point lies on the segment's line, and, for a proper segment, inside the segment's bounding box. |
| CurveBox.QuadBezierAABB | dist/bezier-intersect.js:192-209 | Collect mode appends the four edges' points bottom, right, top, left and answers half the new length. Exists mode answers 1 when an endpoint is in the closed box or some edge is hit, and 0 otherwise. |
| CurveBox.CubicBezierAABB | dist/bezier-intersect.js:327-344 | The same two modes for a cubic curve, with the curve's fourth point as its end. |
| CurveBox.CollectAppendsBoxHits | dist/bezier-intersect.js:193-198 | The four appends together add the box's points in edge order. From an empty accumulator the answer is their number. |
| CurveBox.ModesDifferOnContainedPoint | dist/bezier-intersect.js:199-202 | A curve collapsed to a point inside the box answers 1 in exists mode but appends nothing in collect mode. |
| CurveBox.BoxHitsOnBoundary | dist/bezier-intersect.js:192-198 | For a box of positive size, a sound `sqrt` and exact edge solves, every reported point lies on the box boundary. |
| CurveBox.EdgeHitsOnBoundary | dist/bezier-intersect.js:192-198 | The same for the points of one edge. |
| Examples.ArchCrossesFrameTwice | test/test.js:23-27 | Collecting the arch `(0,0),(150,100),(300,0)` against the box `(100,0)-(200,100)` appends `200, 400/9, 100, 400/9` and answers 2. |
| Examples.UprightReported | test/test.js:9-13 | The cubic `(0,0),(100,100),(200,100),(300,0)` meets the vertical segment `x = 100` at exactly one point, `(100, 200/3)`. |
| Examples.DiagonalRoots | test/test.js:15-19 | Against the diagonal `(100,0)-(200,100)` the cubic term vanishes, and the quadratic solve gives `±sqrt(4/3)/2`. |
| Examples.DiagonalRootValue | test/test.js:15-19 | With a sound `sqrt` the positive root is `1/sqrt(3)`. |
| Examples.DiagonalHitsOf | test/test.js:15-19 | Of two roots, one with `t^2 = 1/3` and one negative, the negative one is discarded. The positive one is reported at `(300 t, 300 t - 100)`, which is `(100 sqrt(3), 100 sqrt(3) - 100)`. |
| Examples.DiagonalReported | test/test.js:15-19 | With a sound `sqrt`, the cubic meets the diagonal at exactly one reported point, at the solver's positive root `t` with `t^2 = 1/3`: `(300 t, 300 t - 100)`. |
| Examples.OneHitCollected | test/test.js:10-12 | A single reported point collected into an empty accumulator gives `[x, y]` and the answer 1. |

`src/quadratic.js` (lines 3-104) holds the same `quadBezierLine` and `quadBezierAABB` as lines 108-209 of the bundle. They differ only in braces and comments, so the rows above cite the bundle.

## Left out

- **Numbers.** IEEE-754 doubles, rounding, NaN and the infinities are not modelled. Numbers are exact reals, and division by zero cannot happen on any modelled path. The tests' float literals (`99.99999999999997`, `44.44444444444445`, …) are therefore replaced by the exact values.
- **Math functions.** `Math.sqrt`, `Math.pow(_, 1/3)`, `Math.atan2`, `Math.cos` and `Math.sin` are parameters without definitions. As a result:
  - no lemma claims that the cubic solver's values are roots;
  - the cubic branches are modelled for their structure, their counts and the Vieta sum of their values.
- Polynomial.GetPolynomialRoots: requires at most four coefficients, because only the intersectors call it and they pass three or four. The JavaScript function takes any number of arguments. With five or more and a non-negligible leading coefficient, the degree is 4 or more, falls to `default:` (line 23) and gives no roots. Only a longer list whose leading coefficients are trimmed down to degree 3, 2 or 1 reaches a solver, on its trailing coefficients; that case is not modelled.
- CurveBox.QuadBezierAABB, CurveBox.CubicBezierAABB: require `xmin <= xmax` and `ymin <= ymax`. Callers are expected to pass a well-formed box, and the code never checks it. The contract does not describe what the code does with an inverted box.
- CurveLine.HitsOnSegment, CurveBox.BoxHitsOnBoundary: stated only for solves that land on degree 1 or 2 with only exact zeros trimmed. For a genuine cubic, or a `1e-12`-sized coefficient trimmed away, the reported point is only approximately on the line, and the exact-real model cannot say how close.
- **The bundle's wrapper** (lines 1-5 and 346-353 of `dist/bezier-intersect.js`) and `rollup.config.js` are packaging only.
- Examples.DiagonalReported: the reported point is stated in terms of the `sqrt` parameter's value at `4/3`, since the model does not define `Math.sqrt`. The test's float values are not recomputed.
- **The vertical test** is stated on the reported points (`UprightReported`). The collect-mode wire format for a single point is covered separately (`OneHitCollected`).
