/**
 The polynomial root solver: trimming of negligible leading coefficients,
 then a closed-form linear, quadratic or cubic solve. Coefficients are
 listed highest degree first, which is how every caller passes them.
 */
module Polynomial {
  import opened Numeric

  function Pow(t: real, n: nat): real
  {
    if n == 0 then 1.0 else t * Pow(t, n - 1)
  }

  /** The value at `t` of the polynomial whose coefficients `C` are listed
      highest degree first. */
  function Eval(C: seq<real>, t: real): real
  {
    if |C| == 0 then 0.0 else C[0] * Pow(t, |C| - 1) + Eval(C[1..], t)
  }

  /** Coefficient-wise negation. */
  function Negate(C: seq<real>): (N: seq<real>)
    ensures |N| == |C|
    ensures forall i :: 0 <= i < |C| ==> N[i] == -C[i]
  {
    seq(|C|, i requires 0 <= i < |C| => -C[i])
  }

  /** Negating every coefficient negates the polynomial. */
  lemma {:induction false} EvalNegate(C: seq<real>, t: real)
    ensures Eval(Negate(C), t) == -Eval(C, t)
    decreases |C|
  {
    if |C| > 0 {
      EvalNegate(C[1..], t);
      assert Negate(C)[1..] == Negate(C[1..]);
    }
  }

  lemma EvalLinear(a: real, b: real, t: real)
    ensures Eval([a, b], t) == a * t + b
  {
    assert [a, b][1..] == [b];
    assert [b][1..] == [];
    assert Pow(t, 1) == t * Pow(t, 0) == t;
    assert Eval([b], t) == b * Pow(t, 0) + Eval([], t) == b;
    assert Eval([a, b], t) == a * Pow(t, 1) + Eval([b], t);
  }

  lemma EvalQuadratic(a: real, b: real, c: real, t: real)
    ensures Eval([a, b, c], t) == a * (t * t) + b * t + c
  {
    assert [a, b, c][1..] == [b, c];
    EvalLinear(b, c, t);
    assert Pow(t, 1) == t;
    assert Pow(t, 2) == t * t;
  }

  lemma EvalCubic(a: real, b: real, c: real, d: real, t: real)
    ensures Eval([a, b, c, d], t) == a * (t * t * t) + b * (t * t) + c * t + d
  {
    assert [a, b, c, d][1..] == [b, c, d];
    EvalQuadratic(b, c, d, t);
    assert Pow(t, 1) == t;
    assert Pow(t, 2) == t * t;
    assert Pow(t, 3) == t * (t * t) == t * t * t;
  }

  /** Leading coefficients that are exactly zero do not change the value. */
  lemma {:induction false} EvalDropZeroPrefix(C: seq<real>, k: nat, t: real)
    requires k <= |C|
    requires forall j :: 0 <= j < k ==> C[j] == 0.0
    ensures Eval(C, t) == Eval(C[k..], t)
    decreases k
  {
    if k > 0 {
      assert C[1..][k - 1..] == C[k..];
      EvalDropZeroPrefix(C[1..], k - 1, t);
    }
  }

  predicate Negligible(c: real)
  {
    Abs(c) <= TOLERANCE
  }

  /** The trimming loop, `i` being the loop index and `degree` the running
      degree that the loop both decrements and tests against. Returns the
      degree left when the loop stops. */
  function TrimFrom(C: seq<real>, i: nat, degree: int): (d: int)
    requires i <= |C| && degree == |C| - 1 - i
    ensures d <= degree
    ensures i <= |C| - 1 - d <= |C|
    ensures forall j :: i <= j < |C| - 1 - d ==> Negligible(C[j])
    ensures |C| - 1 - d <= d ==> !Negligible(C[|C| - 1 - d])
    ensures |C| - 1 - d > i ==> 2 * (|C| - 2 - d) <= |C| - 1
    decreases |C| - i
  {
    if i <= degree && Negligible(C[i]) then TrimFrom(C, i + 1, degree - 1) else degree
  }

  /** The degree the solver dispatches on, after trimming. */
  function Degree(C: seq<real>): int
  {
    TrimFrom(C, 0, |C| - 1)
  }

  /** How many leading coefficients the trimming loop drops: only negligible
      ones, and it stops at the first coefficient that is not negligible
      unless the loop bound (which shrinks as the degree drops) ends it
      first. */
  function TrimmedCount(C: seq<real>): (k: nat)
    ensures k <= |C| && Degree(C) == |C| - 1 - k
    ensures forall j :: 0 <= j < k ==> Negligible(C[j])
    ensures 2 * k < |C| ==> !Negligible(C[k])
    ensures k == 0 || 2 * (k - 1) < |C|
  {
    |C| - 1 - Degree(C)
  }

  /** Independent count of the negligible coefficients at the front. */
  function LeadingNegligible(C: seq<real>): nat
  {
    if |C| > 0 && Negligible(C[0]) then 1 + LeadingNegligible(C[1..]) else 0
  }

  lemma {:induction false} LeadingNegligibleBound(C: seq<real>, k: nat)
    requires k <= |C|
    ensures (forall j :: 0 <= j < k ==> Negligible(C[j])) <==> k <= LeadingNegligible(C)
    decreases k
  {
    if k > 0 {
      LeadingNegligibleBound(C[1..], k - 1);
      if Negligible(C[0]) {
        assert forall j :: 1 <= j < k ==> C[j] == C[1..][j - 1];
      }
    }
  }

  /** The trimming loop removes the longest negligible prefix, capped at
      `(|C| - 1) / 2 + 1` coefficients because its bound `i <= degree`
      moves down as `degree` is decremented. */
  lemma TrimmedCountIsCappedPrefix(C: seq<real>)
    ensures var L, cap := LeadingNegligible(C), (|C| - 1) / 2 + 1;
            TrimmedCount(C) == if L <= cap then L else cap
  {
    var k := TrimmedCount(C);
    LeadingNegligibleBound(C, k);
    if 2 * k < |C| {
      LeadingNegligibleBound(C, k + 1);
    }
  }

  /** With four coefficients the loop can drop at most two of them, so a
      cubic call never reaches degree 0; with three it can. */
  lemma TrimmingFloor(C: seq<real>)
    ensures |C| == 4 ==> Degree(C) >= 1
    ensures |C| == 3 ==> Degree(C) >= 0
    ensures |C| == 3 ==> (Degree(C) == 0 <==> Negligible(C[0]) && Negligible(C[1]))
  {
    var k := TrimmedCount(C);
  }

  /** The trimming decision only looks at absolute values. */
  lemma {:induction false} TrimFromNegate(C: seq<real>, i: nat, degree: int)
    requires i <= |C| && degree == |C| - 1 - i
    ensures TrimFrom(Negate(C), i, degree) == TrimFrom(C, i, degree)
    decreases |C| - i
  {
    if i <= degree {
      assert Abs(Negate(C)[i]) == Abs(C[i]);
      if Negligible(C[i]) {
        TrimFromNegate(C, i + 1, degree - 1);
      }
    }
  }

  /** Roots of `C1 * t + C0`. */
  function LinearRoots(C0: real, C1: real): (roots: seq<real>)
    ensures C1 == 0.0 ==> roots == []
    ensures C1 != 0.0 ==> |roots| == 1 && C1 * roots[0] + C0 == 0.0
  {
    if C1 != 0.0 then [-C0 / C1] else []
  }

  /** A linear root is reported exactly when the line is not flat and the
      value solves it: the solver finds every root and nothing else. */
  lemma LinearRootsExact(C0: real, C1: real, x: real)
    ensures x in LinearRoots(C0, C1) <==> C1 != 0.0 && C1 * x + C0 == 0.0
  {
    if C1 != 0.0 && C1 * x + C0 == 0.0 {
      assert x == -C0 / C1;
    }
  }

  /** The discriminant of the normalised quadratic `t^2 + b t + c`. */
  function QuadraticDiscriminant(C0: real, C1: real, C2: real): real
    requires C2 != 0.0
  {
    var b := C1 / C2;
    var c := C0 / C2;
    b * b - 4.0 * c
  }

  /** Roots of `C2 t^2 + C1 t + C0`: two, one or none as the discriminant
      is positive, zero or negative. */
  function QuadraticRoots(m: MathLib, C0: real, C1: real, C2: real): (roots: seq<real>)
    requires C2 != 0.0
    ensures |roots| == (if QuadraticDiscriminant(C0, C1, C2) > 0.0 then 2
                        else if QuadraticDiscriminant(C0, C1, C2) == 0.0 then 1 else 0)
  {
    var a := C2;
    var b := C1 / a;
    var c := C0 / a;
    var d := b * b - 4.0 * c;
    if d > 0.0 then
      var e := m.sqrt(d);
      [0.5 * (-b + e), 0.5 * (-b - e)]
    else if d == 0.0 then
      [0.5 * -b]
    else
      []
  }

  lemma SquaresEqual(u: real, e: real)
    ensures u * u == e * e <==> u == e || u == -e
  {
    calc {
      u * u - e * e;
      (u - e) * (u + e);
    }
  }

  lemma SquareNonNegative(u: real)
    ensures 0.0 <= u * u
  {
    if u < 0.0 {
      calc {
        u * u;
        (-u) * (-u);
      }
    }
  }

  /** Completing the square for a quadratic with non-zero leading coefficient. */
  lemma CompleteSquare(C0: real, C1: real, C2: real, x: real)
    requires C2 != 0.0
    ensures C2 * (x * x) + C1 * x + C0 == 0.0 <==>
            (2.0 * x + C1 / C2) * (2.0 * x + C1 / C2) == QuadraticDiscriminant(C0, C1, C2)
  {
    var b := C1 / C2;
    var c := C0 / C2;
    assert C1 == C2 * b && C0 == C2 * c;
    calc {
      C2 * (x * x) + C1 * x + C0;
      C2 * (x * x + b * x + c);
    }
    calc {
      4.0 * (x * x + b * x + c);
      (2.0 * x + b) * (2.0 * x + b) - (b * b - 4.0 * c);
    }
  }

  /** Given a sound `sqrt`, the quadratic solver reports exactly the real
      roots of `C2 t^2 + C1 t + C0` (a double root once). */
  lemma QuadraticRootsExact(m: MathLib, C0: real, C1: real, C2: real, x: real)
    requires SqrtSound(m)
    requires C2 != 0.0
    ensures x in QuadraticRoots(m, C0, C1, C2) <==> C2 * (x * x) + C1 * x + C0 == 0.0
  {
    var b := C1 / C2;
    var d := QuadraticDiscriminant(C0, C1, C2);
    var u := 2.0 * x + b;
    CompleteSquare(C0, C1, C2, x);
    if d > 0.0 {
      var e := m.sqrt(d);
      assert 0.0 <= e && e * e == d;
      SquaresEqual(u, e);
      assert x == 0.5 * (-b + e) <==> u == e;
      assert x == 0.5 * (-b - e) <==> u == -e;
    } else if d == 0.0 {
      SquaresEqual(u, 0.0);
      assert x == 0.5 * -b <==> u == 0.0;
    } else {
      SquareNonNegative(u);
    }
  }

  /** The depressed form `s^3 + a s + b` of the normalised cubic, with the
      substitution offset `t = s - offset`. */
  datatype Depressed = Depressed(a: real, b: real, offset: real)

  function Depress(C0: real, C1: real, C2: real, C3: real): Depressed
    requires C3 != 0.0
  {
    var c2 := C2 / C3;
    var c1 := C1 / C3;
    var c0 := C0 / C3;
    Depressed((3.0 * c1 - c2 * c2) / 3.0,
              (2.0 * c2 * c2 * c2 - 9.0 * c1 * c2 + 27.0 * c0) / 27.0,
              c2 / 3.0)
  }

  /** Shifting `t = s - c2/3` removes the square term of a monic cubic. */
  lemma ShiftRemovesSquare(c2: real, c1: real, c0: real, s: real, t: real)
    requires t == s - c2 / 3.0
    ensures t * t * t + c2 * (t * t) + c1 * t + c0
            == s * s * s + ((3.0 * c1 - c2 * c2) / 3.0) * s + (2.0 * c2 * c2 * c2 - 9.0 * c1 * c2 + 27.0 * c0) / 27.0
  {
    var o := c2 / 3.0;
    assert c2 == 3.0 * o;
    calc {
      t * t * t + c2 * (t * t) + c1 * t + c0;
      (s - o) * (s - o) * (s - o) + 3.0 * o * ((s - o) * (s - o)) + c1 * (s - o) + c0;
      s * s * s + (c1 - 3.0 * o * o) * s + (2.0 * o * o * o - c1 * o + c0);
    }
  }

  /** The depressed form describes the same cubic: `t` is a root of
      `C3 t^3 + C2 t^2 + C1 t + C0` exactly when `s = t + offset` is a root
      of `s^3 + a s + b`. */
  lemma DepressSubstitution(C0: real, C1: real, C2: real, C3: real, t: real)
    requires C3 != 0.0
    ensures var dc := Depress(C0, C1, C2, C3);
            var s := t + dc.offset;
            C3 * (t * t * t) + C2 * (t * t) + C1 * t + C0 == C3 * (s * s * s + dc.a * s + dc.b)
    ensures var dc := Depress(C0, C1, C2, C3);
            var s := t + dc.offset;
            C3 * (t * t * t) + C2 * (t * t) + C1 * t + C0 == 0.0 <==> s * s * s + dc.a * s + dc.b == 0.0
  {
    var c2, c1, c0 := C2 / C3, C1 / C3, C0 / C3;
    var dc := Depress(C0, C1, C2, C3);
    var s := t + dc.offset;
    ShiftRemovesSquare(c2, c1, c0, s, t);
    assert C2 == C3 * c2 && C1 == C3 * c1 && C0 == C3 * c0;
    calc {
      C3 * (t * t * t) + C2 * (t * t) + C1 * t + C0;
      C3 * (t * t * t + c2 * (t * t) + c1 * t + c0);
    }
  }

  /** A discriminant within the polynomial tolerance of zero is taken as zero. */
  function Snap(discrim: real): (s: real)
    ensures Abs(discrim) <= POLYNOMIAL_TOLERANCE ==> s == 0.0
    ensures Abs(discrim) > POLYNOMIAL_TOLERANCE ==> s == discrim && s != 0.0
  {
    if Abs(discrim) <= POLYNOMIAL_TOLERANCE then 0.0 else discrim
  }

  /** The discriminant `b^2/4 + a^3/27` of a depressed cubic. */
  function RawDiscriminant(dc: Depressed): real
  {
    dc.b * dc.b / 4.0 + dc.a * dc.a * dc.a / 27.0
  }

  /** The discriminant after snapping; its sign picks the branch. */
  function DepressedDiscriminant(dc: Depressed): real
  {
    Snap(RawDiscriminant(dc))
  }

  function CubicDiscriminant(C0: real, C1: real, C2: real, C3: real): real
    requires C3 != 0.0
  {
    DepressedDiscriminant(Depress(C0, C1, C2, C3))
  }

  /** `Math.pow(x, 1/3)` applied to the magnitude, with the sign put back. */
  function SignedCbrt(m: MathLib, x: real): real
  {
    if x >= 0.0 then m.cbrt(x) else -m.cbrt(-x)
  }

  /** Roots of a depressed cubic, shifted back by its offset: Cardano's
      formula for a positive discriminant, the trigonometric form for a
      negative one, and for a zero one the double root reported once. Only
      the branch structure is meaningful here; the values go through the
      uninterpreted math functions. */
  function SolveDepressed(m: MathLib, dc: Depressed): (roots: seq<real>)
    ensures |roots| == (if DepressedDiscriminant(dc) > 0.0 then 1
                        else if DepressedDiscriminant(dc) < 0.0 then 3 else 2)
  {
    var a := dc.a;
    var offset := dc.offset;
    var discrim := DepressedDiscriminant(dc);
    var halfB := dc.b / 2.0;
    if discrim > 0.0 then
      var e := m.sqrt(discrim);
      var root := SignedCbrt(m, -halfB + e) + SignedCbrt(m, -halfB - e);
      [root - offset]
    else if discrim < 0.0 then
      var distance := m.sqrt(-a / 3.0);
      var angle := m.atan2(m.sqrt(-discrim), -halfB) / 3.0;
      var cos := m.cos(angle);
      var sin := m.sin(angle);
      var sqrt3 := m.sqrt(3.0);
      [2.0 * distance * cos - offset,
       -distance * (cos + sqrt3 * sin) - offset,
       -distance * (cos - sqrt3 * sin) - offset]
    else
      var tmp := if halfB >= 0.0 then -m.cbrt(halfB) else m.cbrt(-halfB);
      [2.0 * tmp - offset, -tmp - offset]
  }

  /** Roots of `C3 t^3 + C2 t^2 + C1 t + C0`: one, three or two values as
      the snapped discriminant is positive, negative or zero, so never more
      than three, and a discriminant within the tolerance of zero gives
      two. */
  function CubicRoots(m: MathLib, C0: real, C1: real, C2: real, C3: real): (roots: seq<real>)
    requires C3 != 0.0
    ensures |roots| == (if CubicDiscriminant(C0, C1, C2, C3) > 0.0 then 1
                        else if CubicDiscriminant(C0, C1, C2, C3) < 0.0 then 3 else 2)
    ensures |roots| <= 3
    ensures Abs(RawDiscriminant(Depress(C0, C1, C2, C3))) <= POLYNOMIAL_TOLERANCE ==> |roots| == 2
  {
    SolveDepressed(m, Depress(C0, C1, C2, C3))
  }

  /** Whatever the math functions return, the reported roots obey Vieta's
      sum rule for the normalised cubic: three roots sum to `-C2/C3`, and in
      the zero-discriminant branch they do so only when the second value is
      counted twice, which is the double root the solver reports once. */
  lemma CubicRootSum(m: MathLib, C0: real, C1: real, C2: real, C3: real)
    requires C3 != 0.0
    ensures var roots := CubicRoots(m, C0, C1, C2, C3);
            CubicDiscriminant(C0, C1, C2, C3) < 0.0 ==> roots[0] + roots[1] + roots[2] == -(C2 / C3)
    ensures var roots := CubicRoots(m, C0, C1, C2, C3);
            CubicDiscriminant(C0, C1, C2, C3) == 0.0 ==> roots[0] + 2.0 * roots[1] == -(C2 / C3)
  {
  }

  /** The dispatcher: trim, then solve with the trailing (low-order)
      coefficients `C[n], C[n-1], ...`. */
  function GetPolynomialRoots(m: MathLib, C: seq<real>): (roots: seq<real>)
    requires |C| <= 4
    ensures Degree(C) < 1 ==> roots == []
    ensures Degree(C) >= 1 ==> |roots| <= Degree(C)
  {
    var degree := Degree(C);
    var n := |C| - 1;
    if degree == 1 then
      LinearRoots(C[n], C[n - 1])
    else if degree == 2 then
      QuadraticRoots(m, C[n], C[n - 1], C[n - 2])
    else if degree == 3 then
      CubicRoots(m, C[n], C[n - 1], C[n - 2], C[n - 3])
    else
      []
  }

  /** A leading coefficient that is not negligible is solved at full degree. */
  lemma DispatchFullDegree(m: MathLib, C: seq<real>)
    requires |C| == 3 || |C| == 4
    requires !Negligible(C[0])
    ensures |C| == 3 ==> GetPolynomialRoots(m, C) == QuadraticRoots(m, C[2], C[1], C[0])
    ensures |C| == 4 ==> GetPolynomialRoots(m, C) == CubicRoots(m, C[3], C[2], C[1], C[0])
  {
    assert Degree(C) == |C| - 1;
  }

  /** One negligible leading coefficient followed by one that is not drops
      the degree by one. */
  lemma DispatchOneTrimmed(m: MathLib, C: seq<real>)
    requires |C| == 3 || |C| == 4
    requires Negligible(C[0]) && !Negligible(C[1])
    ensures |C| == 3 ==> GetPolynomialRoots(m, C) == LinearRoots(C[2], C[1])
    ensures |C| == 4 ==> GetPolynomialRoots(m, C) == QuadraticRoots(m, C[3], C[2], C[1])
  {
    assert TrimFrom(C, 1, |C| - 2) == |C| - 2;
    assert Degree(C) == |C| - 2;
  }

  /** Two negligible leading coefficients of four leave a linear solve on
      the last two, whatever the third coefficient is. */
  lemma DispatchTwoTrimmedOfFour(m: MathLib, C: seq<real>)
    requires |C| == 4
    requires Negligible(C[0]) && Negligible(C[1])
    ensures GetPolynomialRoots(m, C) == LinearRoots(C[3], C[2])
  {
    assert TrimFrom(C, 2, 1) == 1;
    assert Degree(C) == 1;
  }

  /** When the dispatch lands on degree 1 or 2 and `sqrt` is sound, every
      reported value is a root of the trimmed polynomial. */
  lemma DispatchedRootsSolve(m: MathLib, C: seq<real>, r: real)
    requires SqrtSound(m)
    requires |C| <= 4 && Degree(C) <= 2
    requires r in GetPolynomialRoots(m, C)
    ensures Eval(C[TrimmedCount(C)..], r) == 0.0
  {
    var n := |C| - 1;
    var k := TrimmedCount(C);
    if Degree(C) == 1 {
      assert C[k..] == [C[n - 1], C[n]];
      assert r in LinearRoots(C[n], C[n - 1]);
      LinearSolves(C[n], C[n - 1], r);
    } else {
      assert Degree(C) == 2;
      assert C[k..] == [C[n - 2], C[n - 1], C[n]];
      assert r in QuadraticRoots(m, C[n], C[n - 1], C[n - 2]);
      QuadraticSolves(m, C[n], C[n - 1], C[n - 2], r);
    }
  }

  lemma LinearSolves(C0: real, C1: real, r: real)
    requires r in LinearRoots(C0, C1)
    ensures Eval([C1, C0], r) == 0.0
  {
    LinearRootsExact(C0, C1, r);
    EvalLinear(C1, C0, r);
  }

  lemma QuadraticSolves(m: MathLib, C0: real, C1: real, C2: real, r: real)
    requires SqrtSound(m) && C2 != 0.0
    requires r in QuadraticRoots(m, C0, C1, C2)
    ensures Eval([C2, C1, C0], r) == 0.0
  {
    QuadraticRootsExact(m, C0, C1, C2, r);
    EvalQuadratic(C2, C1, C0, r);
  }

  lemma DivNegNeg(x: real, y: real)
    requires y != 0.0
    ensures (-x) / (-y) == x / y
  {
  }

  lemma LinearRootsNegate(C0: real, C1: real)
    ensures LinearRoots(-C0, -C1) == LinearRoots(C0, C1)
  {
    if C1 != 0.0 {
      DivNegNeg(-C0, C1);
    }
  }

  lemma QuadraticRootsNegate(m: MathLib, C0: real, C1: real, C2: real)
    requires C2 != 0.0
    ensures QuadraticRoots(m, -C0, -C1, -C2) == QuadraticRoots(m, C0, C1, C2)
  {
    DivNegNeg(C1, C2);
    DivNegNeg(C0, C2);
    assert QuadraticDiscriminant(-C0, -C1, -C2) == QuadraticDiscriminant(C0, C1, C2);
  }

  lemma CubicRootsNegate(m: MathLib, C0: real, C1: real, C2: real, C3: real)
    requires C3 != 0.0
    ensures CubicRoots(m, -C0, -C1, -C2, -C3) == CubicRoots(m, C0, C1, C2, C3)
  {
    DivNegNeg(C2, C3);
    DivNegNeg(C1, C3);
    DivNegNeg(C0, C3);
    assert Depress(-C0, -C1, -C2, -C3) == Depress(C0, C1, C2, C3);
  }

  lemma NegateLinearCase(m: MathLib, C: seq<real>)
    requires |C| <= 4 && Degree(C) == 1 && Degree(Negate(C)) == 1
    ensures GetPolynomialRoots(m, Negate(C)) == GetPolynomialRoots(m, C)
  {
    var N, n := Negate(C), |C| - 1;
    assert N[n] == -C[n] && N[n - 1] == -C[n - 1];
    LinearRootsNegate(C[n], C[n - 1]);
  }

  lemma NegateQuadraticCase(m: MathLib, C: seq<real>)
    requires |C| <= 4 && Degree(C) == 2 && Degree(Negate(C)) == 2
    ensures GetPolynomialRoots(m, Negate(C)) == GetPolynomialRoots(m, C)
  {
    var N, n := Negate(C), |C| - 1;
    assert N[n] == -C[n] && N[n - 1] == -C[n - 1] && N[n - 2] == -C[n - 2];
    var k := TrimmedCount(C);
    assert k == n - 2 && 2 * k < |C|;
    QuadraticRootsNegate(m, C[n], C[n - 1], C[n - 2]);
  }

  lemma NegateCubicCase(m: MathLib, C: seq<real>)
    requires |C| <= 4 && Degree(C) == 3 && Degree(Negate(C)) == 3
    ensures GetPolynomialRoots(m, Negate(C)) == GetPolynomialRoots(m, C)
  {
    var N, n := Negate(C), |C| - 1;
    assert N[n] == -C[n] && N[n - 1] == -C[n - 1] && N[n - 2] == -C[n - 2] && N[n - 3] == -C[n - 3];
    assert TrimmedCount(C) == 0;
    CubicRootsNegate(m, C[n], C[n - 1], C[n - 2], C[n - 3]);
  }

  /** The solver gives the same roots, in the same order, for a polynomial
      and its negation. */
  lemma GetPolynomialRootsNegate(m: MathLib, C: seq<real>)
    requires |C| <= 4
    ensures GetPolynomialRoots(m, Negate(C)) == GetPolynomialRoots(m, C)
  {
    TrimFromNegate(C, 0, |C| - 1);
    assert Degree(Negate(C)) == Degree(C);
    if Degree(C) == 1 {
      NegateLinearCase(m, C);
    } else if Degree(C) == 2 {
      NegateQuadraticCase(m, C);
    } else if Degree(C) == 3 {
      NegateCubicCase(m, C);
    }
  }
}
