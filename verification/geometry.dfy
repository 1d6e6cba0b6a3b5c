/**
 Points, segments with their implicit line form and extent check, and
 axis-aligned boxes.
 */
module Geometry {
  import opened Numeric

  datatype Point = Point(x: real, y: real)

  /** `a + (b - a) * t`, the interpolation step the evaluators repeat. */
  function Lerp(a: real, b: real, t: real): real
  {
    a + (b - a) * t
  }

  function LerpPoint(p: Point, q: Point, t: real): Point
  {
    Point(Lerp(p.x, q.x, t), Lerp(p.y, q.y, t))
  }

  /** A line segment from `a1` to `a2`. */
  datatype Segment = Segment(a1: Point, a2: Point) {
    function Reversed(): Segment { Segment(a2, a1) }
    function MinX(): real { Min(a1.x, a2.x) }
    function MinY(): real { Min(a1.y, a2.y) }
    function MaxX(): real { Max(a1.x, a2.x) }
    function MaxY(): real { Max(a1.y, a2.y) }
  }

  /** The implicit line `nx * x + ny * y + cl == 0`. */
  datatype Line = Line(nx: real, ny: real, cl: real)

  function LineValue(l: Line, p: Point): real
  {
    l.nx * p.x + l.ny * p.y + l.cl
  }

  /** Cross product of `b - a` and `p - a`: zero exactly when `p` is on the
      line through `a` and `b` (for `a != b`). */
  function Cross(a: Point, b: Point, p: Point): real
  {
    (b.x - a.x) * (p.y - a.y) - (b.y - a.y) * (p.x - a.x)
  }

  /** The segment's line in normal form: normal `(a1.y - a2.y, a2.x - a1.x)`
      and constant `a1.x * a2.y - a2.x * a1.y`. The line passes through both
      endpoints, and its normal vanishes only for a point segment. */
  function NormalForm(s: Segment): (l: Line)
    ensures LineValue(l, s.a1) == 0.0 && LineValue(l, s.a2) == 0.0
    ensures l.nx == 0.0 && l.ny == 0.0 <==> s.a1 == s.a2
  {
    Line(s.a1.y - s.a2.y, s.a2.x - s.a1.x, s.a1.x * s.a2.y - s.a2.x * s.a1.y)
  }

  /** The normal form evaluated at `p` is the cross product that decides
      whether `p` is on the line through the endpoints. */
  lemma NormalFormIsCross(s: Segment, p: Point)
    ensures LineValue(NormalForm(s), p) == Cross(s.a1, s.a2, p)
  {
  }

  /** Swapping the endpoints negates all three numbers of the normal form. */
  lemma NormalFormReversed(s: Segment)
    ensures var l := NormalForm(s); NormalForm(s.Reversed()) == Line(-l.nx, -l.ny, -l.cl)
  {
  }

  /** The extent check applied to a candidate point: only the y range for a
      vertical segment, only the x range for a horizontal one, otherwise the
      segment's whole bounding box. */
  predicate WithinExtent(s: Segment, p: Point)
  {
    if s.a1.x == s.a2.x then
      s.MinY() <= p.y && p.y <= s.MaxY()
    else if s.a1.y == s.a2.y then
      s.MinX() <= p.x && p.x <= s.MaxX()
    else
      p.x >= s.MinX() && p.y >= s.MinY() && p.x <= s.MaxX() && p.y <= s.MaxY()
  }

  /** The segment's bounding box, closed. */
  predicate InBoundingBox(s: Segment, p: Point)
  {
    s.MinX() <= p.x <= s.MaxX() && s.MinY() <= p.y <= s.MaxY()
  }

  /** The extent check does not depend on the direction of the segment. */
  lemma WithinExtentReversed(s: Segment, p: Point)
    ensures WithinExtent(s.Reversed(), p) <==> WithinExtent(s, p)
  {
  }

  /** Over exact reals the vertical and horizontal special cases agree with
      the general bounding-box test for every point on the segment's line:
      a point on a vertical line already has the right x, and likewise for
      horizontal lines. */
  lemma ExtentBranchesAgreeOnLine(s: Segment, p: Point)
    requires s.a1 != s.a2
    requires LineValue(NormalForm(s), p) == 0.0
    ensures WithinExtent(s, p) <==> InBoundingBox(s, p)
  {
    var l := NormalForm(s);
    if s.a1.x == s.a2.x {
      assert l.ny == 0.0 && l.nx != 0.0;
      assert l.nx * p.x == l.nx * s.a1.x;
    } else if s.a1.y == s.a2.y {
      assert l.nx == 0.0 && l.ny != 0.0;
      assert l.ny * p.y == l.ny * s.a1.y;
    }
  }

  /** An axis-aligned box; the library expects `xmin <= xmax` and
      `ymin <= ymax` of its callers and does not check. */
  datatype Box = Box(xmin: real, ymin: real, xmax: real, ymax: real)

  predicate WellFormed(b: Box)
  {
    b.xmin <= b.xmax && b.ymin <= b.ymax
  }

  /** The closed box contains `p`. */
  predicate Contains(b: Box, p: Point)
  {
    b.xmin <= p.x && b.xmax >= p.x && b.ymin <= p.y && b.ymax >= p.y
  }

  /** The four edges in the order the box intersectors visit them: bottom,
      right, top, left, each with the endpoints the library passes. */
  function Edges(b: Box): (edges: seq<Segment>)
    ensures |edges| == 4
  {
    [Segment(Point(b.xmin, b.ymin), Point(b.xmax, b.ymin)),
     Segment(Point(b.xmax, b.ymin), Point(b.xmax, b.ymax)),
     Segment(Point(b.xmin, b.ymax), Point(b.xmax, b.ymax)),
     Segment(Point(b.xmin, b.ymin), Point(b.xmin, b.ymax))]
  }

  /** A point in the segment's bounding box always passes the extent check,
      whichever branch the check takes. */
  lemma BoundingBoxPassesExtent(s: Segment, p: Point)
    requires InBoundingBox(s, p)
    ensures WithinExtent(s, p)
  {
  }

  /** For a well-formed box, containment is the bounding-box test of the
      box's diagonal. */
  lemma ContainsIsDiagonalBox(b: Box, p: Point)
    requires WellFormed(b)
    ensures Contains(b, p) <==> InBoundingBox(Segment(Point(b.xmin, b.ymin), Point(b.xmax, b.ymax)), p)
  {
  }

  /** The bottom and top edges are horizontal at `ymin` and `ymax`, the right
      and left ones vertical at `xmax` and `xmin`, and for a well-formed box
      every endpoint is in the box. */
  lemma EdgesAreSides(b: Box)
    ensures var e := Edges(b);
            e[0].a1.y == b.ymin && e[0].a2.y == b.ymin && e[2].a1.y == b.ymax && e[2].a2.y == b.ymax
    ensures var e := Edges(b);
            e[1].a1.x == b.xmax && e[1].a2.x == b.xmax && e[3].a1.x == b.xmin && e[3].a2.x == b.xmin
    ensures var e := Edges(b);
            WellFormed(b) ==> forall i :: 0 <= i < 4 ==> Contains(b, e[i].a1) && Contains(b, e[i].a2)
  {
  }

  /** Of a box with positive width and height, every point that passes an edge's extent check
      and lies on that edge's line lies on the box boundary. */
  lemma EdgeHitOnBoundary(b: Box, i: nat, p: Point)
    requires i < 4
    requires b.xmin < b.xmax && b.ymin < b.ymax
    requires WithinExtent(Edges(b)[i], p) && LineValue(NormalForm(Edges(b)[i]), p) == 0.0
    ensures Contains(b, p)
    ensures p.x == b.xmin || p.x == b.xmax || p.y == b.ymin || p.y == b.ymax
  {
    var e := Edges(b)[i];
    ExtentBranchesAgreeOnLine(e, p);
    var l := NormalForm(e);
    if i == 0 || i == 2 {
      assert l.nx == 0.0 && l.ny != 0.0;
      assert l.ny * p.y == l.ny * e.a1.y;
    } else {
      assert l.ny == 0.0 && l.nx != 0.0;
      assert l.nx * p.x == l.nx * e.a1.x;
    }
  }
}
