/**
 * Glyph outlines to shapes: the contour builder (glyph_curve) and the glyph
 * composer (glyph_convert) of sdf/text.go.
 */
module GlyphOutline {
  import opened Shapes
  import opened Sums

  /** A truetype.Point: integer font units and the point's flag bits. */
  datatype Point = Point(x: int, y: int, flags: bv32)

  /** The outline part of a truetype.GlyphBuf: all points of the glyph, and for each contour the index one past its last point. */
  datatype GlyphBuf = GlyphBuf(points: seq<Point>, ends: seq<int>)

  /** p_to_V2: the point's integer coordinates as a vector. */
  function PointToV2(p: Point): (v: V2)
    ensures v.x == p.x as real && v.y == p.y as real
  {
    V2(p.x as real, p.y as real)
  }

  /** A point is off the curve (a quadratic control point) when bit 0 of its flags is clear. */
  predicate Off(p: Point)
  {
    p.flags & 1 == 0
  }

  /** The implicit on-curve point between two control points: (v + vPrev) * 0.5. */
  function Midpoint(v: V2, vPrev: V2): (m: V2)
    ensures m.x - vPrev.x == v.x - m.x && m.y - vPrev.y == v.y - m.y
  {
    V2((v.x + vPrev.x) * 0.5, (v.y + vPrev.y) * 0.5)
  }

  // ---------------------------------------------------------------------------
  // Contour ranges

  /** Index of the first point of contour n. */
  function ContourStart(g: GlyphBuf, n: int): int
    requires 0 <= n < |g.ends|
  {
    if n == 0 then 0 else g.ends[n - 1]
  }

  /**
   * Contour n covers the points ContourStart(g, n) .. g.ends[n] - 1, and that
   * range is non-empty and inside the point array.
   */
  predicate ValidContour(g: GlyphBuf, n: int)
  {
    0 <= n < |g.ends| && 0 <= ContourStart(g, n) < g.ends[n] <= |g.points|
  }

  predicate ValidGlyph(g: GlyphBuf)
  {
    forall n :: 0 <= n < |g.ends| ==> ValidContour(g, n)
  }

  /** The points of contour n, in order. */
  function ContourPoints(g: GlyphBuf, n: int): (pts: seq<Point>)
    requires ValidContour(g, n)
    ensures |pts| == g.ends[n] - ContourStart(g, n) > 0
  {
    g.points[ContourStart(g, n)..g.ends[n]]
  }

  lemma ContourPointAt(g: GlyphBuf, n: int, i: int)
    requires ValidContour(g, n) && ContourStart(g, n) <= i < g.ends[n]
    ensures ContourPoints(g, n)[i - ContourStart(g, n)] == g.points[i]
  {
  }

  // ---------------------------------------------------------------------------
  // What the contour builder pushes into the Bezier builder

  /**
   * Point i is preceded by a synthesised on-curve point: it and the point
   * before it are both off the curve. The first point never is, because the
   * "previous was off" flag starts out false.
   */
  predicate Implicit(pts: seq<Point>, i: int)
    requires 0 <= i < |pts|
  {
    0 < i && Off(pts[i]) && Off(pts[i - 1])
  }

  /** What the builder has received after the first k points of the contour. */
  function Emit(pts: seq<Point>, k: nat): seq<CurvePoint>
    requires k <= |pts|
  {
    if k == 0 then []
    else
      var i := k - 1;
      var v := PointToV2(pts[i]);
      Emit(pts, i)
      + (if Implicit(pts, i) then [CurvePoint(Midpoint(v, PointToV2(pts[i - 1])), false)] else [])
      + [CurvePoint(v, Off(pts[i]))]
  }

  /** One more point: its implicit midpoint (if any), then the point itself. */
  lemma EmitNext(pts: seq<Point>, k: nat)
    requires k < |pts|
    ensures Implicit(pts, k) ==>
      (Emit(pts, k + 1) == Emit(pts, k) + [CurvePoint(Midpoint(PointToV2(pts[k]), PointToV2(pts[k - 1])), false)]
                           + [CurvePoint(PointToV2(pts[k]), Off(pts[k]))])
    ensures !Implicit(pts, k) ==> Emit(pts, k + 1) == Emit(pts, k) + [CurvePoint(PointToV2(pts[k]), Off(pts[k]))]
  {
  }

  /** The whole sequence pushed for a contour. */
  function Outline(pts: seq<Point>): seq<CurvePoint>
  {
    Emit(pts, |pts|)
  }

  /** Number of implicit points among the first k points (adjacent off/off pairs). */
  function CountImplicit(pts: seq<Point>, k: nat): (c: nat)
    requires k <= |pts|
    ensures c <= k
  {
    if k == 0 then 0 else CountImplicit(pts, k - 1) + (if Implicit(pts, k - 1) then 1 else 0)
  }

  /** Where point i lands in the output: after i earlier points and every implicit point up to and including its own. */
  function Position(pts: seq<Point>, i: nat): nat
    requires i < |pts|
  {
    i + CountImplicit(pts, i + 1)
  }

  lemma {:induction false} EmitLayout(pts: seq<Point>, k: nat)
    requires k <= |pts|
    ensures |Emit(pts, k)| == k + CountImplicit(pts, k)
    ensures forall i :: 0 <= i < k ==>
      Position(pts, i) < |Emit(pts, k)| &&
      Emit(pts, k)[Position(pts, i)] == CurvePoint(PointToV2(pts[i]), Off(pts[i]))
    ensures forall i :: 0 <= i < k && Implicit(pts, i) ==>
      0 < Position(pts, i) < |Emit(pts, k)| &&
      Emit(pts, k)[Position(pts, i) - 1] == CurvePoint(Midpoint(PointToV2(pts[i]), PointToV2(pts[i - 1])), false)
  {
    if k > 0 {
      var j := k - 1;
      EmitLayout(pts, j);
      var prefix := Emit(pts, j);
      var e := Emit(pts, k);
      assert |prefix| == j + CountImplicit(pts, j);
      assert e[..|prefix|] == prefix;
      forall i | 0 <= i < j
        ensures Position(pts, i) < |e| && e[Position(pts, i)] == CurvePoint(PointToV2(pts[i]), Off(pts[i]))
      {
        assert Position(pts, i) < |prefix|;
        assert e[Position(pts, i)] == prefix[Position(pts, i)];
      }
      forall i | 0 <= i < j && Implicit(pts, i)
        ensures 0 < Position(pts, i) < |e| &&
          e[Position(pts, i) - 1] == CurvePoint(Midpoint(PointToV2(pts[i]), PointToV2(pts[i - 1])), false)
      {
        assert e[Position(pts, i) - 1] == prefix[Position(pts, i) - 1];
      }
      assert Position(pts, j) == |e| - 1;
    }
  }

  /**
   * The output of the contour builder, point by point: point i appears at
   * Position(i) with its mid flag equal to "off the curve"; an implicit
   * midpoint sits right before it exactly when Implicit(i); consecutive
   * points are one apart, or two when a midpoint is between them; nothing
   * precedes point 0 and nothing follows the last point.
   */
  lemma OutlineLayout(pts: seq<Point>)
    requires |pts| > 0
    ensures |Outline(pts)| == |pts| + CountImplicit(pts, |pts|)
    ensures Position(pts, 0) == 0
    ensures Position(pts, |pts| - 1) == |Outline(pts)| - 1
    ensures forall i :: 0 < i < |pts| ==>
      Position(pts, i) == Position(pts, i - 1) + (if Implicit(pts, i) then 2 else 1)
    ensures forall i :: 0 <= i < |pts| ==>
      Position(pts, i) < |Outline(pts)| &&
      Outline(pts)[Position(pts, i)] == CurvePoint(PointToV2(pts[i]), Off(pts[i]))
    ensures forall i :: 0 <= i < |pts| && Implicit(pts, i) ==>
      0 < Position(pts, i) &&
      Outline(pts)[Position(pts, i) - 1] == CurvePoint(Midpoint(PointToV2(pts[i]), PointToV2(pts[i - 1])), false)
  {
    EmitLayout(pts, |pts|);
  }

  // ---------------------------------------------------------------------------
  // Winding

  /** The cyclic predecessor of point i: the last point for i = 0. */
  function Prev(pts: seq<Point>, i: int): Point
    requires 0 <= i < |pts|
  {
    if i == 0 then pts[|pts| - 1] else pts[i - 1]
  }

  /** The trapezoid term of the edge p -> q. */
  function Edge(p: Point, q: Point): int
  {
    (q.x - p.x) * (q.y + p.y)
  }

  /** The trapezoid term of every cyclic edge Prev(i) -> i, the closing edge first. */
  function Edges(pts: seq<Point>): seq<int>
  {
    seq(|pts|, i requires 0 <= i < |pts| => Edge(Prev(pts, i), pts[i]))
  }

  /** The winding accumulator after the first k points: the closing edge's term first, then one term per edge. */
  function WindingUpTo(pts: seq<Point>, k: nat): int
    requires k <= |pts|
  {
    if k == 0 then 0 else WindingUpTo(pts, k - 1) + Edge(Prev(pts, k - 1), pts[k - 1])
  }

  lemma {:induction false} WindingUpToIsSum(pts: seq<Point>, k: nat)
    requires k <= |pts|
    ensures WindingUpTo(pts, k) == Sum(Edges(pts)[..k])
  {
    if k > 0 {
      WindingUpToIsSum(pts, k - 1);
      SumPrefix(Edges(pts), k - 1);
    }
  }

  /** The winding accumulator of glyph_curve after the whole contour. */
  function WindingSum(pts: seq<Point>): int
  {
    WindingUpTo(pts, |pts|)
  }

  /** The winding sum is the sum of the trapezoid terms of all cyclic edges. */
  lemma WindingSumOfEdges(pts: seq<Point>)
    ensures WindingSum(pts) == Sum(Edges(pts))
  {
    WindingUpToIsSum(pts, |pts|);
    assert Edges(pts)[..|pts|] == Edges(pts);
  }

  /** The cross product term of the shoelace formula for the edge p -> q. */
  function Cross(p: Point, q: Point): int
  {
    p.x * q.y - q.x * p.y
  }

  /** The shoelace cross terms of the first k cyclic edges. */
  function CrossUpTo(pts: seq<Point>, k: nat): int
    requires k <= |pts|
  {
    if k == 0 then 0 else CrossUpTo(pts, k - 1) + Cross(Prev(pts, k - 1), pts[k - 1])
  }

  /** Twice the signed area of the closed polygon through pts (shoelace formula, positive when counter-clockwise with y up). */
  function DoubleArea(pts: seq<Point>): int
  {
    CrossUpTo(pts, |pts|)
  }

  lemma EdgePlusCross(p: Point, q: Point)
    ensures Edge(p, q) + Cross(p, q) == q.x * q.y - p.x * p.y
  {
    assert (q.x - p.x) * (q.y + p.y) == q.x * q.y + q.x * p.y - p.x * q.y - p.x * p.y;
  }

  lemma EdgeAntisymmetric(p: Point, q: Point)
    ensures Edge(q, p) == -Edge(p, q)
  {
    assert (p.x - q.x) * (p.y + q.y) == -((q.x - p.x) * (q.y + p.y));
  }

  /** Telescoping: the first k edge terms plus the first k cross terms collapse to the end points. */
  lemma {:induction false} Telescope(pts: seq<Point>, k: nat)
    requires 1 <= k <= |pts|
    ensures WindingUpTo(pts, k) + CrossUpTo(pts, k) == pts[k - 1].x * pts[k - 1].y - pts[|pts| - 1].x * pts[|pts| - 1].y
  {
    EdgePlusCross(Prev(pts, k - 1), pts[k - 1]);
    if k > 1 {
      Telescope(pts, k - 1);
    }
  }

  /** The winding sum is minus twice the signed area, so its flag is true exactly for clockwise (y up) contours. */
  lemma WindingIsShoelace(pts: seq<Point>)
    requires |pts| > 0
    ensures WindingSum(pts) == -DoubleArea(pts)
    ensures WindingSum(pts) > 0 <==> DoubleArea(pts) < 0
  {
    Telescope(pts, |pts|);
  }

  lemma EdgesOfReverse(pts: seq<Point>)
    requires |pts| > 0
    ensures Edges(Reverse(pts)) == [-Edges(pts)[0]] + Negate(Reverse(Edges(pts)[1..]))
  {
    var n := |pts|;
    var r := Reverse(pts);
    var e := Edges(pts);
    var rhs := [-e[0]] + Negate(Reverse(e[1..]));
    forall j | 0 <= j < n
      ensures Edges(r)[j] == rhs[j]
    {
      if j == 0 {
        EdgeAntisymmetric(pts[n - 1], pts[0]);
      } else {
        EdgeAntisymmetric(pts[n - j - 1], pts[n - j]);
        assert rhs[j] == -e[n - j];
      }
    }
  }

  /** Traversing a contour backwards negates its winding sum. */
  lemma WindingReverse(pts: seq<Point>)
    ensures WindingSum(Reverse(pts)) == -WindingSum(pts)
  {
    WindingSumOfEdges(pts);
    WindingSumOfEdges(Reverse(pts));
    if pts != [] {
      EdgesOfReverse(pts);
      SumHeadAndReversedTail(Edges(pts));
    }
  }

  /** So a contour with a non-zero sum changes its outer/hole flag when reversed. */
  lemma ReverseFlipsFlag(pts: seq<Point>)
    requires WindingSum(pts) != 0
    ensures WindingSum(Reverse(pts)) > 0 <==> !(WindingSum(pts) > 0)
  {
    WindingReverse(pts);
  }

  /** The unit square: counter-clockwise (y up) gives sum -2, clockwise gives +2. */
  lemma UnitSquareWinding()
    ensures WindingSum([Point(0, 0, 1), Point(1, 0, 1), Point(1, 1, 1), Point(0, 1, 1)]) == -2
    ensures WindingSum([Point(0, 1, 1), Point(1, 1, 1), Point(1, 0, 1), Point(0, 0, 1)]) == 2
  {
    var ccw := [Point(0, 0, 1), Point(1, 0, 1), Point(1, 1, 1), Point(0, 1, 1)];
    var cw := [Point(0, 1, 1), Point(1, 1, 1), Point(1, 0, 1), Point(0, 0, 1)];
    assert WindingUpTo(ccw, 1) == 0 && WindingUpTo(ccw, 2) == 0 && WindingUpTo(ccw, 3) == 0;
    assert WindingUpTo(cw, 1) == 0 && WindingUpTo(cw, 2) == 2 && WindingUpTo(cw, 3) == 2;
  }

  /**
   * Two adjacent control points (0,0) and (2,2) get the on-curve point (1,1)
   * between them. They are also adjacent across the wrap from the last point to
   * the first, where the TrueType glyf rule puts a second implicit point; the
   * pushed curve has none, because the previous point's off-curve flag starts
   * false.
   */
  lemma ImplicitPointExample()
    ensures Outline([Point(0, 0, 0), Point(2, 2, 0)]) ==
      [CurvePoint(V2(0.0, 0.0), true), CurvePoint(V2(1.0, 1.0), false), CurvePoint(V2(2.0, 2.0), true)]
  {
    var pts := [Point(0, 0, 0), Point(2, 2, 0)];
    assert Off(pts[0]) && Off(pts[1]);
    assert Emit(pts, 1) == [CurvePoint(V2(0.0, 0.0), true)];
  }

  // ---------------------------------------------------------------------------
  // glyph_curve

  /** The polygon of contour n's pushed curve. */
  function ContourShape(g: GlyphBuf, n: int): Region
    requires ValidContour(g, n)
  {
    Polygon(Outline(ContourPoints(g, n)))
  }

  /** The flag glyph_curve returns for contour n: union it rather than cut it out. */
  predicate Outer(g: GlyphBuf, n: int)
    requires ValidContour(g, n)
  {
    WindingSum(ContourPoints(g, n)) > 0
  }

  /** glyph_curve: one contour's polygon and its winding flag. */
  method GlyphCurve(g: GlyphBuf, n: int) returns (s: Region, cw: bool)
    requires ValidContour(g, n)
    ensures s == Polygon(Outline(ContourPoints(g, n)))
    ensures cw <==> WindingSum(ContourPoints(g, n)) > 0
  {
    var start := 0;
    if n != 0 {
      start := g.ends[n - 1];
    }
    var end := g.ends[n] - 1;
    ghost var pts := ContourPoints(g, n);

    var b: seq<CurvePoint> := [];
    var sum := 0;
    var offPrev := false;
    var pPrev := g.points[end];
    var vPrev := PointToV2(pPrev);

    var i := start;
    while i <= end
      invariant start <= i <= end + 1
      invariant b == Emit(pts, i - start)
      invariant sum == WindingUpTo(pts, i - start)
      invariant i <= end ==> pPrev == Prev(pts, i - start)
      invariant vPrev == PointToV2(pPrev)
      invariant offPrev == (i > start && Off(pPrev))
    {
      var p := g.points[i];
      ContourPointAt(g, n, i);
      var v := PointToV2(p);
      var off := Off(p);
      EmitNext(pts, i - start);
      if off && offPrev {
        b := b + [CurvePoint(Midpoint(v, vPrev), false)];
      }
      b := b + [CurvePoint(v, off)];
      sum := sum + Edge(pPrev, p);
      pPrev, vPrev, offPrev := p, v, off;
      i := i + 1;
    }
    s := Polygon(b);
    cw := sum > 0;
  }

  // ---------------------------------------------------------------------------
  // glyph_convert

  /** The accumulator after the first k contours: unions for outer contours, differences for holes. */
  function Compose(g: GlyphBuf, k: int): Region
    requires ValidGlyph(g) && 0 <= k <= |g.ends|
  {
    if k == 0 then Empty
    else if Outer(g, k - 1) then UnionOf([Compose(g, k - 1), ContourShape(g, k - 1)])
    else Difference(Compose(g, k - 1), ContourShape(g, k - 1))
  }

  /** The shape of a whole glyph. */
  function GlyphShape(g: GlyphBuf): Region
    requires ValidGlyph(g)
  {
    Compose(g, |g.ends|)
  }

  /** glyph_convert: fold the contours into one shape. */
  method GlyphConvert(g: GlyphBuf) returns (s: Region)
    requires ValidGlyph(g)
    ensures s == GlyphShape(g)
  {
    s := Empty;
    var n := 0;
    while n < |g.ends|
      invariant 0 <= n <= |g.ends|
      invariant s == Compose(g, n)
    {
      var s1, cw := GlyphCurve(g, n);
      if cw {
        s := UnionOf([s, s1]);
      } else {
        s := Difference(s, s1);
      }
      n := n + 1;
    }
  }

  /**
   * Reads back the left spine of a folded shape: each step's (union?, contour)
   * pair, innermost first.
   */
  function Spine(r: Region): seq<(bool, Region)>
  {
    match r
    case UnionOf(parts) => if |parts| == 2 then Spine(parts[0]) + [(true, parts[1])] else []
    case Difference(a, b) => Spine(a) + [(false, b)]
    case _ => []
  }

  /** The innermost accumulator of a folded shape. */
  function Base(r: Region): Region
  {
    match r
    case UnionOf(parts) => if |parts| == 2 then Base(parts[0]) else r
    case Difference(a, _) => Base(a)
    case _ => r
  }

  /**
   * The glyph's shape is the left fold over its contours in order, starting
   * from the empty shape: reading the fold back gives every contour, in
   * order, tagged with its own winding flag.
   */
  lemma {:induction false} ComposeSpine(g: GlyphBuf, k: int)
    requires ValidGlyph(g) && 0 <= k <= |g.ends|
    ensures Base(Compose(g, k)) == Empty
    ensures |Spine(Compose(g, k))| == k
    ensures forall n :: 0 <= n < k ==> Spine(Compose(g, k))[n] == (Outer(g, n), ContourShape(g, n))
  {
    if k > 0 {
      ComposeSpine(g, k - 1);
    }
  }

  lemma GlyphShapeSpine(g: GlyphBuf)
    requires ValidGlyph(g)
    ensures Base(GlyphShape(g)) == Empty
    ensures Spine(GlyphShape(g)) == seq(|g.ends|, n requires 0 <= n < |g.ends| => (Outer(g, n), ContourShape(g, n)))
  {
    ComposeSpine(g, |g.ends|);
  }

  /** A glyph composes to the nil shape exactly when it has no contours. */
  lemma GlyphShapeEmpty(g: GlyphBuf)
    requires ValidGlyph(g)
    ensures GlyphShape(g) == Empty <==> |g.ends| == 0
  {
  }
}
