/** The immutable closed polygon: at least three points, one edge per point
    with the last closing back to the first, the nearest point of its outline
    and the even-odd ray-casting membership test. */
module Polygons {
  import opened Wrappers
  import opened Points
  import opened Lines
  import opened Search
  import opened Segments
  import MathUtils

  datatype Polygon = Polygon(points: seq<XY>)

  /** The constructor throws for fewer than three points. */
  function MakePolygon(points: seq<XY>): (r: Result<Polygon>)
    ensures r.Failure? <==> |points| < 3
    ensures r.Failure? ==> r.error == TooFewPoints
    ensures r.Success? ==> r.value.points == points
  {
    if |points| < 3 then Failure(TooFewPoints) else Success(Polygon(points))
  }

  /** `GetLineSegments`: edge `i` runs from point `i` to point `(i + 1) % N`. */
  function Edges(pg: Polygon): (segs: seq<Line>)
    ensures |segs| == |pg.points|
    ensures forall i :: 0 <= i < |segs| ==> segs[i].start == pg.points[i]
  {
    var n := |pg.points|;
    seq(n, i requires 0 <= i < n => Line(pg.points[i], pg.points[(i + 1) % n]))
  }

  /** The edges form a closed chain: each edge ends where the next begins, and
      the last edge ends at the first point. */
  lemma EdgesChain(pg: Polygon, i: int)
    requires 0 <= i < |pg.points|
    ensures Edges(pg)[i].end == Edges(pg)[(i + 1) % |pg.points|].start
    ensures i == |pg.points| - 1 ==> Edges(pg)[i].end == pg.points[0]
    ensures i < |pg.points| - 1 ==> Edges(pg)[i].end == pg.points[i + 1]
  {
    var n := |pg.points|;
    if i == n - 1 {
      assert (i + 1) % n == 0;
    } else {
      assert (i + 1) % n == i + 1;
    }
  }

  /** `ClosestPointEdge`: the nearest candidate over all edges; only a polygon
      without points (which the constructor rules out) has none. */
  function ClosestPointEdge(pg: Polygon, p: XY): (r: Result<XY>)
    ensures r.Failure? <==> |pg.points| == 0
    ensures r.Success? ==> r.value in Candidates(Edges(pg), p)
    ensures r.Success? ==> forall i :: 0 <= i < |pg.points| ==> Dist2(r.value, p) <= Distance2(Edges(pg)[i], p)
  {
    ClosestOnSegments(Edges(pg), p)
  }

  /** A constructed polygon always has an edge point nearest to `p`, and it is
      no farther than any point of any edge. */
  lemma ClosestPointEdgeMinimal(points: seq<XY>, p: XY, i: int, s: real)
    requires MakePolygon(points).Success?
    requires 0 <= i < |points| && 0.0 <= s <= 1.0
    ensures ClosestPointEdge(MakePolygon(points).value, p).Success?
    ensures var e := Edges(Polygon(points))[i];
      Dist2(ClosestPointEdge(MakePolygon(points).value, p).value, p) <= Dist2(p, PointAt(e.start, e.end, s))
  {
    ClosestOnSegmentsGlobal(Edges(Polygon(points)), p, i, s);
  }

  /** The vertex before `i` in the ray-casting loop: `j` starts at the last
      point and then trails `i` by one. */
  function Prev(i: nat, n: nat): (j: nat)
    requires i < n
    ensures j < n
    ensures (j + 1) % n == i
  {
    var j := if i == 0 then n - 1 else i - 1;
    assert (j + 1) % n == i by {
      if i == 0 { MathUtils.DivModUnique(j + 1, n, 1, 0); } else { MathUtils.DivModUnique(j + 1, n, 0, i); }
    }
    j
  }

  /** The half-open Y test of the loop: exactly one of the two endpoints lies
      strictly below `point.y`, that is, `point.y` lies in the half-open range
      from the lower endpoint (excluded) to the upper one (included). The edge
      is then not horizontal, so the division in the crossing test is well
      defined. */
  function StraddlesY(pi: XY, pj: XY, point: XY): (r: bool)
    ensures r <==> MathUtils.Min(pi.y, pj.y) < point.y <= MathUtils.Max(pi.y, pj.y)
    ensures r ==> pj.y - pi.y != 0.0
  {
    (pi.y < point.y && pj.y >= point.y) || (pj.y < point.y && pi.y >= point.y)
  }

  /** The parameter at which the edge `pi`-`pj` reaches the height of a ray
      it straddles; it lies in [0, 1], so the meeting point is on the edge. */
  function HeightParameter(pi: XY, pj: XY, point: XY): (s: real)
    requires StraddlesY(pi, pj, point)
    ensures 0.0 <= s <= 1.0
    ensures PointAt(pi, pj, s).y == point.y
  {
    var s := (point.y - pi.y) / (pj.y - pi.y);
    HeightParameterBounds(pj.y - pi.y, point.y - pi.y, s);
    s
  }

  lemma HeightParameterBounds(d: real, e: real, s: real)
    requires (0.0 < e <= d || d < e <= 0.0) && s == e / d
    ensures 0.0 <= s <= 1.0 && s * d == e
  {
    var a := if d > 0.0 then d else -d;
    var b := if d > 0.0 then e else -e;
    assert s == b / a;
    MathUtils.DivMul(b, a);
    assert 0.0 <= b <= a;
    if s < 0.0 { MathUtils.MulLess(s, 0.0, a); }
    if s > 1.0 { MathUtils.MulLess(1.0, s, a); }
  }

  /** No other parameter of a straddling edge reaches the ray's height. */
  lemma HeightParameterUnique(pi: XY, pj: XY, point: XY, u: real)
    requires StraddlesY(pi, pj, point) && PointAt(pi, pj, u).y == point.y
    ensures u == HeightParameter(pi, pj, point)
  {
    var s := HeightParameter(pi, pj, point);
    ScaleCancel(u, s, pj.y - pi.y);
  }

  /** The edge `pi`-`pj` crosses the horizontal ray going left from `point`:
      it straddles the ray's height and meets it strictly left of `point`. */
  function Crosses(pi: XY, pj: XY, point: XY): (r: bool)
    ensures r <==> StraddlesY(pi, pj, point) && PointAt(pi, pj, HeightParameter(pi, pj, point)).x < point.x
  {
    StraddlesY(pi, pj, point) &&
    pi.x + (point.y - pi.y) / (pj.y - pi.y) * (pj.x - pi.x) < point.x
  }

  /** `Crosses` is the two nested tests of the loop body. */
  lemma CrossesIsLoopTest(pi: XY, pj: XY, point: XY)
    ensures Crosses(pi, pj, point) <==>
      ((pi.y < point.y && pj.y >= point.y) || (pj.y < point.y && pi.y >= point.y)) &&
      pi.x + (point.y - pi.y) / (pj.y - pi.y) * (pj.x - pi.x) < point.x
  {
  }

  /** The toggling of `result` over the first `n` iterations of the loop: it
      stays false while no edge crosses the ray. */
  function InsideAfter(points: seq<XY>, point: XY, n: nat): (r: bool)
    requires n <= |points|
    ensures (forall i :: 0 <= i < n ==> !Crosses(points[i], points[Prev(i, |points|)], point)) ==> !r
  {
    if n == 0 then false
    else
      var i := n - 1;
      var toggled := Crosses(points[i], points[Prev(i, |points|)], point);
      if toggled then !InsideAfter(points, point, i) else InsideAfter(points, point, i)
  }

  /** The edges (by index of their first point in loop order) that the ray
      crosses. */
  function CrossingSet(points: seq<XY>, point: XY, n: nat): set<nat>
    requires n <= |points|
  {
    set i: nat | i < n && Crosses(points[i], points[Prev(i, |points|)], point)
  }

  /** `IsPointInPolygon`: even-odd rule. */
  function IsPointInPolygon(pg: Polygon, point: XY): (r: bool)
    ensures r <==> |CrossingSet(pg.points, point, |pg.points|)| % 2 == 1
  {
    InsideParity(pg.points, point, |pg.points|);
    InsideAfter(pg.points, point, |pg.points|)
  }

  /** The toggled flag is the parity of the number of crossings so far. */
  lemma {:induction false} InsideParity(points: seq<XY>, point: XY, n: nat)
    requires n <= |points|
    ensures InsideAfter(points, point, n) <==> |CrossingSet(points, point, n)| % 2 == 1
  {
    if n == 0 {
      assert CrossingSet(points, point, 0) == {};
    } else {
      var i := n - 1;
      InsideParity(points, point, i);
      CrossingSetStep(points, point, i);
      var crosses := Crosses(points[i], points[Prev(i, |points|)], point);
      var before := CrossingSet(points, point, i);
      assert InsideAfter(points, point, n) == (InsideAfter(points, point, i) != crosses);
      assert |CrossingSet(points, point, n)| == if crosses then |before| + 1 else |before|;
      ParityToggle(InsideAfter(points, point, i), crosses, |before|, |CrossingSet(points, point, n)|);
    }
  }

  /** Toggling a flag that tracks the parity of a count, exactly when the
      count goes up by one, keeps tracking it. */
  lemma ParityToggle(flag: bool, step: bool, k: nat, m: nat)
    requires flag <==> k % 2 == 1
    requires m == if step then k + 1 else k
    ensures (flag != step) <==> m % 2 == 1
  {
  }

  /** One more iteration adds its edge to the crossing set exactly when that
      edge crosses, and the edge was not counted before. */
  lemma CrossingSetStep(points: seq<XY>, point: XY, i: nat)
    requires i < |points|
    ensures i !in CrossingSet(points, point, i)
    ensures CrossingSet(points, point, i + 1) ==
      if Crosses(points[i], points[Prev(i, |points|)], point)
      then CrossingSet(points, point, i) + {i}
      else CrossingSet(points, point, i)
  {
  }

  /** The loop as the source writes it, with `j` trailing `i`. */
  method IsPointInPolygonLoop(pg: Polygon, point: XY) returns (result: bool)
    ensures result == IsPointInPolygon(pg, point)
  {
    var n := |pg.points|;
    result := false;
    if n == 0 {
      return;
    }
    var j := n - 1;
    var i := 0;
    while i < n
      invariant 0 <= i <= n
      invariant i == 0 ==> j == n - 1
      invariant i > 0 ==> j == i - 1
      invariant result == InsideAfter(pg.points, point, i)
    {
      var pi, pj := pg.points[i], pg.points[j];
      assert j == Prev(i, n);
      ghost var crosses := Crosses(pi, pj, point);
      CrossesIsLoopTest(pi, pj, point);
      assert InsideAfter(pg.points, point, i + 1) == if crosses then !result else result;
      if (pi.y < point.y && pj.y >= point.y) || (pj.y < point.y && pi.y >= point.y) {
        if pi.x + (point.y - pi.y) / (pj.y - pi.y) * (pj.x - pi.x) < point.x {
          result := !result;
        }
      }
      assert result == InsideAfter(pg.points, point, i + 1);
      j := i;
      i := i + 1;
    }
  }

  /** `ClosestPointShape`: the query point itself when it is inside, otherwise
      the nearest edge point. The edge search runs first, as in the source. */
  function ClosestPointShape(pg: Polygon, p: XY): (r: Result<XY>)
    ensures r.Failure? <==> |pg.points| == 0
    ensures r.Success? && IsPointInPolygon(pg, p) ==> r.value == p
    ensures r.Success? && !IsPointInPolygon(pg, p) ==> r == ClosestPointEdge(pg, p)
  {
    var edge :- ClosestPointEdge(pg, p);
    if IsPointInPolygon(pg, p) then Success(p) else Success(edge)
  }

  /** A point strictly above every vertex crosses no edge and is outside. */
  lemma AboveAllVerticesIsOutside(pg: Polygon, point: XY)
    requires forall i :: 0 <= i < |pg.points| ==> pg.points[i].y < point.y
    ensures !IsPointInPolygon(pg, point)
  {
    assert CrossingSet(pg.points, point, |pg.points|) == {};
  }

  /** The axis-aligned rectangle through four corners, in the order the tests
      use: bottom-left, bottom-right, top-right, top-left. */
  function Rectangle(x0: real, y0: real, x1: real, y1: real): Polygon {
    Polygon([XY(x0, y0), XY(x1, y0), XY(x1, y1), XY(x0, y1)])
  }

  /** A point strictly inside a rectangle is inside the polygon (only the left
      edge crosses its ray), so the shape's closest point is the point itself. */
  lemma RectangleInterior(x0: real, y0: real, x1: real, y1: real, point: XY)
    requires x0 < point.x < x1 && y0 < point.y < y1
    ensures IsPointInPolygon(Rectangle(x0, y0, x1, y1), point)
    ensures ClosestPointShape(Rectangle(x0, y0, x1, y1), point) == Success(point)
  {
    var pts := Rectangle(x0, y0, x1, y1).points;
    assert (point.y - y0) / (y1 - y0) * (x0 - x0) == 0.0;
    assert Crosses(pts[0], pts[3], point);
    assert !Crosses(pts[1], pts[0], point);
    assert (point.y - y1) / (y0 - y1) * (x1 - x1) == 0.0;
    assert !Crosses(pts[2], pts[1], point);
    assert !Crosses(pts[3], pts[2], point);
    assert InsideAfter(pts, point, 1);
    assert InsideAfter(pts, point, 2);
    assert InsideAfter(pts, point, 3);
    assert InsideAfter(pts, point, 4);
  }

  /** The square (0,0),(5,0),(5,5),(0,5): (3,3) is inside. */
  lemma SquareInsideExample()
    ensures IsPointInPolygon(Rectangle(0.0, 0.0, 5.0, 5.0), XY(3.0, 3.0))
  {
    RectangleInterior(0.0, 0.0, 5.0, 5.0, XY(3.0, 3.0));
  }

  /** The same square: (6,6) is outside. */
  lemma SquareOutsideExample()
    ensures !IsPointInPolygon(Rectangle(0.0, 0.0, 5.0, 5.0), XY(6.0, 6.0))
  {
    var pg := Rectangle(0.0, 0.0, 5.0, 5.0);
    assert forall i :: 0 <= i < |pg.points| ==> pg.points[i].y < 6.0;
    AboveAllVerticesIsOutside(pg, XY(6.0, 6.0));
  }

  /** A point above an axis-aligned square, within its horizontal extent, is
      nearest to its vertical projection onto the top edge. */
  lemma SquareEdgeAbove(lo: real, hi: real, p: XY)
    requires lo < p.x < hi < p.y
    ensures ClosestPointEdge(Rectangle(lo, lo, hi, hi), p) == Success(XY(p.x, hi))
  {
    var segs := SquareEdges(lo, hi);
    SquareCandidates(segs, lo, hi, p);
    var ds := Distances(Candidates(segs, p), p);
    TopEdgeNearest(lo, hi, p);
    assert |ds| == 4;
    assert ds[0] == Dist2(XY(p.x, lo), p) && ds[1] == Dist2(XY(hi, hi), p);
    assert ds[2] == Dist2(XY(p.x, hi), p) && ds[3] == Dist2(XY(lo, hi), p);
    ThirdIsFirstMin(ds);
    ClosestOnSegmentsAt(segs, p, 2);
  }

  /** Of four values, one strictly below the other three is the first minimum. */
  lemma ThirdIsFirstMin(ds: seq<real>)
    requires |ds| == 4 && ds[2] < ds[0] && ds[2] < ds[1] && ds[2] < ds[3]
    ensures IsFirstMin(ds, 2)
  {
  }

  /** The top foot is strictly nearer than the other three candidates. */
  lemma TopEdgeNearest(lo: real, hi: real, p: XY)
    requires lo < p.x < hi < p.y
    ensures Dist2(XY(p.x, hi), p) < Dist2(XY(p.x, lo), p)
    ensures Dist2(XY(p.x, hi), p) < Dist2(XY(hi, hi), p)
    ensures Dist2(XY(p.x, hi), p) < Dist2(XY(lo, hi), p)
  {
    assert Sqr(p.x - p.x) == 0.0;
    SqrNegate(hi - p.y, p.y - hi);
    SqrNegate(lo - p.y, p.y - lo);
    PositiveSquareLess(p.y - hi, p.y - lo);
    SqrNonNegative(hi - p.y);
    SqrZero(hi - p.x);
    SqrNonNegative(hi - p.x);
    SqrZero(lo - p.x);
    SqrNonNegative(lo - p.x);
  }

  lemma SqrNegate(a: real, b: real)
    requires b == -a
    ensures Sqr(a) == Sqr(b)
  {
  }

  /** The square with corners (0,0) and (5,5): the outline point nearest to
      (2,7) is (2,5) on the top edge. */
  lemma SquareEdgeExample()
    ensures ClosestPointEdge(Rectangle(0.0, 0.0, 5.0, 5.0), XY(2.0, 7.0)) == Success(XY(2.0, 5.0))
  {
    SquareEdgeAbove(0.0, 5.0, XY(2.0, 7.0));
  }

  /** The edges of an axis-aligned square, in vertex order. */
  lemma SquareEdges(lo: real, hi: real) returns (segs: seq<Line>)
    ensures segs == Edges(Rectangle(lo, lo, hi, hi))
    ensures segs == [Line(XY(lo, lo), XY(hi, lo)), Line(XY(hi, lo), XY(hi, hi)),
                     Line(XY(hi, hi), XY(lo, hi)), Line(XY(lo, hi), XY(lo, lo))]
  {
    var pg := Rectangle(lo, lo, hi, hi);
    segs := Edges(pg);
    EdgesChain(pg, 0);
    EdgesChain(pg, 1);
    EdgesChain(pg, 2);
    EdgesChain(pg, 3);
  }

  /** Squares of positive numbers keep their order. */
  lemma PositiveSquareLess(a: real, b: real)
    requires 0.0 < a < b
    ensures Sqr(a) < Sqr(b)
  {
    MathUtils.MulLess(a, b, a);
    MathUtils.MulLess(a, b, b);
  }

  /** Each edge of an axis-aligned square offers its clamped foot of a point
      above the square: the top and bottom edges clamp `x`, the side edges
      clamp `y` to the top. */
  lemma SquareCandidates(segs: seq<Line>, lo: real, hi: real, p: XY)
    requires lo < p.x < hi < p.y
    requires segs == [Line(XY(lo, lo), XY(hi, lo)), Line(XY(hi, lo), XY(hi, hi)),
                      Line(XY(hi, hi), XY(lo, hi)), Line(XY(lo, hi), XY(lo, lo))]
    ensures Candidates(segs, p) == [XY(p.x, lo), XY(hi, hi), XY(p.x, hi), XY(lo, hi)]
  {
    HorizontalFoot(segs[0].start, segs[0].end, p);
    VerticalFoot(segs[1].start, segs[1].end, p);
    HorizontalFoot(segs[2].start, segs[2].end, p);
    VerticalFoot(segs[3].start, segs[3].end, p);
  }
}
