/** The immutable open polyline: at least one point, one segment between each
    pair of consecutive points and no closing segment, its total length and
    the nearest point of its segments. */
module Polylines {
  import opened Wrappers
  import opened Points
  import opened Lines
  import opened Search
  import opened Segments
  import MathUtils

  datatype Polyline = Polyline(points: seq<XY>)

  /** The constructor throws when no point is given. */
  function MakePolyline(points: seq<XY>): (r: Result<Polyline>)
    ensures r.Failure? <==> |points| == 0
    ensures r.Failure? ==> r.error == NoPoints
    ensures r.Success? ==> r.value.points == points
  {
    if |points| == 0 then Failure(NoPoints) else Success(Polyline(points))
  }

  /** `GetLineSegments`: segment `i` runs from point `i` to point `i + 1`; the
      first point only becomes the previous point, so there is one segment
      fewer than points. */
  function Edges(pl: Polyline): (segs: seq<Line>)
    ensures |pl.points| > 0 ==> |segs| == |pl.points| - 1
    ensures |pl.points| == 0 ==> |segs| == 0
    ensures forall i :: 0 <= i < |segs| ==> segs[i] == Line(pl.points[i], pl.points[i + 1])
  {
    var n := |pl.points|;
    if n == 0 then []
    else seq(n - 1, i requires 0 <= i < n - 1 => Line(pl.points[i], pl.points[i + 1]))
  }

  /** The points a chain of segments passes through: the first start point,
      then every end point. */
  function Vertices(segs: seq<Line>): (pts: seq<XY>)
    requires |segs| > 0
    ensures |pts| == |segs| + 1
  {
    [segs[0].start] + seq(|segs|, i requires 0 <= i < |segs| => segs[i].end)
  }

  /** The segments lose nothing: a polyline with at least one segment is
      recovered from them, and consecutive segments share an end point. */
  lemma EdgesRecoverPoints(pl: Polyline)
    requires |pl.points| >= 2
    ensures Vertices(Edges(pl)) == pl.points
    ensures forall i :: 0 <= i < |Edges(pl)| - 1 ==> Edges(pl)[i].end == Edges(pl)[i + 1].start
  {
    var segs := Edges(pl);
    var vs := Vertices(segs);
    forall i | 0 <= i < |vs|
      ensures vs[i] == pl.points[i]
    {
      if i > 0 {
        assert vs[i] == segs[i - 1].end;
      }
    }
  }

  /** A distance between two points, supplied by the caller: `DistanceTo`
      takes a square root, which the model does not compute. */
  type Distance = (XY, XY) -> real

  ghost predicate NonNegative(dist: Distance) {
    forall a: XY, b: XY :: dist(a, b) >= 0.0
  }

  ghost predicate Symmetric(dist: Distance) {
    forall a: XY, b: XY :: dist(a, b) == dist(b, a)
  }

  /** The running sum of `TotalLength` after visiting every point of `pts`:
      each point after the first adds its distance from the previous one. */
  function LengthOf(pts: seq<XY>, dist: Distance): (r: real)
    ensures |pts| <= 1 ==> r == 0.0
    ensures |pts| == 2 ==> r == dist(pts[0], pts[1])
    ensures NonNegative(dist) ==> r >= 0.0
    decreases |pts|
  {
    if |pts| < 2 then 0.0
    else
      var n := |pts|;
      LengthOf(pts[..n - 1], dist) + dist(pts[n - 2], pts[n - 1])
  }

  function TotalLength(pl: Polyline, dist: Distance): (r: real)
    requires NonNegative(dist)
    ensures r >= 0.0
    ensures |pl.points| <= 1 ==> r == 0.0
  {
    LengthOf(pl.points, dist)
  }

  /** The running sum also splits off the first segment. */
  lemma {:induction false} LengthSplitsFirst(pts: seq<XY>, dist: Distance)
    requires |pts| >= 2
    ensures LengthOf(pts, dist) == dist(pts[0], pts[1]) + LengthOf(pts[1..], dist)
    decreases |pts|
  {
    var n := |pts|;
    if n > 2 {
      LengthSplitsFirst(pts[..n - 1], dist);
      assert pts[..n - 1][1..] == pts[1..][..n - 2];
      assert pts[..n - 1][0] == pts[0] && pts[..n - 1][1] == pts[1];
    } else {
      assert pts[..1] == [pts[0]];
      assert pts[1..] == [pts[1]];
    }
  }

  /** The lengths of a sequence of segments, added up front to back. */
  function SegmentsLength(segs: seq<Line>, dist: Distance): (r: real)
    ensures |segs| == 0 ==> r == 0.0
    ensures NonNegative(dist) ==> r >= 0.0
  {
    if |segs| == 0 then 0.0
    else dist(segs[0].start, segs[0].end) + SegmentsLength(segs[1..], dist)
  }

  /** `TotalLength` is the sum of the lengths of the polyline's segments. */
  lemma {:induction false} LengthIsSumOverEdges(pts: seq<XY>, dist: Distance)
    ensures LengthOf(pts, dist) == SegmentsLength(Edges(Polyline(pts)), dist)
    decreases |pts|
  {
    if |pts| >= 2 {
      LengthSplitsFirst(pts, dist);
      LengthIsSumOverEdges(pts[1..], dist);
      var segs := Edges(Polyline(pts));
      assert segs[0] == Line(pts[0], pts[1]);
      assert segs[1..] == Edges(Polyline(pts[1..]));
    }
  }

  function Reverse(pts: seq<XY>): (r: seq<XY>)
    ensures |r| == |pts|
    ensures forall i :: 0 <= i < |pts| ==> r[i] == pts[|pts| - 1 - i]
  {
    seq(|pts|, i requires 0 <= i < |pts| => pts[|pts| - 1 - i])
  }

  /** Walking a polyline backwards covers the same length when the distance
      is symmetric. */
  lemma {:induction false} LengthOfReverse(pts: seq<XY>, dist: Distance)
    requires Symmetric(dist)
    ensures LengthOf(Reverse(pts), dist) == LengthOf(pts, dist)
    decreases |pts|
  {
    var n := |pts|;
    if n >= 2 {
      var r := Reverse(pts);
      LengthOfReverse(pts[1..], dist);
      assert r[..n - 1] == Reverse(pts[1..]);
      assert r[n - 2] == pts[1] && r[n - 1] == pts[0];
      LengthSplitsFirst(pts, dist);
    }
  }

  /** `TotalLength` as the source computes it: a loop that remembers the
      previous point and adds its distance to the current one. */
  method TotalLengthLoop(pl: Polyline, dist: Distance) returns (total: real)
    requires NonNegative(dist)
    ensures total == TotalLength(pl, dist)
  {
    total := 0.0;
    var previous: Option<XY> := None;
    var i := 0;
    while i < |pl.points|
      invariant 0 <= i <= |pl.points|
      invariant i == 0 <==> previous.None?
      invariant i > 0 ==> previous == Some(pl.points[i - 1])
      invariant total == LengthOf(pl.points[..i], dist)
    {
      var point := pl.points[i];
      assert pl.points[..i + 1][..i] == pl.points[..i];
      if previous.Some? {
        total := total + dist(previous.value, point);
      }
      previous := Some(point);
      i := i + 1;
    }
    assert pl.points[..i] == pl.points;
  }

  /** `ClosestPoint`: the first strictly nearest segment candidate; a single
      point has no segment, so no candidate, and the source throws. */
  function ClosestPoint(pl: Polyline, p: XY): (r: Result<XY>)
    ensures r.Failure? <==> |pl.points| <= 1
    ensures r.Failure? ==> r.error == NoCandidate
    ensures r.Success? ==> r.value in Candidates(Edges(pl), p)
    ensures r.Success? ==> forall i :: 0 <= i < |Edges(pl)| ==> Dist2(r.value, p) <= Distance2(Edges(pl)[i], p)
  {
    ClosestOnSegments(Edges(pl), p)
  }

  /** The result is no farther than any point of any segment. */
  lemma ClosestPointMinimal(pl: Polyline, p: XY, i: int, s: real)
    requires 0 <= i < |pl.points| - 1 && 0.0 <= s <= 1.0
    ensures ClosestPoint(pl, p).Success?
    ensures Dist2(ClosestPoint(pl, p).value, p) <= Dist2(p, PointAt(pl.points[i], pl.points[i + 1], s))
  {
    ClosestOnSegmentsGlobal(Edges(pl), p, i, s);
  }

  /** An L-shaped polyline (lo,lo), (hi,lo), (hi,hi) and a point inside the
      corner that is no nearer to the vertical segment than to the horizontal
      one: the horizontal segment's foot is kept, also on a tie. */
  lemma CornerTieKeepsFirst(lo: real, hi: real, p: XY)
    requires lo < p.x < hi && lo < p.y && p.y - lo <= hi - p.x
    ensures ClosestPoint(Polyline([XY(lo, lo), XY(hi, lo), XY(hi, hi)]), p) == Success(XY(p.x, lo))
  {
    var pl := Polyline([XY(lo, lo), XY(hi, lo), XY(hi, hi)]);
    var segs := Edges(pl);
    assert segs == [Line(XY(lo, lo), XY(hi, lo)), Line(XY(hi, lo), XY(hi, hi))];
    HorizontalFoot(segs[0].start, segs[0].end, p);
    VerticalFoot(segs[1].start, segs[1].end, p);
    var cs := Candidates(segs, p);
    assert cs == [XY(p.x, lo), XY(hi, p.y)];
    CornerDistances(lo, hi, p);
    var ds := Distances(cs, p);
    assert IsFirstMin(ds, 0);
    ClosestOnSegmentsAt(segs, p, 0);
  }

  lemma CornerDistances(lo: real, hi: real, p: XY)
    requires lo < p.x < hi && lo < p.y && p.y - lo <= hi - p.x
    ensures Dist2(XY(p.x, lo), p) <= Dist2(XY(hi, p.y), p)
  {
    assert Sqr(p.x - p.x) == 0.0 && Sqr(p.y - p.y) == 0.0;
    assert Sqr(lo - p.y) == (p.y - lo) * (p.y - lo);
    assert Sqr(hi - p.x) == (hi - p.x) * (hi - p.x);
    MathUtils.MulLessEq(p.y - lo, hi - p.x, p.y - lo);
    MathUtils.MulLessEq(p.y - lo, hi - p.x, hi - p.x);
  }

  /** (0,0), (5,0), (5,5) and the target (3,2): both segments are at squared
      distance 4, and the first segment's (3,0) wins. */
  lemma TieExample()
    ensures ClosestPoint(Polyline([XY(0.0, 0.0), XY(5.0, 0.0), XY(5.0, 5.0)]), XY(3.0, 2.0)) == Success(XY(3.0, 0.0))
  {
    CornerTieKeepsFirst(0.0, 5.0, XY(3.0, 2.0));
  }

  /** A constructed single-point polyline has no closest point. */
  lemma SinglePointFails(q: XY, p: XY)
    ensures MakePolyline([q]).Success?
    ensures ClosestPoint(MakePolyline([q]).value, p) == Failure(NoCandidate)
  {
  }
}
