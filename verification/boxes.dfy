/** Axis-aligned bounding boxes: the three constructors, the derived measures
    and the comparison extensions. `ContainsPoint` is the strict test that
    excludes the boundary. */
module Boxes {
  import opened Wrappers
  import opened Points
  import MathUtils

  datatype BoundingBox = BoundingBox(minPoint: XY, maxPoint: XY)

  /** What every constructor establishes: the min corner is below and left of
      the max corner. */
  predicate Valid(b: BoundingBox) {
    b.minPoint.x <= b.maxPoint.x && b.minPoint.y <= b.maxPoint.y
  }

  /** `p` lies in the closed rectangle of `b`, boundary included. */
  predicate InClosed(b: BoundingBox, p: XY) {
    b.minPoint.x <= p.x <= b.maxPoint.x && b.minPoint.y <= p.y <= b.maxPoint.y
  }

  /** `BoundingBox(x1, x2, y1, y2)`: each corner coordinate is the smaller or
      the larger of the two given. */
  function FromCoords(x1: real, x2: real, y1: real, y2: real): (r: BoundingBox)
    ensures Valid(r)
    ensures r.minPoint.x <= x1 && r.minPoint.x <= x2 && (r.minPoint.x == x1 || r.minPoint.x == x2)
    ensures r.maxPoint.x >= x1 && r.maxPoint.x >= x2 && (r.maxPoint.x == x1 || r.maxPoint.x == x2)
    ensures r.minPoint.y <= y1 && r.minPoint.y <= y2 && (r.minPoint.y == y1 || r.minPoint.y == y2)
    ensures r.maxPoint.y >= y1 && r.maxPoint.y >= y2 && (r.maxPoint.y == y1 || r.maxPoint.y == y2)
  {
    BoundingBox(XY(MathUtils.Min(x1, x2), MathUtils.Min(y1, y2)), XY(MathUtils.Max(x1, x2), MathUtils.Max(y1, y2)))
  }

  /** Construction ignores the order of the two coordinates on each axis. */
  lemma FromCoordsOrderInsensitive(x1: real, x2: real, y1: real, y2: real)
    ensures FromCoords(x1, x2, y1, y2) == FromCoords(x2, x1, y1, y2)
    ensures FromCoords(x1, x2, y1, y2) == FromCoords(x1, x2, y2, y1)
  {
  }

  /** `BoundingBox(firstPoint, secondPoint)`: the smallest box with both
      points in its closed rectangle. */
  function FromPoints(first: XY, second: XY): (r: BoundingBox)
    ensures Valid(r)
    ensures InClosed(r, first) && InClosed(r, second)
    ensures forall b :: InClosed(b, first) && InClosed(b, second) ==> b.minPoint.x <= r.minPoint.x && r.maxPoint.x <= b.maxPoint.x && b.minPoint.y <= r.minPoint.y && r.maxPoint.y <= b.maxPoint.y
  {
    BoundingBox(
      XY(MathUtils.Min(first.x, second.x), MathUtils.Min(first.y, second.y)),
      XY(MathUtils.Max(first.x, second.x), MathUtils.Max(first.y, second.y)))
  }

  /** The two-point constructor is the coordinate constructor on the points'
      coordinates, and swapping the points changes nothing. */
  lemma FromPointsSymmetric(first: XY, second: XY)
    ensures FromPoints(first, second) == FromPoints(second, first)
    ensures FromPoints(first, second) == FromCoords(first.x, second.x, first.y, second.y)
  {
  }

  /** One step of the collection constructor's loop: widen `acc` to cover
      `item`. */
  function Join(acc: BoundingBox, item: BoundingBox): (r: BoundingBox)
    ensures Valid(acc) && Valid(item) ==> Valid(r)
    ensures forall p :: InClosed(acc, p) || InClosed(item, p) ==> InClosed(r, p)
  {
    BoundingBox(
      XY(MathUtils.Min(item.minPoint.x, acc.minPoint.x), MathUtils.Min(item.minPoint.y, acc.minPoint.y)),
      XY(MathUtils.Max(item.maxPoint.x, acc.maxPoint.x), MathUtils.Max(item.maxPoint.y, acc.maxPoint.y)))
  }

  /** The loop of the collection constructor over a non-empty sequence. Its
      accumulators start at the extreme doubles, so the first item sets them. */
  function Hull(bs: seq<BoundingBox>): (r: BoundingBox)
    requires |bs| > 0
    ensures forall i :: 0 <= i < |bs| ==>
      r.minPoint.x <= bs[i].minPoint.x && r.minPoint.y <= bs[i].minPoint.y &&
      bs[i].maxPoint.x <= r.maxPoint.x && bs[i].maxPoint.y <= r.maxPoint.y
    ensures exists i :: 0 <= i < |bs| && r.minPoint.x == bs[i].minPoint.x
    ensures exists i :: 0 <= i < |bs| && r.minPoint.y == bs[i].minPoint.y
    ensures exists i :: 0 <= i < |bs| && r.maxPoint.x == bs[i].maxPoint.x
    ensures exists i :: 0 <= i < |bs| && r.maxPoint.y == bs[i].maxPoint.y
    decreases |bs|
  {
    if |bs| == 1 then bs[0]
    else
      var prefix := bs[..|bs| - 1];
      assert forall i :: 0 <= i < |prefix| ==> prefix[i] == bs[i];
      Join(Hull(prefix), bs[|bs| - 1])
  }

  /** `BoundingBox(IEnumerable<BoundingBox>)`: the zero box at the origin for
      no boxes, otherwise the hull of all of them. */
  function FromBoxes(bs: seq<BoundingBox>): (r: BoundingBox)
    ensures |bs| == 0 ==> r == BoundingBox(Origin, Origin)
    ensures |bs| > 0 ==> r == Hull(bs)
    ensures (forall i :: 0 <= i < |bs| ==> Valid(bs[i])) ==> Valid(r)
    ensures forall i :: 0 <= i < |bs| ==> InClosed(r, bs[i].minPoint) || !Valid(bs[i])
    ensures forall i :: 0 <= i < |bs| ==> InClosed(r, bs[i].maxPoint) || !Valid(bs[i])
  {
    if |bs| == 0 then BoundingBox(Origin, Origin)
    else
      var r := Hull(bs);
      assert Valid(bs[0]) ==> Valid(r) by {
        if Valid(bs[0]) {
          assert r.minPoint.x <= bs[0].minPoint.x <= bs[0].maxPoint.x <= r.maxPoint.x;
          assert r.minPoint.y <= bs[0].minPoint.y <= bs[0].maxPoint.y <= r.maxPoint.y;
        }
      }
      r
  }

  /** The collection constructor depends only on which boxes are given, not on
      their order or repetition. */
  lemma FromBoxesOrderInsensitive(bs: seq<BoundingBox>, cs: seq<BoundingBox>)
    requires Elements(bs) == Elements(cs)
    ensures FromBoxes(bs) == FromBoxes(cs)
  {
    var sb, sc := Elements(bs), Elements(cs);
    SameElementsSameEmptiness(bs, cs);
    if |bs| > 0 {
      var r, q := Hull(bs), Hull(cs);
      var i1 :| 0 <= i1 < |bs| && r.minPoint.x == bs[i1].minPoint.x;
      var j1 :| 0 <= j1 < |cs| && q.minPoint.x == cs[j1].minPoint.x;
      assert bs[i1] in sc;
      assert cs[j1] in sb;
      var i2 :| 0 <= i2 < |bs| && r.minPoint.y == bs[i2].minPoint.y;
      var j2 :| 0 <= j2 < |cs| && q.minPoint.y == cs[j2].minPoint.y;
      assert bs[i2] in sc;
      assert cs[j2] in sb;
      var i3 :| 0 <= i3 < |bs| && r.maxPoint.x == bs[i3].maxPoint.x;
      var j3 :| 0 <= j3 < |cs| && q.maxPoint.x == cs[j3].maxPoint.x;
      assert bs[i3] in sc;
      assert cs[j3] in sb;
      var i4 :| 0 <= i4 < |bs| && r.maxPoint.y == bs[i4].maxPoint.y;
      var j4 :| 0 <= j4 < |cs| && q.maxPoint.y == cs[j4].maxPoint.y;
      assert bs[i4] in sc;
      assert cs[j4] in sb;
    }
  }

  /** The boxes of a sequence, ignoring order and repetition. */
  function Elements(bs: seq<BoundingBox>): set<BoundingBox> {
    set b | b in bs
  }

  lemma SameElementsSameEmptiness(bs: seq<BoundingBox>, cs: seq<BoundingBox>)
    requires Elements(bs) == Elements(cs)
    ensures |bs| == 0 <==> |cs| == 0
  {
    if |bs| > 0 {
      assert bs[0] in Elements(cs);
    }
    if |cs| > 0 {
      assert cs[0] in Elements(bs);
    }
  }

  /** `Width`: the horizontal extent. */
  function Width(b: BoundingBox): (r: real)
    ensures Valid(b) ==> r >= 0.0
    ensures b.minPoint.x + r == b.maxPoint.x
  {
    b.maxPoint.x - b.minPoint.x
  }

  /** `Height`: the vertical extent. */
  function Height(b: BoundingBox): (r: real)
    ensures Valid(b) ==> r >= 0.0
    ensures b.minPoint.y + r == b.maxPoint.y
  {
    b.maxPoint.y - b.minPoint.y
  }

  /** `Center`: `(MaxPoint + MinPoint) / 2`; dividing by 2 cannot fail. */
  function Center(b: BoundingBox): (r: XY)
    ensures Div(Add(b.maxPoint, b.minPoint), 2.0) == Success(r)
    ensures Valid(b) ==> InClosed(b, r)
    ensures r.x - b.minPoint.x == b.maxPoint.x - r.x
    ensures r.y - b.minPoint.y == b.maxPoint.y - r.y
  {
    Quotient(Add(b.maxPoint, b.minPoint), 2.0)
  }

  lemma CenterExample()
    ensures Center(FromCoords(1.0, 3.0, 2.0, 4.0)) == XY(2.0, 3.0)
  {
  }

  /** `Expand`: rebuild through the coordinate constructor with every side
      pushed out by `offset`. */
  function Expand(b: BoundingBox, offset: real): (r: BoundingBox)
    ensures Valid(r)
    ensures offset >= 0.0 && Valid(b) ==> Width(r) == Width(b) + 2.0 * offset && Height(r) == Height(b) + 2.0 * offset
  {
    FromCoords(b.minPoint.x - offset, b.maxPoint.x + offset, b.minPoint.y - offset, b.maxPoint.y + offset)
  }

  /** A non-negative offset moves each corner outwards by exactly `offset`, so
      the original box lies inside the expanded one. */
  lemma ExpandShiftsCorners(b: BoundingBox, offset: real)
    requires Valid(b) && offset >= 0.0
    ensures Expand(b, offset).minPoint == Sub(b.minPoint, XY(offset, offset))
    ensures Expand(b, offset).maxPoint == Add(b.maxPoint, XY(offset, offset))
    ensures forall p :: InClosed(b, p) ==> InClosed(Expand(b, offset), p)
  {
  }

  /** `Overlaps`: false as soon as one box lies strictly beyond the other on
      some side, so boxes that only touch do overlap. For boxes built by the
      constructors this holds exactly when the closed rectangles share a
      point. */
  function Overlaps(left: BoundingBox, right: BoundingBox): (r: bool)
    ensures Valid(left) && Valid(right) ==> (r <==> exists p :: InClosed(left, p) && InClosed(right, p))
  {
    var r :=
      if left.maxPoint.x < right.minPoint.x then false
      else if left.maxPoint.y < right.minPoint.y then false
      else if left.minPoint.x > right.maxPoint.x then false
      else if left.minPoint.y > right.maxPoint.y then false
      else true;
    var corner := XY(MathUtils.Max(left.minPoint.x, right.minPoint.x), MathUtils.Max(left.minPoint.y, right.minPoint.y));
    assert Valid(left) && Valid(right) && r ==> InClosed(left, corner) && InClosed(right, corner);
    r
  }

  lemma OverlapsSymmetric(a: BoundingBox, b: BoundingBox)
    ensures Overlaps(a, b) == Overlaps(b, a)
  {
  }

  /** Boxes that share only an edge or a corner count as overlapping. */
  lemma TouchingBoxesOverlap(a: BoundingBox, b: BoundingBox)
    requires Valid(a) && Valid(b)
    requires a.maxPoint.x == b.minPoint.x && a.minPoint.y <= b.maxPoint.y && b.minPoint.y <= a.maxPoint.y
    ensures Overlaps(a, b)
  {
  }

  /** `Contains(point)`: strictly inside; a point on the boundary is not
      contained. */
  function ContainsPoint(b: BoundingBox, p: XY): (r: bool)
    ensures r ==> InClosed(b, p)
    ensures r <==> InClosed(b, p) && p.x != b.minPoint.x && p.x != b.maxPoint.x && p.y != b.minPoint.y && p.y != b.maxPoint.y
  {
    if b.maxPoint.x <= p.x then false
    else if b.maxPoint.y <= p.y then false
    else if b.minPoint.x >= p.x then false
    else if b.minPoint.y >= p.y then false
    else true
  }

  /** No corner of a box lies strictly inside it. */
  lemma CornersNotContained(b: BoundingBox)
    ensures !ContainsPoint(b, b.minPoint) && !ContainsPoint(b, b.maxPoint)
  {
  }

  /** `Contains(box)`: both corners of `other` strictly inside `b`. */
  function ContainsBox(b: BoundingBox, other: BoundingBox): (r: bool)
    ensures r ==> Valid(b)
    ensures r && Valid(other) ==> forall p :: InClosed(other, p) ==> ContainsPoint(b, p)
    ensures Valid(other) ==> (r <==> forall p :: InClosed(other, p) ==> ContainsPoint(b, p))
  {
    assert Valid(other) ==> InClosed(other, other.minPoint) && InClosed(other, other.maxPoint);
    ContainsPoint(b, other.minPoint) && ContainsPoint(b, other.maxPoint)
  }

  /** `ContainedBy`: both corners of `b` strictly inside `other`. */
  function ContainedBy(b: BoundingBox, other: BoundingBox): (r: bool)
    ensures r == ContainsBox(other, b)
  {
    ContainsPoint(other, b.minPoint) && ContainsPoint(other, b.maxPoint)
  }

  /** The strict test means no box contains itself. */
  lemma NoBoxContainsItself(b: BoundingBox)
    ensures !ContainsBox(b, b)
    ensures !ContainedBy(b, b)
  {
    CornersNotContained(b);
  }

  /** Containment implies overlap, in both directions of the pair. */
  lemma ContainsImpliesOverlaps(a: BoundingBox, b: BoundingBox)
    requires ContainsBox(a, b)
    ensures Overlaps(a, b) && Overlaps(b, a)
  {
  }
}
