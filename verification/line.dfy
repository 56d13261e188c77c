/** The immutable line segment and its point-to-segment distance: project the
    point onto the carrier line, clamp the parameter into [0, 1], measure to
    the clamped foot. Distances are squared. */
module Lines {
  import opened Points
  import MathUtils

  datatype Line = Line(start: XY, end: XY)

  function Dot(a: XY, b: XY): real {
    a.x * b.x + a.y * b.y
  }

  /** The point `v + t * (w - v)` of the carrier line through `v` and `w`:
      `v` at 0, `w` at 1, and `v` throughout when the segment is a point. */
  function PointAt(v: XY, w: XY, t: real): (r: XY)
    ensures t == 0.0 ==> r == v
    ensures t == 1.0 ==> r == w
    ensures v == w ==> r == v
  {
    XY(v.x + t * (w.x - v.x), v.y + t * (w.y - v.y))
  }

  /** Parameter of the foot point along the segment: the clamped projection of
      `p`, or 0 when the segment has length zero (the source then measures to
      the start point). */
  function FootParameter(p: XY, v: XY, w: XY): (t: real)
    ensures 0.0 <= t <= 1.0
  {
    var l2 := Dist2(v, w);
    if l2 == 0.0 then 0.0
    else MathUtils.ClampUnit(Dot(Sub(p, v), Sub(w, v)) / l2)
  }

  /** The closest point of the segment to `p`: the foot at `FootParameter`. */
  function ClosestPoint(l: Line, p: XY): (r: XY)
    ensures r == PointAt(l.start, l.end, FootParameter(p, l.start, l.end))
  {
    if Dist2(l.start, l.end) == 0.0 then
      assert l.start == l.end;
      l.start
    else PointAt(l.start, l.end, FootParameter(p, l.start, l.end))
  }

  /** `DistToSegmentSquared(p, v, w)`. */
  function DistToSegmentSquared(p: XY, v: XY, w: XY): (r: real)
    ensures r == Dist2(p, ClosestPoint(Line(v, w), p))
  {
    var l2 := Dist2(v, w);
    if l2 == 0.0 then Dist2(p, v)
    else
      var t := MathUtils.ClampUnit(Dot(Sub(p, v), Sub(w, v)) / l2);
      Dist2(p, PointAt(v, w, t))
  }

  /** `Line.Distance`, squared. */
  function Distance2(l: Line, p: XY): (r: real)
    ensures r == Dist2(p, ClosestPoint(l, p))
  {
    DistToSegmentSquared(p, l.start, l.end)
  }

  /** A segment of length zero measures to its start point. */
  lemma DegenerateSegment(p: XY, v: XY)
    ensures Distance2(Line(v, v), p) == Dist2(p, v)
    ensures ClosestPoint(Line(v, v), p) == v
  {
  }

  /** The clamped foot is the closest point of the whole segment: no point
      `start + s * (end - start)` with `s` in [0, 1] is nearer to `p`. */
  lemma SegmentMinimal(l: Line, p: XY, s: real)
    requires 0.0 <= s <= 1.0
    ensures Distance2(l, p) <= Dist2(p, PointAt(l.start, l.end, s))
  {
    var v, w := l.start, l.end;
    if Dist2(v, w) == 0.0 {
      assert v == w;
      assert PointAt(v, w, s) == v;
      assert Distance2(l, p) == Dist2(p, v);
    } else {
      FootMinimal(p, v, w, s);
    }
  }

  lemma FootMinimal(p: XY, v: XY, w: XY, s: real)
    requires Dist2(v, w) > 0.0 && 0.0 <= s <= 1.0
    ensures Dist2(p, PointAt(v, w, FootParameter(p, v, w))) <= Dist2(p, PointAt(v, w, s))
  {
    var a, d := Sub(p, v), Sub(w, v);
    var t := FootParameter(p, v, w);
    LengthIsDot(v, w);
    QuadraticForm(p, v, w, s);
    QuadraticForm(p, v, w, t);
    ClampedVertexMinimal(Dot(a, a), Dot(a, d), Dot(d, d), s);
  }

  /** Swapping the end points does not change the distance: each segment's
      closest point is also a point of the reversed segment, at `1 - u`. */
  lemma SwapInvariant(v: XY, w: XY, p: XY)
    ensures Distance2(Line(w, v), p) == Distance2(Line(v, w), p)
  {
    var u := FootParameter(p, w, v);
    PointAtReversed(v, w, u);
    SegmentMinimal(Line(v, w), p, 1.0 - u);
    var u' := FootParameter(p, v, w);
    PointAtReversed(w, v, u');
    SegmentMinimal(Line(w, v), p, 1.0 - u');
  }

  /** Walking the segment backwards: `w + t (v - w) == v + (1 - t) (w - v)`. */
  lemma PointAtReversed(v: XY, w: XY, t: real)
    ensures PointAt(w, v, t) == PointAt(v, w, 1.0 - t)
  {
    assert w.x + t * (v.x - w.x) == v.x + (1.0 - t) * (w.x - v.x);
    assert w.y + t * (v.y - w.y) == v.y + (1.0 - t) * (w.y - v.y);
  }

  /** The segment (0,0)-(5,5) and the point (3,0): squared distance 4.5 with
      foot (1.5,1.5). */
  lemma DiagonalExample()
    ensures ClosestPoint(Line(XY(0.0, 0.0), XY(5.0, 5.0)), XY(3.0, 0.0)) == XY(1.5, 1.5)
    ensures Distance2(Line(XY(0.0, 0.0), XY(5.0, 5.0)), XY(3.0, 0.0)) == 4.5
  {
    var p := XY(3.0, 0.0);
    DiagonalFoot(p, 15.0, 0.3);
    DiagonalPoint(p, 0.3);
    assert Dist2(p, XY(1.5, 1.5)) == 4.5 by {
      assert Sqr(p.x - 1.5) == 2.25 && Sqr(p.y - 1.5) == 2.25;
    }
  }

  /** On the same segment (2,2) is its own closest point. */
  lemma DiagonalOnSegmentExample()
    ensures ClosestPoint(Line(XY(0.0, 0.0), XY(5.0, 5.0)), XY(2.0, 2.0)) == XY(2.0, 2.0)
  {
    DiagonalFoot(XY(2.0, 2.0), 20.0, 0.4);
  }

  /** (-1,-1) lies before the start and clamps to it. */
  lemma DiagonalBeforeStartExample()
    ensures ClosestPoint(Line(XY(0.0, 0.0), XY(5.0, 5.0)), XY(-1.0, -1.0)) == XY(0.0, 0.0)
  {
    assert -10.0 / 50.0 < 0.0;
    DiagonalFoot(XY(-1.0, -1.0), -10.0, 0.0);
  }

  /** (6,6) lies past the end and clamps to it. */
  lemma DiagonalPastEndExample()
    ensures ClosestPoint(Line(XY(0.0, 0.0), XY(5.0, 5.0)), XY(6.0, 6.0)) == XY(5.0, 5.0)
  {
    assert 60.0 / 50.0 > 1.0;
    DiagonalFoot(XY(6.0, 6.0), 60.0, 1.0);
  }

  lemma DiagonalPoint(p: XY, t: real)
    requires FootParameter(p, XY(0.0, 0.0), XY(5.0, 5.0)) == t
    ensures ClosestPoint(Line(XY(0.0, 0.0), XY(5.0, 5.0)), p) == XY(5.0 * t, 5.0 * t)
  {
  }

  lemma DiagonalFoot(p: XY, dot: real, t: real)
    requires dot == 5.0 * p.x + 5.0 * p.y
    requires t == MathUtils.ClampUnit(dot / 50.0)
    ensures FootParameter(p, XY(0.0, 0.0), XY(5.0, 5.0)) == t
  {
    var v, w := XY(0.0, 0.0), XY(5.0, 5.0);
    assert Dist2(v, w) == 50.0 by {
      assert Sqr(v.x - w.x) == 25.0;
      assert Sqr(v.y - w.y) == 25.0;
    }
    assert Dot(Sub(p, v), Sub(w, v)) == dot;
  }

  /** On one axis, clamping the projection parameter and walking along the
      segment is the same as clamping the coordinate between the end points. */
  lemma ScalarFoot(a: real, v0: real, w0: real, d: real, e: real)
    requires v0 != w0 && d == w0 - v0 && e == a - v0
    ensures v0 + MathUtils.ClampUnit(e * d / (d * d)) * d == MathUtils.Clamp(a, v0, w0)
  {
    var u := e * d / (d * d);
    ProjectionTimes(e, d);
    var c := MathUtils.ClampUnit(u);
    var k := MathUtils.Clamp(a, v0, w0);
    ClampShift(a, v0, w0, v0, e, 0.0, d);
    assert MathUtils.Clamp(e, 0.0, d) == k - v0;
    if d > 0.0 {
      ClampScaled(u, d, e, c * d);
    } else {
      ClampScaledNegative(u, d, e, c * d);
    }
  }

  /** `ClampScaled` for a negative `d`, by negating both sides. */
  lemma ClampScaledNegative(u: real, d: real, e: real, cd: real)
    requires d < 0.0 && u * d == e && cd == MathUtils.ClampUnit(u) * d
    ensures cd == MathUtils.Clamp(e, 0.0, d)
  {
    var c := MathUtils.ClampUnit(u);
    assert u * (-d) == -e;
    ClampScaled(u, -d, -e, c * (-d));
    ClampNegate(e, 0.0, d);
  }

  /** The unclamped projection parameter walks exactly to the coordinate. */
  lemma ProjectionTimes(e: real, d: real)
    requires d != 0.0
    ensures (e * d / (d * d)) * d == e
  {
    var u := e * d / (d * d);
    assert d * d > 0.0 by {
      if d > 0.0 { PositiveSquare(d); } else { PositiveSquare(-d); assert (-d) * (-d) == d * d; }
    }
    assert u * (d * d) == e * d;
    assert (u * d - e) * d == 0.0;
  }

  /** Clamping commutes with a shift of all three arguments. */
  lemma ClampShift(a: real, lo: real, hi: real, s: real, a': real, lo': real, hi': real)
    requires a' == a - s && lo' == lo - s && hi' == hi - s
    ensures MathUtils.Clamp(a', lo', hi') == MathUtils.Clamp(a, lo, hi) - s
  {
  }

  /** Clamping commutes with negation of all three arguments. */
  lemma ClampNegate(a: real, lo: real, hi: real)
    ensures MathUtils.Clamp(-a, -lo, -hi) == -MathUtils.Clamp(a, lo, hi)
  {
  }

  /** Clamping a parameter to [0, 1] and scaling by a positive `d` clamps the
      scaled value to [0, d]. */
  lemma ClampScaled(u: real, d: real, e: real, cd: real)
    requires d > 0.0 && u * d == e && cd == MathUtils.ClampUnit(u) * d
    ensures cd == MathUtils.Clamp(e, 0.0, d)
  {
    if u < 0.0 {
      MathUtils.MulLess(u, 0.0, d);
    } else if u > 1.0 {
      MathUtils.MulLess(1.0, u, d);
    } else {
      MathUtils.MulLessEq(0.0, u, d);
      MathUtils.MulLessEq(u, 1.0, d);
    }
  }

  /** The closest point of a horizontal segment keeps the segment's `y` and
      clamps `p.x` between the end points. */
  lemma HorizontalFoot(v: XY, w: XY, p: XY)
    requires v.y == w.y && v.x != w.x
    ensures ClosestPoint(Line(v, w), p) == XY(MathUtils.Clamp(p.x, v.x, w.x), v.y)
  {
    var d, e := w.x - v.x, p.x - v.x;
    AxisParameter(p, v, w, d, e, p.y - v.y, 0.0);
    var t := FootParameter(p, v, w);
    ScalarFoot(p.x, v.x, w.x, d, e);
    assert t * (w.y - v.y) == 0.0;
  }

  /** The closest point of a vertical segment keeps the segment's `x` and
      clamps `p.y` between the end points. */
  lemma VerticalFoot(v: XY, w: XY, p: XY)
    requires v.x == w.x && v.y != w.y
    ensures ClosestPoint(Line(v, w), p) == XY(v.x, MathUtils.Clamp(p.y, v.y, w.y))
  {
    var d, e := w.y - v.y, p.y - v.y;
    AxisParameter(p, v, w, d, e, p.x - v.x, 0.0);
    var t := FootParameter(p, v, w);
    ScalarFoot(p.y, v.y, w.y, d, e);
    assert t * (w.x - v.x) == 0.0;
  }

  /** For an axis-parallel segment of signed length `d`, the foot parameter
      only depends on the offset `e` of `p` along that axis. */
  lemma AxisParameter(p: XY, v: XY, w: XY, d: real, e: real, f: real, z: real)
    requires d != 0.0 && z == 0.0
    requires (d == w.x - v.x && e == p.x - v.x && f == p.y - v.y && z == w.y - v.y)
          || (d == w.y - v.y && e == p.y - v.y && f == p.x - v.x && z == w.x - v.x)
    ensures FootParameter(p, v, w) == MathUtils.ClampUnit(e * d / (d * d))
  {
    assert Sqr(z) == 0.0;
    assert Dist2(v, w) == d * d;
    assert Dot(Sub(p, v), Sub(w, v)) == e * d + f * z;
    assert f * z == 0.0;
  }

  /** The closest point from the three numbers that determine it; the
      concrete examples state those numbers and let this lemma do the rest. */
  lemma FootFromValues(p: XY, v: XY, w: XY, l2: real, dot: real, t: real)
    requires Dist2(v, w) == l2 && l2 > 0.0
    requires Dot(Sub(p, v), Sub(w, v)) == dot
    requires t == MathUtils.ClampUnit(dot / l2)
    ensures ClosestPoint(Line(v, w), p) == PointAt(v, w, t)
  {
  }

  lemma LengthIsDot(v: XY, w: XY)
    ensures Dist2(v, w) == Dot(Sub(w, v), Sub(w, v))
  {
    assert Sqr(v.x - w.x) == (w.x - v.x) * (w.x - v.x);
    assert Sqr(v.y - w.y) == (w.y - v.y) * (w.y - v.y);
  }

  /** The segment distance never exceeds the distance to either end point. */
  lemma NoFartherThanEndpoints(l: Line, p: XY)
    ensures Distance2(l, p) <= Dist2(p, l.start)
    ensures Distance2(l, p) <= Dist2(p, l.end)
  {
    SegmentMinimal(l, p, 0.0);
    SegmentMinimal(l, p, 1.0);
  }

  /** Every point of the segment, the end points included, is at distance zero. */
  lemma ZeroOnSegment(l: Line, s: real)
    requires 0.0 <= s <= 1.0
    ensures Distance2(l, PointAt(l.start, l.end, s)) == 0.0
  {
    var q := PointAt(l.start, l.end, s);
    SegmentMinimal(l, q, s);
  }

  /** The squared distance from `p` to `v + s * (w - v)` as a quadratic in `s`. */
  lemma QuadraticForm(p: XY, v: XY, w: XY, s: real)
    ensures Dist2(p, PointAt(v, w, s)) == Quadratic(Dot(Sub(p, v), Sub(p, v)), Dot(Sub(p, v), Sub(w, v)), Dot(Sub(w, v), Sub(w, v)), s)
  {
    var a, d, q := Sub(p, v), Sub(w, v), PointAt(v, w, s);
    ExpandComponent(p.x, v.x, w.x, s);
    ExpandComponent(p.y, v.y, w.y, s);
    AddQuadratics(Sqr(p.x - q.x), Sqr(p.y - q.y), a.x * a.x, a.y * a.y, a.x * d.x, a.y * d.y, d.x * d.x, d.y * d.y, s);
  }

  lemma ExpandComponent(pc: real, vc: real, wc: real, s: real)
    ensures Sqr(pc - (vc + s * (wc - vc)))
         == (pc - vc) * (pc - vc) - 2.0 * s * ((pc - vc) * (wc - vc)) + s * s * ((wc - vc) * (wc - vc))
  {
  }

  lemma AddQuadratics(x1: real, x2: real, a1: real, a2: real, b1: real, b2: real, l1: real, l2: real, s: real)
    requires x1 == a1 - 2.0 * s * b1 + s * s * l1
    requires x2 == a2 - 2.0 * s * b2 + s * s * l2
    ensures x1 + x2 == (a1 + a2) - 2.0 * s * (b1 + b2) + s * s * (l1 + l2)
  {
  }

  /** The quadratic `aa - 2 s b + s^2 l` in `s`. */
  function Quadratic(aa: real, b: real, l: real, s: real): real {
    aa - 2.0 * s * b + s * s * l
  }

  /** The quadratic `A - 2 s B + s^2 L` with `L > 0` is smallest on [0, 1] at
      the clamp of its vertex `B / L`. */
  lemma ClampedVertexMinimal(aa: real, b: real, l: real, s: real)
    requires l > 0.0 && 0.0 <= s <= 1.0
    ensures Quadratic(aa, b, l, MathUtils.ClampUnit(b / l)) <= Quadratic(aa, b, l, s)
  {
    var t0 := b / l;
    var t := MathUtils.ClampUnit(t0);
    assert t0 * l == b;
    DifferenceOfValues(b, l, s, t);
    if 0.0 <= t0 <= 1.0 {
      assert t * l == b;
      assert (s + t) * l - 2.0 * b == (s - t) * l;
      ScaledSquare(s - t, l);
    } else if t0 < 0.0 {
      NegativeVertex(b, l, t0);
      assert t == 0.0;
      ProductOfSameSign(s - t, (s + t) * l - 2.0 * b);
    } else {
      LargeVertex(b, l, t0, s);
      assert t == 1.0;
      ProductOfSameSign(s - t, (s + t) * l - 2.0 * b);
    }
  }

  lemma ScaledSquare(x: real, l: real)
    requires l > 0.0
    ensures x * (x * l) >= 0.0
  {
    if x >= 0.0 {
      MathUtils.MulLessEq(0.0, x, l);
    } else {
      MathUtils.MulLessEq(x, 0.0, l);
    }
    ProductOfSameSign(x, x * l);
  }

  lemma DifferenceOfValues(b: real, l: real, s: real, t: real)
    ensures (-2.0 * s * b + s * s * l) - (-2.0 * t * b + t * t * l) == (s - t) * ((s + t) * l - 2.0 * b)
  {
  }

  lemma NegativeVertex(b: real, l: real, t0: real)
    requires l > 0.0 && t0 < 0.0 && t0 * l == b
    ensures b < 0.0
  {
    MathUtils.MulLess(t0, 0.0, l);
  }

  lemma LargeVertex(b: real, l: real, t0: real, s: real)
    requires l > 0.0 && t0 > 1.0 && t0 * l == b && 0.0 <= s <= 1.0
    ensures (s + 1.0) * l - 2.0 * b < 0.0
  {
    MathUtils.MulLess(1.0, t0, l);
    MathUtils.MulLessEq(s, 1.0, l);
  }

  /** Two factors of the same sign give a non-negative product; with
      `y == x * l` this covers `x * x * l`. */
  lemma ProductOfSameSign(x: real, y: real)
    requires (x >= 0.0 && y >= 0.0) || (x <= 0.0 && y <= 0.0)
    ensures x * y >= 0.0
  {
    if x >= 0.0 && y >= 0.0 {
      MathUtils.MulLessEq(0.0, x, y);
    } else {
      MathUtils.MulLessEq(0.0, -x, -y);
      assert (-x) * (-y) == x * y;
    }
  }
}
