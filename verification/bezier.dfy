/** Quadratic and cubic Bezier segments: exact Bernstein evaluation, uniform
    sampling into a polyline, and the nearest sample to a point. */
module Beziers {
  import opened Wrappers
  import opened Points
  import opened Search
  import opened Polylines

  datatype QuadraticBezier = QuadraticBezier(first: XY, second: XY, third: XY)

  datatype CubicBezier = CubicBezier(first: XY, second: XY, third: XY, fourth: XY)

  /** One coordinate of a quadratic curve in Bernstein form. */
  function Bernstein2(a: real, b: real, c: real, t: real): real {
    (1.0 - t) * (1.0 - t) * a + 2.0 * (1.0 - t) * t * b + t * t * c
  }

  /** One coordinate of a cubic curve in Bernstein form. */
  function Bernstein3(a: real, b: real, c: real, d: real, t: real): real {
    var s := 1.0 - t;
    s * s * s * a + 3.0 * (s * s) * t * b + 3.0 * s * (t * t) * c + t * t * t * d
  }

  /** `GetBezierPoint` of the quadratic segment. */
  function QuadraticPoint(q: QuadraticBezier, t: real): (r: XY)
    ensures t == 0.0 ==> r == q.first
    ensures t == 1.0 ==> r == q.third
  {
    XY(Bernstein2(q.first.x, q.second.x, q.third.x, t),
       Bernstein2(q.first.y, q.second.y, q.third.y, t))
  }

  /** `GetBezierPoint` of the cubic segment. */
  function CubicPoint(c: CubicBezier, t: real): (r: XY)
    ensures t == 0.0 ==> r == c.first
    ensures t == 1.0 ==> r == c.fourth
  {
    XY(Bernstein3(c.first.x, c.second.x, c.third.x, c.fourth.x, t),
       Bernstein3(c.first.y, c.second.y, c.third.y, c.fourth.y, t))
  }

  /** Linear interpolation, the step of de Casteljau's construction. */
  function Lerp(a: real, b: real, t: real): real {
    a + t * (b - a)
  }

  /** The Bernstein form agrees with de Casteljau's repeated interpolation,
      an independent definition of the same curve. */
  lemma Bernstein2IsDeCasteljau(a: real, b: real, c: real, t: real)
    ensures Bernstein2(a, b, c, t) == Lerp(Lerp(a, b, t), Lerp(b, c, t), t)
  {
  }

  lemma Bernstein3IsDeCasteljau(a: real, b: real, c: real, d: real, t: real)
    ensures Bernstein3(a, b, c, d, t)
         == Lerp(Lerp(Lerp(a, b, t), Lerp(b, c, t), t), Lerp(Lerp(b, c, t), Lerp(c, d, t), t), t)
  {
    var abc := Lerp(Lerp(a, b, t), Lerp(b, c, t), t);
    var bcd := Lerp(Lerp(b, c, t), Lerp(c, d, t), t);
    Bernstein2IsDeCasteljau(a, b, c, t);
    Bernstein2IsDeCasteljau(b, c, d, t);
    LerpAffine(abc, bcd, t, Bernstein2(a, b, c, t), Bernstein2(b, c, d, t));
    CubicFromQuadratics(a, b, c, d, t);
  }

  lemma LerpAffine(x: real, y: real, t: real, x': real, y': real)
    requires x == x' && y == y'
    ensures Lerp(x, y, t) == (1.0 - t) * x' + t * y'
  {
  }

  /** A cubic coordinate is the interpolation of the two quadratics of its
      first three and last three control values. */
  lemma CubicFromQuadratics(a: real, b: real, c: real, d: real, t: real)
    ensures Bernstein3(a, b, c, d, t)
         == (1.0 - t) * Bernstein2(a, b, c, t) + t * Bernstein2(b, c, d, t)
  {
    var s := 1.0 - t;
    assert Bernstein2(a, b, c, t) == s * s * a + 2.0 * s * t * b + t * t * c;
    assert Bernstein2(b, c, d, t) == s * s * b + 2.0 * s * t * c + t * t * d;
    assert s * (s * s * a) == s * s * s * a;
    assert s * (2.0 * s * t * b) + t * (s * s * b) == 3.0 * (s * s) * t * b;
    assert s * (t * t * c) + t * (2.0 * s * t * c) == 3.0 * s * (t * t) * c;
    assert t * (t * t * d) == t * t * t * d;
  }

  /** The three quadratic Bernstein weights sum to one. */
  lemma QuadraticWeightsSumToOne(t: real)
    ensures (1.0 - t) * (1.0 - t) + 2.0 * (1.0 - t) * t + t * t == 1.0
  {
  }

  /** The four cubic Bernstein weights sum to one. */
  lemma CubicWeightsSumToOne(t: real)
    ensures var s := 1.0 - t; s * s * s + 3.0 * (s * s) * t + 3.0 * s * (t * t) + t * t * t == 1.0
  {
    var s := 1.0 - t;
    assert s + t == 1.0;
    assert (s + t) * (s + t) == s * s + 2.0 * s * t + t * t;
    assert (s + t) * (s + t) * (s + t) == s * s * s + 3.0 * (s * s) * t + 3.0 * s * (t * t) + t * t * t;
  }

  /** Equal control points give a constant curve, since the weights sum to one. */
  lemma QuadraticConstant(a: XY, t: real)
    ensures QuadraticPoint(QuadraticBezier(a, a, a), t) == a
  {
    QuadraticWeightsSumToOne(t);
    ScaledWeights2(a.x, t);
    ScaledWeights2(a.y, t);
  }

  lemma ScaledWeights2(a: real, t: real)
    requires (1.0 - t) * (1.0 - t) + 2.0 * (1.0 - t) * t + t * t == 1.0
    ensures Bernstein2(a, a, a, t) == a
  {
    var w := (1.0 - t) * (1.0 - t) + 2.0 * (1.0 - t) * t + t * t;
    assert Bernstein2(a, a, a, t) == w * a;
  }

  lemma CubicConstant(a: XY, t: real)
    ensures CubicPoint(CubicBezier(a, a, a, a), t) == a
  {
    CubicWeightsSumToOne(t);
    ScaledWeights3(a.x, t);
    ScaledWeights3(a.y, t);
  }

  lemma ScaledWeights3(a: real, t: real)
    requires var s := 1.0 - t; s * s * s + 3.0 * (s * s) * t + 3.0 * s * (t * t) + t * t * t == 1.0
    ensures Bernstein3(a, a, a, a, t) == a
  {
    var s := 1.0 - t;
    var w := s * s * s + 3.0 * (s * s) * t + 3.0 * s * (t * t) + t * t * t;
    assert Bernstein3(a, a, a, a, t) == w * a;
  }

  /** (0,0), (12,8), (16,2) at t = 0.5 is (10, 4.5). */
  lemma QuadraticExample()
    ensures QuadraticPoint(QuadraticBezier(XY(0.0, 0.0), XY(12.0, 8.0), XY(16.0, 2.0)), 0.5) == XY(10.0, 4.5)
  {
  }

  /** (-16,-4), (-10,10), (8,-4), (16,10) at t = 0.5 is (-0.75, 3). */
  lemma CubicExample()
    ensures CubicPoint(CubicBezier(XY(-16.0, -4.0), XY(-10.0, 10.0), XY(8.0, -4.0), XY(16.0, 10.0)), 0.5)
         == XY(-0.75, 3.0)
  {
  }

  /** The parameter of sample `i` out of `n` segments: `i / (double)n`. */
  function SampleParameter(i: int, n: int): (t: real)
    requires n > 0
    ensures 0 <= i <= n ==> 0.0 <= t <= 1.0
    ensures i == 0 ==> t == 0.0
    ensures i == n ==> t == 1.0
  {
    i as real / n as real
  }

  /** The `n + 1` points `curve(i / n)`, for `i` from 0 to `n`. */
  function Samples(curve: real -> XY, n: int): (pts: seq<XY>)
    requires n > 0
    ensures |pts| == n + 1
    ensures forall i :: 0 <= i <= n ==> pts[i] == curve(SampleParameter(i, n))
  {
    seq(n + 1, i requires 0 <= i <= n => curve(SampleParameter(i, n)))
  }

  /** `ToPolyline` of any curve. A negative count yields no point, and the
      polyline constructor throws; zero segments give the single parameter
      0 / 0, which is not a number, so that case is an error as well. */
  function SampledPolyline(curve: real -> XY, n: int): (r: Result<Polyline>)
    ensures r.Failure? <==> n <= 0
    ensures n < 0 ==> r == Failure(NoPoints)
    ensures n == 0 ==> r == Failure(InvalidSegments)
    ensures r.Success? ==> |r.value.points| == n + 1
    ensures r.Success? ==> r.value.points[0] == curve(0.0) && r.value.points[n] == curve(1.0)
    ensures r.Success? ==> forall i :: 0 <= i <= n ==> r.value.points[i] == curve(SampleParameter(i, n))
  {
    if n < 0 then Failure(NoPoints)
    else if n == 0 then Failure(InvalidSegments)
    else Success(Polyline(Samples(curve, n)))
  }

  /** `ClosestPoint` of any curve: the first sample at minimal distance; with
      fewer than one segment no sample is kept and the source throws. */
  function SampledClosest(curve: real -> XY, p: XY, n: int): (r: Result<XY>)
    ensures r.Failure? <==> n < 1
    ensures r.Failure? ==> r.error == InvalidSegments
    ensures r.Success? ==> exists i :: 0 <= i <= n && r.value == curve(SampleParameter(i, n))
    ensures r.Success? ==> forall i :: 0 <= i <= n ==> Dist2(r.value, p) <= Dist2(curve(SampleParameter(i, n)), p)
  {
    if n < 1 then Failure(InvalidSegments)
    else
      var pts := Samples(curve, n);
      var r := Nearest(pts, p);
      assert r.value in pts;
      assert forall i :: 0 <= i <= n ==> pts[i] in pts;
      r
  }

  /** Ties keep the earliest sample: the result is sample `k`, and every
      earlier sample is strictly farther. */
  lemma SampledClosestEarliest(curve: real -> XY, p: XY, n: int)
    requires n >= 1
    ensures var k := FirstMin(Distances(Samples(curve, n), p)).value;
      && SampledClosest(curve, p, n) == Success(curve(SampleParameter(k, n)))
      && forall j :: 0 <= j < k ==> Dist2(curve(SampleParameter(j, n)), p) > Dist2(curve(SampleParameter(k, n)), p)
  {
    NearestIsEarliest(Samples(curve, n), p);
  }

  /** Both ends are sampled, so the result is no farther than either. */
  lemma SampledClosestNoFartherThanEnds(curve: real -> XY, p: XY, n: int)
    requires n >= 1
    ensures SampledClosest(curve, p, n).Success?
    ensures Dist2(SampledClosest(curve, p, n).value, p) <= Dist2(curve(0.0), p)
    ensures Dist2(SampledClosest(curve, p, n).value, p) <= Dist2(curve(1.0), p)
  {
    assert SampleParameter(0, n) == 0.0;
    assert SampleParameter(n, n) == 1.0;
  }

  function QuadraticCurve(q: QuadraticBezier): real -> XY {
    t => QuadraticPoint(q, t)
  }

  function CubicCurve(c: CubicBezier): real -> XY {
    t => CubicPoint(c, t)
  }

  /** `QuadraticBezierSegment.ToPolyline`: `n + 1` samples from the first to
      the third control point. */
  function QuadraticToPolyline(q: QuadraticBezier, n: int): (r: Result<Polyline>)
    ensures r.Failure? <==> n <= 0
    ensures r.Success? ==> |r.value.points| == n + 1
    ensures r.Success? ==> r.value.points[0] == q.first && r.value.points[n] == q.third
    ensures r.Success? ==> forall i :: 0 <= i <= n ==> r.value.points[i] == QuadraticPoint(q, SampleParameter(i, n))
  {
    SampledPolyline(QuadraticCurve(q), n)
  }

  /** `CubicBezierSegment.ToPolyline`: `n + 1` samples from the first to the
      fourth control point. */
  function CubicToPolyline(c: CubicBezier, n: int): (r: Result<Polyline>)
    ensures r.Failure? <==> n <= 0
    ensures r.Success? ==> |r.value.points| == n + 1
    ensures r.Success? ==> r.value.points[0] == c.first && r.value.points[n] == c.fourth
    ensures r.Success? ==> forall i :: 0 <= i <= n ==> r.value.points[i] == CubicPoint(c, SampleParameter(i, n))
  {
    SampledPolyline(CubicCurve(c), n)
  }

  /** `QuadraticBezierSegment.ClosestPoint`. */
  function QuadraticClosest(q: QuadraticBezier, p: XY, n: int): (r: Result<XY>)
    ensures r.Failure? <==> n < 1
    ensures r.Success? ==> exists i :: 0 <= i <= n && r.value == QuadraticPoint(q, SampleParameter(i, n))
    ensures r.Success? ==> forall i :: 0 <= i <= n ==> Dist2(r.value, p) <= Dist2(QuadraticPoint(q, SampleParameter(i, n)), p)
    ensures r.Success? ==> Dist2(r.value, p) <= Dist2(q.first, p) && Dist2(r.value, p) <= Dist2(q.third, p)
  {
    if n < 1 then SampledClosest(QuadraticCurve(q), p, n)
    else
      SampledClosestNoFartherThanEnds(QuadraticCurve(q), p, n);
      SampledClosest(QuadraticCurve(q), p, n)
  }

  /** `CubicBezierSegment.ClosestPoint`. */
  function CubicClosest(c: CubicBezier, p: XY, n: int): (r: Result<XY>)
    ensures r.Failure? <==> n < 1
    ensures r.Success? ==> exists i :: 0 <= i <= n && r.value == CubicPoint(c, SampleParameter(i, n))
    ensures r.Success? ==> forall i :: 0 <= i <= n ==> Dist2(r.value, p) <= Dist2(CubicPoint(c, SampleParameter(i, n)), p)
    ensures r.Success? ==> Dist2(r.value, p) <= Dist2(c.first, p) && Dist2(r.value, p) <= Dist2(c.fourth, p)
  {
    if n < 1 then SampledClosest(CubicCurve(c), p, n)
    else
      SampledClosestNoFartherThanEnds(CubicCurve(c), p, n);
      SampledClosest(CubicCurve(c), p, n)
  }

  /** The number of segments `ClosestPoint` samples when the caller gives
      none. */
  const DefaultSegments: int := 100

  /** `QuadraticBezierSegment.ClosestPoint` with its default segment count:
      it always finds a sample, one no farther than either end. */
  function QuadraticClosestDefault(q: QuadraticBezier, p: XY): (r: Result<XY>)
    ensures r.Success?
    ensures r == QuadraticClosest(q, p, DefaultSegments)
    ensures Dist2(r.value, p) <= Dist2(q.first, p) && Dist2(r.value, p) <= Dist2(q.third, p)
  {
    QuadraticClosest(q, p, DefaultSegments)
  }

  /** `CubicBezierSegment.ClosestPoint` with its default segment count. */
  function CubicClosestDefault(c: CubicBezier, p: XY): (r: Result<XY>)
    ensures r.Success?
    ensures r == CubicClosest(c, p, DefaultSegments)
    ensures Dist2(r.value, p) <= Dist2(c.first, p) && Dist2(r.value, p) <= Dist2(c.fourth, p)
  {
    CubicClosest(c, p, DefaultSegments)
  }

  /** The closest-point loop as the source writes it, over any curve. */
  method SampledClosestLoop(curve: real -> XY, p: XY, n: int) returns (r: Result<XY>)
    ensures r == SampledClosest(curve, p, n)
  {
    if n < 1 {
      return Failure(InvalidSegments);
    }
    var pts := Samples(curve, n);
    var closest: Option<nat> := None;
    var i := 0;
    while i <= n
      invariant 0 <= i <= n + 1
      invariant closest == FirstMin(Distances(pts, p)[..i])
    {
      var point := curve(SampleParameter(i, n));
      var distance := Dist2(point, p);
      assert Distances(pts, p)[..i + 1][..i] == Distances(pts, p)[..i];
      match closest {
        case None =>
          closest := Some(i);
        case Some(k) =>
          if distance < Dist2(pts[k], p) {
            closest := Some(i);
          }
      }
      i := i + 1;
    }
    assert Distances(pts, p)[..i] == Distances(pts, p);
    r := Success(pts[closest.value]);
  }
}
