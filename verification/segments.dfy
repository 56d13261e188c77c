/** The closest-point search over a sequence of line segments that polygons
    and polylines share: each segment offers its clamped foot as a candidate,
    and the first strictly nearest candidate wins. */
module Segments {
  import opened Wrappers
  import opened Points
  import opened Lines
  import opened Search

  /** The candidate each segment offers, in segment order. */
  function Candidates(segs: seq<Line>, p: XY): (cs: seq<XY>)
    ensures |cs| == |segs|
    ensures forall i :: 0 <= i < |segs| ==> cs[i] == ClosestPoint(segs[i], p)
  {
    seq(|segs|, i requires 0 <= i < |segs| => ClosestPoint(segs[i], p))
  }

  /** The foreach loop over the segments: no segment means no candidate, which
      the source reports by throwing. */
  function ClosestOnSegments(segs: seq<Line>, p: XY): (r: Result<XY>)
    ensures r.Failure? <==> |segs| == 0
    ensures r.Failure? ==> r.error == NoCandidate
    ensures r.Success? ==> r.value in Candidates(segs, p)
    ensures r.Success? ==> forall i :: 0 <= i < |segs| ==> Dist2(r.value, p) <= Distance2(segs[i], p)
  {
    var cs := Candidates(segs, p);
    var r := Nearest(cs, p);
    assert r.Success? ==> forall i :: 0 <= i < |segs| ==> Dist2(r.value, p) <= Distance2(segs[i], p) by {
      if r.Success? {
        forall i | 0 <= i < |segs|
          ensures Dist2(r.value, p) <= Distance2(segs[i], p)
        {
          assert cs[i] in cs;
          Dist2Symmetric(p, cs[i]);
        }
      }
    }
    r
  }

  /** The result is no farther from `p` than any point of any segment. */
  lemma ClosestOnSegmentsGlobal(segs: seq<Line>, p: XY, i: int, s: real)
    requires 0 <= i < |segs| && 0.0 <= s <= 1.0
    ensures ClosestOnSegments(segs, p).Success?
    ensures Dist2(ClosestOnSegments(segs, p).value, p) <= Dist2(p, PointAt(segs[i].start, segs[i].end, s))
  {
    SegmentMinimal(segs[i], p, s);
  }

  /** Ties keep the earliest segment: every segment before the winning one
      offers a strictly farther candidate. */
  lemma ClosestOnSegmentsEarliest(segs: seq<Line>, p: XY)
    requires |segs| > 0
    ensures var k := FirstMin(Distances(Candidates(segs, p), p)).value;
      && ClosestOnSegments(segs, p) == Success(ClosestPoint(segs[k], p))
      && forall j :: 0 <= j < k ==> Distance2(segs[j], p) > Dist2(ClosestPoint(segs[k], p), p)
  {
    var cs := Candidates(segs, p);
    NearestIsEarliest(cs, p);
    var k := FirstMin(Distances(cs, p)).value;
    forall j | 0 <= j < k
      ensures Distance2(segs[j], p) > Dist2(ClosestPoint(segs[k], p), p)
    {
      Dist2Symmetric(p, cs[j]);
    }
  }

  /** When the candidate distances first reach their minimum at `k`, the
      search returns segment `k`'s candidate. */
  lemma ClosestOnSegmentsAt(segs: seq<Line>, p: XY, k: int)
    requires IsFirstMin(Distances(Candidates(segs, p), p), k)
    ensures ClosestOnSegments(segs, p) == Success(ClosestPoint(segs[k], p))
  {
    FirstMinCharacterised(Distances(Candidates(segs, p), p), k);
  }
}
