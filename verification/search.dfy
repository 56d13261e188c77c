/** The "first strict minimum wins" scan shared by every closest-point search
    of the library: candidates are visited in order and one replaces the
    current best only when it is strictly nearer. Distances are squared, which
    selects the same candidate as comparing their square roots. */
module Search {
  import opened Wrappers
  import opened Points

  /** `k` is where `ds` first reaches its minimum: nothing is smaller, and
      everything before `k` is strictly larger. */
  predicate IsFirstMin(ds: seq<real>, k: int) {
    && 0 <= k < |ds|
    && (forall j :: 0 <= j < |ds| ==> ds[k] <= ds[j])
    && (forall j :: 0 <= j < k ==> ds[k] < ds[j])
  }

  /** The scan as a fold over the prefix: the last value takes over only when
      it is strictly below the best of the prefix. */
  function FirstMin(ds: seq<real>): (r: Option<nat>)
    ensures r.None? <==> |ds| == 0
    ensures r.Some? ==> IsFirstMin(ds, r.value)
    decreases |ds|
  {
    if |ds| == 0 then None
    else
      var n := |ds| - 1;
      match FirstMin(ds[..n])
      case None => Some(0)
      case Some(k) =>
        assert forall j :: 0 <= j < n ==> ds[..n][j] == ds[j];
        if ds[n] < ds[k] then Some(n) else Some(k)
  }

  /** There is only one first minimum. */
  lemma FirstMinUnique(ds: seq<real>, i: int, k: int)
    requires IsFirstMin(ds, i) && IsFirstMin(ds, k)
    ensures i == k
  {
    assert ds[i] == ds[k];
  }

  /** The scan finds exactly the first minimum. */
  lemma FirstMinCharacterised(ds: seq<real>, k: int)
    ensures FirstMin(ds) == Some(k) <==> IsFirstMin(ds, k)
  {
    if IsFirstMin(ds, k) {
      FirstMinUnique(ds, FirstMin(ds).value, k);
    }
  }

  /** Squared distance of each candidate to `p`. */
  function Distances(cs: seq<XY>, p: XY): (ds: seq<real>)
    ensures |ds| == |cs|
    ensures forall i :: 0 <= i < |cs| ==> ds[i] == Dist2(cs[i], p)
  {
    seq(|cs|, i requires 0 <= i < |cs| => Dist2(cs[i], p))
  }

  /** The candidate the scan keeps. With no candidate the source is left with
      a null point and throws. */
  function Nearest(cs: seq<XY>, p: XY): (r: Result<XY>)
    ensures r.Failure? <==> |cs| == 0
    ensures r.Failure? ==> r.error == NoCandidate
    ensures r.Success? ==> r.value in cs
    ensures r.Success? ==> forall c :: c in cs ==> Dist2(r.value, p) <= Dist2(c, p)
  {
    match FirstMin(Distances(cs, p))
    case None => Failure(NoCandidate)
    case Some(k) =>
      assert forall c :: c in cs ==> exists j :: 0 <= j < |cs| && cs[j] == c;
      Success(cs[k])
  }

  /** The kept candidate is the first one at minimal distance: every earlier
      candidate is strictly farther. */
  lemma NearestIsEarliest(cs: seq<XY>, p: XY)
    requires |cs| > 0
    ensures var k := FirstMin(Distances(cs, p)).value;
      Nearest(cs, p) == Success(cs[k]) && forall j :: 0 <= j < k ==> Dist2(cs[j], p) > Dist2(cs[k], p)
  {
  }

  /** The scan as the source writes it: a loop over the candidates that keeps
      the best so far and replaces it only on a strictly smaller distance. */
  method NearestScan(cs: seq<XY>, p: XY) returns (r: Result<XY>)
    ensures r == Nearest(cs, p)
  {
    var closest: Option<nat> := None;
    var i := 0;
    while i < |cs|
      invariant 0 <= i <= |cs|
      invariant closest == FirstMin(Distances(cs, p)[..i])
    {
      var d := Dist2(cs[i], p);
      assert Distances(cs, p)[..i + 1][..i] == Distances(cs, p)[..i];
      match closest {
        case None =>
          closest := Some(i);
        case Some(k) =>
          if d < Dist2(cs[k], p) {
            closest := Some(i);
          }
      }
      i := i + 1;
    }
    assert Distances(cs, p)[..i] == Distances(cs, p);
    match closest {
      case None => r := Failure(NoCandidate);
      case Some(k) => r := Success(cs[k]);
    }
  }
}
