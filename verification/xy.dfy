/** The immutable point/vector `XY` and its arithmetic. Distances are kept
    squared: square roots are not part of this model. */
module Points {
  import opened Wrappers

  datatype XY = XY(x: real, y: real)

  const Origin: XY := XY(0.0, 0.0)

  /** `operator +`: subtracting `b` again gives `a` back. */
  function Add(a: XY, b: XY): (r: XY)
    ensures Sub(r, b) == a
  {
    XY(a.x + b.x, a.y + b.y)
  }

  /** `operator -`: the difference is the zero vector exactly between equal
      points. */
  function Sub(a: XY, b: XY): (r: XY)
    ensures r == Origin <==> a == b
  {
    XY(a.x - b.x, a.y - b.y)
  }

  /** `operator *` by a scalar: scaling by 0 collapses to the origin, by 1
      keeps the point. */
  function Scale(p: XY, k: real): (r: XY)
    ensures k == 0.0 ==> r == Origin
    ensures k == 1.0 ==> r == p
  {
    XY(p.x * k, p.y * k)
  }

  /** The arithmetic of `operator /` once the divisor is known to be non-zero:
      the point that `k` scales back to `p`. */
  function Quotient(p: XY, k: real): (r: XY)
    requires k != 0.0
    ensures Scale(r, k) == p
  {
    XY(p.x / k, p.y / k)
  }

  /** `operator /`: dividing by exactly zero throws. */
  function Div(p: XY, k: real): (r: Result<XY>)
    ensures r.Failure? <==> k == 0.0
    ensures r.Failure? ==> r.error == DivideByZero
    ensures r.Success? ==> Scale(r.value, k) == p
  {
    if k == 0.0 then Failure(DivideByZero) else Success(Quotient(p, k))
  }

  lemma AddCommutative(a: XY, b: XY)
    ensures Add(a, b) == Add(b, a)
  {
  }

  /** Scaling by a non-zero factor and dividing by it is the identity. */
  lemma DivUndoesScale(p: XY, k: real)
    requires k != 0.0
    ensures Div(Scale(p, k), k) == Success(p)
  {
    var q := Quotient(Scale(p, k), k);
    ScaleCancel(q.x, p.x, k);
    ScaleCancel(q.y, p.y, k);
  }

  lemma ScaleCancel(a: real, b: real, k: real)
    requires k != 0.0 && a * k == b * k
    ensures a == b
  {
    assert (a - b) * k == 0.0;
  }

  function Sqr(v: real): real {
    v * v
  }

  lemma SqrNonNegative(v: real)
    ensures Sqr(v) >= 0.0
  {
  }

  /** Squared Euclidean distance (the square of `DistanceTo`): zero exactly
      between equal points. Non-negativity is `Dist2NonNegative`. */
  function Dist2(a: XY, b: XY): (r: real)
    ensures r == 0.0 <==> a == b
  {
    SqrZero(a.x - b.x);
    SqrZero(a.y - b.y);
    SqrNonNegative(a.x - b.x);
    SqrNonNegative(a.y - b.y);
    Sqr(a.x - b.x) + Sqr(a.y - b.y)
  }

  lemma Dist2NonNegative(a: XY, b: XY)
    ensures Dist2(a, b) >= 0.0
  {
    SqrNonNegative(a.x - b.x);
    SqrNonNegative(a.y - b.y);
  }

  lemma SqrZero(v: real)
    ensures Sqr(v) == 0.0 <==> v == 0.0
  {
    if v > 0.0 {
      PositiveSquare(v);
      calc {
        Sqr(v);
      ==
        v * v;
      >
        0.0;
      }
    } else if v < 0.0 {
      PositiveSquare(-v);
      calc {
        Sqr(v);
      ==
        (-v) * (-v);
      >
        0.0;
      }
    }
  }

  lemma Dist2Symmetric(a: XY, b: XY)
    ensures Dist2(a, b) == Dist2(b, a)
  {
    assert Sqr(a.x - b.x) == Sqr(b.x - a.x);
    assert Sqr(a.y - b.y) == Sqr(b.y - a.y);
  }

  /** Squared `Length`: squared distance to the origin. */
  function Length2(p: XY): (r: real)
    ensures r >= 0.0
    ensures r == 0.0 <==> p == Origin
  {
    Dist2NonNegative(p, Origin);
    Dist2(p, Origin)
  }

  /** `Normalize` divides by `Length`; `len` stands for that length, passed in
      because square roots are not modelled. */
  function Normalize(p: XY, len: real): (r: Result<XY>)
    ensures r.Failure? <==> len == 0.0
    ensures r.Success? ==> Scale(r.value, len) == p
  {
    Div(p, len)
  }

  /** When `len` is the length of `p` (non-negative, squaring to `Length2(p)`),
      normalising fails exactly for the zero vector. */
  lemma NormalizeFailsOnlyAtOrigin(p: XY, len: real)
    requires len >= 0.0 && len * len == Length2(p)
    ensures Normalize(p, len).Failure? <==> p == Origin
  {
    if len > 0.0 {
      PositiveSquare(len);
      calc {
        Length2(p);
      ==
        len * len;
      >
        0.0;
      }
    } else {
      calc {
        Length2(p);
      ==
        len * len;
      ==
        0.0;
      }
    }
  }

  lemma PositiveSquare(v: real)
    requires v > 0.0
    ensures v * v > 0.0
  {
  }

  /** Component-wise sum, as the averaging loop accumulates it: nothing sums
      to the origin and a single point to itself. */
  function Sum(ps: seq<XY>): (r: XY)
    ensures |ps| == 0 ==> r == Origin
    ensures |ps| == 1 ==> r == ps[0]
    decreases |ps|
  {
    if |ps| == 0 then Origin else Add(Sum(ps[..|ps| - 1]), ps[|ps| - 1])
  }

  /** `XY.Average`: the sum divided by the count. The source divides 0 by 0
      for an empty list (giving NaN), which has no real value: `None`. */
  function Average(ps: seq<XY>): (r: Option<XY>)
    ensures r.None? <==> |ps| == 0
    ensures r.Some? ==> Scale(r.value, |ps| as real) == Sum(ps)
  {
    if |ps| == 0 then None else Some(Quotient(Sum(ps), |ps| as real))
  }

  /** The sum of `n` copies of `q` is `q` scaled by `n`. */
  lemma {:induction false} SumOfConstant(ps: seq<XY>, q: XY)
    requires forall i :: 0 <= i < |ps| ==> ps[i] == q
    ensures Sum(ps) == Scale(q, |ps| as real)
    decreases |ps|
  {
    if |ps| > 0 {
      SumOfConstant(ps[..|ps| - 1], q);
    }
  }

  /** Averaging copies of one point gives that point back. */
  lemma AverageOfConstant(ps: seq<XY>, q: XY)
    requires |ps| > 0
    requires forall i :: 0 <= i < |ps| ==> ps[i] == q
    ensures Average(ps) == Some(q)
  {
    SumOfConstant(ps, q);
    var n := |ps| as real;
    var a := Average(ps).value;
    ScaleCancel(a.x, q.x, n);
    ScaleCancel(a.y, q.y, n);
  }

  /** Sums split over concatenation. */
  lemma {:induction false} SumAppend(a: seq<XY>, b: seq<XY>)
    ensures Sum(a + b) == Add(Sum(a), Sum(b))
    decreases |b|
  {
    if |b| == 0 {
      assert a + b == a;
    } else {
      assert (a + b)[..|a + b| - 1] == a + b[..|b| - 1];
      SumAppend(a, b[..|b| - 1]);
    }
  }

  lemma AverageExample()
    ensures Average([XY(1.0, 1.0), XY(3.0, 3.0), XY(5.0, 5.0)]) == Some(XY(3.0, 3.0))
  {
    SumOfThree(XY(1.0, 1.0), XY(3.0, 3.0), XY(5.0, 5.0));
  }

  /** Three points sum in list order. */
  lemma SumOfThree(a: XY, b: XY, c: XY)
    ensures Sum([a, b, c]) == Add(Add(a, b), c)
  {
    assert [a, b, c][..2] == [a, b];
    assert [a, b][..1] == [a];
  }
}
