/** Scalar helpers of the library's private `MathUtils` class, over exact
    integers and reals. */
module MathUtils {
  import opened Wrappers

  function Min(a: real, b: real): real { if a <= b then a else b }
  function Max(a: real, b: real): real { if a >= b then a else b }
  function MinInt(a: int, b: int): int { if a <= b then a else b }
  function MaxInt(a: int, b: int): int { if a >= b then a else b }

  /** The C# `(int)` cast of a double: truncation toward zero. */
  function Trunc(x: real): (r: int)
    ensures x >= 0.0 ==> 0 <= r && r as real <= x < r as real + 1.0
    ensures x < 0.0 ==> r <= 0 && r as real - 1.0 < x <= r as real
  {
    if x >= 0.0 then x.Floor else -((-x).Floor)
  }

  /** Linear map of `value` from [minStart, maxStart] onto [minEnd, maxEnd];
      an empty source range is an error. */
  function Map(value: real, minStart: real, maxStart: real, minEnd: real, maxEnd: real): (r: Result<real>)
    ensures r.Failure? <==> minStart == maxStart
    ensures r.Failure? ==> r.error == ArgumentOutOfRange
    ensures r.Success? && value == minStart ==> r.value == minEnd
    ensures r.Success? && value == maxStart ==> r.value == maxEnd
  {
    var fraction := maxStart - minStart;
    if fraction == 0.0 then Failure(ArgumentOutOfRange)
    else Success(minEnd + (maxEnd - minEnd) * ((value - minStart) / fraction))
  }

  /** `Map` is affine: the mapped value moves along the target range in the
      same proportion as `value` moves along the source range. */
  lemma MapProportional(value: real, minStart: real, maxStart: real, minEnd: real, maxEnd: real)
    requires minStart != maxStart
    ensures Map(value, minStart, maxStart, minEnd, maxEnd).Success?
    ensures (Map(value, minStart, maxStart, minEnd, maxEnd).value - minEnd) * (maxStart - minStart)
            == (maxEnd - minEnd) * (value - minStart)
  {
    var f := maxStart - minStart;
    var q := (value - minStart) / f;
    assert q * f == value - minStart;
    calc {
      (Map(value, minStart, maxStart, minEnd, maxEnd).value - minEnd) * f;
      ((maxEnd - minEnd) * q) * f;
      (maxEnd - minEnd) * (q * f);
    }
  }

  /** Order-insensitive clamp of a double. */
  function Clamp(value: real, minValue: real, maxValue: real): (r: real)
    ensures Min(minValue, maxValue) <= r <= Max(minValue, maxValue)
    ensures Min(minValue, maxValue) <= value <= Max(minValue, maxValue) ==> r == value
    ensures value < Min(minValue, maxValue) ==> r == Min(minValue, maxValue)
    ensures value > Max(minValue, maxValue) ==> r == Max(minValue, maxValue)
  {
    var trueMin := Min(minValue, maxValue);
    var trueMax := Max(minValue, maxValue);
    if value < trueMin then trueMin else if value > trueMax then trueMax else value
  }

  /** Clamp into the unit interval, as `Math.Max(0, Math.Min(1, t))`; the same
      value as the order-insensitive clamp between 0 and 1. */
  function ClampUnit(t: real): (r: real)
    ensures 0.0 <= r <= 1.0
    ensures 0.0 <= t <= 1.0 ==> r == t
    ensures t < 0.0 ==> r == 0.0
    ensures t > 1.0 ==> r == 1.0
    ensures r == Clamp(t, 0.0, 1.0)
  {
    Max(0.0, Min(1.0, t))
  }

  /** Order-insensitive clamp of an int. */
  function ClampInt(value: int, minValue: int, maxValue: int): (r: int)
    ensures MinInt(minValue, maxValue) <= r <= MaxInt(minValue, maxValue)
    ensures MinInt(minValue, maxValue) <= value <= MaxInt(minValue, maxValue) ==> r == value
    ensures value < MinInt(minValue, maxValue) ==> r == MinInt(minValue, maxValue)
    ensures value > MaxInt(minValue, maxValue) ==> r == MaxInt(minValue, maxValue)
  {
    var trueMin := MinInt(minValue, maxValue);
    var trueMax := MaxInt(minValue, maxValue);
    if value < trueMin then trueMin else if value > trueMax then trueMax else value
  }

  lemma ClampIdempotent(value: real, a: real, b: real)
    ensures Clamp(Clamp(value, a, b), a, b) == Clamp(value, a, b)
    ensures Clamp(value, a, b) == Clamp(value, b, a)
  {
  }

  lemma ClampIntIdempotent(value: int, a: int, b: int)
    ensures ClampInt(ClampInt(value, a, b), a, b) == ClampInt(value, a, b)
    ensures ClampInt(value, a, b) == ClampInt(value, b, a)
  {
  }

  /** Integer `ForcePositiveModulo`: add `max` while negative, then take the
      remainder. Each step is one iteration of the source's loop. A positive
      modulus is modelled, and a negative one when the value is already
      non-negative; C#'s `%` on a non-negative dividend then agrees with the
      Euclidean remainder, e.g. `7 % -3 == 1`. A negative value with a
      negative modulus only leaves the loop through 32-bit overflow, which
      is not modelled. */
  function ForcePositiveModulo(value: int, max: int): (r: int)
    requires max > 0 || (max < 0 && value >= 0)
    ensures 0 <= r < if max > 0 then max else -max
    ensures r == value % max
    decreases if value < 0 then -value else 0
  {
    if value < 0 then
      ModShift(value, max);
      ForcePositiveModulo(value + max, max)
    else value % max
  }

  /** A negative modulus is accepted for a non-negative value. */
  lemma ForcePositiveModuloNegativeExample()
    ensures ForcePositiveModulo(7, -3) == 1
    ensures ForcePositiveModulo(7, 3) == 1
  {
  }

  /** The double overload of `ForcePositiveModulo` at `max == 1.0`, its one
      use (colour hue): add 1 while negative, then C#'s `%` on a non-negative
      double keeps the fractional part. */
  function ForcePositiveModuloUnit(value: real): (r: real)
    ensures 0.0 <= r < 1.0
    ensures IsIntegral(r - value)
    decreases if value < 0.0 then (-value).Floor + 1 else 0
  {
    if value < 0.0 then
      FloorShift(-value - 1.0);
      var r := ForcePositiveModuloUnit(value + 1.0);
      IntegralShift(r - (value + 1.0), r - value);
      r
    else
      IntegralOfInt(-value.Floor, value - value.Floor as real - value);
      value - value.Floor as real
  }

  lemma IntegralShift(y: real, z: real)
    requires IsIntegral(y) && z == y + 1.0
    ensures IsIntegral(z)
  {
    FloorShift(y);
  }

  lemma IntegralOfInt(k: int, z: real)
    requires z == k as real
    ensures IsIntegral(z)
  {
    FloorUnique(z, k);
  }

  /** Shifting by one shifts the floor by one. */
  lemma FloorShift(x: real)
    ensures (x + 1.0).Floor == x.Floor + 1
  {
    FloorUnique(x + 1.0, x.Floor + 1);
  }

  lemma FloorUnique(x: real, k: int)
    requires k as real <= x < k as real + 1.0
    ensures x.Floor == k
  {
  }

  predicate IsIntegral(x: real) {
    x == x.Floor as real
  }

  /** The hue wrap leaves values already in [0, 1) unchanged. */
  lemma ForcePositiveModuloUnitIdentity(value: real)
    requires 0.0 <= value < 1.0
    ensures ForcePositiveModuloUnit(value) == value
  {
  }

  /** The hue wrap is idempotent. */
  lemma ForcePositiveModuloUnitIdempotent(value: real)
    ensures ForcePositiveModuloUnit(ForcePositiveModuloUnit(value)) == ForcePositiveModuloUnit(value)
  {
    ForcePositiveModuloUnitIdentity(ForcePositiveModuloUnit(value));
  }

  /** Euclidean division is unique: a quotient/remainder pair with the remainder
      in [0, m) is the one `/` and `%` compute. */
  lemma DivModUnique(v: int, m: int, q: int, r: int)
    requires m > 0 && 0 <= r < m && v == m * q + r
    ensures v / m == q && v % m == r
  {
    var q', r' := v / m, v % m;
    assert m * q' + r' == m * q + r;
    assert m * (q - q') == r' - r;
    if q > q' {
      MulAtLeast(m, q - q');
      assert false;
    } else if q < q' {
      MulAtLeast(m, q' - q);
      assert false;
    }
  }

  lemma MulAtLeast(m: int, k: int)
    requires m > 0 && k >= 1
    ensures m * k >= m
  {
  }

  lemma MulMono(n: int, a: int, b: int)
    requires n >= 0 && a <= b
    ensures n * a <= n * b
  {
  }

  /** Adding the modulus does not change the remainder. */
  lemma ModShift(v: int, m: int)
    requires m > 0
    ensures (v + m) % m == v % m
  {
    assert v == m * (v / m) + v % m;
    assert v + m == m * (v / m + 1) + v % m;
    DivModUnique(v + m, m, v / m + 1, v % m);
  }

  /** `UnsignedModulo(int, uint)`: the same loop, with `max` cast to int; the
      model assumes `max` fits in a signed 32-bit int. */
  function UnsignedModulo(value: int, max: nat): (r: nat)
    requires 0 < max < 0x8000_0000
    ensures r < max
    ensures r == value % max
    decreases if value < 0 then -value else 0
  {
    if value < 0 then
      ModShift(value, max);
      UnsignedModulo(value + max, max)
    else value % max
  }

  /** Index of the original collection that `SubSampleValues` reads for output
      slot `i`: floor(Map(i, 0, newLength, 0, count)). */
  function SubSampleIndex(i: nat, newLength: nat, count: nat): (k: nat)
    requires i < newLength
    ensures count > 0 ==> k < count
    ensures k * newLength <= i * count < (k + 1) * newLength
  {
    QuotientBounds(i, newLength, count, (i * count) / newLength);
    (i * count) / newLength
  }

  lemma QuotientBounds(i: nat, newLength: nat, count: nat, k: nat)
    requires i < newLength && k == (i * count) / newLength
    ensures k * newLength <= i * count < (k + 1) * newLength
    ensures count > 0 ==> k < count
  {
    assert i * count == newLength * k + (i * count) % newLength;
    if count > 0 && k >= count {
      MulMono(count, i, newLength);
      MulMono(newLength, count, k);
      assert false;
    }
  }

  /** `SubSampleValues`: empty input gives empty output, equal length returns
      the input, a negative length is an error (allocating the array throws
      an overflow exception). */
  function SubSampleValues(values: seq<real>, newLength: int): (r: Result<seq<real>>)
    ensures |values| == 0 ==> r == Success([])
    ensures |values| > 0 && newLength == |values| ==> r == Success(values)
    ensures r.Failure? <==> |values| > 0 && newLength < 0
    ensures r.Failure? ==> r.error == Overflow
    ensures r.Success? && |values| > 0 ==> |r.value| == newLength
    ensures r.Success? && |values| > 0 && newLength != |values| ==>
              forall i :: 0 <= i < |r.value| ==> r.value[i] == values[SubSampleIndex(i, newLength, |values|)]
  {
    if |values| == 0 then Success([])
    else if newLength == |values| then Success(values)
    else if newLength < 0 then Failure(Overflow)
    else Success(seq(newLength, i requires 0 <= i < newLength => values[SubSampleIndex(i, newLength, |values|)]))
  }

  /** The index `Map` computes in the source, floored, is the integer quotient
      used by `SubSampleIndex`. */
  lemma SubSampleIndexIsMappedFloor(i: nat, newLength: nat, count: nat)
    requires i < newLength
    ensures Map(i as real, 0.0, newLength as real, 0.0, count as real).Success?
    ensures Map(i as real, 0.0, newLength as real, 0.0, count as real).value.Floor == SubSampleIndex(i, newLength, count)
  {
    var n, c, x := newLength as real, count as real, i as real;
    var q := x / n;
    var m := Map(x, 0.0, n, 0.0, c).value;
    assert m == c * q;
    var k := SubSampleIndex(i, newLength, count);
    ScaledQuotient(c, x, n, q);
    DivOf(c * x, n, c * q);
    ProductCast(i, count);
    ProductCast(k, newLength);
    ProductCast(k + 1, newLength);
    RealQuotient(c * x, n, k as real);
  }

  /** The integer product, seen as a real, is the product of the reals. */
  lemma ProductCast(a: int, b: int)
    ensures (a * b) as real == a as real * b as real
  {
  }

  lemma ScaledQuotient(c: real, x: real, n: real, q: real)
    requires n > 0.0 && q == x / n
    ensures (c * q) * n == c * x
  {
    DivMul(x, n);
    assert (c * q) * n == c * (q * n);
  }

  lemma DivMul(a: real, n: real)
    requires n > 0.0
    ensures (a / n) * n == a
  {
  }

  lemma DivOf(a: real, n: real, q: real)
    requires n > 0.0 && q * n == a
    ensures a / n == q
  {
  }

  lemma MulLess(a: real, b: real, n: real)
    requires n > 0.0 && a < b
    ensures a * n < b * n
  {
  }

  lemma MulLessEq(a: real, b: real, n: real)
    requires n >= 0.0 && a <= b
    ensures a * n <= b * n
  {
  }

  /** A real quotient lies between the integer bounds that bracket it. */
  lemma RealQuotient(a: real, n: real, k: real)
    requires n > 0.0 && k * n <= a < (k + 1.0) * n
    ensures k <= a / n < k + 1.0
  {
    DivMul(a, n);
    var q := a / n;
    if q < k {
      MulLess(q, k, n);
      assert false;
    }
    if q >= k + 1.0 {
      if q > k + 1.0 {
        MulLess(k + 1.0, q, n);
      }
      assert false;
    }
  }
}
