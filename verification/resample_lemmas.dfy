/** Properties of the resampled series that relate whole inputs and outputs of
    `interpolateData`: ordering, neighbourhood bounds, exactness on straight
    lines, and the grid points that land on source samples.
 */
module ResampleLemmas {
  import opened Sorting
  import opened Resample

  /** The piecewise-linear curve through ascending samples never falls. */
  lemma PiecewiseLinearMonotone(data: seq<real>, x: real, y: real)
    requires |data| >= 1 && Sorted(data)
    requires 0.0 <= x <= y <= (|data| - 1) as real
    ensures PiecewiseLinear(data, x) <= PiecewiseLinear(data, y)
  {
    var k, l := Floor(x), Floor(y);
    assert k <= l;
    if k < l {
      // x's segment ends at sample k + 1, at or before where y's segment starts
      assert k + 1 <= l <= |data| - 1;
      var d := data[k + 1] - data[k];
      MulNonNegative(d, 1.0 - (x - k as real));
      assert PiecewiseLinear(data, x) <= data[k + 1];
      assert data[k + 1] <= data[l];
      if l < |data| - 1 {
        MulNonNegative(data[l + 1] - data[l], y - l as real);
      }
      assert data[l] <= PiecewiseLinear(data, y);
    } else if k < |data| - 1 {
      MulNonNegative(data[k + 1] - data[k], y - x);
    }
  }

  /** Resampling an ascending series yields an ascending series. */
  lemma InterpolateMonotone(data: seq<real>, targetLength: int)
    requires |data| < 2 || targetLength != 1
    requires Sorted(data)
    ensures Sorted(Interpolate(data, targetLength))
  {
    var r := Interpolate(data, targetLength);
    forall i, j | 0 <= i < j < |r|
      ensures r[i] <= r[j]
    {
      var m := |data|;
      InterpolateOnCurve(data, targetLength, i);
      InterpolateOnCurve(data, targetLength, j);
      PositionMonotone(m, targetLength, i, j);
      PiecewiseLinearMonotone(data, Position(m, targetLength, i), Position(m, targetLength, j));
    }
  }

  /** Every output value lies between the two source samples around its grid
      position: `data[lowerIndex]` and `data[upperIndex]`. */
  lemma InterpolateWithinNeighbours(data: seq<real>, targetLength: int, i: int)
    requires |data| >= 2 && targetLength >= 2 && 0 <= i < targetLength
    ensures
      var p := Position(|data|, targetLength, i);
      Between(Interpolate(data, targetLength)[i], data[Floor(p)], data[Ceil(p)])
  {
    var p := Position(|data|, targetLength, i);
    InterpolateAt(data, targetLength, i, p);
    SampleWithinNeighbours(data, p);
  }

  /** The straight line through `(0, a)` with slope `b`, at `x`. */
  function Line(a: real, b: real, x: real): real
  {
    a + b * x
  }

  /** On samples taken from the line `a + b * k`, the piecewise-linear curve is that line. */
  lemma PiecewiseLinearAffine(data: seq<real>, a: real, b: real, x: real)
    requires |data| >= 1 && 0.0 <= x <= (|data| - 1) as real
    requires forall k :: 0 <= k < |data| ==> data[k] == Line(a, b, k as real)
    ensures PiecewiseLinear(data, x) == Line(a, b, x)
  {
    var k := Floor(x);
    var kr := k as real;
    if k < |data| - 1 {
      assert data[k] == a + b * kr;
      assert data[k + 1] == a + b * (kr + 1.0);
      assert data[k + 1] - data[k] == b;
      assert b * (x - kr) + b * kr == b * x;
    } else {
      assert x == kr;
    }
  }

  /** Samples on a straight line `a + b * k` are resampled onto the same line:
      linear interpolation is exact for them. */
  lemma InterpolateAffine(data: seq<real>, targetLength: int, a: real, b: real)
    requires |data| >= 2 && targetLength >= 2
    requires forall k :: 0 <= k < |data| ==> data[k] == Line(a, b, k as real)
    ensures forall i :: 0 <= i < targetLength ==>
      Interpolate(data, targetLength)[i] == Line(a, b, Position(|data|, targetLength, i))
  {
    forall i | 0 <= i < targetLength
      ensures Interpolate(data, targetLength)[i] == Line(a, b, Position(|data|, targetLength, i))
    {
      InterpolateAffineAt(data, targetLength, a, b, i);
    }
  }

  lemma InterpolateAffineAt(data: seq<real>, targetLength: int, a: real, b: real, i: int)
    requires |data| >= 2 && targetLength >= 2 && 0 <= i < targetLength
    requires forall k :: 0 <= k < |data| ==> data[k] == Line(a, b, k as real)
    ensures Interpolate(data, targetLength)[i] == Line(a, b, Position(|data|, targetLength, i))
  {
    var p := Position(|data|, targetLength, i);
    InterpolateOnCurve(data, targetLength, i);
    PiecewiseLinearAffine(data, a, b, p);
  }

  /** A constant series resamples to the same constant everywhere. */
  lemma InterpolateConstant(data: seq<real>, targetLength: int, c: real)
    requires |data| >= 2 && targetLength >= 2
    requires forall k :: 0 <= k < |data| ==> data[k] == c
    ensures forall i :: 0 <= i < |Interpolate(data, targetLength)| ==>
      Interpolate(data, targetLength)[i] == c
  {
    InterpolateAffine(data, targetLength, c, 0.0);
  }

  /** Output index `j` lands exactly on source index `k` when
      `j * (len - 1) == k * (targetLength - 1)`. */
  lemma PositionAtSample(len: nat, targetLength: int, j: int, k: nat)
    requires len >= 2 && targetLength >= 2 && 0 <= j < targetLength
    requires j as real * (len - 1) as real == k as real * (targetLength - 1) as real
    ensures Position(len, targetLength, j) == k as real
  {
    var n1, m1 := (targetLength - 1) as real, (len - 1) as real;
    var step := Step(len, targetLength);
    DivMul(m1, n1);
    var p := j as real * step;
    assert p == Position(len, targetLength, j);
    assert p * n1 == j as real * (step * n1);
    MulCancel(p, k as real, n1);
  }

  /** Every output whose grid position is a whole number `k` is exactly the
      source sample `data[k]`: the exact-hit branch. */
  lemma InterpolateAtSample(data: seq<real>, targetLength: int, j: int, k: nat)
    requires |data| >= 2 && targetLength >= 2 && 0 <= j < targetLength
    requires j as real * (|data| - 1) as real == k as real * (targetLength - 1) as real
    ensures k < |data|
    ensures Interpolate(data, targetLength)[j] == data[k]
  {
    PositionAtSample(|data|, targetLength, j, k);
    InterpolateOnCurve(data, targetLength, j);
    assert Floor(k as real) == k;
  }

  lemma IntMulMonotone(x: int, y: int, c: int)
    requires 0 <= x <= y && c >= 0
    ensures 0 <= x * c <= y * c
  {
    assert y * c - x * c == (y - x) * c;
  }

  lemma CastMul(a: int, b: int)
    ensures (a * b) as real == a as real * b as real
  {
  }

  /** Output `k * factor` of a grid refined by a whole factor is sample `k`. */
  lemma InterpolateAtMultiple(data: seq<real>, targetLength: int, factor: nat, k: nat)
    requires |data| >= 2 && factor >= 1 && k < |data|
    requires targetLength - 1 == factor * (|data| - 1)
    ensures 0 <= k * factor < targetLength
    ensures Interpolate(data, targetLength)[k * factor] == data[k]
  {
    var m1 := |data| - 1;
    var j := k * factor;
    IntMulMonotone(k, m1, factor);
    CastMul(k, factor);
    CastMul(factor, m1);
    var kr, fr, mr := k as real, factor as real, m1 as real;
    assert j as real == kr * fr;
    assert (targetLength - 1) as real == fr * mr;
    assert (kr * fr) * mr == kr * (fr * mr);
    InterpolateAtSample(data, targetLength, j, k);
  }

  /** When the output grid refines the input grid by a whole factor
      (`targetLength - 1 == factor * (|data| - 1)`), every `factor`-th output is
      exactly the corresponding source sample. */
  lemma InterpolateHitsSamples(data: seq<real>, targetLength: int, factor: nat)
    requires |data| >= 2 && factor >= 1
    requires targetLength - 1 == factor * (|data| - 1)
    ensures |Interpolate(data, targetLength)| == targetLength
    ensures forall k :: 0 <= k < |data| ==>
      k * factor < targetLength && Interpolate(data, targetLength)[k * factor] == data[k]
  {
    forall k | 0 <= k < |data|
      ensures 0 <= k * factor < targetLength
      ensures Interpolate(data, targetLength)[k * factor] == data[k]
    {
      InterpolateAtMultiple(data, targetLength, factor, k);
    }
  }

  /** Resampling onto as many points as there are samples returns the samples. */
  lemma InterpolateIdentity(data: seq<real>)
    requires |data| >= 2
    ensures Interpolate(data, |data|) == data
  {
    forall k | 0 <= k < |data|
      ensures Interpolate(data, |data|)[k] == data[k]
    {
      InterpolateAtSample(data, |data|, k, k);
    }
  }

  /** Two samples onto three points: `[0, 10]` becomes `[0, 5, 10]`. */
  lemma ExampleTwoSamples()
    ensures Interpolate([0.0, 10.0], 3) == [0.0, 5.0, 10.0]
  {
    var r := Interpolate([0.0, 10.0], 3);
    assert Position(2, 3, 1) == 0.5;
    assert Floor(0.5) == 0;
  }

  /** Step 0.5 over a peak: `[0, 10, 0]` onto five points is `[0, 5, 10, 5, 0]`. */
  lemma ExamplePeak()
    ensures Interpolate([0.0, 10.0, 0.0], 5) == [0.0, 5.0, 10.0, 5.0, 0.0]
  {
    var data := [0.0, 10.0, 0.0];
    assert Position(3, 5, 1) == 0.5 && Floor(0.5) == 0;
    assert Position(3, 5, 2) == 1.0 && Floor(1.0) == 1;
    assert Position(3, 5, 3) == 1.5 && Floor(1.5) == 1;
  }
}
