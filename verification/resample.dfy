/** The resampler: `lerp` and `interpolateData` of scripts.js. A series of
    `m >= 2` samples is read as the points `(k, data[k])` and evaluated on a
    uniform grid of `targetLength` positions `i * step`, with
    `step = (m - 1) / (targetLength - 1)`. Numbers are exact reals, so the
    grid positions carry no rounding drift.
 */
module Resample {

  /** `Math.floor`: the greatest integer not above `x`. */
  function Floor(x: real): (k: int)
    ensures k as real <= x < k as real + 1.0
  {
    x.Floor
  }

  /** `Math.ceil`: the least integer not below `x`. */
  function Ceil(x: real): (k: int)
    ensures x <= k as real < x + 1.0
    ensures k == Floor(x) || k == Floor(x) + 1
    ensures k == Floor(x) <==> x == Floor(x) as real
  {
    if x.Floor as real == x then x.Floor else x.Floor + 1
  }

  function Min(a: real, b: real): real
  {
    if a <= b then a else b
  }

  function Max(a: real, b: real): real
  {
    if a <= b then b else a
  }

  /** `v` lies in the closed interval spanned by `a` and `b`, in either order. */
  predicate Between(v: real, a: real, b: real)
  {
    Min(a, b) <= v <= Max(a, b)
  }

  /** `lerp(a, b, t)`: the point a fraction `t` of the way from `a` to `b`. */
  function Lerp(a: real, b: real, t: real): (r: real)
    ensures t == 0.0 ==> r == a
    ensures t == 1.0 ==> r == b
    ensures 0.0 <= t <= 1.0 ==> Between(r, a, b)
  {
    MulNonNegative(b - a, t);
    MulNonNegative(b - a, 1.0 - t);
    MulNonNegative(a - b, t);
    MulNonNegative(a - b, 1.0 - t);
    a + (b - a) * t
  }

  lemma MulNonNegative(x: real, y: real)
    ensures x >= 0.0 && y >= 0.0 ==> x * y >= 0.0
  {
  }

  lemma MulMonotone(x: real, y: real, c: real)
    requires x <= y && c >= 0.0
    ensures x * c <= y * c
  {
    MulNonNegative(y - x, c);
    assert (y - x) * c == y * c - x * c;
  }

  lemma DivMul(a: real, b: real)
    requires b > 0.0
    ensures (a / b) * b == a
    ensures a >= 0.0 ==> a / b >= 0.0
  {
  }

  lemma MulCancel(x: real, y: real, c: real)
    requires c > 0.0 && x * c == y * c
    ensures x == y
  {
    assert (x - y) * c == 0.0;
  }

  /** Moving further along a rising segment never lowers the value. */
  lemma LerpMonotone(a: real, b: real, s: real, t: real)
    requires a <= b && s <= t
    ensures Lerp(a, b, s) <= Lerp(a, b, t)
  {
    MulNonNegative(b - a, t - s);
  }

  /** The grid spacing `(len - 1) / (targetLength - 1)`; undefined at
      `targetLength == 1`, where the source divides by zero. */
  function Step(len: nat, targetLength: int): real
    requires targetLength != 1
  {
    (len - 1) as real / (targetLength - 1) as real
  }

  /** The source position `i * step` of output index `i`. It stays inside
      `[0, len - 1]`; the first grid point is sample 0 and the last is
      exactly sample `len - 1`. */
  function Position(len: nat, targetLength: int, i: int): (p: real)
    requires len >= 1 && targetLength >= 2 && 0 <= i < targetLength
    ensures 0.0 <= p <= (len - 1) as real
    ensures i == 0 ==> p == 0.0
    ensures i == targetLength - 1 ==> p == (len - 1) as real
  {
    var step := Step(len, targetLength);
    var n1 := (targetLength - 1) as real;
    DivMul((len - 1) as real, n1);
    MulMonotone(i as real, n1, step);
    MulNonNegative(i as real, step);
    i as real * step
  }

  /** `lowerIndex` and `upperIndex` of every grid point are valid indices:
      `upperIndex` never reaches `len`, so the right-edge clamp is never taken. */
  lemma ClampNeverTaken(len: nat, targetLength: int, i: int)
    requires len >= 1 && targetLength >= 2 && 0 <= i < targetLength
    ensures 0 <= Floor(Position(len, targetLength, i))
    ensures Ceil(Position(len, targetLength, i)) <= len - 1
  {
    var p := Position(len, targetLength, i);
    assert 0.0 <= p <= (len - 1) as real;
    var lo, hi := Floor(p), Ceil(p);
    assert lo as real <= p < lo as real + 1.0;
    assert hi as real < p + 1.0 <= len as real;
  }

  /** Later grid points sit no earlier in the source. */
  lemma PositionMonotone(len: nat, targetLength: int, i: int, j: int)
    requires len >= 1 && targetLength >= 2 && 0 <= i <= j < targetLength
    ensures Position(len, targetLength, i) <= Position(len, targetLength, j)
  {
    var step := Step(len, targetLength);
    StepNonNegative(len, targetLength);
    MulMonotoneAt(i as real, j as real, step, Position(len, targetLength, i), Position(len, targetLength, j));
  }

  /** `MulMonotone` with the two products passed in as named values, so that a
      caller whose products are hidden behind function applications (such as
      `Position`) concludes by equality alone, without arithmetic on them. */
  lemma MulMonotoneAt(x: real, y: real, c: real, xc: real, yc: real)
    requires x <= y && c >= 0.0
    requires xc == x * c && yc == y * c
    ensures xc <= yc
  {
    MulMonotone(x, y, c);
  }

  lemma StepNonNegative(len: nat, targetLength: int)
    requires len >= 1 && targetLength >= 2
    ensures Step(len, targetLength) >= 0.0
  {
    DivMul((len - 1) as real, (targetLength - 1) as real);
  }

  /** Reference definition: the piecewise-linear curve through the points
      `(k, data[k])`, evaluated at `x`. */
  function PiecewiseLinear(data: seq<real>, x: real): real
    requires |data| >= 1 && 0.0 <= x <= (|data| - 1) as real
  {
    var k := Floor(x);
    if k == |data| - 1 then data[k]
    else data[k] + (data[k + 1] - data[k]) * (x - k as real)
  }

  /** One iteration of the `interpolateData` loop at source position `index`:
      the right-edge clamp, the exact grid hit, or `lerp` between the two
      neighbouring samples. */
  function Sample(data: seq<real>, index: real): real
    requires 0.0 <= index < |data| as real
  {
    var lowerIndex := Floor(index);
    var upperIndex := Ceil(index);
    if upperIndex >= |data| then
      data[lowerIndex]
    else if lowerIndex == upperIndex then
      data[lowerIndex]
    else
      var weight := index - lowerIndex as real;
      Lerp(data[lowerIndex], data[upperIndex], weight)
  }

  /** On `[0, |data| - 1]` one iteration agrees with the piecewise-linear
      curve; past the last sample the clamp repeats the last sample. */
  lemma SampleOnCurve(data: seq<real>, index: real)
    requires 0.0 <= index < |data| as real
    ensures index <= (|data| - 1) as real ==> Sample(data, index) == PiecewiseLinear(data, index)
    ensures Ceil(index) >= |data| ==> Sample(data, index) == data[|data| - 1]
  {
  }

  /** One iteration never leaves the range of the two neighbouring samples. */
  lemma SampleWithinNeighbours(data: seq<real>, index: real)
    requires 0.0 <= index < |data| as real
    ensures Ceil(index) < |data| ==> Between(Sample(data, index), data[Floor(index)], data[Ceil(index)])
  {
  }

  /** Number of iterations of `for (let i = 0; i < targetLength; i++)`. */
  function Iterations(targetLength: int): nat
  {
    if targetLength < 0 then 0 else targetLength
  }

  /** `interpolateData(data, targetLength)`: fewer than two samples give the
      empty series; otherwise exactly one value per loop iteration. */
  function Interpolate(data: seq<real>, targetLength: int): (r: seq<real>)
    requires |data| < 2 || targetLength != 1
    ensures |data| < 2 ==> r == []
    ensures |data| >= 2 ==> |r| == Iterations(targetLength)
  {
    if |data| < 2 then []
    else
      seq(Iterations(targetLength), i requires 0 <= i < Iterations(targetLength) =>
        Sample(data, Position(|data|, targetLength, i)))
  }

  /** The value the loop pushes at iteration `i`, computed at source
      position `index == i * step`, is element `i` of `Interpolate`. */
  lemma InterpolateAt(data: seq<real>, targetLength: int, i: int, index: real)
    requires |data| >= 2 && targetLength >= 2 && 0 <= i < targetLength
    requires index == i as real * Step(|data|, targetLength)
    ensures 0.0 <= index < |data| as real
    ensures Interpolate(data, targetLength)[i] == Sample(data, index)
  {
    assert index == Position(|data|, targetLength, i);
  }

  /** Every output value is the piecewise-linear curve through the samples,
      evaluated at the output's grid position. */
  lemma InterpolateOnCurve(data: seq<real>, targetLength: int, i: int)
    requires |data| >= 2 && targetLength >= 2 && 0 <= i < targetLength
    ensures Interpolate(data, targetLength)[i] == PiecewiseLinear(data, Position(|data|, targetLength, i))
  {
    SampleOnCurve(data, Position(|data|, targetLength, i));
  }

  /** The series starts at the first sample and ends exactly at the last one,
      with no correction step: the last grid position is `len - 1` itself. */
  lemma InterpolateEndpoints(data: seq<real>, targetLength: int)
    requires |data| >= 2 && targetLength >= 2
    ensures Interpolate(data, targetLength)[0] == data[0]
    ensures Interpolate(data, targetLength)[targetLength - 1] == data[|data| - 1]
  {
    var m := |data|;
    assert Position(m, targetLength, 0) == 0.0;
    assert Position(m, targetLength, targetLength - 1) == (m - 1) as real;
    assert Floor((m - 1) as real) == m - 1;
  }

  lemma TakeSnoc(s: seq<real>, i: nat)
    requires i < |s|
    ensures s[..i + 1] == s[..i] + [s[i]]
  {
  }

  /** The loop of `interpolateData`, pushing one value per iteration. */
  method InterpolateData(data: seq<real>, targetLength: int) returns (r: seq<real>)
    requires |data| < 2 || targetLength != 1
    ensures r == Interpolate(data, targetLength)
  {
    if |data| < 2 {
      return [];
    }
    ghost var expected := Interpolate(data, targetLength);
    var step := Step(|data|, targetLength);
    r := [];
    var i := 0;
    while i < targetLength
      invariant 0 <= i <= |expected|
      invariant r == expected[..i]
    {
      var index := i as real * step;
      InterpolateAt(data, targetLength, i, index);
      var value := Sample(data, index);
      TakeSnoc(expected, i);
      r := r + [value];
      i := i + 1;
    }
    assert expected[..|expected|] == expected;
  }
}
