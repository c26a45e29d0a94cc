# DataInterpolater resampler, in Dafny

A model of the data path of DataInterpolater's `scripts.js`. The user types
comma-separated numbers. The submit handler splits them at the commas and
reads each token as a number. It resamples the series onto exactly 80 points
by linear interpolation on a uniform index grid (`interpolateData`), sorts
the result ascending, and formats it as CSV (`convertToCSV`): a header line
`Index,Data`, then one row `<index + 1>,<value>` per point.

Numbers are exact reals. `Math.floor` and `Math.ceil` are exact, and the grid
position `i * step` has no rounding drift. Modules:

- `Text`: `split` and `join` on one-character separators, and the decimal
  rendering of the 1-based row index. Each comes with its inverse (`Join`,
  `ParseNat`).
- `Resample`: `lerp`, the grid spacing and positions, one loop iteration
  (`Sample`), and `interpolateData`. It is modelled twice: as a function and
  as the source's push-per-iteration loop, and the two are proved equal.
  `PiecewiseLinear` is an independent reference definition: the
  piecewise-linear curve through the points `(k, data[k])`.
- `ResampleLemmas`: ordering, neighbourhood, straight-line exactness,
  grid-hit and identity properties, and two small worked examples.
- `Sorting`: the ascending sort, shown to be the unique ascending permutation.
- `Csv`: `convertToCSV`, plus a reader `ParseCsv` that is proved to invert it
  whenever the printed values contain no separator and the value reader undoes
  the printer on the values exported.
- `Submit`: lines 10-13 of the submit handler composed as one pure function.

Facts about `scripts.js` that shape the model:

- It has no chart or vector-graphics renderer, so none is modelled.
- It does not overwrite the last resampled value with the last sample. With
  exact arithmetic the last grid position is exactly `len - 1` anyway, and
  `Resample.InterpolateEndpoints` proves that the last value equals the last
  sample without any overwrite.
- Input is split on `,` only, not on whitespace, and every token is kept.
  Non-numeric tokens are not dropped. `Number("")` is 0 and other bad tokens
  are NaN, but the model treats `Number` as an opaque parameter.
- The resampled series is sorted ascending before export (line 12). So the
  CSV for `[0, 10, 0]` lists the resampled values in ascending order, not in
  grid order.
- Under exact arithmetic the right-edge clamp (`upperIndex >= data.length`)
  is never taken by `interpolateData` (`Resample.ClampNeverTaken`). It is
  still modelled, in `Resample.Sample`, where it can be reached for positions
  past the last sample.

## Model

| member | source | states |
|---|---|---|
| Resample.Lerp | scripts.js:20-22 | `t = 0` gives `a`, `t = 1` gives `b`, and for `0 <= t <= 1` the result lies between `a` and `b` |
| Resample.LerpMonotone | scripts.js:20-22 | on a rising segment, a larger weight never gives a smaller value |
| Resample.Position | scripts.js:29-33 | grid position `i * step` lies in `[0, len-1]`; index 0 sits on sample 0 and the last index exactly on sample `len-1` |
| Resample.ClampNeverTaken | scripts.js:33-37 | `lowerIndex` is at least 0 and `upperIndex` at most `len-1` at every grid position, so the clamp at line 37 never fires inside `interpolateData` |
| Resample.PositionMonotone | scripts.js:29-33 | later output indices sit at later (or equal) source positions |
| Resample.SampleOnCurve | scripts.js:33-45 | one iteration at a position in `[0, len-1]` equals the piecewise-linear curve through the samples there; when the clamp fires it yields the last sample |
| Resample.SampleWithinNeighbours | scripts.js:34-45 | one iteration's value lies between `data[lowerIndex]` and `data[upperIndex]` |
| Resample.Interpolate | scripts.js:24-32 | fewer than two samples give `[]`; otherwise exactly `targetLength` values, none for a non-positive length |
| Resample.InterpolateAt | scripts.js:32-45 | the value pushed at iteration `i`, at position `i * step`, is element `i` of the series |
| Resample.InterpolateOnCurve | scripts.js:24-49 | every output value is the piecewise-linear curve through the samples at that output's grid position |
| Resample.InterpolateEndpoints | scripts.js:24-49 | the first output is `data[0]` and the last is exactly `data[len-1]` |
| Resample.InterpolateData | scripts.js:29-48 | the loop that pushes one value per iteration computes exactly `Interpolate` |
| ResampleLemmas.PiecewiseLinearMonotone | scripts.js:37-45 | over ascending samples the interpolated value never decreases as the position grows |
| ResampleLemmas.InterpolateMonotone | scripts.js:24-49 | a non-decreasing input resamples to a non-decreasing output |
| ResampleLemmas.InterpolateWithinNeighbours | scripts.js:33-45 | each output value lies between its two neighbouring source samples `data[floor(pos)]` and `data[ceil(pos)]` |
| ResampleLemmas.PiecewiseLinearAffine | scripts.js:41-44 | the interpolation of samples taken from a line `a + b*k` is that line |
| ResampleLemmas.InterpolateAffineAt | scripts.js:24-49 | on samples from a straight line, output `i` lies on that line at its grid position |
| ResampleLemmas.InterpolateAffine | scripts.js:24-49 | samples on a straight line resample onto the same line at every grid position |
| ResampleLemmas.InterpolateConstant | scripts.js:24-49 | a constant series resamples to that constant everywhere |
| ResampleLemmas.PositionAtSample | scripts.js:29-33 | output index `j` sits exactly on source index `k` when `j*(len-1) = k*(targetLength-1)` |
| ResampleLemmas.InterpolateAtSample | scripts.js:33-40 | an output whose grid position is a whole number `k` is exactly `data[k]` (the exact-hit branch) |
| ResampleLemmas.InterpolateAtMultiple | scripts.js:29-40 | when `targetLength-1 = factor*(len-1)`, output `k*factor` is a valid index and is exactly `data[k]` |
| ResampleLemmas.InterpolateHitsSamples | scripts.js:29-40 | under a whole refinement factor every `factor`-th output is exactly a source sample |
| ResampleLemmas.InterpolateIdentity | scripts.js:24-49 | resampling onto `len` points returns the input unchanged |
| ResampleLemmas.ExampleTwoSamples | scripts.js:24-49 | `[0, 10]` onto 3 points is `[0, 5, 10]` |
| ResampleLemmas.ExamplePeak | scripts.js:24-49 | `[0, 10, 0]` onto 5 points is `[0, 5, 10, 5, 0]` |
| Sorting.Insert | scripts.js:12 | inserting into an ascending sequence keeps it ascending and adds exactly that one element |
| Sorting.SortAsc | scripts.js:12 | the sort result is ascending and a permutation of its input (same multiset, same length) |
| Sorting.SortedUnique | scripts.js:12 | two ascending sequences with the same multiset are equal, so the sort output is determined by the input's values alone |
| Sorting.SortAscOfSorted | scripts.js:12 | sorting an ascending sequence leaves it unchanged |
| Sorting.SortAscCanonical | scripts.js:12 | inputs that are permutations of each other sort to the same sequence |
| Text.Split | scripts.js:10 | `split(",")` yields one more token than there are commas, and no token contains a comma |
| Text.JoinSplit | scripts.js:10 | joining the split tokens gives back the input text: splitting loses nothing |
| Text.SplitPrefix | scripts.js:10 | a separator-free prefix is glued onto the first token and leaves the other tokens alone |
| Text.SplitJoin | scripts.js:53 | splitting a `join("\n")` of newline-free rows gives back the rows |
| Text.NatToString | scripts.js:53 | the row index renders as a non-empty string of decimal digits, without a leading zero, comma or newline |
| Text.ParseNatToString | scripts.js:53 | reading the rendered index back gives the index |
| Csv.Rows | scripts.js:53 | one row per element |
| Csv.ToCsv | scripts.js:51-55 | the output starts with `Index,Data` and a newline; it is exactly that header if and only if the series is empty |
| Csv.RowFields | scripts.js:53 | row `k` splits at its comma into `k+1` in decimal and the printed value |
| Csv.CsvLines | scripts.js:51-55 | the lines are the header followed by the rows, so a non-empty series gives `len+1` lines; an empty one leaves only an empty line after the header |
| Csv.ParseRowOfRow | scripts.js:53 | row `k` reads back as element `k` of the series |
| Csv.ParseRowsOfRows | scripts.js:53 | the rows from position `from` on read back as the series from `from` on |
| Csv.ParseToCsv | scripts.js:51-55 | reading the CSV back gives the exported series, when the exported values print without separators and the value reader inverts the printer on them |
| Csv.ExampleRoundTrip | scripts.js:51-55 | with a concrete digit printer and reader, the CSV of `[1, 2]` reads back as `[1, 2]` |
| Csv.ExampleSmall | scripts.js:51-55 | `[1, 2, 3]` formats as `Index,Data\n1,1\n2,2\n3,3` |
| Submit.ParseSamples | scripts.js:10 | the input yields one sample per comma-separated token: commas + 1 |
| Submit.Exported | scripts.js:10-12 | without a comma nothing is exported; with one, exactly 80 values, ascending, a permutation of the resampled series |
| Submit.ExportSingleToken | scripts.js:10-13 | input without a comma produces a CSV holding only the header |
| Submit.ExportRows | scripts.js:10-13 | input with a comma produces 81 lines, and reading them back gives the sorted resampled series, when the exported values print without separators and the reader inverts the printer on them |
| Submit.ExportOfAscendingInput | scripts.js:10-13 | for ascending input the sort changes nothing; the export runs from the first sample to the last |

## Left out

- DOM wiring: the `DOMContentLoaded` and submit listeners, the element lookups and `preventDefault` (scripts.js:1-9, 14-18). They are UI glue.
- The download file name `${fileNameInput.value}.csv` (scripts.js:15). It is a form field read, not logic.
- `createDownloadLink` (scripts.js:57-74). It is browser I/O: the Blob, the object URL, and creating and replacing the link element.
- `Number(...)` applied to each token (scripts.js:10). This covers whitespace trimming, `""` becoming 0, and NaN. It is a parameter `number: string -> real`, and a real cannot be NaN.
- IEEE-754 behaviour: rounding drift in `i * step`, NaN and Infinity propagation, and the loss of integer precision above 2^53. All arithmetic is exact on reals.
- Csv.ToCsv: the JavaScript number-to-string conversion of values inside the template literal is the parameter `str`. The round trip assumes that `str` prints none of the exported values with `,` or a newline, and that the reader inverts `str` on those values.
- Text.NatToString: models the decimal rendering of the row index. It does not model the exponent form JavaScript uses at 10^21 and above, which a series of 80 points never reaches.
- Resample.Interpolate: requires `targetLength != 1` when there are two or more samples. At `targetLength == 1` the source divides by zero at line 29 and pushes NaN, which a real cannot represent.
- Sorting.SortAsc: models the comparator `(a, b) => a - b` as the ordinary order on reals. The in-place mutation of `Array.prototype.sort` and its behaviour on NaN are not modelled.
- The chart renderer, clipboard copy and forced last-value correction are absent from scripts.js, so they have no counterpart here.
