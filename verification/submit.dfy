/** The pure part of the submit handler: the comma-separated input is split
    and read as numbers, resampled to 80 points, sorted ascending and
    formatted as CSV. Reading a token as a number (`Number`) and printing a
    value are parameters; the form, the file name and the download link are
    browser glue outside the model.
 */
module Submit {
  import opened Text
  import opened Sorting
  import opened Resample
  import opened ResampleLemmas
  import opened Csv

  /** The fixed number of exported points. */
  const TargetLength: int := 80

  /** `dataInput.value.split(",").map(Number)`: one sample per comma-separated
      token, so one more sample than there are commas. */
  function ParseSamples(text: string, number: string -> real): (samples: seq<real>)
    ensures |samples| == Count(text, ',') + 1
  {
    var tokens := Split(text, ',');
    seq(|tokens|, k requires 0 <= k < |tokens| => number(tokens[k]))
  }

  /** The export order: the resampled series, sorted ascending. */
  function Exported(text: string, number: string -> real): (values: seq<real>)
    ensures ',' !in text ==> values == []
    ensures ',' in text ==> |values| == TargetLength
    ensures Sorted(values)
    ensures multiset(values) == multiset(Interpolate(ParseSamples(text, number), TargetLength))
  {
    SortAsc(Interpolate(ParseSamples(text, number), TargetLength))
  }

  /** The CSV text the handler offers for download. */
  function ExportCsv(text: string, number: string -> real, str: real -> string): string
  {
    ToCsv(Exported(text, number), str)
  }

  /** Input without a comma is a single sample, too few to resample: the
      download holds the header alone. */
  lemma ExportSingleToken(text: string, number: string -> real, str: real -> string)
    requires ',' !in text
    ensures ExportCsv(text, number, str) == Header
  {
  }

  /** Input with a comma exports a header and 80 rows whose values, read back,
      are the resampled series in ascending order. */
  lemma ExportRows(text: string, number: string -> real, str: real -> string, parse: string -> real)
    requires ',' in text
    requires Printable(Exported(text, number), str)
    requires forall v | v in Exported(text, number) :: parse(str(v)) == v
    ensures |Split(ExportCsv(text, number, str), '\n')| == TargetLength + 1
    ensures ParseCsv(ExportCsv(text, number, str), parse) == Some(Exported(text, number))
  {
    CsvLines(Exported(text, number), str);
    ParseToCsv(Exported(text, number), str, parse);
  }

  /** Ascending input needs no reordering: the export is the resampled series
      itself, from the first sample to the last. */
  lemma ExportOfAscendingInput(text: string, number: string -> real)
    requires ',' in text
    requires Sorted(ParseSamples(text, number))
    ensures Exported(text, number) == Interpolate(ParseSamples(text, number), TargetLength)
    ensures
      var samples := ParseSamples(text, number);
      var values := Exported(text, number);
      values[0] == samples[0] && values[TargetLength - 1] == samples[|samples| - 1]
  {
    var samples := ParseSamples(text, number);
    InterpolateMonotone(samples, TargetLength);
    SortAscOfSorted(Interpolate(samples, TargetLength));
  }
}
