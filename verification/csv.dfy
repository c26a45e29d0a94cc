/** `convertToCSV`: a header line `Index,Data` followed by one row
    `<index + 1>,<value>` per element, rows joined by newlines. How JavaScript
    prints a number inside a template literal is not modelled: the value
    rendering is a parameter `str`. `ParseCsv` reads an export back; it is the
    inverse that `ToCsv` is checked against.
 */
module Csv {
  import opened Text

  const HeaderLine: string := "Index,Data"

  /** The header, including the newline that separates it from the first row. */
  const Header: string := HeaderLine + "\n"

  /** `str` prints no value of `data` with a field or line separator. */
  predicate Printable(data: seq<real>, str: real -> string)
  {
    forall v | v in data :: ',' !in str(v) && '\n' !in str(v)
  }

  /** The row for the element at 0-based position `k`. */
  function Row(k: nat, value: real, str: real -> string): string
  {
    NatToString(k + 1) + "," + str(value)
  }

  function Rows(data: seq<real>, str: real -> string): (rows: seq<string>)
    ensures |rows| == |data|
  {
    seq(|data|, k requires 0 <= k < |data| => Row(k, data[k], str))
  }

  /** `convertToCSV(data)`: always begins with the header line; an empty
      series gives exactly the header. */
  function ToCsv(data: seq<real>, str: real -> string): (csv: string)
    ensures |csv| >= |Header| && csv[..|Header|] == Header
    ensures data == [] <==> csv == Header
  {
    Header + Join(Rows(data, str), '\n')
  }

  /** A row splits at its comma into the 1-based index and the printed value. */
  lemma RowFields(k: nat, value: real, str: real -> string)
    requires ',' !in str(value)
    ensures Split(Row(k, value, str), ',') == [NatToString(k + 1), str(value)]
  {
    var idx := NatToString(k + 1);
    assert Row(k, value, str) == idx + ([','] + str(value));
    SplitJoin([idx, str(value)], ',');
    assert Join([idx, str(value)], ',') == idx + [','] + str(value);
  }

  /** The lines of an export: the header, then one row per element; an empty
      series leaves a single empty line after the header's newline. */
  lemma CsvLines(data: seq<real>, str: real -> string)
    requires Printable(data, str)
    ensures Split(ToCsv(data, str), '\n') ==
      [HeaderLine] + (if data == [] then [""] else Rows(data, str))
    ensures data != [] ==> |Split(ToCsv(data, str), '\n')| == |data| + 1
  {
    var rows := Rows(data, str);
    HeaderSplit(Join(rows, '\n'));
    if data != [] {
      RowsSingleLine(data, str);
      SplitJoin(rows, '\n');
    }
  }

  /** The header's newline splits it off as the first line. */
  lemma HeaderSplit(body: string)
    ensures Split(Header + body, '\n') == [HeaderLine] + Split(body, '\n')
  {
    assert Header + body == HeaderLine + ([('\n')] + body);
    SplitSepFirst(body, '\n');
    SplitPrefix(HeaderLine, [('\n')] + body, '\n');
    assert HeaderLine + "" == HeaderLine;
  }

  /** No row contains a newline. */
  lemma RowsSingleLine(data: seq<real>, str: real -> string)
    requires Printable(data, str)
    ensures forall k :: 0 <= k < |data| ==> '\n' !in Rows(data, str)[k]
  {
    forall k | 0 <= k < |data|
      ensures '\n' !in Rows(data, str)[k]
    {
      assert Rows(data, str)[k] == Row(k, data[k], str);
    }
  }

  /** Reads the row expected at 0-based position `k`: two fields, the first
      being `k + 1` in decimal. */
  function ParseRow(line: string, k: nat, parse: string -> real): Option<real>
  {
    var fields := Split(line, ',');
    if |fields| == 2 && ParseNat(fields[0]) == Some(k + 1) then Some(parse(fields[1]))
    else None
  }

  /** Reads consecutive rows, the first of which sits at position `k`. */
  function ParseRows(lines: seq<string>, k: nat, parse: string -> real): (r: Option<seq<real>>)
    ensures r.Some? ==> |r.value| == |lines|
  {
    if lines == [] then Some([])
    else
      match ParseRow(lines[0], k, parse)
      case None => None
      case Some(v) =>
        match ParseRows(lines[1..], k + 1, parse)
        case None => None
        case Some(vs) => Some([v] + vs)
  }

  /** Reads an export back into its series, or `None` if the text is not one. */
  function ParseCsv(text: string, parse: string -> real): Option<seq<real>>
  {
    var lines := Split(text, '\n');
    if |lines| < 2 || lines[0] != HeaderLine then None
    else if lines[1..] == [""] then Some([])
    else ParseRows(lines[1..], 0, parse)
  }

  lemma {:induction false} ParseRowsOfRows(data: seq<real>, from: nat, str: real -> string, parse: string -> real)
    requires Printable(data, str)
    requires forall v | v in data :: parse(str(v)) == v
    requires from <= |data|
    ensures ParseRows(Rows(data, str)[from..], from, parse) == Some(data[from..])
    decreases |data| - from
  {
    var rows := Rows(data, str);
    if from < |data| {
      ParseRowOfRow(data, from, str, parse);
      assert rows[from..][0] == rows[from];
      assert rows[from..][1..] == rows[from + 1..];
      ParseRowsOfRows(data, from + 1, str, parse);
      assert ParseRows(rows[from..], from, parse) == Some([data[from]] + data[from + 1..]);
      SliceCons(data, from);
    } else {
      assert rows[from..] == [] && data[from..] == [];
    }
  }

  /** Row `k` of an export reads back as element `k`. */
  lemma ParseRowOfRow(data: seq<real>, k: nat, str: real -> string, parse: string -> real)
    requires Printable(data, str)
    requires forall v | v in data :: parse(str(v)) == v
    requires k < |data|
    ensures ParseRow(Rows(data, str)[k], k, parse) == Some(data[k])
  {
    RowFields(k, data[k], str);
    ParseNatToString(k + 1);
  }

  lemma SliceCons(s: seq<real>, i: nat)
    requires i < |s|
    ensures s[i..] == [s[i]] + s[i + 1..]
  {
  }

  /** Round trip: when the rendering of the exported values prints no
      separator and `parse` undoes it on those values, reading an export back
      gives the series exported. */
  lemma ParseToCsv(data: seq<real>, str: real -> string, parse: string -> real)
    requires Printable(data, str)
    requires forall v | v in data :: parse(str(v)) == v
    ensures ParseCsv(ToCsv(data, str), parse) == Some(data)
  {
    CsvLines(data, str);
    var lines := Split(ToCsv(data, str), '\n');
    if data != [] {
      var rows := Rows(data, str);
      assert lines[1..] == rows;
      assert rows[0] == Row(0, data[0], str);
      assert ',' in rows[0] by { assert rows[0][|NatToString(1)|] == ','; }
      assert rows != [""];
      ParseRowsOfRows(data, 0, str, parse);
      assert rows[0..] == rows && data[0..] == data;
    }
  }

  /** `convertToCSV([1, 2, 3])` with values printed as digits is `"Index,Data\n1,1\n2,2\n3,3"`. */
  lemma ExampleSmall(str: real -> string)
    requires str(1.0) == "1" && str(2.0) == "2" && str(3.0) == "3"
    ensures ToCsv([1.0, 2.0, 3.0], str) == "Index,Data\n1,1\n2,2\n3,3"
  {
    ExampleSmallRows(str);
    ExampleSmallJoin();
  }

  lemma ExampleSmallRows(str: real -> string)
    requires str(1.0) == "1" && str(2.0) == "2" && str(3.0) == "3"
    ensures Rows([1.0, 2.0, 3.0], str) == ["1,1", "2,2", "3,3"]
  {
    var rows := Rows([1.0, 2.0, 3.0], str);
    assert NatToString(1) == "1" && NatToString(2) == "2" && NatToString(3) == "3";
    assert rows[0] == Row(0, 1.0, str) == "1,1";
    assert rows[1] == Row(1, 2.0, str) == "2,2";
    assert rows[2] == Row(2, 3.0, str) == "3,3";
  }

  lemma ExampleSmallJoin()
    ensures Join(["1,1", "2,2", "3,3"], '\n') == "1,1\n2,2\n3,3"
  {
    var rows := ["1,1", "2,2", "3,3"];
    assert rows[1..] == ["2,2", "3,3"] && rows[1..][1..] == ["3,3"];
    assert Join(["3,3"], '\n') == "3,3";
    assert Join(["2,2", "3,3"], '\n') == "2,2" + "\n" + "3,3" == "2,2\n3,3";
    assert Join(rows, '\n') == "1,1" + "\n" + "2,2\n3,3";
  }

  /** The round trip applies to an actual printer and reader: values `1` and
      `2` printed as digits read back as the series `[1, 2]`. */
  lemma ExampleRoundTrip()
    ensures
      var str := (v: real) => if v == 1.0 then "1" else "2";
      var parse := (t: string) => if t == "1" then 1.0 else 2.0;
      ParseCsv(ToCsv([1.0, 2.0], str), parse) == Some([1.0, 2.0])
  {
    var str := (v: real) => if v == 1.0 then "1" else "2";
    var parse := (t: string) => if t == "1" then 1.0 else 2.0;
    assert Printable([1.0, 2.0], str);
    ParseToCsv([1.0, 2.0], str, parse);
  }
}
