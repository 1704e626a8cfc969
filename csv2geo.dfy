/**
 * `utils/csv2geo.py`: a digitised EEG net, as CSV rows `Electrode, x, y, z, name`,
 * becomes a Gmsh `.geo` view with one point and one text label per electrode,
 * for every `*.csv` file of a directory.
 */
module Csv2Geo {
  import opened Text
  import opened Wrappers
  import Paths

  type Row = seq<string>

  const GeoHeader: string := "View\"\"{\n"

  const GeoFooter: string :=
    "};\n\nmyView = PostProcessing.NbViews-1;\nView[myView].PointType=1;\nView[myView].PointSize=6;\n"
    + "View[myView].LineType=1;\nView[myView].LineWidth=2; "

  /** The point at `row[1..3]`. */
  function PointLine(row: Row): string
    requires |row| >= 5
  {
    "SP(" + row[1] + ", " + row[2] + ", " + row[3] + "){0};"
  }

  /** The text `row[4]` at the same place. */
  function TextLine(row: Row): string
    requires |row| >= 5
  {
    "T3(" + row[1] + ", " + row[2] + ", " + row[3] + ", 0){\"" + row[4] + "\"};"
  }

  /** The two lines written for a row. */
  function RowLines(row: Row): string
    requires |row| >= 5
  {
    PointLine(row) + "\n" + TextLine(row) + "\n"
  }

  /** The lines of the rows after the header, skipping rows too short to carry a name:
      the evidently intended guard `len(row) < 5`. */
  function GeoLines(rows: seq<Row>): string
  {
    if rows == [] then ""
    else (if |rows[0]| < 5 then "" else RowLines(rows[0])) + GeoLines(rows[1..])
  }

  /** The whole `.geo` text for a file's rows, the first of which is the header. */
  function GeoText(rows: seq<Row>): (text: string)
    requires rows != []
  {
    GeoHeader + GeoLines(rows[1..]) + GeoFooter
  }

  /** The loop as written over the rows after the header: what it writes, and whether
      it raised on a row of exactly four fields, whose `row[4]` does not exist. */
  function Emitted(rows: seq<Row>): (string, bool)
  {
    if rows == [] then ("", false)
    else if |rows[0]| < 4 then Emitted(rows[1..])
    else if |rows[0]| == 4 then ("", true)
    else
      var rest := Emitted(rows[1..]);
      (RowLines(rows[0]) + rest.0, rest.1)
  }

  const StopIterationError: string := "StopIteration"
  const IndexError: string := "IndexError: list index out of range"

  /** `format_electrode_data` on the rows `csv.reader` yields: the text written to the
      output file, and the exception that ended it, if any. An empty file raises at
      `next` before anything is written; a four-field row raises where the loop is. */
  method FormatElectrodeData(rows: seq<Row>) returns (output: string, error: Option<string>)
    ensures rows == [] ==> output == "" && error == Some(StopIterationError)
    ensures rows != [] ==>
              var (body, raised) := Emitted(rows[1..]);
              && (raised ==> output == GeoHeader + body && error == Some(IndexError))
              && (!raised ==> output == GeoHeader + body + GeoFooter && error == None)
  {
    if rows == [] {
      return "", Some(StopIterationError);
    }
    output := GeoHeader;
    var body := "";
    var i := 1;
    assert body + Emitted(rows[i..]).0 == Emitted(rows[i..]).0;
    while i < |rows|
      invariant 1 <= i <= |rows|
      invariant output == GeoHeader + body
      invariant EmittedSoFar(rows[1..], body, rows[i..])
    {
      var row := rows[i];
      EmittedStep(rows[1..], body, rows[i..]);
      assert rows[i..][1..] == rows[i + 1..];
      if |row| < 4 {
        i := i + 1;
        continue;
      }
      if |row| == 4 {
        return output, Some(IndexError);
      }
      body := body + RowLines(row);
      output := output + RowLines(row);
      i := i + 1;
    }
    assert rows[i..] == [];
    assert Emitted(rows[i..]) == ("", false);
    assert body + "" == body;
    output := output + GeoFooter;
    error := None;
  }

  /** `body` has been written for the rows before `rest`, whose run finishes the job. */
  predicate EmittedSoFar(all: seq<Row>, body: string, rest: seq<Row>) {
    Emitted(all) == (body + Emitted(rest).0, Emitted(rest).1)
  }

  lemma EmittedStep(all: seq<Row>, body: string, rest: seq<Row>)
    requires EmittedSoFar(all, body, rest) && rest != []
    ensures |rest[0]| < 4 ==> EmittedSoFar(all, body, rest[1..])
    ensures |rest[0]| == 4 ==> Emitted(all) == (body, true)
    ensures |rest[0]| > 4 ==> EmittedSoFar(all, body + RowLines(rest[0]), rest[1..])
  {
    if |rest[0]| > 4 {
      var tail := Emitted(rest[1..]);
      assert body + (RowLines(rest[0]) + tail.0) == body + RowLines(rest[0]) + tail.0;
    } else if |rest[0]| == 4 {
      assert body + "" == body;
    }
  }

  predicate NoFourFieldRow(rows: seq<Row>) {
    forall i :: 0 <= i < |rows| ==> |rows[i]| != 4
  }

  /** Without a row of exactly four fields, the loop as written meets the intended guard. */
  lemma {:induction false} EmittedWithoutFourFieldRow(rows: seq<Row>)
    requires NoFourFieldRow(rows)
    ensures Emitted(rows) == (GeoLines(rows), false)
  {
    if rows != [] {
      assert GeoLines(rows) == (if |rows[0]| < 5 then "" else RowLines(rows[0])) + GeoLines(rows[1..]);
      if |rows[0]| < 5 {
        assert "" + GeoLines(rows[1..]) == GeoLines(rows[1..]);
      }
      assert NoFourFieldRow(rows[1..]) by {
        forall i | 0 <= i < |rows[1..]| ensures |rows[1..][i]| != 4 {
          assert rows[1..][i] == rows[i + 1];
        }
      }
      EmittedWithoutFourFieldRow(rows[1..]);
    }
  }

  /** A row with a name field but only three coordinates before it stops the output
      after the header, with no footer: the guard `len(row) < 4` is one short. */
  lemma FourFieldRowStops()
    ensures Emitted([["E1", "1", "2", "3"]]) == ("", true)
    ensures GeoText([["Name", "X", "Y", "Z"], ["E1", "1", "2", "3"]]) == GeoHeader + GeoFooter
  {
    var rows := [["Name", "X", "Y", "Z"], ["E1", "1", "2", "3"]];
    assert rows[1..] == [["E1", "1", "2", "3"]];
    assert [["E1", "1", "2", "3"]][1..] == [];
  }

  /** The header row is never written: only the rows after it matter. */
  lemma HeaderIgnored(h1: Row, h2: Row, rest: seq<Row>)
    ensures GeoText([h1] + rest) == GeoText([h2] + rest)
  {
    assert ([h1] + rest)[1..] == rest == ([h2] + rest)[1..];
  }

  /** Rows are written in order: the lines of a concatenation are the concatenated lines. */
  lemma {:induction false} GeoLinesAppend(a: seq<Row>, b: seq<Row>)
    ensures GeoLines(a + b) == GeoLines(a) + GeoLines(b)
  {
    if a == [] {
      assert a + b == b;
    } else {
      var first := if |a[0]| < 5 then "" else RowLines(a[0]);
      assert (a + b)[0] == a[0];
      assert (a + b)[1..] == a[1..] + b;
      GeoLinesAppend(a[1..], b);
      assert GeoLines(a + b) == first + (GeoLines(a[1..]) + GeoLines(b));
      assert GeoLines(a) == first + GeoLines(a[1..]);
    }
  }

  predicate NoLineBreaks(row: Row) {
    forall i :: 0 <= i < |row| ==> '\n' !in row[i]
  }

  /** Each written row is two lines, the point and then the text, for fields without
      line breaks. */
  lemma RowIsTwoLines(row: Row)
    requires |row| >= 5 && NoLineBreaks(row)
    ensures SplitOn(RowLines(row), '\n') == [PointLine(row), TextLine(row), ""]
  {
    assert '\n' !in PointLine(row) && '\n' !in TextLine(row);
    SplitOnAfterPiece(TextLine(row), "", '\n');
    assert TextLine(row) + ['\n'] + "" == TextLine(row) + "\n";
    SplitOnAfterPiece(PointLine(row), TextLine(row) + "\n", '\n');
    assert RowLines(row) == PointLine(row) + ['\n'] + (TextLine(row) + "\n");
  }

  // ---------------------------------------------------------------------
  // process_directory

  /** `os.path.splitext(input_path)[0] + ".geo"`. */
  function GeoPath(inputPath: string): string
  {
    Paths.Stem(inputPath) + ".geo"
  }

  /** What `glob(os.path.join(directory, "*.csv"))` matches in a listing: names ending
      in `.csv` that do not start with a dot. */
  predicate GlobMatch(name: string) {
    EndsWith(name, ".csv") && name[0] != '.'
  }

  /** A matched file's output sits beside it, its `.csv` replaced by `.geo`. */
  lemma GeoPathOfMatch(directory: string, name: string)
    requires '/' !in name && GlobMatch(name)
    ensures GeoPath(Paths.Join(directory, name)) == Paths.Join(directory, name[..|name| - 4]) + ".geo"
  {
    var stem := name[..|name| - 4];
    assert name == stem + "." + "csv";
    assert stem != [] && stem[0] != '.';
    var dir := Paths.Join(directory, stem);
    assert Paths.Join(directory, name) == dir + "." + "csv";
    ExtendedStem(directory, stem);
  }

  lemma ExtendedStem(directory: string, stem: string)
    requires '/' !in stem && stem != [] && stem[0] != '.'
    ensures Paths.Stem(Paths.Join(directory, stem) + "." + "csv") == Paths.Join(directory, stem)
  {
    JoinNamed(directory, stem);
    Paths.StemOfExtended(Paths.Join(directory, stem), "csv");
  }

  lemma JoinNamed(directory: string, stem: string)
    requires '/' !in stem && stem != [] && stem[0] != '.'
    ensures Paths.HasNamedLastPart(Paths.Join(directory, stem))
  {
    var p := Paths.Join(directory, stem);
    Paths.BaseNameOfJoin(directory, stem);
    var sep := Paths.LastIndexOf(p, '/');
    assert p[sep + 1..] == stem;
    assert sep < sep + 1 < |p| && p[sep + 1] != '.';
  }

  /** One converted file: the input path and the output path. */
  datatype Converted = Converted(input: string, output: string, text: string)

  predicate ConvertedInOrder(done: seq<Converted>, inputs: seq<string>, contents: string -> seq<Row>)
  {
    && |done| <= |inputs|
    && forall k :: 0 <= k < |done| ==>
         && contents(inputs[k]) != [] && !Emitted(contents(inputs[k])[1..]).1
         && done[k] == Converted(inputs[k], GeoPath(inputs[k]), GeoText(contents(inputs[k])))
  }

  lemma ConvertedInOrderStep(done: seq<Converted>, inputs: seq<string>, contents: string -> seq<Row>,
                             c: Converted)
    requires ConvertedInOrder(done, inputs, contents) && |done| < |inputs|
    requires contents(inputs[|done|]) != [] && !Emitted(contents(inputs[|done|])[1..]).1
    requires c == Converted(inputs[|done|], GeoPath(inputs[|done|]), GeoText(contents(inputs[|done|])))
    ensures ConvertedInOrder(done + [c], inputs, contents)
  {
    var d := done + [c];
    forall k | 0 <= k < |d|
      ensures && contents(inputs[k]) != [] && !Emitted(contents(inputs[k])[1..]).1
              && d[k] == Converted(inputs[k], GeoPath(inputs[k]), GeoText(contents(inputs[k])))
    {
      if k < |done| {
        assert d[k] == done[k];
      }
    }
  }

  /** `process_directory` over the matched files in the order given (`glob` fixes
      none); `contents` gives each file's rows. An exception in one file ends the run. */
  method ProcessDirectory(inputs: seq<string>, contents: string -> seq<Row>)
    returns (done: seq<Converted>, failed: Option<string>)
    ensures ConvertedInOrder(done, inputs, contents)
    ensures failed.None? <==> |done| == |inputs|
    ensures failed.Some? ==>
              && failed.value == inputs[|done|]
              && (contents(failed.value) == [] || Emitted(contents(failed.value)[1..]).1)
  {
    done := [];
    failed := None;
    var i := 0;
    while i < |inputs|
      invariant i == |done|
      invariant ConvertedInOrder(done, inputs, contents)
    {
      var inputPath := inputs[i];
      var outputPath := GeoPath(inputPath);
      var rows := contents(inputPath);
      var text, error := FormatElectrodeData(rows);
      if error.Some? {
        failed := Some(inputPath);
        return;
      }
      assert rows != [] && !Emitted(rows[1..]).1;
      EmittedWithoutRaise(rows[1..]);
      var c := Converted(inputPath, outputPath, text);
      ConvertedInOrderStep(done, inputs, contents, c);
      done := done + [c];
      i := i + 1;
    }
  }

  /** When the loop as written does not raise, it wrote the intended lines. */
  lemma {:induction false} EmittedWithoutRaise(rows: seq<Row>)
    requires !Emitted(rows).1
    ensures Emitted(rows).0 == GeoLines(rows)
  {
    if rows != [] {
      EmittedWithoutRaise(rows[1..]);
    }
  }
}
