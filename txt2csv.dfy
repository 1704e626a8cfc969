/**
 * `utils/txt2csv.py`: the tab-separated electrode export of Brainstorm becomes
 * the CSV rows SimNIBS reads, `Electrode, x, y, z, name`, one per electrode.
 */
module Txt2Csv {
  import opened Wrappers

  type Row = seq<string>

  /** The lines of notes and header before the electrodes. */
  const SkippedRows: nat := 7

  /** The written row for an input row `name, _, x, y, z, …`. */
  function SimnibsRow(row: Row): (out: Row)
    requires |row| >= 5
    ensures |out| == 5 && out[0] == "Electrode"
  {
    ["Electrode", row[2], row[3], row[4], row[0]]
  }

  /** The loop over the rows after the skipped ones: the rows written until a
      non-empty row too short for `row[4]` raises, and whether one did. */
  function Converted(rows: seq<Row>): (seq<Row>, bool)
  {
    if rows == [] then ([], false)
    else if rows[0] == [] then Converted(rows[1..])
    else if |rows[0]| < 5 then ([], true)
    else
      var rest := Converted(rows[1..]);
      ([SimnibsRow(rows[0])] + rest.0, rest.1)
  }

  const StopIterationError: string := "StopIteration"
  const IndexError: string := "list index out of range"

  /** `rows` already written and the rows that finish them. */
  predicate WrittenSoFar(all: seq<Row>, written: seq<Row>, rest: seq<Row>) {
    Converted(all) == (written + Converted(rest).0, Converted(rest).1)
  }

  lemma WrittenStep(all: seq<Row>, written: seq<Row>, rest: seq<Row>)
    requires WrittenSoFar(all, written, rest) && rest != []
    ensures rest[0] == [] ==> WrittenSoFar(all, written, rest[1..])
    ensures rest[0] != [] && |rest[0]| < 5 ==> Converted(all) == (written, true)
    ensures |rest[0]| >= 5 ==> WrittenSoFar(all, written + [SimnibsRow(rest[0])], rest[1..])
  {
    if |rest[0]| >= 5 {
      var tail := Converted(rest[1..]);
      assert written + ([SimnibsRow(rest[0])] + tail.0) == written + [SimnibsRow(rest[0])] + tail.0;
    } else if rest[0] != [] {
      assert written + [] == written;
    }
  }

  /** `process_file` on the rows `csv.reader` yields: the rows written to the output
      file (kept when an exception is caught and printed) and the exception. */
  method ProcessFile(rows: seq<Row>) returns (written: seq<Row>, error: Option<string>)
    ensures |rows| < SkippedRows ==> written == [] && error == Some(StopIterationError)
    ensures |rows| >= SkippedRows ==>
              var (out, raised) := Converted(rows[SkippedRows..]);
              && written == out
              && (error.Some? <==> raised)
              && (raised ==> error == Some(IndexError))
  {
    written := [];
    if |rows| < SkippedRows {
      return [], Some(StopIterationError);
    }
    var i := SkippedRows;
    assert written + Converted(rows[i..]).0 == Converted(rows[i..]).0;
    while i < |rows|
      invariant SkippedRows <= i <= |rows|
      invariant WrittenSoFar(rows[SkippedRows..], written, rows[i..])
    {
      var row := rows[i];
      WrittenStep(rows[SkippedRows..], written, rows[i..]);
      assert rows[i..][1..] == rows[i + 1..];
      if row != [] {
        if |row| < 5 {
          return written, Some(IndexError);
        }
        var sampleName := row[0];
        var locX, locY, locZ := row[2], row[3], row[4];
        written := written + [["Electrode", locX, locY, locZ, sampleName]];
      }
      i := i + 1;
    }
    assert rows[i..] == [];
    error := None;
  }

  /** The rows that carry an electrode. */
  function NonEmpty(rows: seq<Row>): (r: seq<Row>)
    ensures |r| <= |rows|
  {
    if rows == [] then []
    else (if rows[0] == [] then [] else [rows[0]]) + NonEmpty(rows[1..])
  }

  predicate AllLongEnough(rows: seq<Row>) {
    forall i :: 0 <= i < |rows| ==> rows[i] == [] || |rows[i]| >= 5
  }

  /** Without short rows every non-empty row is written, in order, remapped:
      `row[1]` is dropped and the name moves to the end. */
  lemma {:induction false} AllRowsWritten(rows: seq<Row>)
    requires AllLongEnough(rows)
    ensures !Converted(rows).1
    ensures |Converted(rows).0| == |NonEmpty(rows)|
    ensures forall k :: 0 <= k < |NonEmpty(rows)| ==>
              |NonEmpty(rows)[k]| >= 5 && Converted(rows).0[k] == SimnibsRow(NonEmpty(rows)[k])
  {
    if rows != [] {
      assert AllLongEnough(rows[1..]) by {
        forall i | 0 <= i < |rows[1..]| ensures rows[1..][i] == [] || |rows[1..][i]| >= 5 {
          assert rows[1..][i] == rows[i + 1];
        }
      }
      AllRowsWritten(rows[1..]);
      if rows[0] == [] {
        assert NonEmpty(rows) == NonEmpty(rows[1..]);
      } else {
        var n := NonEmpty(rows);
        var c := Converted(rows).0;
        assert n == [rows[0]] + NonEmpty(rows[1..]);
        forall k | 0 <= k < |n| ensures |n[k]| >= 5 && c[k] == SimnibsRow(n[k]) {
          if k > 0 {
            assert n[k] == NonEmpty(rows[1..])[k - 1];
            assert c[k] == Converted(rows[1..]).0[k - 1];
          }
        }
      }
    }
  }

  /** The rows written before a short row are kept: they are the conversion of the
      rows before it. */
  lemma {:induction false} ShortRowKeepsEarlierRows(before: seq<Row>, short: Row, after: seq<Row>)
    requires AllLongEnough(before) && short != [] && |short| < 5
    ensures Converted(before + [short] + after) == (Converted(before).0, true)
  {
    if before == [] {
      assert before + [short] + after == [short] + after;
    } else {
      var all := before + [short] + after;
      assert all[0] == before[0];
      assert all[1..] == before[1..] + [short] + after;
      assert AllLongEnough(before[1..]) by {
        forall i | 0 <= i < |before[1..]| ensures before[1..][i] == [] || |before[1..][i]| >= 5 {
          assert before[1..][i] == before[i + 1];
        }
      }
      ShortRowKeepsEarlierRows(before[1..], short, after);
    }
  }

  /** No header row is written: the first written row is the first electrode's. */
  lemma FirstRowIsElectrode(rows: seq<Row>)
    requires |rows| > SkippedRows && |rows[SkippedRows]| >= 5
    ensures Converted(rows[SkippedRows..]).0 != []
    ensures Converted(rows[SkippedRows..]).0[0] == SimnibsRow(rows[SkippedRows])
  {
    assert rows[SkippedRows..][0] == rows[SkippedRows];
  }
}
