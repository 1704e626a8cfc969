/**
 * `optimizer/roi-creator.py`: the ROI files under `ROIs/` (one CSV row of
 * coordinates per ROI), the menu that picks an existing ROI or a new one, the
 * checks on a new ROI's name and on typed coordinates, and `roi_list.txt`, the
 * list of saved ROI files that `roi-analyzer.py` reads.
 */
module RoiCreator {
  import opened Text
  import opened Wrappers
  import Paths
  import TiSim
  import RoiAnalyzer

  // ---------------------------------------------------------------------
  // list_existing_rois

  /** `file_name[:-4]` for every name ending in `.csv`, in listing order. */
  function CsvStems(listing: seq<string>): seq<string>
  {
    if listing == [] then []
    else
      var f := listing[|listing| - 1];
      CsvStems(listing[..|listing| - 1]) + (if EndsWith(f, ".csv") then [f[..|f| - 4]] else [])
  }

  /** `list_existing_rois`; `listing` is `None` when the directory does not exist. */
  method ListExistingRois(listing: Option<seq<string>>) returns (existing: seq<string>)
    ensures listing.None? ==> existing == []
    ensures listing.Some? ==> existing == CsvStems(listing.value)
  {
    existing := [];
    if listing.Some? {
      var files := listing.value;
      var i := 0;
      while i < |files|
        invariant i <= |files|
        invariant existing == CsvStems(files[..i])
      {
        var fileName := files[i];
        assert files[..i + 1][..i] == files[..i];
        if EndsWith(fileName, ".csv") {
          existing := existing + [fileName[..|fileName| - 4]];
        }
        i := i + 1;
      }
      assert files[..i] == files;
    }
  }

  /** A name is listed iff the directory holds `{name}.csv`. */
  lemma {:induction false} CsvStemsListed(listing: seq<string>, name: string)
    ensures name in CsvStems(listing) <==> name + ".csv" in listing
  {
    if listing != [] {
      var init := listing[..|listing| - 1];
      var f := listing[|listing| - 1];
      CsvStemsListed(init, name);
      assert forall g :: g in listing <==> g in init || g == f;
      if EndsWith(f, ".csv") {
        assert f == f[..|f| - 4] + ".csv";
      }
      if f == name + ".csv" {
        assert EndsWith(f, ".csv");
        assert f[..|f| - 4] == name;
      }
    }
  }

  /** The listing order is kept: a later part of the listing adds its names after. */
  lemma {:induction false} CsvStemsAppend(a: seq<string>, b: seq<string>)
    ensures CsvStems(a + b) == CsvStems(a) + CsvStems(b)
    decreases |b|
  {
    if b == [] {
      assert a + b == a;
    } else {
      assert (a + b)[..|a + b| - 1] == a + b[..|b| - 1];
      CsvStemsAppend(a, b[..|b| - 1]);
    }
  }

  // ---------------------------------------------------------------------
  // ROI files

  /** `os.path.join(directory, f"{roi_name}.csv")`. */
  function RoiFilePath(directory: string, roiName: string): string
  {
    Paths.Join(directory, roiName + ".csv")
  }

  /** The ROI files of a directory: each file's CSV rows, every cell as text. */
  type RoiFiles = map<string, seq<seq<string>>>

  /** The cells `csv.writer` writes for a row of numbers; `show` is `str` on a float. */
  function Cells(coordinates: seq<real>, show: real -> string): (cells: seq<string>)
    ensures |cells| == |coordinates|
    ensures forall k :: 0 <= k < |cells| ==> cells[k] == show(coordinates[k])
  {
    seq(|coordinates|, k requires 0 <= k < |coordinates| => show(coordinates[k]))
  }

  /** `save_roi_to_csv`: one row of coordinates, replacing any earlier content; the
      path is returned. */
  function SaveRoiToCsv(files: RoiFiles, roiName: string, coordinates: seq<real>, directory: string,
                        show: real -> string)
    : (saved: (string, RoiFiles))
    ensures saved.0 == RoiFilePath(directory, roiName)
    ensures saved.1.Keys == files.Keys + {saved.0}
    ensures saved.1[saved.0] == [Cells(coordinates, show)]
    ensures forall p :: p in files && p != saved.0 ==> saved.1[p] == files[p]
  {
    var path := RoiFilePath(directory, roiName);
    (path, files[path := [Cells(coordinates, show)]])
  }

  /** The `StopIteration` that `next(reader)` raises on an empty file. */
  const EmptyFileError: string := "StopIteration"

  /** `[float(coord) for coord in coordinates]`; `float` gives `None` where Python's
      `float` raises, and the first such cell ends the comprehension. */
  function FloatCells(cells: seq<string>, float: string -> Option<real>): (r: Option<seq<real>>)
    ensures r.None? <==> exists k :: 0 <= k < |cells| && float(cells[k]).None?
    ensures r.Some? ==> |r.value| == |cells| && forall k :: 0 <= k < |cells| ==> float(cells[k]) == Some(r.value[k])
  {
    if cells == [] then Some([])
    else match (float(cells[0]), FloatCells(cells[1..], float)) {
      case (Some(x), Some(rest)) =>
        assert forall k :: 1 <= k < |cells| ==> cells[k] == cells[1..][k - 1];
        Some([x] + rest)
      case (None, _) => None
      case (_, None) =>
        var k :| 0 <= k < |cells[1..]| && float(cells[1..][k]).None?;
        assert cells[k + 1] == cells[1..][k];
        None
    }
  }

  /** `read_roi_coordinates`: `[]` when there is no such file; otherwise the first row
      read by `float`, with `StopIteration` for a file without rows and `ValueError`
      for a first row with a cell that is no number. */
  function ReadRoiCoordinates(files: RoiFiles, roiName: string, directory: string,
                              float: string -> Option<real>): (r: Result<seq<real>, string>)
    ensures RoiFilePath(directory, roiName) !in files ==> r == Success([])
    ensures r == Failure(EmptyFileError) <==>
              RoiFilePath(directory, roiName) in files && files[RoiFilePath(directory, roiName)] == []
    ensures r == Failure(FloatError) <==>
              && RoiFilePath(directory, roiName) in files && files[RoiFilePath(directory, roiName)] != []
              && exists k :: 0 <= k < |files[RoiFilePath(directory, roiName)][0]|
                               && float(files[RoiFilePath(directory, roiName)][0][k]).None?
    ensures r.Failure? ==> r.error == EmptyFileError || r.error == FloatError
    ensures r.Success? && RoiFilePath(directory, roiName) in files ==>
              var row := files[RoiFilePath(directory, roiName)][0];
              |r.value| == |row| && forall k :: 0 <= k < |row| ==> float(row[k]) == Some(r.value[k])
  {
    var path := RoiFilePath(directory, roiName);
    if path !in files then Success([])
    else if files[path] == [] then Failure(EmptyFileError)
    else match FloatCells(files[path][0], float) {
      case Some(coordinates) => Success(coordinates)
      case None => Failure(FloatError)
    }
  }

  /** `float` reads back what `str` wrote for every saved number; Python guarantees
      this for `repr`, which `str` of a float is. */
  predicate ReadsBack(coordinates: seq<real>, show: real -> string, float: string -> Option<real>)
  {
    forall k :: 0 <= k < |coordinates| ==> float(show(coordinates[k])) == Some(coordinates[k])
  }

  lemma {:induction false} FloatCellsOfCells(coordinates: seq<real>, show: real -> string,
                                             float: string -> Option<real>)
    requires ReadsBack(coordinates, show, float)
    ensures FloatCells(Cells(coordinates, show), float) == Some(coordinates)
  {
    var cells := Cells(coordinates, show);
    var r := FloatCells(cells, float);
    assert r.Some?;
    assert r.value == coordinates;
  }

  /** Saving and reading back the same ROI gives its coordinates. */
  lemma SaveThenRead(files: RoiFiles, roiName: string, coordinates: seq<real>, directory: string,
                     show: real -> string, float: string -> Option<real>)
    requires ReadsBack(coordinates, show, float)
    ensures ReadRoiCoordinates(SaveRoiToCsv(files, roiName, coordinates, directory, show).1, roiName, directory, float)
         == Success(coordinates)
  {
    FloatCellsOfCells(coordinates, show, float);
  }

  /** A header row such as `x,y,z` is not read: `float` raises on its first cell. */
  lemma HeaderRowRaises(files: RoiFiles, roiName: string, directory: string, float: string -> Option<real>)
    requires float("x") == None
    requires RoiFilePath(directory, roiName) in files
    requires files[RoiFilePath(directory, roiName)] != []
    requires files[RoiFilePath(directory, roiName)][0] == ["x", "y", "z"]
    ensures ReadRoiCoordinates(files, roiName, directory, float) == Failure(FloatError)
  {
    assert files[RoiFilePath(directory, roiName)][0][0] == "x";
  }

  /** For one-component names, the files of different ROIs are different files. */
  lemma RoiFilePathInjective(directory: string, a: string, b: string)
    requires '/' !in a && '/' !in b
    requires RoiFilePath(directory, a) == RoiFilePath(directory, b)
    ensures a == b
  {
    Paths.BaseNameOfJoin(directory, a + ".csv");
    Paths.BaseNameOfJoin(directory, b + ".csv");
    assert a == (a + ".csv")[..|a|];
    assert b == (b + ".csv")[..|b|];
  }

  /** Saving one ROI leaves what every other ROI reads unchanged. */
  lemma SaveKeepsOthers(files: RoiFiles, roiName: string, coordinates: seq<real>, directory: string,
                        show: real -> string, float: string -> Option<real>, other: string)
    requires '/' !in roiName && '/' !in other && other != roiName
    ensures ReadRoiCoordinates(SaveRoiToCsv(files, roiName, coordinates, directory, show).1, other, directory, float)
         == ReadRoiCoordinates(files, other, directory, float)
  {
    if RoiFilePath(directory, other) == RoiFilePath(directory, roiName) {
      RoiFilePathInjective(directory, other, roiName);
    }
  }

  /** A saved ROI appears in the next menu: its file is listed under its name. */
  lemma SavedRoiListed(directory: string, roiName: string, listing: seq<string>)
    requires '/' !in roiName
    requires Paths.BaseName(RoiFilePath(directory, roiName)) in listing
    ensures roiName in CsvStems(listing)
  {
    Paths.BaseNameOfJoin(directory, roiName + ".csv");
    CsvStemsListed(listing, roiName);
  }

  // ---------------------------------------------------------------------
  // The menu and the name of a new ROI

  /** `1 <= choice <= len(existing_rois) + 1`. */
  predicate ValidChoice(choice: int, existing: seq<string>) {
    1 <= choice <= |existing| + 1
  }

  /** What a valid choice selects: the new ROI (`None`) or an existing one. */
  function ChoiceTarget(choice: int, existing: seq<string>): Option<string>
    requires ValidChoice(choice, existing)
  {
    if choice == |existing| + 1 then None else Some(existing[choice - 1])
  }

  /** The menu numbers the existing ROIs from 1 and puts "Add new ROI" last; every
      valid choice is one of these entries. */
  lemma MenuEntries(existing: seq<string>, choice: int)
    requires ValidChoice(choice, existing)
    ensures ChoiceTarget(choice, existing).None? <==> choice == |existing| + 1
    ensures forall k :: 0 <= k < |existing| ==> ChoiceTarget(k + 1, existing) == Some(existing[k])
    ensures ChoiceTarget(choice, existing).Some? ==> ChoiceTarget(choice, existing).value in existing
  {
  }

  predicate DistinctNames(names: seq<string>) {
    forall i, j :: 0 <= i < j < |names| ==> names[i] != names[j]
  }

  /** The menu lists no ROI twice: the names of a directory are distinct, and so are
      their `.csv` stems. */
  lemma {:induction false} CsvStemsDistinct(listing: seq<string>)
    requires DistinctNames(listing)
    ensures DistinctNames(CsvStems(listing))
  {
    if listing != [] {
      var init := listing[..|listing| - 1];
      var f := listing[|listing| - 1];
      CsvStemsDistinct(init);
      if EndsWith(f, ".csv") {
        var stem := f[..|f| - 4];
        assert f == stem + ".csv";
        assert f !in init by {
          forall i | 0 <= i < |init| ensures init[i] != f {
            assert init[i] == listing[i];
          }
        }
        CsvStemsListed(init, stem);
        assert stem !in CsvStems(init);
      }
    }
  }

  /** Different valid choices select different entries of a menu without repeated
      names, so each entry has exactly one number. */
  lemma MenuChoiceInjective(existing: seq<string>, c1: int, c2: int)
    requires DistinctNames(existing)
    requires ValidChoice(c1, existing) && ValidChoice(c2, existing)
    requires ChoiceTarget(c1, existing) == ChoiceTarget(c2, existing)
    ensures c1 == c2
  {
    if c1 <= |existing| && c2 <= |existing| {
      assert existing[c1 - 1] == existing[c2 - 1];
    }
  }

  /** The check on a new ROI's name: it must not contain a space. */
  predicate SingleWordName(name: string) {
    ' ' !in name
  }

  /** The check lets through what is not a space, tabs and empty names included. */
  lemma NameCheckExamples()
    ensures !SingleWordName("left motor")
    ensures SingleWordName("left\tmotor")
    ensures SingleWordName("")
  {
    assert "left motor"[4] == ' ';
  }

  // ---------------------------------------------------------------------
  // Typed coordinates

  /** `s.replace(c, '', 1)`. */
  function RemoveFirst(s: string, c: char): (r: string)
    ensures |r| <= |s|
  {
    if s == [] then []
    else if s[0] == c then s[1..]
    else [s[0]] + RemoveFirst(s[1..], c)
  }

  /** With no `c` to remove, the string is left as it is. */
  lemma {:induction false} RemoveFirstAbsent(s: string, c: char)
    requires c !in s
    ensures RemoveFirst(s, c) == s
  {
    if s != [] {
      assert s == [s[0]] + s[1..];
      RemoveFirstAbsent(s[1..], c);
    }
  }

  /** `str.isdigit()` (on ASCII digits): non-empty and all digits. */
  predicate IsDigitString(s: string) {
    s != [] && AllDigits(s)
  }

  /** The check line 78 applies to a token, as written. */
  predicate PassesCheck(token: string) {
    IsDigitString(RemoveFirst(RemoveFirst(token, '.'), '-'))
  }

  /** The parts of a token: the text after an optional leading minus, and around its
      last point the whole part and the fraction (either may be empty). */
  function Unsigned(token: string): string {
    if |token| > 0 && token[0] == '-' then token[1..] else token
  }

  function WholePart(u: string): string {
    var dot := Paths.LastIndexOf(u, '.');
    if dot < 0 then u else u[..dot]
  }

  function Fraction(u: string): string {
    var dot := Paths.LastIndexOf(u, '.');
    if dot < 0 then "" else u[dot + 1..]
  }

  /** The numbers `float()` reads among tokens of digits, `.` and `-`: an optional
      leading minus, digits with at most one point, at least one digit. */
  predicate NumberLiteral(token: string) {
    var u := Unsigned(token);
    AllDigits(WholePart(u)) && AllDigits(Fraction(u)) && |WholePart(u)| + |Fraction(u)| >= 1
  }

  function Pow10(n: nat): (p: nat)
    ensures p >= 1
  {
    if n == 0 then 1 else 10 * Pow10(n - 1)
  }

  /** The value of a number literal, exactly (the binary rounding of `float` is not
      modelled). */
  function LiteralValue(token: string): real
    requires NumberLiteral(token)
  {
    var u := Unsigned(token);
    var magnitude := DecimalValue(WholePart(u)) as real
                     + DecimalValue(Fraction(u)) as real / Pow10(|Fraction(u)|) as real;
    if |token| > 0 && token[0] == '-' then -magnitude else magnitude
  }

  lemma {:induction false} RemoveFirstAt(a: string, c: char, b: string)
    requires c !in a
    ensures RemoveFirst(a + [c] + b, c) == a + b
    decreases |a|
  {
    if a == [] {
      assert a + [c] + b == [c] + b;
      assert ([c] + b)[1..] == b;
    } else {
      var t := a[1..] + [c] + b;
      assert a + [c] + b == [a[0]] + t;
      RemoveFirstFront(a[0], t, c);
      assert a == [a[0]] + a[1..];
      RemoveFirstAt(a[1..], c, b);
      assert a + b == [a[0]] + (a[1..] + b);
    }
  }

  lemma RemoveFirstFront(c: char, s: string, d: char)
    requires c != d
    ensures RemoveFirst([c] + s, d) == [c] + RemoveFirst(s, d)
  {
    assert ([c] + s)[1..] == s;
  }

  /** What the check removes the `.` from: the whole part followed by the fraction. */
  lemma {:induction false} PointRemoved(u: string)
    requires AllDigits(WholePart(u))
    ensures RemoveFirst(u, '.') == WholePart(u) + Fraction(u)
  {
    var dot := Paths.LastIndexOf(u, '.');
    if dot >= 0 {
      assert u == u[..dot] + ['.'] + u[dot + 1..];
      assert '.' !in u[..dot] by {
        forall i | 0 <= i < dot ensures u[..dot][i] != '.' {
          assert IsDigit(WholePart(u)[i]);
        }
      }
      RemoveFirstAt(u[..dot], '.', u[dot + 1..]);
    } else {
      RemoveFirstAbsent(u, '.');
    }
  }

  /** Every number literal passes the check: the check rejects no number. */
  lemma {:induction false} NumberLiteralPasses(token: string)
    requires NumberLiteral(token)
    ensures PassesCheck(token)
  {
    var u := Unsigned(token);
    PointRemoved(u);
    var digits := WholePart(u) + Fraction(u);
    assert AllDigits(digits) && digits != [];
    assert '-' !in digits by {
      forall i | 0 <= i < |digits| ensures digits[i] != '-' {
        assert IsDigit(digits[i]);
      }
    }
    RemoveFirstAbsent(digits, '-');
    if |token| > 0 && token[0] == '-' {
      assert token == ['-'] + u;
      RemoveFirstFront('-', u, '.');
      assert RemoveFirst(token, '.') == ['-'] + digits;
      assert (['-'] + digits)[1..] == digits;
    } else {
      assert u == token;
    }
  }

  /** The check as written lets `5-` through, which is no number: `float` raises. */
  lemma TrailingMinusPasses()
    ensures PassesCheck("5-") && !NumberLiteral("5-")
  {
    assert RemoveFirst("5-", '.') == "5-";
    assert RemoveFirst("5-", '-') == "5";
    assert Paths.LastIndexOf("5-", '.') == -1;
    assert !IsDigit("5-"[1]);
  }

  /** The message `float()` raises with, on a typed token or on a cell of an ROI
      file, which stops the script. */
  const FloatError: string := "ValueError: could not convert string to float"

  /** Lines 77-82 as written for one answer: `None` when the answer is refused and
      asked again, the coordinates when accepted, and the `ValueError` of `float` for
      a token the check let through that is no number. */
  function CoordinateAnswer(answer: string): (r: Result<Option<seq<real>>, string>)
    ensures r.Success? && r.value.Some? ==> |r.value.value| == 3
    ensures var tokens := SplitWhitespace(answer);
            r != Success(None) <==>
              |tokens| == 3 && PassesCheck(tokens[0]) && PassesCheck(tokens[1]) && PassesCheck(tokens[2])
    ensures r.Failure? ==> r.error == FloatError
  {
    var tokens := SplitWhitespace(answer);
    if |tokens| != 3 || !(PassesCheck(tokens[0]) && PassesCheck(tokens[1]) && PassesCheck(tokens[2])) then
      Success(None)
    else if NumberLiteral(tokens[0]) && NumberLiteral(tokens[1]) && NumberLiteral(tokens[2]) then
      Success(Some([LiteralValue(tokens[0]), LiteralValue(tokens[1]), LiteralValue(tokens[2])]))
    else
      Failure(FloatError)
  }

  /** The check accepts exactly three number literals, as `float` reads them. */
  function ParseCoordinates(answer: string): (r: Option<seq<real>>)
    ensures r.Some? ==> |r.value| == 3
  {
    var tokens := SplitWhitespace(answer);
    if |tokens| == 3 && NumberLiteral(tokens[0]) && NumberLiteral(tokens[1]) && NumberLiteral(tokens[2]) then
      Some([LiteralValue(tokens[0]), LiteralValue(tokens[1]), LiteralValue(tokens[2])])
    else
      None
  }

  /** The corrected check refuses, to be asked again, exactly the answers that the
      check as written refuses or on which `float` raises, and agrees with it on all
      others: it never stops the script. */
  lemma CorrectedCheckAgrees(answer: string)
    ensures ParseCoordinates(answer).None? <==>
              CoordinateAnswer(answer).Failure? || CoordinateAnswer(answer).value.None?
    ensures ParseCoordinates(answer).Some? ==> CoordinateAnswer(answer) == Success(ParseCoordinates(answer))
  {
    var tokens := SplitWhitespace(answer);
    if |tokens| == 3 && NumberLiteral(tokens[0]) && NumberLiteral(tokens[1]) && NumberLiteral(tokens[2]) {
      NumberLiteralPasses(tokens[0]);
      NumberLiteralPasses(tokens[1]);
      NumberLiteralPasses(tokens[2]);
    }
  }

  /** An answer the check as written lets through stops the script. */
  lemma TrailingMinusStops()
    ensures CoordinateAnswer("5- 1 2") == Failure(FloatError)
    ensures ParseCoordinates("5- 1 2") == None
  {
    var answer := "5-" + " " + "1" + " " + "2";
    assert answer == "5- 1 2";
    SplitWhitespaceThree("5-", "1", "2");
    var tokens := SplitWhitespace(answer);
    assert tokens[0] == "5-" && tokens[1] == "1" && tokens[2] == "2";
    TrailingMinusPasses();
    DigitPasses('1');
    DigitPasses('2');
    assert !NumberLiteral(tokens[0]);
  }

  lemma DigitPasses(d: char)
    requires IsDigit(d)
    ensures PassesCheck([d])
  {
    assert RemoveFirst([d], '.') == [d] by {
      assert [d][1..] == [];
    }
  }

  /** The prompt's own example is read as the three coordinates it shows. */
  lemma PromptExample()
    ensures ParseCoordinates("-10.5 5 20.0") == Some([-10.5, 5.0, 20.0])
  {
    var answer := "-10.5" + " " + "5" + " " + "20.0";
    assert answer == "-10.5 5 20.0";
    SplitWhitespaceThree("-10.5", "5", "20.0");
    var tokens := SplitWhitespace(answer);
    assert tokens[0] == "-10.5" && tokens[1] == "5" && tokens[2] == "20.0";
    NegativeTenAndAHalf();
    IntegerLiteral(5);
    assert Decimal(5) == "5";
    Twenty();
  }

  lemma NegativeTenAndAHalf()
    ensures NumberLiteral("-10.5") && LiteralValue("-10.5") == -10.5
  {
    var u := Unsigned("-10.5");
    assert u == "10.5";
    assert Paths.LastIndexOf(u, '.') == 2;
    assert WholePart(u) == "10" && Fraction(u) == "5";
    assert DecimalValue("10") == 10 by {
      assert "10"[..1] == "1";
    }
    assert DecimalValue("5") == 5;
  }

  lemma Twenty()
    ensures NumberLiteral("20.0") && LiteralValue("20.0") == 20.0
  {
    var u := Unsigned("20.0");
    assert u == "20.0";
    assert Paths.LastIndexOf(u, '.') == 2;
    assert WholePart(u) == "20" && Fraction(u) == "0";
    assert DecimalValue("20") == 20 by {
      assert "20"[..1] == "2";
    }
  }

  lemma SplitWhitespaceThree(a: string, b: string, c: string)
    requires IsWord(a) && IsWord(b) && IsWord(c)
    ensures SplitWhitespace(a + " " + b + " " + c) == [a, b, c]
  {
    SplitWhitespaceWord(c);
    SplitWhitespaceCons(b, c);
    assert a + " " + b + " " + c == a + " " + (b + " " + c);
    SplitWhitespaceCons(a, b + " " + c);
  }

  /** A written integer reads back as itself, with or without a minus. */
  lemma {:induction false} IntegerLiteral(n: nat)
    ensures NumberLiteral(Decimal(n)) && LiteralValue(Decimal(n)) == n as real
    ensures NumberLiteral("-" + Decimal(n)) && LiteralValue("-" + Decimal(n)) == -(n as real)
  {
    var s := Decimal(n);
    NoPoint(s);
    DecimalRoundTrip(n);
    assert Unsigned("-" + s) == s;
    assert Unsigned(s) == s by {
      assert IsDigit(s[0]);
    }
  }

  lemma NoPoint(s: string)
    requires AllDigits(s)
    ensures Paths.LastIndexOf(s, '.') == -1
  {
  }

  // ---------------------------------------------------------------------
  // roi_list.txt

  /** One line `{roi_file}\n` per saved file, in order. */
  function RoiListText(roiFiles: seq<string>): string
  {
    if roiFiles == [] then ""
    else RoiListText(roiFiles[..|roiFiles| - 1]) + roiFiles[|roiFiles| - 1] + "\n"
  }

  /** The writing loop at the end of `main`. */
  method WriteRoiList(roiFiles: seq<string>) returns (text: string)
    ensures text == RoiListText(roiFiles)
  {
    text := "";
    for i := 0 to |roiFiles|
      invariant text == RoiListText(roiFiles[..i])
    {
      assert roiFiles[..i + 1][..i] == roiFiles[..i];
      text := text + roiFiles[i] + "\n";
    }
    assert roiFiles[..|roiFiles|] == roiFiles;
  }

  lemma {:induction false} RoiListFront(p: string, rest: seq<string>)
    ensures RoiListText([p] + rest) == p + "\n" + RoiListText(rest)
    decreases |rest|
  {
    if rest == [] {
      assert ([p] + rest)[..0] == [];
    } else {
      var init := rest[..|rest| - 1];
      assert ([p] + rest)[..|rest|] == [p] + init;
      RoiListFront(p, init);
    }
  }

  predicate Listable(roiFiles: seq<string>) {
    forall i :: 0 <= i < |roiFiles| ==> '\n' !in roiFiles[i] && Trimmed(roiFiles[i])
  }

  lemma {:induction false} RoiListLines(roiFiles: seq<string>)
    requires Listable(roiFiles)
    ensures SplitOn(RoiListText(roiFiles), '\n') == roiFiles + [""]
    decreases |roiFiles|
  {
    if roiFiles == [] {
      assert SplitOn("", '\n') == [""];
    } else {
      var rest := roiFiles[1..];
      assert roiFiles == [roiFiles[0]] + rest;
      assert Listable(rest) by {
        forall i | 0 <= i < |rest| ensures '\n' !in rest[i] && Trimmed(rest[i]) {
          assert rest[i] == roiFiles[i + 1];
        }
      }
      RoiListFront(roiFiles[0], rest);
      RoiListLines(rest);
      SplitOnAfterPiece(roiFiles[0], RoiListText(rest), '\n');
    }
  }

  /** `roi-analyzer.py` reads back from `roi_list.txt` exactly the files saved, in
      order, for paths without line breaks or surrounding whitespace. */
  lemma RoiListRoundTrip(roiFiles: seq<string>)
    requires Listable(roiFiles)
    ensures RoiAnalyzer.PositionFiles(RoiListText(roiFiles)) == roiFiles
  {
    RoiListLines(roiFiles);
    var parts := roiFiles + [""];
    assert parts[..|parts| - 1] == roiFiles;
    var lines := RoiAnalyzer.FileLines(RoiListText(roiFiles));
    assert lines == RoiAnalyzer.Terminated(roiFiles);
    forall i | 0 <= i < |roiFiles| ensures Strip(lines[i]) == roiFiles[i] {
      StripTrailingBreak(roiFiles[i]);
    }
  }

  /** The ROI file of a name without line breaks can be listed. */
  lemma RoiFileListable(roiName: string)
    requires '\n' !in roiName
    ensures '\n' !in RoiFilePath("ROIs", roiName) && Trimmed(RoiFilePath("ROIs", roiName))
  {
    var p := RoiFilePath("ROIs", roiName);
    assert p[|p| - 1] == 'v';
  }

  /** The analyzer keys the values of a saved ROI file by the ROI's name, for a
      one-component name that has a character other than `.`. */
  lemma RoiFileBase(roiName: string)
    requires '/' !in roiName && exists k :: 0 <= k < |roiName| && roiName[k] != '.'
    ensures RoiAnalyzer.PositionBase(RoiFilePath("ROIs", roiName)) == roiName
  {
    Paths.BaseNameOfJoin("ROIs", roiName + ".csv");
    assert Paths.LastIndexOf(roiName, '/') == -1;
    assert Paths.HasNamedLastPart(roiName);
    assert roiName + ".csv" == roiName + "." + "csv";
    Paths.StemOfExtended(roiName, "csv");
  }

  /** An empty name passes the check, but the analyzer names its column `.csv`. */
  lemma EmptyNameColumn()
    ensures SingleWordName("")
    ensures RoiAnalyzer.PositionBase(RoiFilePath("ROIs", "")) == ".csv"
  {
    EmptyNameFile();
    DotFileStem();
  }

  lemma EmptyNameFile()
    ensures Paths.BaseName(RoiFilePath("ROIs", "")) == ".csv"
  {
    assert RoiFilePath("ROIs", "") == "ROIs" + "/" + ".csv";
    Paths.BaseNameOfLast("ROIs", ".csv");
  }

  lemma DotFileStem()
    ensures Paths.Stem(".csv") == ".csv"
  {
    Paths.LastIndexOfAppend(".", "csv", '.');
    Paths.LastIndexOfAppend(".", "csv", '/');
    assert "." + "csv" == ".csv";
    assert Paths.LastIndexOf(".", '.') == 0;
    assert Paths.LastIndexOf(".", '/') == -1 by {
      assert "."[..0] == [];
    }
  }
}
