/**
 * `optimizer/roi-analyzer.py`: for every mesh of an optimisation run and every
 * ROI position file listed in `roi_list.txt`, the TI values that
 * `get_fields_at_coordinates` samples are collected into the nested dictionary
 * `mesh_data` (mesh → ROI → values), which is then pivoted into a table with
 * one row per mesh and one column per ROI.
 */
module RoiAnalyzer {
  import opened Text
  import opened Wrappers
  import Paths
  import TiSim

  // ---------------------------------------------------------------------
  // re.findall(r'E\d{3}_E\d{3}', s)

  predicate IsTokenChar(c: char) {
    c == 'E' || c == '_' || IsDigit(c)
  }

  /** `E`, three digits, `_`, `E`, three digits. */
  predicate IsToken(t: string) {
    && |t| == 9
    && t[0] == 'E' && IsDigit(t[1]) && IsDigit(t[2]) && IsDigit(t[3])
    && t[4] == '_'
    && t[5] == 'E' && IsDigit(t[6]) && IsDigit(t[7]) && IsDigit(t[8])
  }

  /** A window holding a character that no match contains is not a match. */
  lemma WindowWithSeparator(t: string, i: nat)
    requires i < |t| && !IsTokenChar(t[i])
    ensures !IsToken(t)
  {
  }

  /** The non-overlapping matches of the pattern, scanning left to right: a match
      is taken where it starts and the scan resumes after it. */
  function FindTokens(s: string): (tokens: seq<string>)
    ensures |tokens| <= |s|
    decreases |s|
  {
    if |s| < 9 then []
    else if IsToken(s[..9]) then [s[..9]] + FindTokens(s[9..])
    else FindTokens(s[1..])
  }

  /** Every match is an `E\d{3}_E\d{3}` window of the string. */
  predicate WindowAt(s: string, i: int, t: string) {
    0 <= i <= |s| - 9 && s[i..i + 9] == t
  }

  lemma {:induction false} FindTokensAreTokens(s: string)
    ensures forall t :: t in FindTokens(s) ==> IsToken(t) && exists i :: WindowAt(s, i, t)
    decreases |s|
  {
    if |s| >= 9 {
      var k := if IsToken(s[..9]) then 9 else 1;
      FindTokensAreTokens(s[k..]);
      forall t | t in FindTokens(s[k..])
        ensures exists i :: WindowAt(s, i, t)
      {
        var i :| WindowAt(s[k..], i, t);
        assert s[k + i..k + i + 9] == s[k..][i..i + 9];
        assert WindowAt(s, k + i, t);
      }
      if k == 9 {
        assert WindowAt(s, 0, s[..9]);
      }
    }
  }

  /** A character that cannot occur in a match separates the matches of both sides. */
  lemma {:induction false} FindTokensAcross(a: string, c: char, b: string)
    requires !IsTokenChar(c)
    ensures FindTokens(a + [c] + b) == FindTokens(a) + FindTokens(b)
    decreases |a|
  {
    var s := a + [c] + b;
    if |s| < 9 {
      assert FindTokens(s) == [];
    } else if |a| >= 9 && IsToken(a[..9]) {
      assert s[..9] == a[..9];
      assert s[9..] == a[9..] + [c] + b;
      FindTokensAcross(a[9..], c, b);
    } else {
      if |a| < 9 {
        assert s[..9][|a|] == c;
        WindowWithSeparator(s[..9], |a|);
      } else {
        assert s[..9] == a[..9];
      }
      if a == [] {
        assert s[1..] == b;
      } else {
        assert s[1..] == a[1..] + [c] + b;
        FindTokensAcross(a[1..], c, b);
      }
    }
  }

  /** A prefix without `E` holds no match and does not shift the later ones. */
  lemma {:induction false} FindTokensSkip(p: string, s: string)
    requires 'E' !in p
    ensures FindTokens(p + s) == FindTokens(s)
    decreases |p|
  {
    if p != [] {
      var t := p + s;
      assert t[0] == p[0];
      assert t[1..] == p[1..] + s;
      FindTokensSkip(p[1..], s);
    } else {
      assert p + s == s;
    }
  }

  /** A match at the front is the first match. */
  lemma FindTokensFront(t: string, s: string)
    requires IsToken(t)
    ensures FindTokens(t + s) == [t] + FindTokens(s)
  {
    var u := t + s;
    assert u[..9] == t;
    assert u[9..] == s;
  }

  /** The tokens of `os.path.join(dir, name)` are those of `dir` and then those of
      `name`: the separator cannot be part of a match. */
  lemma JoinTokens(dir: string, name: string)
    requires '/' !in name
    ensures FindTokens(Paths.Join(dir, name)) == FindTokens(dir) + FindTokens(name)
  {
    if dir == [] {
      assert Paths.Join(dir, name) == name;
    } else if dir[|dir| - 1] == '/' {
      SlashEndedTokens(dir[..|dir| - 1], name);
      assert dir[..|dir| - 1] + "/" == dir;
    } else {
      assert Paths.Join(dir, name) == dir + ['/'] + name;
      FindTokensAcross(dir, '/', name);
    }
  }

  lemma SlashEndedTokens(d: string, name: string)
    requires '/' !in name
    ensures FindTokens(Paths.Join(d + "/", name)) == FindTokens(d + "/") + FindTokens(name)
  {
    assert Paths.Join(d + "/", name) == d + ['/'] + name;
    FindTokensAcross(d, '/', name);
    FindTokensAcross(d, '/', []);
    assert d + ['/'] + [] == d + "/";
  }

  /** The label of a row of the table: `"{p0} <> {p1}"` for a name with exactly two
      tokens, the name itself otherwise. */
  function RowLabel(meshName: string): (shown: string)
    ensures |FindTokens(meshName)| != 2 ==> shown == meshName
  {
    var parts := FindTokens(meshName);
    if |parts| == 2 then parts[0] + " <> " + parts[1] else meshName
  }

  /** An electrode label the pattern's `E\d{3}` reads: `E` and three digits. */
  predicate IsElectrodeLabel(e: string) {
    |e| == 4 && e[0] == 'E' && IsDigit(e[1]) && IsDigit(e[2]) && IsDigit(e[3])
  }

  /** The two tokens of a mesh that `ti_sim` names after electrodes `E…`: its two pairs. */
  lemma MeshFileNameTokens(leadfieldType: string, c: TiSim.Combination)
    requires IsElectrodeLabel(c.0.0) && IsElectrodeLabel(c.0.1)
    requires IsElectrodeLabel(c.1.0) && IsElectrodeLabel(c.1.1)
    ensures FindTokens(TiSim.MeshFileName(leadfieldType, c))
         == [c.0.0 + "_" + c.0.1, c.1.0 + "_" + c.1.1]
    ensures RowLabel(TiSim.MeshFileName(leadfieldType, c))
         == c.0.0 + "_" + c.0.1 + " <> " + c.1.0 + "_" + c.1.1
  {
    var t1 := c.0.0 + "_" + c.0.1;
    var t2 := c.1.0 + "_" + c.1.1;
    var prefix := if leadfieldType == "gm" then "TI_norm_field_" else "TI_field_";
    TagOfLabels(c);
    assert TiSim.MeshFileName(leadfieldType, c) == prefix + (t1 + ("_and_" + (t2 + ".msh")));
    TagTokens(t1, t2);
    FindTokensSkip(prefix, t1 + ("_and_" + (t2 + ".msh")));
  }

  lemma TagOfLabels(c: TiSim.Combination)
    ensures TiSim.CombinationTag(c) == c.0.0 + "_" + c.0.1 + "_and_" + c.1.0 + "_" + c.1.1
  {
    var t2 := c.1.0 + "_" + c.1.1;
    assert JoinWith([c.1.0, c.1.1], "_") == t2;
    assert JoinWith(["and", c.1.0, c.1.1], "_") == "and_" + t2;
    assert JoinWith([c.0.1, "and", c.1.0, c.1.1], "_") == c.0.1 + "_and_" + t2;
  }

  lemma TagTokens(t1: string, t2: string)
    requires IsToken(t1) && IsToken(t2)
    ensures FindTokens(t1 + ("_and_" + (t2 + ".msh"))) == [t1, t2]
  {
    FindTokensFront(t1, "_and_" + (t2 + ".msh"));
    FindTokensSkip("_and_", t2 + ".msh");
    FindTokensFront(t2, ".msh");
  }

  // ---------------------------------------------------------------------
  // roi_list.txt

  /** Iterating over a file opened for reading: every line with its `\n`, then the
      unterminated rest when there is one. */
  function FileLines(text: string): (lines: seq<string>)
  {
    var parts := SplitOn(text, '\n');
    var last := parts[|parts| - 1];
    Terminated(parts[..|parts| - 1]) + (if last == [] then [] else [last])
  }

  function Terminated(parts: seq<string>): (lines: seq<string>)
    ensures |lines| == |parts|
    ensures forall i :: 0 <= i < |parts| ==> lines[i] == parts[i] + "\n"
  {
    seq(|parts|, i requires 0 <= i < |parts| => parts[i] + "\n")
  }

  /** `[line.strip() for line in file]` over `roi_list.txt`. */
  function PositionFiles(roiList: string): seq<string>
  {
    TiSim.StripEach(FileLines(roiList))
  }

  // ---------------------------------------------------------------------
  // mesh_data

  /** What the sampling of one position file on one mesh leaves for the script:
      `get_fields_at_coordinates` cannot be started at all (`subprocess.run` raises
      an `OSError` such as `FileNotFoundError`, which nothing catches); it exits with
      an error (`CalledProcessError`, caught); it succeeds but no
      `ROIs/{pos_base}_TImax.csv` is there; the CSV cannot be read; or the numeric
      values of its first column. */
  datatype SampleOutcome = ToolAbsent | ToolFailed | CsvMissing | CsvUnreadable | CsvValues(values: seq<real>)

  type RoiValues = map<string, seq<real>>

  /** An insertion-ordered `dict` from mesh names to their ROI values. */
  datatype MeshData = MeshData(keys: seq<string>, rois: map<string, RoiValues>)

  predicate Distinct(s: seq<string>) {
    forall i, j :: 0 <= i < j < |s| ==> s[i] != s[j]
  }

  predicate Valid(d: MeshData) {
    && Distinct(d.keys)
    && (forall k :: k in d.keys ==> k in d.rois)
    && (forall k :: k in d.rois ==> k in d.keys)
  }

  /** `os.path.splitext(os.path.basename(pos_file))[0]`: the key of a position file. */
  function PositionBase(posFile: string): string
  {
    Paths.Stem(Paths.BaseName(posFile))
  }

  /** The `.msh` names of the listing, in listing order. */
  function MshFiles(listing: seq<string>): (files: seq<string>)
    ensures forall f :: f in files <==> f in listing && EndsWith(f, ".msh")
  {
    if listing == [] then []
    else
      var init := listing[..|listing| - 1];
      var f := listing[|listing| - 1];
      assert forall g :: g in listing <==> g in init || g == f;
      MshFiles(init) + (if EndsWith(f, ".msh") then [f] else [])
  }

  /** Whether the sampling of `posFile` on the mesh at `meshPath` stores values. */
  predicate Stores(meshPath: string, posFile: string, outcome: (string, string) -> SampleOutcome)
  {
    |FindTokens(meshPath)| == 2 && outcome(meshPath, posFile).CsvValues?
  }

  /** The ROI entries of one mesh after the inner loop over the position files. */
  function RoiEntries(meshPath: string, positions: seq<string>,
                      outcome: (string, string) -> SampleOutcome): RoiValues
  {
    if positions == [] then map[]
    else
      var entries := RoiEntries(meshPath, positions[..|positions| - 1], outcome);
      var p := positions[|positions| - 1];
      if Stores(meshPath, p, outcome) then entries[PositionBase(p) := outcome(meshPath, p).values]
      else entries
  }

  /** Every mesh of `mesh_data` holds the entries its inner loop produced. */
  predicate Collected(d: MeshData, optDir: string, positions: seq<string>,
                      outcome: (string, string) -> SampleOutcome)
  {
    forall k :: k in d.rois ==> d.rois[k] == RoiEntries(Paths.Join(optDir, k), positions, outcome)
  }

  /** Some of the first `n` position files cannot be sampled on the mesh because the
      tool cannot be started, which ends the script. */
  predicate AbortsBefore(meshPath: string, positions: seq<string>, n: nat,
                         outcome: (string, string) -> SampleOutcome)
  {
    exists j :: 0 <= j < n && j < |positions| && outcome(meshPath, positions[j]).ToolAbsent?
  }

  predicate Aborts(meshPath: string, positions: seq<string>, outcome: (string, string) -> SampleOutcome)
  {
    AbortsBefore(meshPath, positions, |positions|, outcome)
  }

  /** None of the meshes ends the script. */
  predicate NoneAborts(optDir: string, meshes: seq<string>, positions: seq<string>,
                       outcome: (string, string) -> SampleOutcome)
  {
    forall k :: 0 <= k < |meshes| ==> !Aborts(Paths.Join(optDir, meshes[k]), positions, outcome)
  }

  /** The nested loops of the script over `os.listdir(opt_directory)` and the position
      files; `outcome` stands for the external tool and the CSV it writes. `failed`
      is the mesh on which the tool could not be started, which ends the script; `d`
      then holds the meshes completed before it. */
  method CollectMeshData(optDir: string, listing: seq<string>, positions: seq<string>,
                         outcome: (string, string) -> SampleOutcome)
    returns (d: MeshData, failed: Option<string>)
    requires forall i :: 0 <= i < |listing| ==> '/' !in listing[i]
    requires Distinct(listing)
    ensures Valid(d)
    ensures Collected(d, optDir, positions, outcome)
    ensures failed.None? <==> NoneAborts(optDir, MshFiles(listing), positions, outcome)
    ensures failed.None? ==> d.keys == MshFiles(listing)
    ensures failed.Some? ==>
              && |d.keys| < |MshFiles(listing)|
              && d.keys == MshFiles(listing)[..|d.keys|]
              && failed.value == MshFiles(listing)[|d.keys|]
              && Aborts(Paths.Join(optDir, failed.value), positions, outcome)
  {
    d := MeshData([], map[]);
    failed := None;
    var i := 0;
    while i < |listing|
      invariant i <= |listing|
      invariant Valid(d) && d.keys == MshFiles(listing[..i])
      invariant Collected(d, optDir, positions, outcome)
      invariant NoneAborts(optDir, d.keys, positions, outcome)
    {
      var mshFile := listing[i];
      MshFilesStep(listing, i);
      if EndsWith(mshFile, ".msh") {
        var meshPath := Paths.Join(optDir, mshFile);
        var meshKey := Paths.BaseName(meshPath);
        NewMeshKey(d, optDir, listing, i);
        var entries, aborted := SampleMesh(meshPath, positions, outcome);
        if aborted {
          AbortedAt(optDir, listing, i, d.keys, positions, outcome);
          failed := Some(mshFile);
          return;
        }
        CollectedStep(d, meshKey, entries, optDir, positions, outcome);
        NoneAbortsStep(optDir, d.keys, mshFile, positions, outcome);
        d := MeshData(d.keys + [meshKey], d.rois[meshKey := entries]);
      }
      i := i + 1;
    }
    assert listing[..i] == listing;
  }

  /** The inner loop over the position files for one mesh; `aborted` when the tool
      cannot be started for one of them, which ends the script there. */
  method SampleMesh(meshPath: string, positions: seq<string>, outcome: (string, string) -> SampleOutcome)
    returns (entries: RoiValues, aborted: bool)
    ensures aborted <==> Aborts(meshPath, positions, outcome)
    ensures !aborted ==> entries == RoiEntries(meshPath, positions, outcome)
  {
    entries := map[];
    aborted := false;
    var j := 0;
    while j < |positions|
      invariant j <= |positions|
      invariant entries == RoiEntries(meshPath, positions[..j], outcome)
      invariant !AbortsBefore(meshPath, positions, j, outcome)
    {
      var posFile := positions[j];
      var posBase := PositionBase(posFile);
      assert positions[..j + 1][..j] == positions[..j];
      match outcome(meshPath, posFile) {
        case ToolAbsent =>
          aborted := true;
          return;
        case ToolFailed =>
        case CsvMissing =>
        case CsvUnreadable =>
        case CsvValues(values) =>
          var parts := FindTokens(meshPath);
          if |parts| == 2 {
            entries := entries[posBase := values];
          }
      }
      j := j + 1;
    }
    assert positions[..j] == positions;
  }

  lemma NoneAbortsStep(optDir: string, meshes: seq<string>, m: string, positions: seq<string>,
                       outcome: (string, string) -> SampleOutcome)
    requires NoneAborts(optDir, meshes, positions, outcome)
    requires !Aborts(Paths.Join(optDir, m), positions, outcome)
    ensures NoneAborts(optDir, meshes + [m], positions, outcome)
  {
    var ms := meshes + [m];
    forall k | 0 <= k < |ms| ensures !Aborts(Paths.Join(optDir, ms[k]), positions, outcome) {
      if k < |meshes| {
        assert ms[k] == meshes[k];
      }
    }
  }

  /** A mesh that aborts is the next `.msh` file after those completed. */
  lemma AbortedAt(optDir: string, listing: seq<string>, i: nat, done: seq<string>,
                  positions: seq<string>, outcome: (string, string) -> SampleOutcome)
    requires i < |listing| && EndsWith(listing[i], ".msh")
    requires done == MshFiles(listing[..i])
    requires Aborts(Paths.Join(optDir, listing[i]), positions, outcome)
    ensures var all := MshFiles(listing);
            && |done| < |all| && done == all[..|done|] && listing[i] == all[|done|]
            && !NoneAborts(optDir, all, positions, outcome)
  {
    MshFilesStep(listing, i);
    MshFilesPrefix(listing, i + 1);
    var all := MshFiles(listing);
    var upTo := MshFiles(listing[..i + 1]);
    assert upTo == done + [listing[i]];
    assert all[..|upTo|] == upTo;
    assert all[|done|] == upTo[|done|] == listing[i];
    assert all[..|done|] == upTo[..|done|] == done;
  }

  /** The `.msh` files of a prefix of the listing are a prefix of all of them. */
  lemma MshFilesPrefix(listing: seq<string>, n: nat)
    requires n <= |listing|
    ensures |MshFiles(listing[..n])| <= |MshFiles(listing)|
    ensures MshFiles(listing[..n]) == MshFiles(listing)[..|MshFiles(listing[..n])|]
  {
    MshFilesAppend(listing[..n], listing[n..]);
    assert listing[..n] + listing[n..] == listing;
  }

  lemma {:induction false} MshFilesAppend(a: seq<string>, b: seq<string>)
    ensures MshFiles(a + b) == MshFiles(a) + MshFiles(b)
    decreases |b|
  {
    if b == [] {
      assert a + b == a;
    } else {
      assert (a + b)[..|a + b| - 1] == a + b[..|b| - 1];
      MshFilesAppend(a, b[..|b| - 1]);
    }
  }

  lemma MshFilesStep(listing: seq<string>, i: nat)
    requires i < |listing|
    ensures MshFiles(listing[..i + 1]) == MshFiles(listing[..i]) + (if EndsWith(listing[i], ".msh") then [listing[i]] else [])
  {
    assert listing[..i + 1][..i] == listing[..i];
  }

  /** The key of the `i`-th listed file is its name, which no earlier `.msh` file has. */
  lemma NewMeshKey(d: MeshData, optDir: string, listing: seq<string>, i: nat)
    requires i < |listing| && '/' !in listing[i] && Distinct(listing)
    requires d.keys == MshFiles(listing[..i])
    ensures Paths.BaseName(Paths.Join(optDir, listing[i])) == listing[i]
    ensures listing[i] !in d.keys
  {
    Paths.BaseNameOfJoin(optDir, listing[i]);
  }

  lemma CollectedStep(d: MeshData, key: string, entries: RoiValues, optDir: string,
                      positions: seq<string>, outcome: (string, string) -> SampleOutcome)
    requires Valid(d) && key !in d.keys && Collected(d, optDir, positions, outcome)
    requires entries == RoiEntries(Paths.Join(optDir, key), positions, outcome)
    ensures var d' := MeshData(d.keys + [key], d.rois[key := entries]);
            Valid(d') && Collected(d', optDir, positions, outcome)
  {
  }

  /** Nothing is stored for a mesh whose path does not yield exactly two matches. */
  lemma {:induction false} NothingStoredWithoutTwoTokens(meshPath: string, positions: seq<string>,
                                                         outcome: (string, string) -> SampleOutcome)
    requires |FindTokens(meshPath)| != 2
    ensures RoiEntries(meshPath, positions, outcome) == map[]
  {
    if positions != [] {
      NothingStoredWithoutTwoTokens(meshPath, positions[..|positions| - 1], outcome);
    }
  }

  /** Some position file with base name `b` stored values on the mesh. */
  predicate SomeStores(meshPath: string, positions: seq<string>,
                       outcome: (string, string) -> SampleOutcome, b: string)
  {
    exists k :: 0 <= k < |positions| && Stores(meshPath, positions[k], outcome) && PositionBase(positions[k]) == b
  }

  /** A key is stored iff some position file with that base name stored values. */
  lemma {:induction false} StoredKeys(meshPath: string, positions: seq<string>,
                                      outcome: (string, string) -> SampleOutcome, b: string)
    ensures b in RoiEntries(meshPath, positions, outcome) <==> SomeStores(meshPath, positions, outcome, b)
  {
    if positions != [] {
      StoredKeys(meshPath, positions[..|positions| - 1], outcome, b);
      SomeStoresExtend(meshPath, positions, outcome, b);
    }
  }

  lemma SomeStoresExtend(meshPath: string, positions: seq<string>,
                         outcome: (string, string) -> SampleOutcome, b: string)
    requires positions != []
    ensures var init, p := positions[..|positions| - 1], positions[|positions| - 1];
            SomeStores(meshPath, positions, outcome, b)
            <==> SomeStores(meshPath, init, outcome, b) || (Stores(meshPath, p, outcome) && PositionBase(p) == b)
  {
    var init := positions[..|positions| - 1];
    if SomeStores(meshPath, init, outcome, b) {
      var k :| 0 <= k < |init| && Stores(meshPath, init[k], outcome) && PositionBase(init[k]) == b;
      assert positions[k] == init[k];
    }
    if SomeStores(meshPath, positions, outcome, b) {
      var k :| 0 <= k < |positions| && Stores(meshPath, positions[k], outcome)
                                    && PositionBase(positions[k]) == b;
      if k < |init| {
        assert init[k] == positions[k];
      }
    }
  }

  /** A later position file with the same base name overwrites: the stored list is that
      of the last position file with the base name whose sampling stored values. */
  lemma {:induction false} LastPositionFileWins(meshPath: string, positions: seq<string>,
                                                outcome: (string, string) -> SampleOutcome, k: nat)
    requires k < |positions| && Stores(meshPath, positions[k], outcome)
    requires forall j :: k < j < |positions| && PositionBase(positions[j]) == PositionBase(positions[k]) ==>
                           !Stores(meshPath, positions[j], outcome)
    ensures PositionBase(positions[k]) in RoiEntries(meshPath, positions, outcome)
    ensures RoiEntries(meshPath, positions, outcome)[PositionBase(positions[k])]
         == outcome(meshPath, positions[k]).values
  {
    if k < |positions| - 1 {
      var init := positions[..|positions| - 1];
      assert init[k] == positions[k];
      forall j | k < j < |init| && PositionBase(init[j]) == PositionBase(init[k])
        ensures !Stores(meshPath, init[j], outcome)
      {
        assert init[j] == positions[j];
      }
      LastPositionFileWins(meshPath, init, outcome, k);
    }
  }

  /** Because the whole path is scanned, a match in the directory part of the path
      leaves the meshes of `ti_sim`, whose names hold two matches, with no values. */
  lemma DirectoryMatchBlocksStorage(optDir: string, name: string, positions: seq<string>,
                                    outcome: (string, string) -> SampleOutcome)
    requires '/' !in name && FindTokens(optDir) != [] && |FindTokens(name)| == 2
    ensures RoiEntries(Paths.Join(optDir, name), positions, outcome) == map[]
  {
    JoinTokens(optDir, name);
    NothingStoredWithoutTwoTokens(Paths.Join(optDir, name), positions, outcome);
  }

  /** Under a directory without matches, a mesh of `ti_sim` named after electrodes `E…`
      yields its two pairs, so its samples are stored. */
  lemma SimulationMeshStores(optDir: string, leadfieldType: string, c: TiSim.Combination)
    requires FindTokens(optDir) == []
    requires IsElectrodeLabel(c.0.0) && IsElectrodeLabel(c.0.1)
    requires IsElectrodeLabel(c.1.0) && IsElectrodeLabel(c.1.1)
    ensures FindTokens(Paths.Join(optDir, TiSim.MeshFileName(leadfieldType, c)))
         == [c.0.0 + "_" + c.0.1, c.1.0 + "_" + c.1.1]
  {
    var name := TiSim.MeshFileName(leadfieldType, c);
    MeshFileNameTokens(leadfieldType, c);
    LabelledNameHasNoSlash(leadfieldType, c);
    JoinTokens(optDir, name);
  }

  lemma LabelledNameHasNoSlash(leadfieldType: string, c: TiSim.Combination)
    requires IsElectrodeLabel(c.0.0) && IsElectrodeLabel(c.0.1)
    requires IsElectrodeLabel(c.1.0) && IsElectrodeLabel(c.1.1)
    ensures '/' !in TiSim.MeshFileName(leadfieldType, c)
  {
    assert TiSim.NoSlashes(c);
    TiSim.JoinWithAvoids([c.0.0, c.0.1, "and", c.1.0, c.1.1], "_", '/');
  }

  // ---------------------------------------------------------------------
  // The table written to output.csv

  /** ROI `r` has values for some mesh. */
  predicate RoiName(d: MeshData, r: string) {
    exists k :: k in d.rois && r in d.rois[k]
  }

  /** The ROI names of the first `n` meshes. */
  ghost function NamesUpTo(d: MeshData, n: nat): set<string>
    requires Valid(d) && n <= |d.keys|
  {
    if n == 0 then {} else NamesUpTo(d, n - 1) + d.rois[d.keys[n - 1]].Keys
  }

  lemma {:induction false} NamesUpToMeaning(d: MeshData, n: nat, r: string)
    requires Valid(d) && n <= |d.keys|
    ensures r in NamesUpTo(d, n) <==> exists i :: 0 <= i < n && r in d.rois[d.keys[i]]
  {
    if n > 0 {
      NamesUpToMeaning(d, n - 1, r);
    }
  }

  lemma AllNames(d: MeshData, r: string)
    requires Valid(d)
    ensures r in NamesUpTo(d, |d.keys|) <==> RoiName(d, r)
  {
    NamesUpToMeaning(d, |d.keys|, r);
    if RoiName(d, r) {
      var k :| k in d.rois && r in d.rois[k];
      var i :| 0 <= i < |d.keys| && d.keys[i] == k;
    }
  }

  /** `columns = set()` and `columns.add(roi)` for every ROI of every mesh. */
  method CollectColumns(d: MeshData) returns (columns: set<string>)
    requires Valid(d)
    ensures forall r :: r in columns <==> RoiName(d, r)
  {
    columns := {};
    var i := 0;
    while i < |d.keys|
      invariant i <= |d.keys|
      invariant columns == NamesUpTo(d, i)
    {
      var mesh := d.rois[d.keys[i]];
      var remaining := mesh.Keys;
      while remaining != {}
        invariant remaining <= mesh.Keys
        invariant columns == NamesUpTo(d, i) + (mesh.Keys - remaining)
      {
        var roi :| roi in remaining;
        columns := columns + {roi};
        remaining := remaining - {roi};
      }
      i := i + 1;
    }
    forall r ensures r in columns <==> RoiName(d, r) {
      AllNames(d, r);
    }
  }

  /** `sorted(list(columns))`; by `StrictlySortedUnique` it is the only strictly sorted
      list of the set's elements. */
  method SortedList(names: set<string>) returns (sorted: seq<string>)
    ensures StrictlySorted(sorted)
    ensures forall x :: x in sorted <==> x in names
  {
    sorted := [];
    var remaining := names;
    while remaining != {}
      invariant remaining <= names
      invariant StrictlySorted(sorted)
      invariant forall x :: x in sorted <==> x in names && x !in remaining
      decreases |remaining|
    {
      var x :| x in remaining;
      sorted := InsertSorted(sorted, x);
      remaining := remaining - {x};
    }
  }

  /** A cell of the table: a string or a number. */
  datatype Cell = Str(s: string) | Num(x: real)

  /** `['Mesh'] + columns`. */
  function Header(columns: seq<string>): (row: seq<Cell>)
    ensures |row| == 1 + |columns| && row[0] == Str("Mesh")
    ensures forall j :: 0 <= j < |columns| ==> row[j + 1] == Str(columns[j])
  {
    [Str("Mesh")] + seq(|columns|, j requires 0 <= j < |columns| => Str(columns[j]))
  }

  /** The cell of ROI `column` in a mesh's row: its first value, `''` when the ROI is
      absent, and no cell (an `IndexError`) when its list is empty. */
  function CellFor(rois: RoiValues, column: string): Option<Cell>
  {
    if column !in rois then Some(Str(""))
    else if rois[column] == [] then None
    else Some(Num(rois[column][0]))
  }

  /** The first `n` cells after the label are those of the first `n` columns. */
  predicate CellsFor(row: seq<Cell>, meshName: string, rois: RoiValues, columns: seq<string>, n: nat) {
    && n <= |columns| && |row| == 1 + n && row[0] == Str(RowLabel(meshName))
    && forall j :: 0 <= j < n ==> CellFor(rois, columns[j]) == Some(row[j + 1])
  }

  /** After the header, the first `n` rows are those of the first `n` meshes. */
  predicate RowsFor(rows: seq<seq<Cell>>, d: MeshData, columns: seq<string>, n: nat)
    requires Valid(d)
  {
    && n <= |d.keys| && |rows| == 1 + n && rows[0] == Header(columns)
    && forall i :: 0 <= i < n ==> CellsFor(rows[i + 1], d.keys[i], d.rois[d.keys[i]], columns, |columns|)
  }

  /** Every stored list has a first value. */
  predicate NoEmptyList(d: MeshData) {
    forall k, r :: k in d.rois && r in d.rois[k] ==> d.rois[k][r] != []
  }

  const IndexErrorMessage: string := "list index out of range"

  /** The pivot: the sorted ROI names as columns, the header, then one row per mesh in
      `mesh_data` order. It fails at the first ROI taken with an empty list. */
  method BuildTable(d: MeshData) returns (columns: seq<string>, table: Result<seq<seq<Cell>>, string>)
    requires Valid(d)
    ensures StrictlySorted(columns) && forall r :: r in columns <==> RoiName(d, r)
    ensures table.Success? <==> NoEmptyList(d)
    ensures table.Success? ==> RowsFor(table.value, d, columns, |d.keys|)
    ensures table.Failure? ==> table.error == IndexErrorMessage
  {
    var names := CollectColumns(d);
    columns := SortedList(names);
    var rows := [Header(columns)];
    var i := 0;
    while i < |d.keys|
      invariant i <= |d.keys|
      invariant RowsFor(rows, d, columns, i)
    {
      var meshName := d.keys[i];
      var rois := d.rois[meshName];
      var row := [Str(RowLabel(meshName))];
      var j := 0;
      while j < |columns|
        invariant j <= |columns|
        invariant CellsFor(row, meshName, rois, columns, j)
      {
        var column := columns[j];
        var value;
        if column in rois {
          if rois[column] == [] {
            EmptyListFound(d, meshName, column);
            return columns, Failure(IndexErrorMessage);
          }
          value := Num(rois[column][0]);
        } else {
          value := Str("");
        }
        CellsStep(row, meshName, rois, columns, j, value);
        row := row + [value];
        j := j + 1;
      }
      RowsStep(rows, d, columns, i, row);
      rows := rows + [row];
      i := i + 1;
    }
    TableHasNoEmptyList(rows, d, columns);
    return columns, Success(rows);
  }

  lemma EmptyListFound(d: MeshData, meshName: string, column: string)
    requires meshName in d.rois && column in d.rois[meshName] && d.rois[meshName][column] == []
    ensures !NoEmptyList(d)
  {
  }

  lemma CellsStep(row: seq<Cell>, meshName: string, rois: RoiValues, columns: seq<string>, j: nat, value: Cell)
    requires CellsFor(row, meshName, rois, columns, j) && j < |columns|
    requires CellFor(rois, columns[j]) == Some(value)
    ensures CellsFor(row + [value], meshName, rois, columns, j + 1)
  {
    var r := row + [value];
    forall j' | 0 <= j' < j + 1 ensures CellFor(rois, columns[j']) == Some(r[j' + 1]) {
      if j' < j {
        assert r[j' + 1] == row[j' + 1];
      }
    }
  }

  lemma RowsStep(rows: seq<seq<Cell>>, d: MeshData, columns: seq<string>, i: nat, row: seq<Cell>)
    requires Valid(d) && RowsFor(rows, d, columns, i) && i < |d.keys|
    requires CellsFor(row, d.keys[i], d.rois[d.keys[i]], columns, |columns|)
    ensures RowsFor(rows + [row], d, columns, i + 1)
  {
    var r := rows + [row];
    forall i' | 0 <= i' < i + 1
      ensures CellsFor(r[i' + 1], d.keys[i'], d.rois[d.keys[i']], columns, |columns|)
    {
      if i' < i {
        assert r[i' + 1] == rows[i' + 1];
      }
    }
  }

  /** A complete table has a cell for every stored ROI, so no stored list is empty. */
  lemma TableHasNoEmptyList(rows: seq<seq<Cell>>, d: MeshData, columns: seq<string>)
    requires Valid(d) && RowsFor(rows, d, columns, |d.keys|)
    requires forall r :: r in columns <==> RoiName(d, r)
    ensures NoEmptyList(d)
  {
    forall k, r | k in d.rois && r in d.rois[k] ensures d.rois[k][r] != [] {
      var i :| 0 <= i < |d.keys| && d.keys[i] == k;
      assert RoiName(d, r);
      var j :| 0 <= j < |columns| && columns[j] == r;
      assert CellsFor(rows[i + 1], k, d.rois[k], columns, |columns|);
      assert CellFor(d.rois[k], columns[j]) == Some(rows[i + 1][j + 1]);
    }
  }
}
