# TI-CSC bookkeeping core in Dafny

TI-CSC drives SimNIBS temporal-interference (TI) simulations. Around the
numerical kernels, its scripts do a layer of sequential, deterministic
bookkeeping and text handling. This project models that layer and proves what
it does:

- **Electrode combinations and their meshes** (`optimizer/ti_sim.py`,
  `optimizer/ti-optimizer.py`).
  - The four-way enumeration of electrode-pair assignments.
  - The electrode-list prompt: its tokenizer and the check that sends the prompt round again.
  - The millivolt prompt and the mV to V conversion.
  - The mesh file name, visible field and progress label of every combination, for the "gm" and the "vol" leadfield.
  - The loops that write one mesh per combination.
- **Mesh-point to voxel scatter** (`optimizer/sur2vol.py`, `utils/normal_extract.py`).
  - A zero volume of the reference shape is written in place, point by point.
  - A write happens only on an in-bounds index, so the last in-bounds point mapping to a voxel decides its value.
  - Both scripts check their inputs first, and `process_directory` filters and renames the files.
- **ROI aggregation and pivot** (`optimizer/roi-analyzer.py`).
  - `E\d{3}_E\d{3}` token extraction.
  - The guarded accumulation of the nested dictionary `mesh_data` (mesh → ROI → TI values).
  - Its pivot into a table: a header row, then one row per mesh and one column per ROI.
- **ROI definition** (`optimizer/roi-creator.py`).
  - Listing existing ROI files, the ROI file path, and saving and reading back a file.
  - The menu-choice and ROI-name checks.
  - The coordinate check.
  - `roi_list.txt`, as written and as `roi-analyzer.py` reads it back.
- **Small converters.**
  - `utils/csv2geo.py`: electrode CSV rows to a Gmsh `.geo` view.
  - `utils/txt2csv.py`: Brainstorm tab-separated rows to SimNIBS CSV rows.
  - `utils/lbl_extract.py`: the label-preserving atlas mask.

The project has one module per script. The scatter shared by the two volume
scripts is a module of its own (`Scatter`). The Python library behaviour the
scripts rely on is in three more modules:

- `Text`: `str.strip`, `str.split` and `split()`, `str.join`, `str(n)`, the `:03` format, ordering of `str`.
- `Paths`: `posixpath.join`, `basename` and `splitext`.
- `Wrappers`: `Option` and `Result`.

The model's form follows the source's:

- Code that updates a variable in a loop is a method with loop invariants, proved against a function or predicate on its inputs. This covers every list `append` loop, the `dict` and `set` accumulation, the output written row by row, and the prompt loops.
- NumPy arrays updated in place are `array3<real>`.
- Formatting and checks are functions.

Inputs the scripts obtain from outside are parameters of the methods:

- directory listings
- file contents (as rows)
- the answers typed at a prompt
- which calls of the external kernels raise
- what `get_fields_at_coordinates` leaves behind

## Model

| member | source | states |
|---|---|---|
| `TiSim.Row` | optimizer/ti_sim.py:33-35 | the pairs of `product` with first component `x`: one per `ys` element, in `ys` order |
| `TiSim.GenerateCombinations` | optimizer/ti_sim.py:31-36 | the nested append loops over the two `product`s build exactly the combination list `Combinations` |
| `TiSim.ProductLength` | optimizer/ti_sim.py:33 | `product(xs, ys)` has len(xs)·len(ys) pairs |
| `TiSim.ProductAt` | optimizer/ti_sim.py:33 | the pair at row-major position (a, b) of a product is (xs[a], ys[b]) |
| `TiSim.RowCount` | optimizer/ti_sim.py:33 | a pair occurs in one row of the product as often as its second component occurs in `ys`, and only in the row of its first component |
| `TiSim.ProductCount` | optimizer/ti_sim.py:33 | a pair occurs in a product as often as the product of its components' multiplicities |
| `TiSim.CombinationCount` | optimizer/ti_sim.py:31-36 | there are exactly len(E1+)·len(E1-)·len(E2+)·len(E2-) combinations |
| `TiSim.CombinationAt` | optimizer/ti_sim.py:33-35 | the combination at index ((a·len(E1-)+b)·len(E2+)+c)·len(E2-)+d is ((E1+[a], E1-[b]), (E2+[c], E2-[d])): e1p is the outermost loop, e2m the innermost |
| `TiSim.CombinationMultiplicity` | optimizer/ti_sim.py:31-36 | no deduplication: a combination occurs as often as the product of the multiplicities of its four electrodes in their lists |
| `TiSim.TwoCombinationExample` | optimizer/ti_sim.py:31-36 | E1+=[E1], E1-=[E2], E2+=[E3,E4], E2-=[E5] give ((E1,E2),(E3,E5)) then ((E1,E2),(E4,E5)) |
| `TiSim.StripEach` | optimizer/ti_sim.py:43 | `[e.strip() for e in …]`: same length, each piece stripped |
| `TiSim.WhitespaceAnswerAccepted` | optimizer/ti_sim.py:44-48 | an answer without a comma is split on whitespace after stripping, and is always accepted |
| `TiSim.BlankAnswerAccepted` | optimizer/ti_sim.py:41-48 | an empty or all-whitespace answer is accepted as the empty list |
| `TiSim.CommaAnswerAcceptance` | optimizer/ti_sim.py:42-48 | an answer with a comma is accepted iff no comma-separated piece of the stripped answer is blank |
| `TiSim.DoubleCommaRejected` | optimizer/ti_sim.py:42-50 | `"a,,b"` is rejected, so the prompt repeats |
| `TiSim.JoinWithAvoids` | optimizer/ti_sim.py:96 | a joined string holds a character only if a part or the separator does (used to show names have no `/`) |
| `TiSim.JoinWithEnds` | optimizer/ti_sim.py:41 | a join of non-empty parts starts with the first part's first character and ends with the last part's last character |
| `TiSim.SpacedListRoundTrip` | optimizer/ti_sim.py:41-48 | labels typed separated by single spaces are read back as typed |
| `TiSim.CommaListRoundTrip` | optimizer/ti_sim.py:41-48 | two or more labels typed separated by commas are read back as typed |
| `TiSim.ElectrodeListRoundTrip` | optimizer/ti_sim.py:39-48 | plain labels come back from the prompt as typed, whether spaces or commas separate them |
| `TiSim.PromptUntilAccepted` | optimizer/ti_sim.py:40-50 | a retry loop returns the first accepted answer's value, every earlier answer having been refused; with no accepted answer it reads them all |
| `TiSim.FirstParsedNone` | optimizer/ti_sim.py:40-50 | the retry loop finds no value iff every remaining answer is refused |
| `TiSim.GetElectrodeList` | optimizer/ti_sim.py:39-50 | `get_electrode_list` returns the tokens of the first answer whose tokens are all non-empty, after refusing all earlier answers |
| `TiSim.CommaFreeAnswerEndsPrompt` | optimizer/ti_sim.py:44-48 | a first answer without a comma ends the prompt at once, with its whitespace tokens |
| `TiSim.MillivoltsToVolts` | optimizer/ti_sim.py:57 | the intensity in volts times 1000 is the entered millivolts; 50 mV is 0.05 V |
| `TiSim.GetIntensity` | optimizer/ti_sim.py:53-59 | `get_intensity` returns the first answer `float` reads, divided by 1000, after refusing every earlier answer on `ValueError` |
| `TiSim.MeshFileNameShape` | optimizer/ti_sim.py:91-103 | the name starts with `TI_norm_field_` iff the leadfield is "gm" (otherwise `TI_field_`), ends with `.msh`, and holds the combination tag in between |
| `TiSim.MeshFileNameRoundTrip` | optimizer/ti_sim.py:96-102 | for `_`-free labels, the mesh file name reads back as its leadfield variant and its combination |
| `TiSim.MeshFileNameInjective` | optimizer/ti_sim.py:96-102 | two combinations with `_`-free labels never get the same file name |
| `TiSim.MeshFileNameCollision` | optimizer/ti_sim.py:102 | labels containing `_` can collide: ((E1_E2,E3),(E4,E5)) and ((E1,E2_E3),(E4,E5)) write the same file |
| `TiSim.PaddedOrdinal` | optimizer/ti_sim.py:115 | `{i+1:03}` is all digits, at least three of them (exactly three below 1000), and reads back as i+1 |
| `TiSim.ProgressLabelReadsBack` | optimizer/ti_sim.py:115 | the progress label splits at `/` into that ordinal and the decimal total, which read back as i+1 and the total |
| `TiSim.LeadfieldFileName` | optimizer/ti_sim.py:64-65 | the leadfield file is `{subject}_leadfield_{cap}.hdf5`, the cap being `EEG_CAP` or `EGI_template` when that is unset |
| `TiSim.SavedRecordFile` | optimizer/ti_sim.py:96-106 | with `/`-free labels each mesh is written directly in the output directory under its combination's name |
| `TiSim.SavedInOrderStep` | optimizer/ti_sim.py:80-116 | one more completed iteration extends the in-order record of saved meshes |
| `TiSim.ProcessLeadfield` | optimizer/ti_sim.py:62-116 | a leadfield that does not load stops the run before any mesh; otherwise one saved mesh per combination, in enumeration order, with its path, visible field and progress label `i+1/total`, and the first combination on which a kernel raises stops the run, with the earlier meshes saved; the run completes iff the leadfield loads and every combination is saved |
| `TiSim.RunBothLeadfields` | optimizer/ti_sim.py:133-134 | the "gm" run, then the "vol" run; a failure in the "gm" run, at its loading or on a combination, leaves no "vol" mesh; each stop names its cause (a leadfield not loaded, or the combination that raised); the script completes iff both leadfields load and both runs save every combination |
| `TiSim.BlankListNoCombination` | optimizer/ti_sim.py:31-36 | a blank electrode list gives no combination, so only the loading of a leadfield can make a run fail |
| `TiOptimizer.OptimizerMeshFileName` | optimizer/ti-optimizer.py:89 | the optimizer's mesh name is the `TI_field_…` name `ti_sim` gives on every non-"gm" leadfield |
| `TiOptimizer.OptimizerMatchesVolumeRun` | optimizer/ti-optimizer.py:85-96 | the optimizer writes the same file name and visible field `TImax` as the "vol" run of `ti_sim`, and the name reads back as a non-"gm" name of the combination |
| `TiOptimizer.WrittenInOrderStep` | optimizer/ti-optimizer.py:69-98 | one more completed iteration extends the in-order record of written meshes |
| `TiOptimizer.WriteAllMeshes` | optimizer/ti-optimizer.py:53-98 | a leadfield that does not load stops the script before any mesh; otherwise one mesh path per combination, in enumeration order, len(E1+)·len(E1-)·len(E2+)·len(E2-) of them when no kernel raises, and otherwise a stop at the first combination that raises |
| `Scatter.Zip` | optimizer/sur2vol.py:39 | `zip`: positional pairs, as many as the shorter sequence has |
| `Scatter.ZipDropsSurplus` | optimizer/sur2vol.py:39 | values beyond the last point are never paired |
| `Scatter.ScatterPoints` | optimizer/sur2vol.py:37-42 | a new volume of exactly the reference shape whose every voxel holds the value of the last in-bounds point mapping to it, or 0 |
| `Scatter.OutOfBoundsPointIgnored` | optimizer/sur2vol.py:41-42 | a point with an index outside the volume changes no voxel |
| `Scatter.LastWriterWins` | optimizer/sur2vol.py:39-42 | a voxel holds the value of the last point, in sequence order, that maps to it |
| `Scatter.UntouchedVoxelZero` | optimizer/sur2vol.py:37 | a voxel no point maps to stays 0 |
| `Scatter.VoxelValueOrigin` | optimizer/sur2vol.py:37-42 | every voxel holds 0 or the value of some point mapping to it |
| `Sur2Vol.CreateVolumetricNifti` | optimizer/sur2vol.py:22-42 | fails iff the mesh lacks the field, with the message of the `ValueError` and before any volume exists; otherwise the scatter of the field's values over the reference shape |
| `Sur2Vol.DefaultFieldIsGmField` | optimizer/sur2vol.py:48 | the default field is the one `ti_sim` stores on its "gm" meshes |
| `Sur2Vol.InputIsSimulationOutput` | optimizer/sur2vol.py:50 | the input directory is the directory `ti_sim` writes its meshes to |
| `Sur2Vol.SelectSurfaceMeshes` | optimizer/sur2vol.py:58 | a name is selected iff it is listed, starts with `TI_norm_field` and ends with `.msh` |
| `Sur2Vol.SelectionIsSubsequence` | optimizer/sur2vol.py:58 | the selection of a concatenated listing is the concatenation of the selections: listing order is kept |
| `Sur2Vol.GmMeshesSelected` | optimizer/sur2vol.py:58 | the "gm" meshes of `ti_sim` are selected and its "vol" meshes are not |
| `Sur2Vol.GmMeshOutputName` | optimizer/sur2vol.py:64 | `TI_norm_field_{tag}.msh` becomes `niftis/TI_norm_field_{tag}_volumetric.nii.gz` |
| `Sur2Vol.Conversions` | optimizer/sur2vol.py:62-67 | one conversion per selected file |
| `Sur2Vol.ConversionsAt` | optimizer/sur2vol.py:62-67 | the k-th conversion reads the k-th selected file, writes its `_volumetric.nii.gz` file and has progress label `k+1/total` |
| `Sur2Vol.ConvertedInOrderStep` | optimizer/sur2vol.py:62-71 | one more converted file extends the in-order record of conversions |
| `Sur2Vol.ProcessDirectory` | optimizer/sur2vol.py:48-71 | the selected files are converted in listing order, each into a fresh volume of the reference shape holding the scatter of its field; the run completes iff every one carries the field, and otherwise stops at the first that does not |
| `NormalExtract.ExtractNormalVolume` | utils/normal_extract.py:25-60 | a missing mesh file, then a missing reference file, then a missing `TIamp_localnorm` field raise, with their messages; otherwise the field is scattered over the reference shape |
| `RoiAnalyzer.WindowWithSeparator` | optimizer/roi-analyzer.py:60 | a window holding a character outside `E`, `_` and the digits is not a match |
| `RoiAnalyzer.FindTokens` | optimizer/roi-analyzer.py:60 | `re.findall(r'E\d{3}_E\d{3}', s)`: the non-overlapping matches, left to right |
| `RoiAnalyzer.FindTokensAreTokens` | optimizer/roi-analyzer.py:60 | every match is a window of the scanned string of the form `E ddd _ E ddd` |
| `RoiAnalyzer.FindTokensAcross` | optimizer/roi-analyzer.py:60 | a character that no match contains separates the matches on its two sides |
| `RoiAnalyzer.FindTokensSkip` | optimizer/roi-analyzer.py:60 | a prefix without `E` holds no match and does not shift the later ones |
| `RoiAnalyzer.FindTokensFront` | optimizer/roi-analyzer.py:60 | a match at the front is the first match |
| `RoiAnalyzer.JoinTokens` | optimizer/roi-analyzer.py:30-60 | the matches of `join(dir, name)` are those of the directory followed by those of the name |
| `RoiAnalyzer.MeshFileNameTokens` | optimizer/roi-analyzer.py:60-61 | a `ti_sim` mesh named after `Eddd` electrodes yields exactly its two pairs, and its row label is `p0 <> p1` |
| `RoiAnalyzer.RowLabel` | optimizer/roi-analyzer.py:118-122 | a name without exactly two matches labels its row unchanged |
| `RoiAnalyzer.Terminated` | optimizer/roi-analyzer.py:21-22 | each complete line of `roi_list.txt` is read with its `\n` |
| `RoiAnalyzer.MshFiles` | optimizer/roi-analyzer.py:28-29 | a name is kept iff it is listed and ends with `.msh` |
| `RoiAnalyzer.MshFilesStep` | optimizer/roi-analyzer.py:28-29 | each listed name adds itself to the kept names iff it ends with `.msh` |
| `RoiAnalyzer.NewMeshKey` | optimizer/roi-analyzer.py:30-35 | the key of a listed file is its own name, which no earlier mesh of the distinct listing has |
| `RoiAnalyzer.CollectedStep` | optimizer/roi-analyzer.py:35-83 | adding a new mesh key with its inner-loop entries keeps `mesh_data` well formed and collected |
| `RoiAnalyzer.SampleMesh` | optimizer/roi-analyzer.py:38-92 | the inner loop over the position files yields the entries `RoiEntries` defines: a file stores its values iff the tool ran, its CSV exists and was read, and the path has exactly two matches; the loop aborts iff the tool cannot be started for some position file |
| `RoiAnalyzer.CollectMeshData` | optimizer/roi-analyzer.py:25-92 | unless the tool cannot be started, every `.msh` file of the listing gets an entry, in listing order, even when no ROI succeeds, and each holds the entries of its inner loop; the run ends at the first mesh on which the tool cannot be started, and only then, with the earlier meshes collected |
| `RoiAnalyzer.AbortedAt` | optimizer/roi-analyzer.py:28-46 | the mesh that aborts is the next `.msh` file after those completed, so not every mesh completes |
| `RoiAnalyzer.MshFilesPrefix` | optimizer/roi-analyzer.py:28-29 | the `.msh` files of a prefix of the listing are a prefix of all the `.msh` files |
| `RoiAnalyzer.MshFilesAppend` | optimizer/roi-analyzer.py:28-29 | the `.msh` files of two listings in a row are those of the first then those of the second |
| `RoiAnalyzer.NothingStoredWithoutTwoTokens` | optimizer/roi-analyzer.py:60-61 | a mesh whose path does not yield exactly two matches keeps an empty entry |
| `RoiAnalyzer.StoredKeys` | optimizer/roi-analyzer.py:39-83 | a mesh has an ROI key iff some position file with that base name stored values on it |
| `RoiAnalyzer.SomeStoresExtend` | optimizer/roi-analyzer.py:38-83 | some file of a list stored under a base name iff some earlier file did or the last one did |
| `RoiAnalyzer.LastPositionFileWins` | optimizer/roi-analyzer.py:39-83 | a later position file with the same base name overwrites: the stored list is that of the last one that stored |
| `RoiAnalyzer.DirectoryMatchBlocksStorage` | optimizer/roi-analyzer.py:60-61 | the whole path is scanned, so a match in the directory leaves a two-match mesh name with no values |
| `RoiAnalyzer.SimulationMeshStores` | optimizer/roi-analyzer.py:60-61 | under a directory without matches, a `ti_sim` mesh named after `Eddd` electrodes yields exactly its two pairs |
| `RoiAnalyzer.NamesUpToMeaning` | optimizer/roi-analyzer.py:103-106 | the names gathered from the first n meshes are the ROI keys of those meshes |
| `RoiAnalyzer.AllNames` | optimizer/roi-analyzer.py:103-106 | the names gathered from all meshes are the ROIs with values for some mesh |
| `RoiAnalyzer.CollectColumns` | optimizer/roi-analyzer.py:103-106 | the `columns` set holds exactly the ROI names of all meshes |
| `RoiAnalyzer.SortedList` | optimizer/roi-analyzer.py:109 | `sorted(list(columns))`: strictly increasing, with exactly the set's elements |
| `RoiAnalyzer.Header` | optimizer/roi-analyzer.py:113 | the header is `Mesh` followed by the columns in order |
| `RoiAnalyzer.BuildTable` | optimizer/roi-analyzer.py:103-132 | the columns are the sorted, duplicate-free union of ROI names; the table is the header plus one row per mesh in `mesh_data` order, each row its label followed, per column, by the first stored value or `''`; it fails iff some stored list is empty |
| `RoiAnalyzer.EmptyListFound` | optimizer/roi-analyzer.py:127 | an empty stored list breaks the rule that every stored list has a first value |
| `RoiAnalyzer.CellsStep` | optimizer/roi-analyzer.py:125-131 | appending the next column's cell extends a correct row prefix |
| `RoiAnalyzer.RowsStep` | optimizer/roi-analyzer.py:116-132 | appending the next mesh's row extends a correct table prefix |
| `RoiAnalyzer.TableHasNoEmptyList` | optimizer/roi-analyzer.py:116-132 | a complete table has a cell for every stored ROI, so no stored list is empty |
| `RoiCreator.ListExistingRois` | optimizer/roi-creator.py:16-22 | `[]` without the directory; otherwise each `.csv` name without its last four characters, in listing order |
| `RoiCreator.CsvStemsListed` | optimizer/roi-creator.py:19-21 | a name is listed iff the directory holds `{name}.csv` |
| `RoiCreator.CsvStemsAppend` | optimizer/roi-creator.py:19-21 | listing order is kept: a concatenated listing gives the concatenated names |
| `RoiCreator.SaveRoiToCsv` | optimizer/roi-creator.py:9-14 | the returned path is `directory/{name}.csv`; after the save that file holds one row, the `str` of each coordinate, and every other file is unchanged |
| `RoiCreator.FloatCells` | optimizer/roi-creator.py:30 | the comprehension of `float` fails iff some cell is no number, and otherwise gives each cell's number, in order |
| `RoiCreator.ReadRoiCoordinates` | optimizer/roi-creator.py:24-32 | `[]` without the file; `StopIteration` iff the file has no row; `ValueError` iff its first row has a cell `float` cannot read; otherwise the numbers of the first row, cell by cell |
| `RoiCreator.HeaderRowRaises` | optimizer/roi-creator.py:28-30 | a file whose first row is `x,y,z` raises `ValueError` rather than giving coordinates |
| `RoiCreator.SaveThenRead` | optimizer/roi-creator.py:9-32 | when `float` reads back what `str` wrote for each coordinate, reading back a saved ROI gives its coordinates, the single row written |
| `RoiCreator.RoiFilePathInjective` | optimizer/roi-creator.py:10 | one-component names have different files |
| `RoiCreator.SaveKeepsOthers` | optimizer/roi-creator.py:9-32 | saving one ROI leaves what every other ROI reads unchanged |
| `RoiCreator.SavedRoiListed` | optimizer/roi-creator.py:10-21 | a saved ROI is in the next listing, under its name |
| `RoiCreator.MenuEntries` | optimizer/roi-creator.py:56-71 | for a valid choice, `len(existing_rois) + 1` means a new ROI; choice k+1 selects `existing[k]` |
| `RoiCreator.CsvStemsDistinct` | optimizer/roi-creator.py:16-22 | a directory's distinct names give distinct ROI names, so the menu lists no ROI twice |
| `RoiCreator.MenuChoiceInjective` | optimizer/roi-creator.py:48-71 | on a menu without repeated names, different valid choices select different entries |
| `RoiCreator.NameCheckExamples` | optimizer/roi-creator.py:65 | the name check rejects a name with a space and lets through tabs and the empty name |
| `RoiCreator.RemoveFirst` | optimizer/roi-creator.py:78 | `s.replace(c, '', 1)` never lengthens `s` |
| `RoiCreator.RemoveFirstAbsent` | optimizer/roi-creator.py:78 | with no `c` in `s`, `replace(c, '', 1)` leaves `s` as it is |
| `RoiCreator.RemoveFirstAt` | optimizer/roi-creator.py:78 | `replace(c, '', 1)` removes exactly the first `c` |
| `RoiCreator.PointRemoved` | optimizer/roi-creator.py:78 | removing the point of a number leaves its whole part followed by its fraction |
| `RoiCreator.NumberLiteralPasses` | optimizer/roi-creator.py:78 | every number literal passes the check: an optional leading minus, then digits with at most one point, at least one digit |
| `RoiCreator.TrailingMinusPasses` | optimizer/roi-creator.py:78 | the check as written lets `5-` through, which is no number literal |
| `RoiCreator.CoordinateAnswer` | optimizer/roi-creator.py:77-82 | as written, an answer is refused and asked again unless it has exactly three tokens that each pass the check; an accepted answer gives three coordinates, or the `ValueError` of `float` |
| `RoiCreator.ParseCoordinates` | optimizer/roi-creator.py:77-81 | the corrected check accepts only three number literals and gives exactly three coordinates |
| `RoiCreator.CorrectedCheckAgrees` | optimizer/roi-creator.py:77-82 | the corrected check refuses exactly the answers the code as written refuses or fails on, and gives the same coordinates on all others |
| `RoiCreator.TrailingMinusStops` | optimizer/roi-creator.py:78-81 | `5- 1 2` passes the check as written and `float` then raises; the corrected check refuses it |
| `RoiCreator.PromptExample` | optimizer/roi-creator.py:77-79 | the prompt's own example `-10.5 5 20.0` reads as those three numbers |
| `RoiCreator.SplitWhitespaceThree` | optimizer/roi-creator.py:77 | three words separated by single spaces split into those words |
| `RoiCreator.IntegerLiteral` | optimizer/roi-creator.py:81 | a written integer, with or without a minus, is a number literal of its own value |
| `RoiCreator.Pow10` | optimizer/roi-creator.py:81 | the scale of a fraction is at least 1 |
| `RoiCreator.WriteRoiList` | optimizer/roi-creator.py:88-90 | `roi_list.txt` holds one line per saved path, in save order |
| `RoiCreator.RoiListFront` | optimizer/roi-creator.py:88-90 | the first saved path is the first line |
| `RoiCreator.RoiListLines` | optimizer/roi-creator.py:88-90 | the list splits at line breaks into the saved paths and a final empty piece |
| `RoiCreator.RoiListRoundTrip` | optimizer/roi-analyzer.py:21-22 | the analyzer reads back from `roi_list.txt` exactly the saved paths, in order, when they have no line break or surrounding whitespace |
| `RoiCreator.RoiFileListable` | optimizer/roi-creator.py:84-90 | the ROI file of a name without a line break can be listed |
| `RoiCreator.RoiFileBase` | optimizer/roi-analyzer.py:39 | the analyzer keys a saved ROI file's values by the ROI name, for a one-component name that has a character other than `.` |
| `RoiCreator.EmptyNameColumn` | optimizer/roi-creator.py:64-68 | the empty name passes the check, but the analyzer names its column `.csv` |
| `Csv2Geo.FormatElectrodeData` | utils/csv2geo.py:21-46 | an empty file raises at `next` and writes nothing; otherwise the header, the lines of the rows after the first and, unless a four-field row raised, the footer |
| `Csv2Geo.EmittedStep` | utils/csv2geo.py:30-37 | one row: short rows are skipped, a four-field row raises, longer rows add their two lines |
| `Csv2Geo.EmittedWithoutFourFieldRow` | utils/csv2geo.py:30-37 | without a four-field row the loop as written writes the lines of the intended guard and does not raise |
| `Csv2Geo.EmittedWithoutRaise` | utils/csv2geo.py:30-37 | whenever the loop as written does not raise, it wrote the intended lines |
| `Csv2Geo.FourFieldRowStops` | utils/csv2geo.py:33-35 | a row `E1,1,2,3` raises, and the file is left without its footer |
| `Csv2Geo.HeaderIgnored` | utils/csv2geo.py:27 | the first row is never written: changing it changes nothing |
| `Csv2Geo.GeoLinesAppend` | utils/csv2geo.py:30-37 | rows are written in order: the lines of concatenated rows are the concatenated lines |
| `Csv2Geo.RowIsTwoLines` | utils/csv2geo.py:35-37 | a written row is exactly two lines, the `SP(x, y, z){0};` point and then the `T3(x, y, z, 0){"name"};` text |
| `Csv2Geo.GeoPathOfMatch` | utils/csv2geo.py:50-52 | a matched `name.csv` is written beside it as `name.geo` |
| `Csv2Geo.ConvertedInOrderStep` | utils/csv2geo.py:51-53 | one more converted file extends the in-order record |
| `Csv2Geo.ProcessDirectory` | utils/csv2geo.py:49-54 | the files are converted in order, each to its `.geo` path with its `.geo` text; the first file that raises ends the run |
| `Txt2Csv.SimnibsRow` | utils/txt2csv.py:32-36 | a written row has five fields, the first of them `Electrode` |
| `Txt2Csv.WrittenStep` | utils/txt2csv.py:30-36 | one row: empty rows are skipped, a short row raises, others add their remapped row |
| `Txt2Csv.ProcessFile` | utils/txt2csv.py:16-39 | fewer than seven rows raise at `next`, writing nothing; otherwise the rows after the first seven are converted up to a short non-empty row, and the rows written before the exception remain |
| `Txt2Csv.NonEmpty` | utils/txt2csv.py:31 | keeping the non-empty rows never adds rows |
| `Txt2Csv.AllRowsWritten` | utils/txt2csv.py:30-36 | without short rows there is no exception, and each non-empty row is written in order as `Electrode, row[2], row[3], row[4], row[0]` |
| `Txt2Csv.ShortRowKeepsEarlierRows` | utils/txt2csv.py:30-39 | a short row raises, and the rows before it are kept |
| `Txt2Csv.FirstRowIsElectrode` | utils/txt2csv.py:22-36 | no header is written: the first written row is the first electrode's |
| `LblExtract.MaskValue` | utils/lbl_extract.py:21-31 | every mask value is 0 or one of the labels |
| `LblExtract.SequentialIsMask` | utils/lbl_extract.py:30-31 | the label-by-label assignments leave the atlas value where that value is a label, and 0 elsewhere |
| `LblExtract.LabelOrderIrrelevant` | utils/lbl_extract.py:30-31 | the order of the labels, and repeated labels, do not change the mask |
| `LblExtract.RegionsExample` | utils/lbl_extract.py:21-31 | with labels 14 and 15, those voxels keep their label and all others are 0 |
| `LblExtract.ApplyLabel` | utils/lbl_extract.py:31 | `mask[atlas == label] = label`: exactly the voxels with that atlas value become the label, and all others are unchanged |
| `LblExtract.CreateMask` | utils/lbl_extract.py:28-31 | a new mask of the atlas's shape, holding at every voxel the atlas value when it is a label and 0 otherwise; the atlas is only read |
| `Paths.LastIndexOf` | optimizer/roi-analyzer.py:34 | the index of the last `c`, or -1 when there is none |
| `Paths.LastIndexOfAppend` | optimizer/sur2vol.py:64 | the last `c` of a concatenation is in the second part when that part has one |
| `Paths.BaseName` | optimizer/roi-analyzer.py:34 | a base name has no `/` |
| `Paths.BaseNameOfLast` | optimizer/roi-analyzer.py:34 | the base name of `a/t`, or of `t` alone, is `t` |
| `Paths.BaseNameOfJoin` | optimizer/roi-analyzer.py:30-34 | `basename(join(dir, name))` is `name` for a one-component name |
| `Paths.StemOfExtended` | optimizer/sur2vol.py:64 | `splitext` removes exactly an appended extension |
| `Text.StripLeft` | optimizer/ti_sim.py:41 | `lstrip` never lengthens its argument |
| `Text.StripRight` | optimizer/ti_sim.py:41 | `rstrip` never lengthens its argument |
| `Text.Strip` | optimizer/ti_sim.py:41 | `strip` never lengthens its argument |
| `Text.StripLeftSuffix` | optimizer/ti_sim.py:41 | `lstrip` leaves a suffix of its argument |
| `Text.StripRightPrefix` | optimizer/ti_sim.py:41 | `rstrip` leaves a prefix of its argument |
| `Text.StripLeftSpec` | optimizer/ti_sim.py:41 | `lstrip` removes exactly the leading whitespace run |
| `Text.StripRightSpec` | optimizer/ti_sim.py:41 | `rstrip` removes exactly the trailing whitespace run |
| `Text.StripIsTrimmedInfix` | optimizer/ti_sim.py:41 | `strip` leaves a trimmed infix, and everything it removed is whitespace |
| `Text.StripIsTrimmed` | optimizer/ti_sim.py:41 | what `strip` leaves has no whitespace at either end |
| `Text.StripIsInfix` | optimizer/ti_sim.py:41 | what `strip` leaves is an infix of its argument |
| `Text.StripRemovesSpaces` | optimizer/ti_sim.py:41 | what `strip` cuts off at either end is whitespace |
| `Text.StripLeftKeeps` | optimizer/ti_sim.py:41 | `lstrip` keeps every non-whitespace character |
| `Text.StripRightKeeps` | optimizer/ti_sim.py:41 | `rstrip` keeps every non-whitespace character |
| `Text.StripKeeps` | optimizer/ti_sim.py:41-42 | a comma is in the stripped answer iff it is in the answer |
| `Text.StripTrimmed` | optimizer/ti_sim.py:43 | `strip` leaves a trimmed string as it is |
| `Text.BlankStrip` | optimizer/ti_sim.py:41 | a whitespace-only string strips to the empty string |
| `Text.StripTrailingBreak` | optimizer/roi-analyzer.py:22 | stripping a line of `roi_list.txt` removes its `\n` |
| `Text.SplitOn` | optimizer/ti_sim.py:43 | `split(c)` yields at least one piece, none containing `c` |
| `Text.SplitOnCount` | optimizer/ti_sim.py:43 | `split(c)` yields one more piece than there are separators |
| `Text.JoinWithExtendFirst` | optimizer/ti_sim.py:96 | extending the first part of a join extends the join at its front |
| `Text.JoinWithEmptyFirst` | optimizer/ti_sim.py:96 | an empty first part puts the separator at the front |
| `Text.JoinSplitOn` | optimizer/ti_sim.py:43 | joining the pieces of a split with its separator gives back the string |
| `Text.SplitOnNoSeparator` | optimizer/ti_sim.py:43 | a string without the separator splits into itself |
| `Text.SplitOnAfterPiece` | optimizer/ti_sim.py:43 | a piece followed by the separator is the first piece of a split |
| `Text.SplitOnJoin` | optimizer/ti_sim.py:43 | splitting a join of separator-free pieces gives back the pieces |
| `Text.WordLength` | optimizer/ti_sim.py:45 | the leading run of non-whitespace ends at whitespace or at the end |
| `Text.SplitWhitespaceWords` | optimizer/ti_sim.py:45 | every token of `split()` is a non-empty run without whitespace |
| `Text.WordLengthOfWord` | optimizer/ti_sim.py:45 | a word followed by whitespace or nothing is the leading run |
| `Text.SplitWhitespaceCons` | optimizer/ti_sim.py:45 | a word followed by a space is the first token of `split()` |
| `Text.SplitWhitespaceWord` | optimizer/ti_sim.py:45 | a word alone is the only token of `split()` |
| `Text.SplitWhitespaceJoin` | optimizer/ti_sim.py:45 | `split()` of words joined by single spaces gives back the words |
| `Text.DigitChar` | optimizer/ti_sim.py:115 | a digit character of value d |
| `Text.Decimal` | optimizer/ti_sim.py:115 | `str(n)` is a non-empty string of digits |
| `Text.DecimalRoundTrip` | optimizer/ti_sim.py:115 | reading back `str(n)` gives n |
| `Text.DecimalShort` | optimizer/ti_sim.py:115 | a number below 1000 has at most three digits |
| `Text.Zeros` | optimizer/ti_sim.py:115 | the padding zeros are k digits |
| `Text.ZerosValue` | optimizer/ti_sim.py:115 | the padding reads as 0 |
| `Text.ZerosAllZero` | optimizer/ti_sim.py:115 | the padding is all `0` characters |
| `Text.LeadingZerosValue` | optimizer/ti_sim.py:115 | leading zeros do not change the value read back |
| `Text.LessIrreflexive` | optimizer/roi-analyzer.py:109 | no string is below itself in `str` order |
| `Text.LessTransitive` | optimizer/roi-analyzer.py:109 | `str` order is transitive |
| `Text.LessTotal` | optimizer/roi-analyzer.py:109 | of two different strings one is below the other |
| `Text.InsertSorted` | optimizer/roi-analyzer.py:109 | inserting a new string into a strictly sorted list keeps it strictly sorted, with one more element, exactly the old ones and the new |
| `Text.StrictlySortedUnique` | optimizer/roi-analyzer.py:109 | a strictly sorted list is determined by its elements, so `sorted` of a set has one possible result |

## Left out

- The SimNIBS, meshio and nibabel calls are left out. This covers `load_leadfield`, `get_field`, `get_maxTI`, `get_dirTI`, `nodes_normals`, `deepcopy`, `add_*_field`, `write_msh`, `view` and `write_opt`, and the loading and saving of meshes and NIfTI images. They are foreign kernels and I/O. The model keeps only whether the leadfield loads (`loadRaises`) and whether a kernel raises (`raises`), the fields a mesh carries and its points' voxel indices.
- The affine inverse and `np.round` are left out: they are floating point. The scatter takes its points' already rounded integer indices.
- Values are `real`, so binary rounding is not modelled. This covers `float`, the division by 1000 and `np.zeros`.
  - `get_intensity`'s `float` is a parameter (`millivolts`) of GetIntensity.
  - The `float` that read_roi_coordinates applies to the cells of an ROI file, and the `str` that `csv.writer` applies to saved coordinates, are parameters (`float`, `show`). A file may hold any text, and `str` of a float can use exponents, so neither is fixed to the number literals above. SaveThenRead assumes the two agree, as Python's float `repr` round-trip does.
  - roi-creator's `float` of a typed token is modelled on the number literals its check targets: an optional leading minus, then digits with at most one point, at least one digit. Exponents, `inf`, `nan`, `_` separators and surrounding whitespace, which `float` also reads, are not modelled.
- `input()`, `print`, `os.getenv`, `os.makedirs`, `os.path.exists`, `os.remove` and the writing of files are left out: they are I/O.
  - Answers, listings and existing paths are parameters.
  - What is written is a returned value.
  - Printed messages, and the progress printing that goes with the progress label, are not modelled. The progress label itself is modelled.
- A prompt that runs out of answers ends with `None` in the model. The script would wait at `input()` instead.
- roi-creator's `main` is not modelled as one loop. Its parts are modelled: the menu check, the name check, one coordinate answer, saving and reading a file, and the writing of `roi_list.txt`. The retry loops at lines 43, 55-60 and 63-68 are interactive plumbing. The `int(input())` of lines 43 and 56, which can raise on a non-integer answer, is not modelled.
- `get_fields_at_coordinates`, and pandas' reading and `to_numeric`/`dropna` coercion of its CSV, are not modelled. They are a subprocess and foreign I/O. Their effect is one `SampleOutcome` per mesh path and position file: the tool cannot be started (the uncaught `OSError` of `subprocess.run`, which ends the script), the tool failed, no CSV, an unreadable CSV, or the numeric values of its first column.
  - A stale `{pos_base}_TImax.csv` left from an earlier run is not told apart from a fresh one.
  - The two `os.path.exists` checks at lines 53 and 67 are one check, since nothing happens between them.
- The JSON and CSV output formatting of roi-analyzer is not modelled. The model stops at the table of cells.
- `os.listdir` and `glob` return names in no fixed order. The model takes the listing as given. For `os.listdir` it requires distinct names without `/`, which Python guarantees. `glob`'s hidden-file rule is the predicate `Csv2Geo.GlobMatch`.
- csv2geo's and txt2csv's `csv.reader` parsing of quotes and line endings is not modelled. Files are given as their parsed rows. `roi_list.txt` is read with `\n` line ends. The universal-newline handling of `\r` is not modelled.
- `\d` and `str.isdigit` are modelled on the ASCII digits. Python also accepts other Unicode digits, and `isdigit` also accepts superscripts. `str.isspace` is modelled with Python's full set of whitespace characters.
- ti-optimizer.py repeats three functions of ti_sim.py unchanged (lines 12-17, 20-32 and 35-41). Each is modelled once, in TiSim. TiOptimizer models what differs: its module-level loop and its file name.
- lbl_extract's atlas loading and mask saving (lines 17-18 and 34-38) are I/O and are left out. So is `new_img_like`.
- The files outside the core are not part of this model: optimizer/leadfield.py, analyzer/gm_extract.py, utils/msh-info.py and the unit tests.

## Findings

| source | as written | input that shows it | evidently intended | confidence | as-written member | corrected member |
|---|---|---|---|---|---|---|
| utils/csv2geo.py:33-35 | rows with `len(row) < 4` are skipped, then `row[4]` is read | a row `E1,1,2,3` of four fields raises `IndexError`, leaving the `.geo` file without its footer and stopping `process_directory` | skip every row too short to have `row[4]` (`len(row) < 5`) | not executed | `Csv2Geo.FourFieldRowStops` | `Csv2Geo.EmittedWithoutFourFieldRow` |
| optimizer/roi-creator.py:78 | a token passes if, after removing its first `.` and first `-`, it is all digits | `5- 1 2` passes the check, and `float("5-")` then raises `ValueError`, ending the script | accept exactly the tokens `float` reads, so that a bad answer is asked again | not executed | `RoiCreator.TrailingMinusStops` | `RoiCreator.CorrectedCheckAgrees` |
