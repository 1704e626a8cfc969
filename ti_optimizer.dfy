/**
 * `optimizer/ti-optimizer.py`, the single-leadfield predecessor of `ti_sim.py`.
 * Its `generate_combinations`, `get_electrode_list` and `get_intensity` are the
 * same code as in `ti_sim.py` and are modelled once, in module TiSim; what
 * differs is the module-level loop, which always computes the maximal TI
 * amplitude, names every mesh `TI_field_…` and prints no progress label.
 */
module TiOptimizer {
  import opened Wrappers
  import opened TiSim
  import Paths

  /** `TI_field_{e1p}_{e1m}_and_{e2p}_{e2m}.msh`, whatever leadfield was loaded. */
  function OptimizerMeshFileName(c: Combination): (name: string)
    ensures name == MeshFileName("vol", c)
    ensures forall t :: t != "gm" ==> name == MeshFileName(t, c)
  {
    "TI_field_" + CombinationTag(c) + ".msh"
  }

  /** The one field the optimizer stores and shows. */
  const OptimizerField: string := "TImax"

  /** The optimizer writes, under the same names, the meshes `ti_sim` writes for a
      non-"gm" leadfield, and never the `TI_norm_field_…` ones. */
  lemma OptimizerMatchesVolumeRun(c: Combination)
    requires NoUnderscores(c)
    ensures OptimizerMeshFileName(c) == MeshFileName("vol", c)
    ensures OptimizerField == VisibleField("vol")
    ensures ParseMeshFileName(OptimizerMeshFileName(c)) == Some((false, c))
  {
    MeshFileNameRoundTrip("vol", c);
  }

  /** The path of the mesh written for a combination. */
  function OptimizerMeshPath(projectDir: string, subjectName: string, c: Combination): string
  {
    Paths.Join(OutputDir(projectDir, subjectName), OptimizerMeshFileName(c))
  }

  predicate WrittenInOrder(written: seq<string>, all: seq<Combination>, projectDir: string,
                           subjectName: string, raises: Combination -> bool)
  {
    && |written| <= |all|
    && forall k :: 0 <= k < |written| ==>
         !raises(all[k]) && written[k] == OptimizerMeshPath(projectDir, subjectName, all[k])
  }

  lemma WrittenInOrderStep(written: seq<string>, all: seq<Combination>, projectDir: string,
                           subjectName: string, raises: Combination -> bool)
    requires WrittenInOrder(written, all, projectDir, subjectName, raises)
    requires |written| < |all| && !raises(all[|written|])
    ensures WrittenInOrder(written + [OptimizerMeshPath(projectDir, subjectName, all[|written|])],
                           all, projectDir, subjectName, raises)
  {
  }

  /** The module-level loading of the leadfield named by `LEADFIELD_HDF`, then the loop
      over the combinations: one mesh per combination, in enumeration order. A failed
      load (`loadRaises`) or a raising SimNIBS kernel (`raises`) ends the script. */
  method WriteAllMeshes(e1Plus: seq<Electrode>, e1Minus: seq<Electrode>,
                        e2Plus: seq<Electrode>, e2Minus: seq<Electrode>,
                        projectDir: string, subjectName: string,
                        loadRaises: bool, raises: Combination -> bool)
    returns (written: seq<string>, failed: Option<RunFailure>)
    ensures var all := Combinations(e1Plus, e1Minus, e2Plus, e2Minus);
            && WrittenInOrder(written, all, projectDir, subjectName, raises)
            && (loadRaises ==> written == [] && failed == Some(LeadfieldNotLoaded))
            && (failed.None? <==> !loadRaises && |written| == |all|)
            && (failed.None? ==> |written| == |e1Plus| * |e1Minus| * |e2Plus| * |e2Minus|)
            && (!loadRaises && failed.Some? ==>
                  |written| < |all| && failed == Some(CombinationRaised(all[|written|])) && raises(all[|written|]))
  {
    var all := GenerateCombinations(e1Plus, e1Minus, e2Plus, e2Minus);
    CombinationCount(e1Plus, e1Minus, e2Plus, e2Minus);
    written := [];
    if loadRaises {
      return [], Some(LeadfieldNotLoaded);
    }
    failed := None;
    var i := 0;
    while i < |all|
      invariant i == |written|
      invariant WrittenInOrder(written, all, projectDir, subjectName, raises)
    {
      if raises(all[i]) {
        failed := Some(CombinationRaised(all[i]));
        return;
      }
      WrittenInOrderStep(written, all, projectDir, subjectName, raises);
      written := written + [OptimizerMeshPath(projectDir, subjectName, all[i])];
      i := i + 1;
    }
  }
}
