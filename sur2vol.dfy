/**
 * `optimizer/sur2vol.py`: `create_volumetric_nifti` turns one surface field
 * of a mesh into a volume over the reference T1 image, and `process_directory`
 * does so for every `TI_norm_field…msh` mesh of a subject's optimisation run.
 */
module Sur2Vol {
  import opened Wrappers
  import opened Scatter
  import Paths
  import Text
  import TiSim

  /** What `meshio.read` yields that the conversion uses: each point's voxel index
      (after the inverse affine of the reference and rounding) and the point data. */
  datatype SourceMesh = SourceMesh(pointVoxels: seq<Voxel>, pointData: map<string, seq<real>>)

  /** The `ValueError` raised for a field the mesh does not carry. */
  function MissingFieldMessage(fieldName: string): string
  {
    "Field '" + fieldName + "' not found in the source mesh."
  }

  /** `create_volumetric_nifti`: the error when the field is missing, raised before any
      volume is built; otherwise the scatter of the field's values over a volume of
      the reference shape. */
  method CreateVolumetricNifti(mesh: SourceMesh, referenceShape: Shape, fieldName: string)
    returns (result: Result<array3<real>, string>)
    ensures fieldName !in mesh.pointData <==> result.Failure?
    ensures result.Failure? ==> result.error == MissingFieldMessage(fieldName)
    ensures result.Success? ==>
              fresh(result.value)
              && Holds(result.value, referenceShape, Zip(mesh.pointVoxels, mesh.pointData[fieldName]))
  {
    if fieldName !in mesh.pointData {
      return Failure(MissingFieldMessage(fieldName));
    }
    var vol := ScatterPoints(referenceShape, mesh.pointVoxels, mesh.pointData[fieldName]);
    return Success(vol);
  }

  // ---------------------------------------------------------------------
  // process_directory

  /** The default `field_name`: the field `ti_sim` stores on its "gm" meshes. */
  const DefaultFieldName: string := "TIamp_localnorm"

  lemma DefaultFieldIsGmField()
    ensures DefaultFieldName == TiSim.VisibleField("gm")
  {
  }

  function InputDir(projectDir: string, subjectName: string): string
  {
    Paths.Join(projectDir, "Simulations/opt_" + subjectName)
  }

  function ReferenceNiftiFile(projectDir: string, subjectName: string): string
  {
    Paths.Join(projectDir, "Subjects/m2m_" + subjectName + "/T1.nii.gz")
  }

  function NiftiOutputDir(projectDir: string, subjectName: string): string
  {
    Paths.Join(projectDir, "Simulations/opt_" + subjectName + "/niftis")
  }

  /** The meshes are read from the directory `ti_sim` writes them to. */
  lemma InputIsSimulationOutput(projectDir: string, subjectName: string)
    ensures InputDir(projectDir, subjectName) == TiSim.OutputDir(projectDir, subjectName)
  {
  }

  /** `f.startswith("TI_norm_field") and f.endswith(".msh")`. */
  predicate IsSurfaceMesh(f: string) {
    "TI_norm_field" <= f && Text.EndsWith(f, ".msh")
  }

  /** The list comprehension over `os.listdir(input_dir)`. */
  function SelectSurfaceMeshes(listing: seq<string>): (selected: seq<string>)
    ensures forall f :: f in selected <==> f in listing && IsSurfaceMesh(f)
    ensures |selected| <= |listing|
  {
    if listing == [] then []
    else
      var rest := SelectSurfaceMeshes(listing[1..]);
      assert forall f :: f in listing <==> f == listing[0] || f in listing[1..];
      if IsSurfaceMesh(listing[0]) then [listing[0]] + rest else rest
  }

  /** The selection keeps the listing's order: it is a subsequence of it. */
  lemma {:induction false} SelectionIsSubsequence(listing: seq<string>, extra: seq<string>)
    ensures SelectSurfaceMeshes(listing + extra) == SelectSurfaceMeshes(listing) + SelectSurfaceMeshes(extra)
  {
    if listing == [] {
      assert listing + extra == extra;
    } else {
      assert (listing + extra)[1..] == listing[1..] + extra;
      SelectionIsSubsequence(listing[1..], extra);
    }
  }

  /** `{os.path.splitext(filename)[0]}_volumetric.nii.gz` in the `niftis` directory. */
  function OutputNiftiFile(outputDir: string, filename: string): string
  {
    Paths.Join(outputDir, Paths.Stem(filename) + "_volumetric.nii.gz")
  }

  /** `ti_sim` names its "gm" meshes so that they are selected, and its other meshes so
      that they are not. */
  lemma GmMeshesSelected(c: TiSim.Combination)
    ensures IsSurfaceMesh(TiSim.MeshFileName("gm", c))
    ensures !IsSurfaceMesh(TiSim.MeshFileName("vol", c))
  {
    var name := TiSim.MeshFileName("gm", c);
    assert name[..13] == "TI_norm_field";
    assert name[|name| - 4..] == ".msh";
    assert TiSim.MeshFileName("vol", c)[3] == 'f';
  }

  /** A gm mesh `TI_norm_field_{tag}.msh` becomes `TI_norm_field_{tag}_volumetric.nii.gz`. */
  lemma GmMeshOutputName(outputDir: string, c: TiSim.Combination)
    requires TiSim.NoSlashes(c)
    ensures OutputNiftiFile(outputDir, TiSim.MeshFileName("gm", c))
         == Paths.Join(outputDir, "TI_norm_field_" + TiSim.CombinationTag(c) + "_volumetric.nii.gz")
  {
    var p := "TI_norm_field_" + TiSim.CombinationTag(c);
    assert TiSim.MeshFileName("gm", c) == p + "." + "msh";
    TiSim.JoinWithAvoids([c.0.0, c.0.1, "and", c.1.0, c.1.1], "_", '/');
    NamedPart(p);
    Paths.StemOfExtended(p, "msh");
  }

  lemma NamedPart(p: string)
    requires '/' !in p && |p| > 0 && p[0] != '.'
    ensures Paths.HasNamedLastPart(p)
  {
    Paths.LastIndexOfAppend([], p, '/');
    assert [] + p == p;
  }

  /** One conversion of `process_directory`: source mesh, output file and progress label. */
  datatype Conversion = Conversion(source: string, output: string, progress: string)

  function ConversionFor(projectDir: string, subjectName: string, filename: string, i: nat, total: nat): Conversion
  {
    Conversion(Paths.Join(InputDir(projectDir, subjectName), filename),
               OutputNiftiFile(NiftiOutputDir(projectDir, subjectName), filename),
               TiSim.ProgressLabel(i, total))
  }

  /** The conversions of the first files of the selection, of `total` in all. */
  function Conversions(projectDir: string, subjectName: string, files: seq<string>, total: nat): (cs: seq<Conversion>)
    ensures |cs| == |files|
  {
    if files == [] then []
    else Conversions(projectDir, subjectName, files[..|files| - 1], total)
         + [ConversionFor(projectDir, subjectName, files[|files| - 1], |files| - 1, total)]
  }

  /** The `k`-th conversion is that of the `k`-th file, with its progress label. */
  lemma {:induction false} ConversionsAt(projectDir: string, subjectName: string, files: seq<string>,
                                         total: nat, k: nat)
    requires k < |files|
    ensures Conversions(projectDir, subjectName, files, total)[k]
         == ConversionFor(projectDir, subjectName, files[k], k, total)
  {
    if k < |files| - 1 {
      var init := files[..|files| - 1];
      ConversionsAt(projectDir, subjectName, init, total, k);
      assert init[k] == files[k];
    }
  }

  /** Every file before the `n`-th carries the field. */
  predicate FieldBefore(files: seq<string>, n: nat, fieldName: string, meshes: string -> SourceMesh)
    requires n <= |files|
  {
    forall k :: 0 <= k < n ==> fieldName in meshes(files[k]).pointData
  }

  predicate ConvertedInOrder(done: seq<Conversion>, files: seq<string>, projectDir: string,
                             subjectName: string, fieldName: string, meshes: string -> SourceMesh)
  {
    && |done| <= |files|
    && done == Conversions(projectDir, subjectName, files[..|done|], |files|)
    && FieldBefore(files, |done|, fieldName, meshes)
  }

  lemma ConvertedInOrderStep(done: seq<Conversion>, files: seq<string>, projectDir: string,
                             subjectName: string, fieldName: string, meshes: string -> SourceMesh)
    requires ConvertedInOrder(done, files, projectDir, subjectName, fieldName, meshes)
    requires |done| < |files| && fieldName in meshes(files[|done|]).pointData
    ensures ConvertedInOrder(done + [ConversionFor(projectDir, subjectName, files[|done|], |done|, |files|)],
                             files, projectDir, subjectName, fieldName, meshes)
  {
    assert files[..|done| + 1][..|done|] == files[..|done|];
  }

  /** `volumes[k]` is the volume written for the `k`-th file: the scatter of its field. */
  ghost predicate VolumesWritten(volumes: seq<array3<real>>, files: seq<string>, fieldName: string,
                                 meshes: string -> SourceMesh, referenceShape: Shape)
    requires |volumes| <= |files|
    requires FieldBefore(files, |volumes|, fieldName, meshes)
    reads volumes
  {
    forall k :: 0 <= k < |volumes| ==>
      Holds(volumes[k], referenceShape,
            Zip(meshes(files[k]).pointVoxels, meshes(files[k]).pointData[fieldName]))
  }

  lemma VolumesWrittenStep(volumes: seq<array3<real>>, v: array3<real>, files: seq<string>, fieldName: string,
                            meshes: string -> SourceMesh, referenceShape: Shape)
    requires |volumes| < |files| && FieldBefore(files, |volumes| + 1, fieldName, meshes)
    requires VolumesWritten(volumes, files, fieldName, meshes, referenceShape)
    requires Holds(v, referenceShape,
                   Zip(meshes(files[|volumes|]).pointVoxels, meshes(files[|volumes|]).pointData[fieldName]))
    ensures VolumesWritten(volumes + [v], files, fieldName, meshes, referenceShape)
  {
    var vs := volumes + [v];
    forall k | 0 <= k < |vs|
      ensures Holds(vs[k], referenceShape, Zip(meshes(files[k]).pointVoxels, meshes(files[k]).pointData[fieldName]))
    {
      if k < |volumes| {
        assert vs[k] == volumes[k];
      }
    }
  }

  /** The conversion of the file after those whose volumes are written. */
  method ConvertNext(volumes: seq<array3<real>>, files: seq<string>, fieldName: string,
                     meshes: string -> SourceMesh, referenceShape: Shape)
    returns (volume: Result<array3<real>, string>)
    requires |volumes| < |files| && FieldBefore(files, |volumes|, fieldName, meshes)
    requires VolumesWritten(volumes, files, fieldName, meshes, referenceShape)
    ensures VolumesWritten(volumes, files, fieldName, meshes, referenceShape)
    ensures volume.Failure? <==> fieldName !in meshes(files[|volumes|]).pointData
    ensures volume.Success? ==>
              && fresh(volume.value)
              && FieldBefore(files, |volumes| + 1, fieldName, meshes)
              && VolumesWritten(volumes + [volume.value], files, fieldName, meshes, referenceShape)
  {
    volume := CreateVolumetricNifti(meshes(files[|volumes|]), referenceShape, fieldName);
    if volume.Success? {
      VolumesWrittenStep(volumes, volume.value, files, fieldName, meshes, referenceShape);
    }
  }

  /** `process_directory` on a directory listing; `meshes` gives each file's content. Each
      selected file is converted in listing order, `volumes` holding the volume written
      for it; a mesh without the field raises out of the loop, leaving the later files
      unconverted. */
  method ProcessDirectory(projectDir: string, subjectName: string, listing: seq<string>,
                          meshes: string -> SourceMesh, referenceShape: Shape, fieldName: string)
    returns (done: seq<Conversion>, volumes: seq<array3<real>>, failed: Option<string>)
    ensures var files := SelectSurfaceMeshes(listing);
            && ConvertedInOrder(done, files, projectDir, subjectName, fieldName, meshes)
            && (failed.None? <==> |done| == |files|)
            && (failed.Some? ==> failed.value == files[|done|]
                                 && fieldName !in meshes(failed.value).pointData)
    ensures fresh(volumes)
    ensures var files := SelectSurfaceMeshes(listing);
            && |volumes| == |done| <= |files|
            && FieldBefore(files, |volumes|, fieldName, meshes)
            && VolumesWritten(volumes, files, fieldName, meshes, referenceShape)
  {
    var files := SelectSurfaceMeshes(listing);
    done := [];
    volumes := [];
    failed := None;
    var i := 0;
    while i < |files|
      invariant i == |done| == |volumes|
      invariant ConvertedInOrder(done, files, projectDir, subjectName, fieldName, meshes)
      invariant fresh(volumes)
      invariant VolumesWritten(volumes, files, fieldName, meshes, referenceShape)
    {
      var conversion := ConversionFor(projectDir, subjectName, files[i], i, |files|);
      var volume := ConvertNext(volumes, files, fieldName, meshes, referenceShape);
      if volume.Failure? {
        failed := Some(files[i]);
        return;
      }
      ConvertedInOrderStep(done, files, projectDir, subjectName, fieldName, meshes);
      done := done + [conversion];
      volumes := volumes + [volume.value];
      i := i + 1;
    }
  }
}
