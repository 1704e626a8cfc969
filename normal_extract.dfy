/**
 * `utils/normal_extract.py`: the stand-alone conversion of a mesh's
 * `TIamp_localnorm` field into a volume over a reference image, after checking
 * that both input files exist.
 */
module NormalExtract {
  import opened Wrappers
  import opened Scatter
  import Sur2Vol

  /** The exceptions `main` raises before it writes anything. */
  datatype Error = FileNotFoundError(message: string) | ValueError(message: string)

  const NormalField: string := "TIamp_localnorm"

  function NotFound(path: string): Error
  {
    FileNotFoundError("File " + path + " not found.")
  }

  /** `main`: `existing` is the set of paths `os.path.exists` accepts and `mesh` what
      `meshio.read` yields for the surface mesh. The mesh file is checked first, then
      the reference file, then the field; the volume is the scatter of the field over
      the reference shape. */
  method ExtractNormalVolume(surfaceMshFile: string, referenceNiftiFile: string, existing: set<string>,
              mesh: Sur2Vol.SourceMesh, referenceShape: Shape)
    returns (result: Result<array3<real>, Error>)
    ensures surfaceMshFile !in existing ==> result == Failure(NotFound(surfaceMshFile))
    ensures surfaceMshFile in existing && referenceNiftiFile !in existing
            ==> result == Failure(NotFound(referenceNiftiFile))
    ensures surfaceMshFile in existing && referenceNiftiFile in existing && NormalField !in mesh.pointData
            ==> result == Failure(ValueError("Field 'TIamp_localnorm' not found in the mesh file."))
    ensures result.Success? <==>
              surfaceMshFile in existing && referenceNiftiFile in existing && NormalField in mesh.pointData
    ensures result.Success? ==>
              fresh(result.value)
              && Holds(result.value, referenceShape, Zip(mesh.pointVoxels, mesh.pointData[NormalField]))
  {
    if surfaceMshFile !in existing {
      return Failure(NotFound(surfaceMshFile));
    }
    if referenceNiftiFile !in existing {
      return Failure(NotFound(referenceNiftiFile));
    }
    if NormalField !in mesh.pointData {
      return Failure(ValueError("Field 'TIamp_localnorm' not found in the mesh file."));
    }
    var normals := mesh.pointData[NormalField];
    var volume := ScatterPoints(referenceShape, mesh.pointVoxels, normals);
    return Success(volume);
  }
}
