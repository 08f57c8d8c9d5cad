/**
 Choice of the file format when saving a cloud or a mesh. The format follows
 from the file name's extension only; the writers themselves are external and
 are not modelled.
 */
module FileFormats {

  /** Point-cloud writers: binary PCD, or PLY written in binary mode. */
  datatype CloudFormat = PcdBinary | PlyBinary

  /** Polygon-mesh writers. */
  datatype MeshFormat = MeshPly | MeshObj | MeshVtk

  /** The two refusals carry different messages: "<name> has unrecognized extension" when saving a
      cloud, "filename <name> had unrecognized extension" when saving a mesh. */
  datatype SaveError = CloudExtensionUnrecognized(fileName: string) | MeshExtensionUnrecognized(fileName: string)

  datatype Result<T> = Ok(value: T) | Err(error: SaveError)

  /** The extension each cloud format is chosen for. */
  function CloudExtension(f: CloudFormat): string
  {
    match f
    case PcdBinary => ".pcd"
    case PlyBinary => ".ply"
  }

  /** The extension each mesh format is chosen for. */
  function MeshExtension(f: MeshFormat): string
  {
    match f
    case MeshPly => ".ply"
    case MeshObj => ".obj"
    case MeshVtk => ".vtk"
  }

  // ---------------------------------------------------------------------------
  // Extension of a file name
  // ---------------------------------------------------------------------------

  /** Position of the last '.' of the last path component of `s`, or -1 if there is none. */
  function LastDot(s: string): (k: int)
    ensures -1 <= k < |s|
    ensures k >= 0 ==> s[k] == '.' && forall i :: k < i < |s| ==> s[i] != '.' && s[i] != '/'
    ensures k < 0 ==> forall i :: 0 <= i < |s| && s[i] == '.' ==> exists j :: i < j < |s| && s[j] == '/'
  {
    if s == [] then -1
    else if s[|s| - 1] == '/' then -1
    else if s[|s| - 1] == '.' then |s| - 1
    else LastDot(s[..|s| - 1])
  }

  /** The last path component is "." or "..", which has no extension. */
  predicate IsDotEntry(s: string)
  {
    s == "." || s == ".." ||
    (|s| >= 2 && s[|s| - 2..] == "/.") ||
    (|s| >= 3 && s[|s| - 3..] == "/..")
  }

  /** The extension of a file name, from the last '.' of its last path component
      to the end, dot included; empty when that component has no dot or is "." or "..". */
  function Extension(fileName: string): (ext: string)
    ensures ext == [] || (ext[0] == '.' && |ext| <= |fileName| && ext == fileName[|fileName| - |ext|..])
    ensures forall i :: 0 < i < |ext| ==> ext[i] != '.' && ext[i] != '/'
  {
    var k := LastDot(fileName);
    if k < 0 || IsDotEntry(fileName) then "" else fileName[k..]
  }

  // ---------------------------------------------------------------------------
  // Format dispatch
  // ---------------------------------------------------------------------------

  /** The writer saving a cloud to `fileName` uses: chosen by the extension, or an error naming the file. */
  function SaveCloudTarget(fileName: string): (r: Result<CloudFormat>)
    ensures r.Ok? <==> Extension(fileName) == ".pcd" || Extension(fileName) == ".ply"
    ensures r.Ok? ==> CloudExtension(r.value) == Extension(fileName)
    ensures r.Err? ==> r.error == CloudExtensionUnrecognized(fileName)
  {
    var ext := Extension(fileName);
    if ext == ".pcd" then Ok(PcdBinary)
    else if ext == ".ply" then Ok(PlyBinary)
    else Err(CloudExtensionUnrecognized(fileName))
  }

  /** The writer saving a mesh to `fileName` uses: chosen by the extension, or an error naming the file. */
  function SaveMeshTarget(fileName: string): (r: Result<MeshFormat>)
    ensures r.Ok? <==> Extension(fileName) in [".ply", ".obj", ".vtk"]
    ensures r.Ok? ==> MeshExtension(r.value) == Extension(fileName)
    ensures r.Err? ==> r.error == MeshExtensionUnrecognized(fileName)
  {
    var ext := Extension(fileName);
    if ext == ".ply" then Ok(MeshPly)
    else if ext == ".obj" then Ok(MeshObj)
    else if ext == ".vtk" then Ok(MeshVtk)
    else Err(MeshExtensionUnrecognized(fileName))
  }

  /** Appending an extension (a dot followed by at least one character, with no further dot or
      separator) to any file name makes it the name's extension. */
  lemma {:induction false} ExtensionOfAppended(stem: string, ext: string)
    requires |ext| >= 2 && ext[0] == '.'
    requires forall i :: 0 < i < |ext| ==> ext[i] != '.' && ext[i] != '/'
    ensures Extension(stem + ext) == ext
  {
    LastDotOfAppended(stem, ext);
    var s := stem + ext;
    assert s[|s| - 1] == ext[|ext| - 1];
    assert !IsDotEntry(s);
    assert s[|stem|..] == ext;
  }

  lemma {:induction false} LastDotOfAppended(stem: string, ext: string)
    requires |ext| >= 1 && ext[0] == '.'
    requires forall i :: 0 < i < |ext| ==> ext[i] != '.' && ext[i] != '/'
    ensures LastDot(stem + ext) == |stem|
    decreases |ext|
  {
    var s := stem + ext;
    if |ext| > 1 {
      var shorter := ext[..|ext| - 1];
      assert s[..|s| - 1] == stem + shorter;
      LastDotOfAppended(stem, shorter);
    }
  }

  /** Saving a cloud under any name ending in a format's extension picks that format. */
  lemma SaveCloudTargetOfName(stem: string, f: CloudFormat)
    ensures SaveCloudTarget(stem + CloudExtension(f)) == Ok(f)
  {
    ExtensionOfAppended(stem, CloudExtension(f));
  }

  /** Saving a mesh under any name ending in a format's extension picks that format. */
  lemma SaveMeshTargetOfName(stem: string, f: MeshFormat)
    ensures SaveMeshTarget(stem + MeshExtension(f)) == Ok(f)
  {
    ExtensionOfAppended(stem, MeshExtension(f));
  }

  /** A cloud name whose extension no cloud writer handles is refused, whatever its stem. */
  lemma SaveCloudRefusesUnknown(stem: string, ext: string)
    requires |ext| >= 2 && ext[0] == '.'
    requires forall i :: 0 < i < |ext| ==> ext[i] != '.' && ext[i] != '/'
    requires ext != ".pcd" && ext != ".ply"
    ensures SaveCloudTarget(stem + ext) == Err(CloudExtensionUnrecognized(stem + ext))
  {
    ExtensionOfAppended(stem, ext);
  }

  /** A mesh name whose extension no mesh writer handles is refused, whatever its stem. */
  lemma SaveMeshRefusesUnknown(stem: string, ext: string)
    requires |ext| >= 2 && ext[0] == '.'
    requires forall i :: 0 < i < |ext| ==> ext[i] != '.' && ext[i] != '/'
    requires ext != ".ply" && ext != ".obj" && ext != ".vtk"
    ensures SaveMeshTarget(stem + ext) == Err(MeshExtensionUnrecognized(stem + ext))
  {
    ExtensionOfAppended(stem, ext);
  }
}
