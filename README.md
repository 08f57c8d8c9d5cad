# cloudproc point-selection primitives in Dafny

This project models the parts of the `cloudproc` point-cloud library whose behaviour is written out in the
library itself, rather than handed to PCL:

- size bookkeeping: `cloudSize` and `setWidthToSize`;
- box masking: `boxMask` gives one boolean per point;
- mask compaction: `maskFilter` keeps the selected points in order and collapses the result to an unorganized cloud;
- projection to position-only points: `toXYZ`;
- the choice of writer by file-name extension inside `saveCloud` and `saveMesh`.

Three modules:

- `Geometry` (`geometry.dfy`) has the point variants (`PointXYZ`, `PointXYZRGB`, `PointNormal`) and the box
  predicate. It models a single-precision coordinate as what an IEEE comparison sees: a finite real, the two
  infinities, or NaN. NaN compares false with everything. The code only compares coordinates, so no arithmetic
  is lost.
- `CloudProc` (`cloudproc.dfy`) has the point cloud. It is a class with fields `points`, `width` and
  `height`, because the source fills clouds in place and sets their dimensions through pointers. `width` and
  `height` are 32-bit unsigned, as in PCL:
  - `CloudSize` wraps the product modulo 2^32 and returns it as a signed 32-bit `int`;
  - `SetWidthToSize` truncates the point count to 32 bits.

  `BoxMask`, `MaskFilter` and `ToXYZ` are methods with the loops of the source. Each is proved against a
  specification function: `BoxMaskOf`, `Select` and `Projected`. The lemmas state the properties of those
  functions.
- `FileFormats` (`formats.dfy`) has the extension dispatch. A missing or unknown extension gives an error value
  that names the file.

Two behaviours of the code are worth stating up front:

- `maskFilter` does not check the mask length (src/cloudproc/cloudproc.cpp:226-227). It reads `mask.size()`
  entries and indexes `in->points[i]` unchecked for each true entry. So `MaskFilter` requires only `MaskFits`:
  every true position names a stored point. A mask shorter than the cloud filters a prefix, and a longer one is
  accepted when its extra entries are false.
- `toXYZ` copies `width` and `height` without checking them against the point count
  (src/cloudproc/cloudproc.cpp:196-197). So `ToXYZ` keeps `width * height == |points|` only when its input had it.

## Model

| member | source | states |
|---|---|---|
| `CloudProc.CloudSize` | src/cloudproc/cloudproc.cpp:33-36 | the result is a signed 32-bit value congruent to `width * height` modulo 2^32, and equals `width * height` exactly when the product is below 2^31 |
| `CloudProc.SetWidthToSize` | src/cloudproc/cloudproc.cpp:38-42 | the points are unchanged, `height == 1` and `width` is the point count truncated to 32 bits; for fewer than 2^31 points the cloud is consistent and `CloudSize` equals the point count |
| `CloudProc.Cloud.constructor` | src/cloudproc/cloudproc.cpp:224 | a new cloud has no points and both dimensions 0 |
| `CloudProc.BoxMask` | src/cloudproc/cloudproc.cpp:207-216 | one mask entry per input point, and entry `i` is true iff `mins <= p_i <= maxes` on x, y and z (inclusive, false for NaN) |
| `CloudProc.MaskFilter` | src/cloudproc/cloudproc.cpp:221-231 | the result is a new cloud holding `Select(points, mask)`, with as many points as the mask has true entries, `height == 1` and `width` equal to the (32-bit) point count; the input cloud is not modified (no `modifies` clause) |
| `CloudProc.SelectLength` | src/cloudproc/cloudproc.cpp:223-228 | the filtered sequence has exactly as many points as the mask has true entries |
| `CloudProc.TrueIndicesExact` | src/cloudproc/cloudproc.cpp:226-227 | `TrueIndices(mask)` is strictly increasing and holds exactly the positions whose entry is true |
| `CloudProc.SelectAt` | src/cloudproc/cloudproc.cpp:226-228 | output point `k` is the input point at the k-th true position, so the output is the in-order subsequence of selected points |
| `CloudProc.SelectFrom` | src/cloudproc/cloudproc.cpp:226-227 | every output point is the input point at some position the mask selects |
| `CloudProc.SelectAllTrue` | src/cloudproc/cloudproc.cpp:226-228 | a mask that is true everywhere keeps the whole point sequence unchanged |
| `CloudProc.SelectPrefix` | src/cloudproc/cloudproc.cpp:226-227 | filtering reads only the points at positions below the mask length |
| `CloudProc.BoxFilterInBox` | src/cloudproc/cloudproc.cpp:211-228 | every point kept by filtering with a box mask lies in the box |
| `CloudProc.BoxFilterIdempotent` | src/cloudproc/cloudproc.cpp:211-228 | on a box-filtered cloud the same box mask is all true, and filtering again returns the same points |
| `CloudProc.BoxFilterExact` | src/cloudproc/cloudproc.cpp:211-228 | box filtering keeps exactly the in-box points, as many as there are, in input order |
| `CloudProc.ToXYZ` | src/cloudproc/cloudproc.cpp:192-202 | the result is a new cloud with the same width, height and point count; output point `i` is a position-only point with the x, y, z of input point `i`; a consistent input gives a consistent output |
| `CloudProc.ProjectedBoxMask` | src/cloudproc/cloudproc.cpp:198-200 | projection does not change the box mask of a cloud |
| `CloudProc.SelectProjected` | src/cloudproc/cloudproc.cpp:198-200 | filtering and projecting commute |
| `CloudProc.ProjectedIdempotent` | src/cloudproc/cloudproc.cpp:198-200 | projecting a projected cloud changes nothing |
| `Geometry.XYZOf` | src/cloudproc/cloudproc.cpp:199 | the result is a position-only point with the input's x, y, z, and it equals the input exactly when the input is already a position-only point (its fixed points are the `PointXYZ` values) |
| `Geometry.LeIsFloatOrder` | src/cloudproc/cloudproc.cpp:212 | the coordinate comparison is reflexive, transitive and total on non-NaN values and false whenever NaN is involved |
| `Geometry.NaNNeverInBox` | src/cloudproc/cloudproc.cpp:212 | a point with a NaN coordinate is in no box |
| `Geometry.InBoxOfXYZ` | src/cloudproc/cloudproc.cpp:212 | the box test depends on the coordinates only, not on colour or normal |
| `FileFormats.LastDot` | src/cloudproc/cloudproc.cpp:57 | the result is the position of a '.' after which the name has no '.' or '/', or -1 when every '.' is followed by a '/' |
| `FileFormats.Extension` | src/cloudproc/cloudproc.cpp:57 | the extension is empty or a suffix of the name that starts with '.' and has no other '.' or '/' |
| `FileFormats.ExtensionOfAppended` | src/cloudproc/cloudproc.cpp:57 | appending `.xyz` (no further dot or separator) to any name makes `.xyz` its extension |
| `FileFormats.SaveCloudTarget` | src/cloudproc/cloudproc.cpp:55-61 | a format is chosen iff the extension is `.pcd` or `.ply`; the chosen format is the one for that extension (PCD binary, PLY binary); otherwise the cloud-extension error names the file |
| `FileFormats.SaveMeshTarget` | src/cloudproc/cloudproc.cpp:237-251 | a format is chosen iff the extension is `.ply`, `.obj` or `.vtk`; the chosen format is the one for that extension; otherwise the mesh-extension error names the file |
| `FileFormats.SaveCloudTargetOfName` | src/cloudproc/cloudproc.cpp:57-59 | any name ending in `.pcd` selects PCD binary, and any name ending in `.ply` selects PLY |
| `FileFormats.SaveMeshTargetOfName` | src/cloudproc/cloudproc.cpp:239-249 | any name ending in `.ply`, `.obj` or `.vtk` selects the matching mesh format |
| `FileFormats.SaveCloudRefusesUnknown` | src/cloudproc/cloudproc.cpp:60 | a cloud name with any other extension is refused with the cloud-extension error naming it |
| `FileFormats.SaveMeshRefusesUnknown` | src/cloudproc/cloudproc.cpp:250 | a mesh name with any other extension is refused with the mesh-extension error naming it |

## Left out

- I/O and the external codecs are not modelled. This covers `readPCD` (src/cloudproc/cloudproc.cpp:44-51) and the
  PCD, PLY, OBJ and VTK writers that `saveCloud` and `saveMesh` call. Only the choice of writer is modelled. The
  file-open error of `readPCD` goes with it.
- `FileFormats.Extension` stands in for `boost::filesystem::extension`. It assumes `/` is the only separator. It
  takes the last `.` of the last path component, and a last component of `.` or `..` has no extension.
  Platform-specific path syntax is not modelled.
- `downsampleCloud`, `findConvexHull`, `mlsAddNormals`, `meshGP3` and `meshOFM` are not modelled. Each one
  only sets parameters and delegates to a PCL algorithm (voxel grid, convex hull, moving least squares, greedy
  projection triangulation, organized fast mesh). Those algorithms are not part of this model, and they do
  floating-point arithmetic. `mlsAddNormals` ignores its `searchRadius` argument and always uses 0.04
  (src/cloudproc/cloudproc.cpp:99).
- The code disabled with `#if 0` (marching cubes, `createMesh`, `saveTrimeshCustomFmt`) is not modelled.
- The template instantiation lists are replaced by one `Point` datatype with the three variants. Nothing requires
  a cloud to hold a single variant. The colour and normal fields are carried but never read.
- Other fields of a PCL cloud are not modelled: header, `is_dense`, sensor origin and orientation. `maskFilter`
  and `toXYZ` leave them at their defaults in the new cloud.
- `reserve` calls only change capacity and are not modelled.
- `mask.sum()` in `maskFilter` only sizes that reservation and is not modelled.
- Both `Point` coordinates and box corners are single-precision in the source. The model keeps their ordering
  and NaN but not their rounding. No value is ever rounded, because nothing is computed from coordinates.
- Shared ownership through `Ptr`/`ConstPtr` is modelled as object references: a method's result is a new
  (`fresh`) cloud, and a cloud it only reads lies outside its `modifies` frame.
- `BoxMask` and `MaskFilter` use unbounded indices. The source's `boxMask` (src/cloudproc/cloudproc.cpp:209, 213)
  and `maskFilter` (src/cloudproc/cloudproc.cpp:226) count with a signed 32-bit `int i`. With 2^31 or more points
  or mask entries, `++i` overflows. That is undefined behaviour, in practice an out-of-bounds write or read. The
  model does not capture clouds or masks that large.
- The error path is modelled only as an error value. `saveCloud` throws with "<name> has unrecognized extension"
  (src/cloudproc/cloudproc.cpp:60). `saveMesh` uses `PRINT_AND_THROW` (src/cloudproc/cloudproc.cpp:250), which also
  prints "filename <name> had unrecognized extension" before throwing. The model keeps the two refusals apart
  (`CloudExtensionUnrecognized`, `MeshExtensionUnrecognized`), each naming the file. It does not model the exact
  message text, the printing or the exception.
