/**
 The point-selection and bookkeeping primitives of the cloud processing library:
 cloud size, collapsing a cloud to an unorganized one, box masking, mask
 filtering and projection to position-only points.

 A cloud is an object with an ordered sequence of points and two 32-bit
 unsigned dimensions; `width * height` equals the point count when the cloud is
 consistent, and `height == 1` marks an unorganized cloud.
 */
module CloudProc {
  import opened Geometry

  const UINT32_MODULUS: int := 0x1_0000_0000
  const INT32_LIMIT: int := 0x8000_0000

  newtype uint32 = x: int | 0 <= x < 0x1_0000_0000

  class Cloud {
    var points: seq<Point>
    var width: uint32
    var height: uint32

    /** A new cloud is empty with both dimensions 0. */
    constructor ()
      ensures points == [] && width == 0 && height == 0
    {
      points := [];
      width := 0;
      height := 0;
    }
  }

  /** The dimensions agree with the number of stored points. */
  ghost predicate Consistent(c: Cloud)
    reads c
  {
    c.width as int * c.height as int == |c.points|
  }

  // ---------------------------------------------------------------------------
  // Size bookkeeping
  // ---------------------------------------------------------------------------

  /** `width * height` is computed in unsigned 32-bit arithmetic and returned as a signed 32-bit int. */
  function CloudSize(c: Cloud): (n: int)
    reads c
    ensures -INT32_LIMIT <= n < INT32_LIMIT
    ensures (c.width as int * c.height as int - n) % UINT32_MODULUS == 0
    ensures c.width as int * c.height as int < INT32_LIMIT ==> n == c.width as int * c.height as int
  {
    var product := (c.width as int * c.height as int) % UINT32_MODULUS;
    if product < INT32_LIMIT then product else product - UINT32_MODULUS
  }

  /** Makes `c` unorganized: one row holding all of its points (the size is truncated to 32 bits). */
  method SetWidthToSize(c: Cloud)
    modifies c
    ensures c.points == old(c.points)
    ensures c.height == 1 && c.width as int == |c.points| % UINT32_MODULUS
    ensures |c.points| < UINT32_MODULUS ==> Consistent(c)
    ensures |c.points| < INT32_LIMIT ==> CloudSize(c) == |c.points|
  {
    c.width := (|c.points| % UINT32_MODULUS) as uint32;
    c.height := 1;
  }

  // ---------------------------------------------------------------------------
  // Box masking
  // ---------------------------------------------------------------------------

  /** The mask that marks which of `points` lie in the box [mins, maxes]. */
  function BoxMaskOf(points: seq<Point>, mins: Vec3, maxes: Vec3): seq<bool>
  {
    seq(|points|, i requires 0 <= i < |points| => InBox(points[i], mins, maxes))
  }

  /** One entry per point, filled through a preallocated buffer with a running index. */
  method BoxMask(input: Cloud, mins: Vec3, maxes: Vec3) returns (mask: seq<bool>)
    ensures |mask| == |input.points|
    ensures forall i :: 0 <= i < |mask| ==> (mask[i] <==> InBox(input.points[i], mins, maxes))
    ensures mask == BoxMaskOf(input.points, mins, maxes)
  {
    var out := new bool[|input.points|];
    var i := 0;
    while i < |input.points|
      invariant 0 <= i <= |input.points| == out.Length
      invariant forall j :: 0 <= j < i ==> out[j] == InBox(input.points[j], mins, maxes)
    {
      var pt := input.points[i];
      out[i] := Le(mins.x, pt.x) && Le(pt.x, maxes.x) && Le(mins.y, pt.y) && Le(pt.y, maxes.y)
                && Le(mins.z, pt.z) && Le(pt.z, maxes.z);
      i := i + 1;
    }
    mask := out[..];
  }

  // ---------------------------------------------------------------------------
  // Mask filtering
  // ---------------------------------------------------------------------------

  /** Every position the mask selects names a stored point (the filter indexes points unchecked). */
  predicate MaskFits(points: seq<Point>, mask: seq<bool>)
  {
    forall i :: 0 <= i < |mask| && mask[i] ==> i < |points|
  }

  /** The number of true entries. */
  function CountTrue(mask: seq<bool>): nat
  {
    if mask == [] then 0
    else CountTrue(mask[..|mask| - 1]) + (if mask[|mask| - 1] then 1 else 0)
  }

  /** The positions of the true entries, in increasing order. */
  function TrueIndices(mask: seq<bool>): seq<nat>
  {
    if mask == [] then []
    else TrueIndices(mask[..|mask| - 1]) + (if mask[|mask| - 1] then [|mask| - 1] else [])
  }

  /** The points at the true positions of the mask, in their original order. */
  function Select(points: seq<Point>, mask: seq<bool>): seq<Point>
    requires MaskFits(points, mask)
  {
    if mask == [] then []
    else
      assert MaskFits(points, mask[..|mask| - 1]);
      Select(points, mask[..|mask| - 1]) + (if mask[|mask| - 1] then [points[|mask| - 1]] else [])
  }

  /** Copies the selected points of `input` into a new unorganized cloud. */
  method MaskFilter(input: Cloud, mask: seq<bool>) returns (out: Cloud)
    requires MaskFits(input.points, mask)
    ensures fresh(out)
    ensures out.points == Select(input.points, mask)
    ensures |out.points| == CountTrue(mask)
    ensures out.height == 1 && out.width as int == |out.points| % UINT32_MODULUS
    ensures |out.points| < INT32_LIMIT ==> CloudSize(out) == |out.points|
  {
    out := new Cloud();
    var i := 0;
    while i < |mask|
      invariant 0 <= i <= |mask|
      invariant MaskFits(input.points, mask[..i])
      invariant out.points == Select(input.points, mask[..i])
    {
      assert mask[..i + 1][..i] == mask[..i];
      if mask[i] {
        out.points := out.points + [input.points[i]];
      }
      i := i + 1;
    }
    assert mask[..i] == mask;
    SelectLength(input.points, mask);
    SetWidthToSize(out);
  }

  lemma {:induction false} SelectLength(points: seq<Point>, mask: seq<bool>)
    requires MaskFits(points, mask)
    ensures |Select(points, mask)| == CountTrue(mask) == |TrueIndices(mask)|
  {
    if mask != [] {
      assert MaskFits(points, mask[..|mask| - 1]);
      SelectLength(points, mask[..|mask| - 1]);
    }
  }

  /** TrueIndices lists exactly the true positions of the mask, strictly increasing. */
  lemma {:induction false} TrueIndicesExact(mask: seq<bool>)
    ensures forall k :: 0 <= k < |TrueIndices(mask)| ==>
              TrueIndices(mask)[k] < |mask| && mask[TrueIndices(mask)[k]]
    ensures forall j, k :: 0 <= j < k < |TrueIndices(mask)| ==> TrueIndices(mask)[j] < TrueIndices(mask)[k]
    ensures forall i :: 0 <= i < |mask| && mask[i] ==> i in TrueIndices(mask)
  {
    if mask != [] {
      var init := mask[..|mask| - 1];
      TrueIndicesExact(init);
      assert forall i :: 0 <= i < |init| ==> init[i] == mask[i];
    }
  }

  /** Entry k of the filtered points is the point at the k-th true position of the mask. */
  lemma {:induction false} SelectAt(points: seq<Point>, mask: seq<bool>)
    requires MaskFits(points, mask)
    ensures |Select(points, mask)| == |TrueIndices(mask)|
    ensures forall k :: 0 <= k < |TrueIndices(mask)| ==>
              TrueIndices(mask)[k] < |points| && Select(points, mask)[k] == points[TrueIndices(mask)[k]]
  {
    SelectLength(points, mask);
    if mask != [] {
      assert MaskFits(points, mask[..|mask| - 1]);
      SelectAt(points, mask[..|mask| - 1]);
      TrueIndicesExact(mask);
    }
  }

  /** Every filtered point is the input point at some selected position. */
  lemma SelectFrom(points: seq<Point>, mask: seq<bool>)
    requires MaskFits(points, mask)
    ensures forall q :: q in Select(points, mask) ==>
              exists i :: 0 <= i < |mask| && i < |points| && mask[i] && points[i] == q
  {
    SelectAt(points, mask);
    TrueIndicesExact(mask);
    forall q | q in Select(points, mask)
      ensures exists i :: 0 <= i < |mask| && i < |points| && mask[i] && points[i] == q
    {
      var k :| 0 <= k < |Select(points, mask)| && Select(points, mask)[k] == q;
      var i := TrueIndices(mask)[k];
      assert 0 <= i < |mask| && i < |points| && mask[i] && points[i] == q;
    }
  }

  /** A mask with every entry true keeps the whole sequence. */
  lemma {:induction false} SelectAllTrue(points: seq<Point>, mask: seq<bool>)
    requires |mask| == |points|
    requires forall i :: 0 <= i < |mask| ==> mask[i]
    ensures MaskFits(points, mask) && Select(points, mask) == points
  {
    if mask != [] {
      var n := |mask| - 1;
      SelectAllTrue(points[..n], mask[..n]);
      SelectPrefix(points, mask[..n]);
      assert points[..n] + [points[n]] == points;
    }
  }

  /** Filtering only looks at the points the mask can reach. */
  lemma {:induction false} SelectPrefix(points: seq<Point>, mask: seq<bool>)
    requires |mask| <= |points|
    ensures MaskFits(points, mask) && MaskFits(points[..|mask|], mask)
    ensures Select(points, mask) == Select(points[..|mask|], mask)
    decreases |mask|
  {
    if mask != [] {
      var n := |mask| - 1;
      SelectPrefix(points, mask[..n]);
      SelectPrefix(points[..|mask|], mask[..n]);
      assert points[..|mask|][..n] == points[..n];
    }
  }

  // ---------------------------------------------------------------------------
  // Box filtering
  // ---------------------------------------------------------------------------

  /** Every point kept by a box filter lies in the box. */
  lemma BoxFilterInBox(points: seq<Point>, mins: Vec3, maxes: Vec3)
    ensures MaskFits(points, BoxMaskOf(points, mins, maxes))
    ensures forall q :: q in Select(points, BoxMaskOf(points, mins, maxes)) ==> InBox(q, mins, maxes)
  {
    SelectFrom(points, BoxMaskOf(points, mins, maxes));
  }

  /** Box filtering is idempotent: on the cropped points the box mask is all true and filtering again keeps them all. */
  lemma BoxFilterIdempotent(points: seq<Point>, mins: Vec3, maxes: Vec3)
    ensures MaskFits(points, BoxMaskOf(points, mins, maxes))
    ensures var cropped := Select(points, BoxMaskOf(points, mins, maxes));
            && (forall i :: 0 <= i < |cropped| ==> BoxMaskOf(cropped, mins, maxes)[i])
            && MaskFits(cropped, BoxMaskOf(cropped, mins, maxes))
            && Select(cropped, BoxMaskOf(cropped, mins, maxes)) == cropped
  {
    BoxFilterInBox(points, mins, maxes);
    var cropped := Select(points, BoxMaskOf(points, mins, maxes));
    assert forall i :: 0 <= i < |cropped| ==> cropped[i] in cropped;
    SelectAllTrue(cropped, BoxMaskOf(cropped, mins, maxes));
  }

  /** A box filter keeps exactly the in-box points, as many as there are, in their input order. */
  lemma BoxFilterExact(points: seq<Point>, mins: Vec3, maxes: Vec3)
    ensures MaskFits(points, BoxMaskOf(points, mins, maxes))
    ensures var m := BoxMaskOf(points, mins, maxes);
            && |Select(points, m)| == CountTrue(m) == |TrueIndices(m)|
            && (forall k :: 0 <= k < |TrueIndices(m)| ==>
                  TrueIndices(m)[k] < |points| && Select(points, m)[k] == points[TrueIndices(m)[k]])
            && (forall i :: 0 <= i < |points| ==> (i in TrueIndices(m) <==> InBox(points[i], mins, maxes)))
  {
    var m := BoxMaskOf(points, mins, maxes);
    SelectLength(points, m);
    SelectAt(points, m);
    TrueIndicesExact(m);
  }

  // ---------------------------------------------------------------------------
  // Projection to position-only points
  // ---------------------------------------------------------------------------

  /** The points with colour and normal dropped. */
  function Projected(points: seq<Point>): seq<Point>
  {
    seq(|points|, i requires 0 <= i < |points| => XYZOf(points[i]))
  }

  /** Builds a position-only copy of `input` with the same dimensions. */
  method ToXYZ(input: Cloud) returns (out: Cloud)
    ensures fresh(out)
    ensures out.width == input.width && out.height == input.height
    ensures |out.points| == |input.points|
    ensures forall i :: 0 <= i < |input.points| ==>
              out.points[i] == PointXYZ(input.points[i].x, input.points[i].y, input.points[i].z)
    ensures out.points == Projected(input.points)
    ensures Consistent(input) ==> Consistent(out)
  {
    out := new Cloud();
    out.width := input.width;
    out.height := input.height;
    var i := 0;
    while i < |input.points|
      invariant 0 <= i <= |input.points|
      invariant out.width == input.width && out.height == input.height
      invariant out.points == Projected(input.points[..i])
    {
      var pt := input.points[i];
      out.points := out.points + [PointXYZ(pt.x, pt.y, pt.z)];
      i := i + 1;
    }
    assert input.points[..i] == input.points;
  }

  /** Projection keeps the box mask: cropping before or after projecting selects the same positions. */
  lemma ProjectedBoxMask(points: seq<Point>, mins: Vec3, maxes: Vec3)
    ensures BoxMaskOf(Projected(points), mins, maxes) == BoxMaskOf(points, mins, maxes)
  {
    forall i | 0 <= i < |points|
      ensures InBox(Projected(points)[i], mins, maxes) == InBox(points[i], mins, maxes)
    {
      InBoxOfXYZ(points[i], mins, maxes);
    }
  }

  /** Filtering commutes with projection. */
  lemma {:induction false} SelectProjected(points: seq<Point>, mask: seq<bool>)
    requires MaskFits(points, mask)
    ensures MaskFits(Projected(points), mask)
    ensures Select(Projected(points), mask) == Projected(Select(points, mask))
  {
    if mask != [] {
      var n := |mask| - 1;
      assert MaskFits(points, mask[..n]);
      SelectProjected(points, mask[..n]);
      ProjectedAppend(Select(points, mask[..n]), if mask[n] then [points[n]] else []);
    }
  }

  lemma ProjectedAppend(a: seq<Point>, b: seq<Point>)
    ensures Projected(a + b) == Projected(a) + Projected(b)
  {
  }

  /** Projecting twice is projecting once. */
  lemma ProjectedIdempotent(points: seq<Point>)
    ensures Projected(Projected(points)) == Projected(points)
  {
  }
}
