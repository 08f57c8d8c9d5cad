/**
 Points of a cloud and the axis-aligned box test used to crop them.

 Coordinates are single-precision floats in the source. The processing code
 never does arithmetic on them, it only compares them with `<=` and `>=`, so a
 float is modelled by the values that matter to an IEEE comparison: a finite
 number (a real), the two infinities, and NaN, which compares false with
 everything (organized clouds mark missing pixels with NaN coordinates).
 */
module Geometry {

  datatype Float = NegInf | Finite(v: real) | PosInf | NaN

  /** The IEEE comparison `a <= b`: false as soon as either side is NaN. */
  predicate Le(a: Float, b: Float)
  {
    match (a, b)
    case (NaN, _) => false
    case (_, NaN) => false
    case (NegInf, _) => true
    case (_, PosInf) => true
    case (Finite(x), Finite(y)) => x <= y
    case _ => false
  }

  /** The three point variants the processing functions are instantiated for. */
  datatype Point =
    | PointXYZ(x: Float, y: Float, z: Float)
    | PointXYZRGB(x: Float, y: Float, z: Float, r: bv8, g: bv8, b: bv8)
    | PointNormal(x: Float, y: Float, z: Float,
                  normalX: Float, normalY: Float, normalZ: Float, curvature: Float)

  /** A corner of a box, the source's three-component float vector. */
  datatype Vec3 = Vec3(x: Float, y: Float, z: Float)

  /** Point `p` lies in the closed box [mins, maxes] on every axis. */
  predicate InBox(p: Point, mins: Vec3, maxes: Vec3)
  {
    Le(mins.x, p.x) && Le(p.x, maxes.x) &&
    Le(mins.y, p.y) && Le(p.y, maxes.y) &&
    Le(mins.z, p.z) && Le(p.z, maxes.z)
  }

  /** The position-only point with the coordinates of `p`; it leaves exactly the position-only points unchanged. */
  function XYZOf(p: Point): (q: Point)
    ensures q.PointXYZ? && q.x == p.x && q.y == p.y && q.z == p.z
    ensures q == p <==> p.PointXYZ?
  {
    PointXYZ(p.x, p.y, p.z)
  }

  /** Le is the IEEE order: reflexive, transitive and total on non-NaN values, empty on NaN. */
  lemma LeIsFloatOrder(a: Float, b: Float, c: Float)
    ensures Le(a, a) <==> a != NaN
    ensures Le(a, b) ==> a != NaN && b != NaN
    ensures Le(a, b) && Le(b, c) ==> Le(a, c)
    ensures a != NaN && b != NaN ==> Le(a, b) || Le(b, a)
  {
  }

  /** A point with a NaN coordinate lies in no box, whatever its corners. */
  lemma NaNNeverInBox(p: Point, mins: Vec3, maxes: Vec3)
    requires p.x == NaN || p.y == NaN || p.z == NaN
    ensures !InBox(p, mins, maxes)
  {
  }

  /** The box test looks at the coordinates only: dropping colour or normal does not change it. */
  lemma InBoxOfXYZ(p: Point, mins: Vec3, maxes: Vec3)
    ensures InBox(XYZOf(p), mins, maxes) == InBox(p, mins, maxes)
  {
  }
}
