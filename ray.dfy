/** A ray: an origin and a unit direction (src/geometry/ray.rs). */
module Rays {
  import opened Vectors

  datatype Ray = Ray(orig: Point, dir: UnitVector)

  /** `Ray::new`: keeps the origin and normalises the direction. */
  function New(origin: Point, direction: Vec3, sqrt: real --> real): (r: Ray)
    requires IsSqrt(sqrt)
    requires direction != Zero
    ensures r.orig == origin
    ensures IsPositiveMultiple(r.dir, direction)
  {
    Ray(origin, Normalize(direction, sqrt))
  }

  /** `Ray::from_points`: a ray from `origin` towards `to`. */
  function FromPoints(origin: Point, to: Point, sqrt: real --> real): (r: Ray)
    requires IsSqrt(sqrt)
    requires to != origin
    ensures r.orig == origin
    ensures IsPositiveMultiple(r.dir, Sub(to, origin))
  {
    Ray(origin, Normalize(Sub(to, origin), sqrt))
  }

  /** `trace`: the point at parameter t along the ray. */
  function Trace(ray: Ray, t: real): Point {
    Add(ray.orig, Scale(ray.dir, t))
  }

  lemma TraceAtZero(ray: Ray)
    ensures Trace(ray, 0.0) == ray.orig
  {}

  /** `trace` is affine in t. */
  lemma TraceAffine(ray: Ray, s: real, t: real)
    ensures Trace(ray, s + t) == Add(Trace(ray, s), Scale(ray.dir, t))
  {}

  /** With a unit direction the parameter is the distance from the origin. */
  lemma TraceDistance(ray: Ray, t: real)
    ensures NormSquared(Sub(Trace(ray, t), ray.orig)) == t * t
  {
    var d := ray.dir;
    assert Sub(Trace(ray, t), ray.orig) == Scale(d, t);
    NormSquaredScale(d, t);
    assert NormSquared(d) == 1.0;
  }
}
