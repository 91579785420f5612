/** The sphere and its ray intersection (src/geometry/sphere.rs). */
module Spheres {
  import opened Vectors
  import opened Rays

  /** `Sphere::new(center, radius)` is this constructor. */
  datatype Sphere = Sphere(c: Point, r: real)

  /** `Default for Sphere`: the unit sphere at the origin. */
  const DefaultSphere: Sphere := Sphere(Zero, 1.0)

  /** The vector from the centre to the ray origin (`c_to_orig`). */
  function CentreToOrigin(s: Sphere, ray: Ray): Vec3 {
    Sub(ray.orig, s.c)
  }

  /** `k_dot_c_to_org`: half the linear coefficient of the quadratic. */
  function HalfB(s: Sphere, ray: Ray): real {
    Dot(ray.dir, CentreToOrigin(s, ray))
  }

  /** `const_term`: |L|^2 - r^2. */
  function ConstTerm(s: Sphere, ray: Ray): real {
    NormSquared(CentreToOrigin(s, ray)) - s.r * s.r
  }

  /** `delta`: the quarter discriminant b^2 - k. */
  function Delta(s: Sphere, ray: Ray): real {
    HalfB(s, ray) * HalfB(s, ray) - ConstTerm(s, ray)
  }

  /** The point at parameter t lies on the sphere's surface. */
  predicate OnSurface(s: Sphere, ray: Ray, t: real) {
    NormSquared(Sub(Trace(ray, t), s.c)) == s.r * s.r
  }

  /** `Shape::intersect` for a sphere: the parameters at which the ray meets
      the surface, ascending, negative ones included. The square root is taken
      only when delta is non-negative, and the second root is pushed only when
      delta is strictly positive, so a tangent ray gives one parameter. */
  function Intersect(s: Sphere, ray: Ray, sqrt: real --> real): (ts: seq<real>)
    requires IsSqrt(sqrt)
    ensures |ts| <= 2
    ensures forall i, j :: 0 <= i < j < |ts| ==> ts[i] < ts[j]
    ensures forall t :: t in ts <==> OnSurface(s, ray, t)
  {
    var b := HalfB(s, ray);
    var delta := Delta(s, ray);
    if delta >= 0.0 then
      var q := sqrt(delta);
      SurfaceRoots(s, ray, q);
      if delta > 0.0 then
        [-b - q, -b + q]
      else
        assert q == 0.0 by { ProductZero(q, q); }
        [-b - q]
    else
      NoSurfacePoint(s, ray);
      []
  }

  /** With q the non-negative square root of delta, the points of the ray on
      the surface are those at -b - q and -b + q. */
  lemma SurfaceRoots(s: Sphere, ray: Ray, q: real)
    requires q >= 0.0 && Mul(q, q) == Delta(s, ray)
    ensures forall t :: OnSurface(s, ray, t) <==> t == -HalfB(s, ray) - q || t == -HalfB(s, ray) + q
  {
    forall t ensures OnSurface(s, ray, t) <==> t == -HalfB(s, ray) - q || t == -HalfB(s, ray) + q {
      SurfaceRootAt(s, ray, q, t);
    }
  }

  /** SurfaceRoots at one parameter: (t + b)^2 = q^2 exactly when t + b is
      q or -q. */
  lemma SurfaceRootAt(s: Sphere, ray: Ray, q: real, t: real)
    requires Mul(q, q) == Delta(s, ray)
    ensures OnSurface(s, ray, t) <==> t == -HalfB(s, ray) - q || t == -HalfB(s, ray) + q
  {
    var x := t + HalfB(s, ray);
    SurfaceExpansion(s, ray, t);
    assert Mul(x, x) - Mul(q, q) == Mul(x - q, x + q);
    if OnSurface(s, ray, t) {
      ProductZero(x - q, x + q);
    }
  }

  /** With delta negative no point of the ray is on the surface. */
  lemma NoSurfacePoint(s: Sphere, ray: Ray)
    requires Delta(s, ray) < 0.0
    ensures forall t :: !OnSurface(s, ray, t)
  {
    forall t ensures !OnSurface(s, ray, t) {
      SurfaceExpansion(s, ray, t);
      SquareNonNegative(t + HalfB(s, ray));
    }
  }

  /** The surface equation |L + t d|^2 = r^2 rearranged, for a unit d, into
      (t + b)^2 = delta. */
  lemma SurfaceExpansion(s: Sphere, ray: Ray, t: real)
    ensures NormSquared(Sub(Trace(ray, t), s.c)) - s.r * s.r
         == Mul(t + HalfB(s, ray), t + HalfB(s, ray)) - Delta(s, ray)
  {
    var l := CentreToOrigin(s, ray);
    var d: Vec3 := ray.dir;
    var b := HalfB(s, ray);
    assert Sub(Trace(ray, t), s.c) == Add(l, Scale(d, t));
    assert NormSquared(d) == 1.0;
    calc {
      NormSquared(Add(l, Scale(d, t)));
      NormSquared(l) + 2.0 * t * Dot(d, l) + t * t * NormSquared(d);
      NormSquared(l) + 2.0 * t * b + t * t;
    }
    calc {
      Mul(t + b, t + b) - Delta(s, ray);
      t * t + 2.0 * t * b + b * b - (b * b - ConstTerm(s, ray));
      t * t + 2.0 * t * b + NormSquared(l) - s.r * s.r;
    }
  }

  lemma ProductZero(x: real, y: real)
    requires Mul(x, y) == 0.0
    ensures x == 0.0 || y == 0.0
  {}

  /** The three discriminant cases: no parameter for a negative delta, the
      single parameter -b for a zero delta (a tangent ray), and -b - sqrt(delta)
      below -b + sqrt(delta) for a positive delta. */
  lemma IntersectCases(s: Sphere, ray: Ray, sqrt: real --> real)
    requires IsSqrt(sqrt)
    ensures Delta(s, ray) < 0.0 ==> Intersect(s, ray, sqrt) == []
    ensures Delta(s, ray) == 0.0 ==> Intersect(s, ray, sqrt) == [-HalfB(s, ray)]
    ensures Delta(s, ray) > 0.0 ==>
              Intersect(s, ray, sqrt) == [-HalfB(s, ray) - sqrt(Delta(s, ray)), -HalfB(s, ray) + sqrt(Delta(s, ray))]
              && -HalfB(s, ray) - sqrt(Delta(s, ray)) < -HalfB(s, ray) + sqrt(Delta(s, ray))
  {
    if Delta(s, ray) == 0.0 {
      var q := sqrt(0.0);
      ProductZero(q, q);
    }
  }

  /** `Default for Sphere` is the unit sphere centred at the origin. */
  lemma DefaultSphereIsUnit()
    ensures DefaultSphere.c == Zero && DefaultSphere.r == 1.0
    ensures forall p: Vec3 :: NormSquared(Sub(p, DefaultSphere.c)) == NormSquared(p)
  {}

  lemma SqrtOfOne(sqrt: real --> real)
    requires IsSqrt(sqrt)
    ensures sqrt(1.0) == 1.0
  {
    var q := sqrt(1.0);
    assert Mul(q - 1.0, q + 1.0) == Mul(q, q) - 1.0;
    ProductZero(q - 1.0, q + 1.0);
  }

  /** Worked cases on the unit sphere with rays along +z. From the centre
      the ray meets the surface behind and ahead: negative parameters are
      kept. */
  lemma UnitSphereFromCentre(ray: Ray, sqrt: real --> real)
    requires IsSqrt(sqrt)
    requires ray == Ray(Zero, Vec3(0.0, 0.0, 1.0))
    ensures Intersect(DefaultSphere, ray, sqrt) == [-1.0, 1.0]
  {
    CentreDelta();
    UnitDeltaRoots(DefaultSphere, ray, sqrt);
  }

  /** A ray whose half-b is 0 and whose delta is 1 meets the sphere at -1
      and 1. */
  lemma UnitDeltaRoots(s: Sphere, ray: Ray, sqrt: real --> real)
    requires IsSqrt(sqrt)
    requires HalfB(s, ray) == 0.0 && Delta(s, ray) == 1.0
    ensures Intersect(s, ray, sqrt) == [-1.0, 1.0]
  {
    SqrtOfOne(sqrt);
    IntersectCases(s, ray, sqrt);
  }

  lemma CentreDelta()
    ensures HalfB(DefaultSphere, Ray(Zero, Vec3(0.0, 0.0, 1.0))) == 0.0
    ensures Delta(DefaultSphere, Ray(Zero, Vec3(0.0, 0.0, 1.0))) == 1.0
  {
    var ray := Ray(Zero, Vec3(0.0, 0.0, 1.0));
    assert CentreToOrigin(DefaultSphere, ray) == Vec3(0.0, 0.0, 0.0);
    assert HalfB(DefaultSphere, ray) == 0.0;
    assert ConstTerm(DefaultSphere, ray) == -1.0;
  }

  /** A ray grazing the top of the unit sphere touches it once. */
  lemma UnitSphereTangent(ray: Ray, sqrt: real --> real)
    requires IsSqrt(sqrt)
    requires ray == Ray(Vec3(0.0, 1.0, -5.0), Vec3(0.0, 0.0, 1.0))
    ensures Intersect(DefaultSphere, ray, sqrt) == [5.0]
  {
    TangentDelta();
    IntersectCases(DefaultSphere, ray, sqrt);
  }

  lemma TangentDelta()
    ensures HalfB(DefaultSphere, Ray(Vec3(0.0, 1.0, -5.0), Vec3(0.0, 0.0, 1.0))) == -5.0
    ensures Delta(DefaultSphere, Ray(Vec3(0.0, 1.0, -5.0), Vec3(0.0, 0.0, 1.0))) == 0.0
  {
    var ray := Ray(Vec3(0.0, 1.0, -5.0), Vec3(0.0, 0.0, 1.0));
    assert CentreToOrigin(DefaultSphere, ray) == Vec3(0.0, 1.0, -5.0);
    assert ConstTerm(DefaultSphere, ray) == 25.0;
  }

  /** A ray passing above the unit sphere misses it. */
  lemma UnitSphereMiss(ray: Ray, sqrt: real --> real)
    requires IsSqrt(sqrt)
    requires ray == Ray(Vec3(0.0, 2.0, -5.0), Vec3(0.0, 0.0, 1.0))
    ensures Intersect(DefaultSphere, ray, sqrt) == []
  {
    MissDelta();
    IntersectCases(DefaultSphere, ray, sqrt);
  }

  lemma MissDelta()
    ensures Delta(DefaultSphere, Ray(Vec3(0.0, 2.0, -5.0), Vec3(0.0, 0.0, 1.0))) == -3.0
  {
    var ray := Ray(Vec3(0.0, 2.0, -5.0), Vec3(0.0, 0.0, 1.0));
    assert CentreToOrigin(DefaultSphere, ray) == Vec3(0.0, 2.0, -5.0);
    assert HalfB(DefaultSphere, ray) == -5.0;
    assert ConstTerm(DefaultSphere, ray) == 28.0;
  }
}
