/** The linear-algebra collaborator the ray tracer consumes: three-component
    points and vectors over the reals, the dot product, and normalisation.
    Points and vectors share one representation, as nalgebra's Point3 and
    Vector3 do for the operations used here. f32 rounding is not modelled.

    Dafny's reals have no square root of their own, so the square root the
    source takes from f32 is an argument `sqrt` of the operations that need
    it, constrained by `IsSqrt`. */
module Vectors {

  datatype Vec3 = Vec3(x: real, y: real, z: real)

  type Point = Vec3

  const Zero: Vec3 := Vec3(0.0, 0.0, 0.0)

  function Add(a: Vec3, b: Vec3): Vec3 {
    Vec3(a.x + b.x, a.y + b.y, a.z + b.z)
  }

  function Sub(a: Vec3, b: Vec3): Vec3 {
    Vec3(a.x - b.x, a.y - b.y, a.z - b.z)
  }

  function Scale(a: Vec3, k: real): Vec3 {
    Vec3(a.x * k, a.y * k, a.z * k)
  }

  function Dot(a: Vec3, b: Vec3): real {
    a.x * b.x + a.y * b.y + a.z * b.z
  }

  /** `magnitude_squared` */
  function NormSquared(a: Vec3): real {
    Dot(a, a)
  }

  /** Unit<Vector>: a vector of length one. */
  type UnitVector = v: Vec3 | NormSquared(v) == 1.0 witness Vec3(1.0, 0.0, 0.0)

  /** `sqrt` is defined on the non-negative reals, and only there is it
      guaranteed to be called: there it returns the non-negative square root.
      Being a partial function, it cannot be applied where its argument is
      not known to be non-negative (where `f32::sqrt` would give NaN). */
  ghost predicate IsSqrt(sqrt: real --> real) {
    forall x: real :: x >= 0.0 ==> sqrt.requires(x) && sqrt(x) >= 0.0 && sqrt(x) * sqrt(x) == x
  }

  ghost predicate IsPositiveMultiple(u: Vec3, v: Vec3) {
    exists k: real :: k > 0.0 && u == Scale(v, k)
  }

  // Real multiplication kept behind a function where the solver needs to
  // see a product as one term.
  function Mul(a: real, b: real): real {
    a * b
  }

  lemma MulPositive(a: real, b: real)
    requires a > 0.0 && b > 0.0
    ensures Mul(a, b) > 0.0
  {}

  lemma SquarePositive(x: real)
    requires x != 0.0
    ensures Mul(x, x) > 0.0
  {
    if x > 0.0 {
      MulPositive(x, x);
    } else {
      MulPositive(-x, -x);
      assert Mul(-x, -x) == Mul(x, x);
    }
  }

  lemma SquareNonNegative(x: real)
    ensures Mul(x, x) >= 0.0
  {}

  lemma NormSquaredPositive(v: Vec3)
    requires v != Zero
    ensures NormSquared(v) > 0.0
  {
    assert NormSquared(v) == Mul(v.x, v.x) + Mul(v.y, v.y) + Mul(v.z, v.z);
    SquareNonNegative(v.x);
    SquareNonNegative(v.y);
    SquareNonNegative(v.z);
    if v.x != 0.0 {
      SquarePositive(v.x);
    } else if v.y != 0.0 {
      SquarePositive(v.y);
    } else {
      assert v == Vec3(0.0, 0.0, v.z);
      SquarePositive(v.z);
    }
  }

  lemma NormSquaredScale(v: Vec3, k: real)
    ensures NormSquared(Scale(v, k)) == k * k * NormSquared(v)
  {
    calc {
      NormSquared(Scale(v, k));
      (v.x * k) * (v.x * k) + (v.y * k) * (v.y * k) + (v.z * k) * (v.z * k);
      k * k * (v.x * v.x) + k * k * (v.y * v.y) + k * k * (v.z * v.z);
      k * k * NormSquared(v);
    }
  }

  /** `Unit::new_normalize`: `v` divided by its length. nalgebra gives NaN
      components for the zero vector; the model excludes it by precondition. */
  function Normalize(v: Vec3, sqrt: real --> real): (u: UnitVector)
    requires IsSqrt(sqrt)
    requires v != Zero
    ensures IsPositiveMultiple(u, v)
  {
    NormSquaredPositive(v);
    var n := NormSquared(v);
    var len := sqrt(n);
    assert len * len == n;
    assert len > 0.0;
    var k := 1.0 / len;
    assert k > 0.0;
    NormSquaredScale(v, k);
    assert k * k * n == 1.0 by {
      assert k * len == 1.0;
      calc {
        k * k * n;
        k * k * (len * len);
        (k * len) * (k * len);
        1.0;
      }
    }
    Scale(v, k)
  }
}
