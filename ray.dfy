/** A ray with its precomputed reciprocal direction and per-axis sign bits
    (src/ray.rs), and the `(hit, t)` answer every shape test returns. */
module Rays {
  import opened Vectors

  /** The fields of the source's `Ray`. Being a datatype value, a ray cannot
      be changed after construction; the accessors `origin()`, `dir()`,
      `inv_dir()` and `x_sign()`..`z_sign()` are its destructors. */
  datatype Ray = Ray(origin: Vector, dir: Vector, invDir: Vector,
                     xSign: bool, ySign: bool, zSign: bool)

  /** The answer of `Shape::intersects_ray`: whether the ray hits, and the
      ray parameter reported with it. */
  datatype Intersection = Intersection(hit: bool, t: real)

  /** Every direction component is nonzero, so `1.0 / dir` has no infinities. */
  predicate NonzeroDir(d: Vector) {
    d.x != 0.0 && d.y != 0.0 && d.z != 0.0
  }

  /** What `Ray::new` establishes about the fields it stores. */
  predicate Valid(r: Ray) {
    && NonzeroDir(r.dir)
    && r.invDir.x * r.dir.x == 1.0
    && r.invDir.y * r.dir.y == 1.0
    && r.invDir.z * r.dir.z == 1.0
    && (r.xSign <==> r.invDir.x < 0.0)
    && (r.ySign <==> r.invDir.y < 0.0)
    && (r.zSign <==> r.invDir.z < 0.0)
  }

  /** `Ray::new`: stores origin and direction as given (no renormalisation),
      the componentwise reciprocal of the direction, and whether each
      reciprocal component is negative. */
  function NewRay(origin: Vector, dir: Vector): (r: Ray)
    requires NonzeroDir(dir)
    ensures r.origin == origin && r.dir == dir
    ensures r.invDir.x * dir.x == 1.0 && r.invDir.y * dir.y == 1.0 && r.invDir.z * dir.z == 1.0
    ensures (r.xSign <==> r.invDir.x < 0.0) && (r.ySign <==> r.invDir.y < 0.0) && (r.zSign <==> r.invDir.z < 0.0)
    ensures (r.xSign <==> dir.x < 0.0) && (r.ySign <==> dir.y < 0.0) && (r.zSign <==> dir.z < 0.0)
    ensures Valid(r)
  {
    var inv := Vector(1.0 / dir.x, 1.0 / dir.y, 1.0 / dir.z);
    Ray(origin, dir, inv, inv.x < 0.0, inv.y < 0.0, inv.z < 0.0)
  }

  /** The point `origin + dir * t` along the ray. */
  function At(r: Ray, t: real): Vector {
    Add(r.origin, Scale(r.dir, t))
  }
}
