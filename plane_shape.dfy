/** The one-sided plane test (src/plane_shape.rs). */
module PlaneShapes {
  import opened Vectors
  import opened Rays

  /** `PlaneShape(origin, dir)`: a point on the plane and its normal (the
      source calls the normal `dir`); the accessors are the destructors. */
  datatype PlaneShape = PlaneShape(origin: Vector, dir: Vector)

  /** The `1e-6` threshold on the denominator. */
  const Epsilon: real := 0.000001

  /** `PlaneShape::intersects_ray`. Only rays whose direction has a component
      of at least `Epsilon` along the normal are considered; for them the ray
      parameter solves the plane equation and the ray hits iff that parameter
      is not behind the origin. Every other ray misses with `t = 0`. */
  function Intersect(p: PlaneShape, ray: Ray): (r: Intersection)
    ensures Dot(p.dir, ray.dir) < Epsilon ==> r == Intersection(false, 0.0)
    ensures Dot(p.dir, ray.dir) >= Epsilon ==>
      && r.t * Dot(p.dir, ray.dir) == Dot(Sub(p.origin, ray.origin), p.dir)
      && (r.hit <==> r.t >= 0.0)
    ensures r.hit ==> r.t >= 0.0
  {
    var denom := Dot(p.dir, ray.dir);
    if denom >= Epsilon then
      var centered := Sub(p.origin, ray.origin);
      var t := Dot(centered, p.dir) / denom;
      Intersection(t >= 0.0, t)
    else
      Intersection(false, 0.0)
  }

  /** The same plane facing the other way. */
  function Flipped(p: PlaneShape): PlaneShape {
    PlaneShape(p.origin, Neg(p.dir))
  }

  /** Signed offset of point `q` from the plane, measured along the normal. */
  function Offset(p: PlaneShape, q: Vector): real {
    Dot(Sub(q, p.origin), p.dir)
  }

  /** The offset of the point at parameter `s` is linear in `s`. */
  lemma OffsetAlongRay(p: PlaneShape, ray: Ray, s: real)
    ensures Offset(p, At(ray, s)) == s * Dot(p.dir, ray.dir) - Dot(Sub(p.origin, ray.origin), p.dir)
  {
    var n, o, d := p.dir, ray.origin, ray.dir;
    assert Sub(At(ray, s), p.origin) == Add(Sub(o, p.origin), Scale(d, s));
    DotAdd(Sub(o, p.origin), Scale(d, s), n);
    DotScaleLeft(d, s, n);
    DotSymmetric(d, n);
    assert Dot(Sub(o, p.origin), n) == -Dot(Sub(p.origin, o), n);
  }

  /** A reported hit lies on the plane. */
  lemma {:induction false} HitLiesOnPlane(p: PlaneShape, ray: Ray)
    requires Intersect(p, ray).hit
    ensures Offset(p, At(ray, Intersect(p, ray).t)) == 0.0
  {
    OffsetAlongRay(p, ray, Intersect(p, ray).t);
  }

  /** Conversely, when the test is not ruled out by the threshold, a point of
      the plane at a non-negative parameter is exactly the reported hit. */
  lemma {:induction false} PlanePointAheadIsHit(p: PlaneShape, ray: Ray, s: real)
    requires Dot(p.dir, ray.dir) >= Epsilon
    requires s >= 0.0 && Offset(p, At(ray, s)) == 0.0
    ensures Intersect(p, ray) == Intersection(true, s)
  {
    var denom := Dot(p.dir, ray.dir);
    OffsetAlongRay(p, ray, s);
    var r := Intersect(p, ray);
    assert r.t * denom == s * denom;
  }

  /** A ray starting on the plane and facing the accepted way hits at `t = 0`. */
  lemma {:induction false} OriginOnPlaneHitsAtZero(p: PlaneShape, ray: Ray)
    requires Dot(p.dir, ray.dir) >= Epsilon
    requires Offset(p, ray.origin) == 0.0
    ensures Intersect(p, ray) == Intersection(true, 0.0)
  {
    assert At(ray, 0.0) == ray.origin;
    PlanePointAheadIsHit(p, ray, 0.0);
  }

  /** One-sidedness: a plane and its flipped copy never both report a hit. */
  lemma {:induction false} NeverBothSides(p: PlaneShape, ray: Ray)
    ensures !(Intersect(p, ray).hit && Intersect(Flipped(p), ray).hit)
  {
    DotNeg(ray.dir, p.dir);
    DotSymmetric(ray.dir, p.dir);
    DotSymmetric(ray.dir, Neg(p.dir));
  }
}
