/** The triangle test (src/triangle_shape.rs): the one-sided plane test on
    the triangle's plane, then three same-side edge tests. */
module TriangleShapes {
  import opened Vectors
  import opened Rays
  import PlaneShapes

  /** `TriangleShape(a, b, c)`: three vertices; no normal is cached. */
  datatype TriangleShape = TriangleShape(a: Vector, b: Vector, c: Vector)

  /** The unnormalised normal `cross(b - a, c - a)`. */
  function Normal(tri: TriangleShape): Vector {
    Cross(Sub(tri.b, tri.a), Sub(tri.c, tri.a))
  }

  /** `k` is the factor `normalize` applies to `n`, i.e. `1 / |n|`. For a
      degenerate triangle (`n` zero) any `k` gives the zero vector, and the
      plane test on a zero normal misses, as the source's NaN normal does. */
  predicate UnitFactor(n: Vector, k: real) {
    n == Zero || (k > 0.0 && k * k * Dot(n, n) == 1.0)
  }

  /** The plane built at every call: origin `a`, normal `normalize(normal)`. */
  function DerivedPlane(tri: TriangleShape, k: real): PlaneShapes.PlaneShape {
    PlaneShapes.PlaneShape(tri.a, Scale(Normal(tri), k))
  }

  /** The same-side value for the edge from `start` to `end` at point `p`:
      `dot(normal, cross(end - start, p - start))`. */
  function EdgeTest(normal: Vector, start: Vector, end: Vector, p: Vector): real {
    Dot(normal, Cross(Sub(end, start), Sub(p, start)))
  }

  /** All three edge tests of the source accept `p`. */
  predicate WithinEdges(tri: TriangleShape, p: Vector) {
    var n := Normal(tri);
    EdgeTest(n, tri.a, tri.b, p) >= 0.0 && EdgeTest(n, tri.b, tri.c, p) >= 0.0
      && EdgeTest(n, tri.c, tri.a, p) >= 0.0
  }

  /** `TriangleShape::intersects_ray`, with `k` the normalisation factor of
      the normal. The triangle is hit iff the derived plane is hit and the
      hit point passes all three edge tests taken with the unnormalised
      normal; a hit reports the plane's `t` unchanged, and every miss
      reports `t = 0`. */
  function Intersect(tri: TriangleShape, k: real, ray: Ray): (r: Intersection)
    requires UnitFactor(Normal(tri), k)
    ensures !r.hit ==> r.t == 0.0
    ensures var pr := PlaneShapes.Intersect(DerivedPlane(tri, k), ray);
      r.hit <==> pr.hit && WithinEdges(tri, At(ray, pr.t))
    ensures r.hit ==> r.t == PlaneShapes.Intersect(DerivedPlane(tri, k), ray).t && r.t >= 0.0
  {
    var normal := Normal(tri);
    var plane := PlaneShapes.PlaneShape(tri.a, Scale(normal, k));
    var pr := PlaneShapes.Intersect(plane, ray);
    if pr.hit then
      if pr.t < 0.0 then
        Intersection(false, 0.0)
      else
        var p := At(ray, pr.t);
        if EdgeTest(normal, tri.a, tri.b, p) < 0.0 then
          Intersection(false, 0.0)
        else if EdgeTest(normal, tri.b, tri.c, p) < 0.0 then
          Intersection(false, 0.0)
        else if EdgeTest(normal, tri.c, tri.a, p) < 0.0 then
          Intersection(false, 0.0)
        else
          Intersection(true, pr.t)
    else
      Intersection(false, 0.0)
  }

  /** The triangle with its winding reversed. */
  function Reversed(tri: TriangleShape): TriangleShape {
    TriangleShape(tri.a, tri.c, tri.b)
  }

  lemma ReversedNormal(tri: TriangleShape)
    ensures Normal(Reversed(tri)) == Neg(Normal(tri))
  {
  }

  /** A hit means the ray travels along the unnormalised normal: the derived
      plane's denominator `k * dot(n, dir)` reached the threshold. */
  lemma {:induction false} HitFacesNormal(tri: TriangleShape, k: real, ray: Ray)
    requires UnitFactor(Normal(tri), k)
    requires Intersect(tri, k, ray).hit
    ensures Normal(tri) != Zero
    ensures Dot(Normal(tri), ray.dir) > 0.0
  {
    DotScaleLeft(Normal(tri), k, ray.dir);
  }

  lemma UnitFactorNeg(n: Vector, k: real)
    requires UnitFactor(n, k)
    ensures UnitFactor(Neg(n), k)
  {
    assert Dot(Neg(n), Neg(n)) == Dot(n, n);
  }

  /** Winding matters: a triangle and its reversed copy are never both hit. */
  lemma {:induction false} WindingOneSided(tri: TriangleShape, k: real, ray: Ray)
    requires UnitFactor(Normal(tri), k)
    ensures UnitFactor(Normal(Reversed(tri)), k)
    ensures !(Intersect(tri, k, ray).hit && Intersect(Reversed(tri), k, ray).hit)
  {
    var n := Normal(tri);
    ReversedNormal(tri);
    UnitFactorNeg(n, k);
    assert Dot(Neg(n), ray.dir) == -Dot(n, ray.dir) by {
      DotSymmetric(n, ray.dir);
      DotNeg(ray.dir, n);
      DotSymmetric(Neg(n), ray.dir);
    }
    if Intersect(tri, k, ray).hit && Intersect(Reversed(tri), k, ray).hit {
      HitFacesNormal(tri, k, ray);
      HitFacesNormal(Reversed(tri), k, ray);
      assert false;
    }
  }

  /** A hit point lies on the triangle's plane. */
  lemma {:induction false} HitLiesOnTrianglePlane(tri: TriangleShape, k: real, ray: Ray)
    requires UnitFactor(Normal(tri), k)
    requires Intersect(tri, k, ray).hit
    ensures Dot(Sub(At(ray, Intersect(tri, k, ray).t), tri.a), Normal(tri)) == 0.0
  {
    var plane := DerivedPlane(tri, k);
    var q := Sub(At(ray, Intersect(tri, k, ray).t), tri.a);
    PlaneShapes.HitLiesOnPlane(plane, ray);
    DotScaleRight(q, Normal(tri), k);
    HitFacesNormal(tri, k, ray);
    assert k > 0.0;
    assert k * Dot(q, Normal(tri)) == 0.0;
  }

  /** A ray the derived plane rejects misses the triangle. */
  lemma PlaneMissIsMiss(tri: TriangleShape, k: real, ray: Ray)
    requires UnitFactor(Normal(tri), k)
    requires !PlaneShapes.Intersect(DerivedPlane(tri, k), ray).hit
    ensures Intersect(tri, k, ray) == Intersection(false, 0.0)
  {
  }

  /** A plane hit whose point passes the three edge tests is the triangle's
      hit, at the plane's parameter. */
  lemma PlaneHitWithinEdgesIsHit(tri: TriangleShape, k: real, ray: Ray, t: real)
    requires UnitFactor(Normal(tri), k)
    requires PlaneShapes.Intersect(DerivedPlane(tri, k), ray) == Intersection(true, t)
    requires WithinEdges(tri, At(ray, t))
    ensures Intersect(tri, k, ray) == Intersection(true, t)
  {
  }

  /** A ray that does not travel along the unnormalised normal is never
      hit, wherever it starts: for the vertices (0,0,0), (2,0,0), (0,2,0),
      whose normal is (0,0,4), a ray pointing down the z axis misses even
      through an interior point (`CornerMissed`), while the reversed winding
      catches it (`ReversedCornerHit`). */
  lemma {:induction false} BackFacingMisses(tri: TriangleShape, k: real, ray: Ray)
    requires UnitFactor(Normal(tri), k)
    requires Dot(Normal(tri), ray.dir) <= 0.0
    ensures Intersect(tri, k, ray) == Intersection(false, 0.0)
  {
    if Intersect(tri, k, ray).hit {
      HitFacesNormal(tri, k, ray);
      assert false;
    }
  }

  // ---- The worked example: one triangle and a ray down the z axis ----

  /** The triangle with vertices (0,0,0), (2,0,0), (0,2,0). */
  const Corner := TriangleShape(Vector(0.0, 0.0, 0.0), Vector(2.0, 0.0, 0.0), Vector(0.0, 2.0, 0.0))

  /** The ray from (0.5, 0.5, 5) along (0, 0, -1), through a point inside
      the triangle. The triangle test reads only its origin and direction. */
  const DownRay := Ray(Vector(0.5, 0.5, 5.0), Vector(0.0, 0.0, -1.0), Vector(0.0, 0.0, -1.0), false, false, true)

  /** In the z = 0 plane, with a normal along z, an edge test is the normal's
      z component times the 2-D cross product of the edge and the point. */
  lemma FlatEdge(n: Vector, s: Vector, e: Vector, p: Vector)
    requires n.x == 0.0 && n.y == 0.0 && s.z == 0.0 && e.z == 0.0 && p.z == 0.0
    ensures EdgeTest(n, s, e, p) == n.z * ((e.x - s.x) * (p.y - s.y) - (e.y - s.y) * (p.x - s.x))
  {
  }

  lemma CornerNormal()
    ensures Normal(Corner) == Vector(0.0, 0.0, 4.0)
  {
  }

  lemma ReversedCornerNormal()
    ensures Normal(Reversed(Corner)) == Vector(0.0, 0.0, -4.0)
  {
  }

  /** `1/4` normalises both normals of the example. */
  lemma QuarterIsUnit(z: real)
    requires z == 4.0 || z == -4.0
    ensures UnitFactor(Vector(0.0, 0.0, z), 0.25)
  {
    assert z * z == 16.0;
  }

  lemma CornerFacesAway()
    ensures Dot(Normal(Corner), DownRay.dir) == -4.0
  {
    CornerNormal();
  }

  /** Along the normal (0,0,4) the ray travels backwards, so the triangle
      as wound misses it. */
  lemma {:induction false} CornerMissed()
    ensures UnitFactor(Normal(Corner), 0.25)
    ensures Intersect(Corner, 0.25, DownRay) == Intersection(false, 0.0)
  {
    CornerNormal();
    QuarterIsUnit(4.0);
    CornerFacesAway();
    BackFacingMisses(Corner, 0.25, DownRay);
  }

  lemma ReversedCornerPlane()
    ensures DerivedPlane(Reversed(Corner), 0.25) == PlaneShapes.PlaneShape(Vector(0.0, 0.0, 0.0), Vector(0.0, 0.0, -1.0))
  {
    ReversedCornerNormal();
  }

  lemma DownRayPlaneHit()
    ensures PlaneShapes.Intersect(PlaneShapes.PlaneShape(Vector(0.0, 0.0, 0.0), Vector(0.0, 0.0, -1.0)), DownRay) == Intersection(true, 5.0)
  {
  }

  lemma DownRayAtFive()
    ensures At(DownRay, 5.0) == Vector(0.5, 0.5, 0.0)
  {
  }

  lemma FirstEdge()
    ensures EdgeTest(Vector(0.0, 0.0, -4.0), Vector(0.0, 0.0, 0.0), Vector(0.0, 2.0, 0.0), Vector(0.5, 0.5, 0.0)) == 4.0
  {
    FlatEdge(Vector(0.0, 0.0, -4.0), Vector(0.0, 0.0, 0.0), Vector(0.0, 2.0, 0.0), Vector(0.5, 0.5, 0.0));
  }

  lemma SecondEdge()
    ensures EdgeTest(Vector(0.0, 0.0, -4.0), Vector(0.0, 2.0, 0.0), Vector(2.0, 0.0, 0.0), Vector(0.5, 0.5, 0.0)) == 8.0
  {
    FlatEdge(Vector(0.0, 0.0, -4.0), Vector(0.0, 2.0, 0.0), Vector(2.0, 0.0, 0.0), Vector(0.5, 0.5, 0.0));
  }

  lemma ThirdEdge()
    ensures EdgeTest(Vector(0.0, 0.0, -4.0), Vector(2.0, 0.0, 0.0), Vector(0.0, 0.0, 0.0), Vector(0.5, 0.5, 0.0)) == 4.0
  {
    FlatEdge(Vector(0.0, 0.0, -4.0), Vector(2.0, 0.0, 0.0), Vector(0.0, 0.0, 0.0), Vector(0.5, 0.5, 0.0));
  }

  lemma ReversedCornerEdges()
    ensures WithinEdges(Reversed(Corner), Vector(0.5, 0.5, 0.0))
  {
    ReversedCornerNormal();
    FirstEdge();
    SecondEdge();
    ThirdEdge();
  }

  /** With the winding reversed to (0,0,0), (0,2,0), (2,0,0), the normal is
      (0,0,-1) after normalisation, and the same ray hits at t = 5. */
  lemma {:induction false} ReversedCornerHit()
    ensures UnitFactor(Normal(Reversed(Corner)), 0.25)
    ensures Intersect(Reversed(Corner), 0.25, DownRay) == Intersection(true, 5.0)
  {
    ReversedCornerNormal();
    QuarterIsUnit(-4.0);
    ReversedCornerPlane();
    DownRayPlaneHit();
    DownRayAtFive();
    ReversedCornerEdges();
    PlaneHitWithinEdgesIsHit(Reversed(Corner), 0.25, DownRay, 5.0);
  }
}
