/** The `Shape` interface (src/shape.rs): the scene holds boxes, planes and
    triangles behind one `intersects_ray` entry point. The open trait becomes
    a closed datatype with one dispatching function. */
module Shapes {
  import opened Vectors
  import opened Rays
  import BoxShapes
  import PlaneShapes
  import TriangleShapes

  /** The three shape kinds. A triangle carries the factor `invLen` that its
      `normalize` call applies to the face normal. */
  datatype Shape =
    | Box(box: BoxShapes.BoxShape)
    | Plane(plane: PlaneShapes.PlaneShape)
    | Triangle(triangle: TriangleShapes.TriangleShape, invLen: real)

  /** A triangle's factor is the reciprocal length of its normal. */
  predicate WellFormed(s: Shape) {
    s.Triangle? ==> TriangleShapes.UnitFactor(TriangleShapes.Normal(s.triangle), s.invLen)
  }

  /** `Shape::intersects_ray`, dispatched on the kind of shape. Planes and
      triangles never report a hit behind the ray origin, and their misses
      never report a parameter ahead of it; a triangle's misses all report 0.
      A box reports its entry parameter whether or not it is hit. */
  function IntersectsRay(s: Shape, ray: Ray): (r: Intersection)
    requires WellFormed(s)
    ensures !s.Box? ==> (r.hit ==> r.t >= 0.0) && (!r.hit ==> r.t <= 0.0)
    ensures s.Triangle? && !r.hit ==> r.t == 0.0
  {
    match s
    case Box(b) => BoxShapes.Intersect(b, ray)
    case Plane(p) => PlaneShapes.Intersect(p, ray)
    case Triangle(tri, k) => TriangleShapes.Intersect(tri, k, ray)
  }

  /** The point at a reported hit parameter lies on the shape: inside the
      box when the parameter is not behind the origin (a box may report a
      negative entry when the origin is inside it), on the plane, or on the
      triangle's plane. */
  lemma {:induction false} HitAheadLiesOnShape(s: Shape, ray: Ray)
    requires WellFormed(s) && Valid(ray)
    requires IntersectsRay(s, ray).hit
    ensures var t := IntersectsRay(s, ray).t;
      match s
      case Box(b) => t >= 0.0 ==> BoxShapes.Inside(b, At(ray, t))
      case Plane(p) => PlaneShapes.Offset(p, At(ray, t)) == 0.0
      case Triangle(tri, k) =>
        Dot(Sub(At(ray, t), tri.a), TriangleShapes.Normal(tri)) == 0.0
  {
    match s
    case Box(b) =>
      var r := BoxShapes.Intersect(b, ray);
      if r.t >= 0.0 {
        BoxShapes.PointsBetweenAreInside(b, ray, r.t);
      }
    case Plane(p) =>
      PlaneShapes.HitLiesOnPlane(p, ray);
    case Triangle(tri, k) =>
      TriangleShapes.HitLiesOnTrianglePlane(tri, k, ray);
  }
}
