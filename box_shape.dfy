/** The axis-aligned box and its slab test (src/box_shape.rs). */
module BoxShapes {
  import opened Vectors
  import opened Rays

  /** `BoxShape(start, end)`: two lattice corners. Nothing orders them;
      `start` and `end` are the destructors the source's accessors return. */
  datatype BoxShape = BoxShape(start: SteppedVector, end: SteppedVector)

  datatype Axis = X | Y | Z

  function Coord(v: Vector, a: Axis): real {
    match a
    case X => v.x
    case Y => v.y
    case Z => v.z
  }

  function LatticeCoord(s: SteppedVector, a: Axis): real {
    match a
    case X => s.x as real
    case Y => s.y as real
    case Z => s.z as real
  }

  function Min(a: real, b: real): real { if a <= b then a else b }

  function Max(a: real, b: real): real { if a <= b then b else a }

  /** The ray parameter at which a ray starting at coordinate `origin`, with
      reciprocal direction component `inv`, crosses coordinate `corner`. */
  function Crossing(corner: real, origin: real, inv: real): real {
    (corner - origin) * inv
  }

  /** Ray parameters at which the ray crosses the two slab planes of axis `a`. */
  function T1(b: BoxShape, ray: Ray, a: Axis): real {
    Crossing(LatticeCoord(b.start, a), Coord(ray.origin, a), Coord(ray.invDir, a))
  }

  function T2(b: BoxShape, ray: Ray, a: Axis): real {
    Crossing(LatticeCoord(b.end, a), Coord(ray.origin, a), Coord(ray.invDir, a))
  }

  /** Where the ray enters and leaves the slab of axis `a`. */
  function Entry(b: BoxShape, ray: Ray, a: Axis): real {
    Min(T1(b, ray, a), T2(b, ray, a))
  }

  function Exit(b: BoxShape, ray: Ray, a: Axis): real {
    Max(T1(b, ray, a), T2(b, ray, a))
  }

  /** `p` lies between the two corners on axis `a`, whichever corner is smaller. */
  predicate WithinAxis(b: BoxShape, p: Vector, a: Axis) {
    Min(LatticeCoord(b.start, a), LatticeCoord(b.end, a)) <= Coord(p, a)
      <= Max(LatticeCoord(b.start, a), LatticeCoord(b.end, a))
  }

  /** `p` lies in the closed box spanned by the two corners. */
  predicate Inside(b: BoxShape, p: Vector) {
    WithinAxis(b, p, X) && WithinAxis(b, p, Y) && WithinAxis(b, p, Z)
  }

  /** The slab test of `BoxShape::intersects_ray`, step by step as the source
      computes it. The source seeds `t_min`/`t_max` with -inf/+inf; over the
      reals the first `max`/`min` with those seeds is the identity, so the
      chain starts at the x axis. The returned `t` is the largest entry over
      the three axes; the (unreturned) `t_max` is the smallest exit, and the
      ray hits iff that exit is ahead of both the entry and the origin. */
  function Intersect(b: BoxShape, ray: Ray): (r: Intersection)
    ensures r.t >= Entry(b, ray, X) && r.t >= Entry(b, ray, Y) && r.t >= Entry(b, ray, Z)
    ensures r.t == Entry(b, ray, X) || r.t == Entry(b, ray, Y) || r.t == Entry(b, ray, Z)
    ensures r.hit <==>
      && Exit(b, ray, X) >= r.t && Exit(b, ray, Y) >= r.t && Exit(b, ray, Z) >= r.t
      && Exit(b, ray, X) >= 0.0 && Exit(b, ray, Y) >= 0.0 && Exit(b, ray, Z) >= 0.0
  {
    var tX1 := Crossing(b.start.x as real, ray.origin.x, ray.invDir.x);
    var tX2 := Crossing(b.end.x as real, ray.origin.x, ray.invDir.x);
    var tMin := Min(tX1, tX2);
    var tMax := Max(tX1, tX2);

    var tY1 := Crossing(b.start.y as real, ray.origin.y, ray.invDir.y);
    var tY2 := Crossing(b.end.y as real, ray.origin.y, ray.invDir.y);
    var tMin := Max(tMin, Min(tY1, tY2));
    var tMax := Min(tMax, Max(tY1, tY2));

    var tZ1 := Crossing(b.start.z as real, ray.origin.z, ray.invDir.z);
    var tZ2 := Crossing(b.end.z as real, ray.origin.z, ray.invDir.z);
    var tMin := Max(tMin, Min(tZ1, tZ2));
    var tMax := Min(tMax, Max(tZ1, tZ2));

    Intersection(tMax >= tMin && tMax >= 0.0, tMin)
  }

  /** The box with its two corners exchanged. */
  function Swapped(b: BoxShape): BoxShape {
    BoxShape(b.end, b.start)
  }

  /** The box with the two corners' coordinates exchanged on axis `a` only. */
  function SwappedOn(b: BoxShape, a: Axis): BoxShape {
    match a
    case X => BoxShape(b.start.(x := b.end.x), b.end.(x := b.start.x))
    case Y => BoxShape(b.start.(y := b.end.y), b.end.(y := b.start.y))
    case Z => BoxShape(b.start.(z := b.end.z), b.end.(z := b.start.z))
  }

  /** Listing the corners in the other order changes nothing. */
  lemma SwapCorners(b: BoxShape, ray: Ray)
    ensures Intersect(Swapped(b), ray) == Intersect(b, ray)
  {
  }

  /** Neither does exchanging one coordinate of the corners on one axis. */
  lemma SwapOneAxis(b: BoxShape, ray: Ray, a: Axis)
    ensures Intersect(SwappedOn(b, a), ray) == Intersect(b, ray)
  {
  }

  // ---- Real-arithmetic helpers for the slab geometry ----

  lemma MulLe(a: real, b: real, k: real)
    requires a <= b && k >= 0.0
    ensures a * k <= b * k
  {
    assert b * k - a * k == (b - a) * k;
  }

  lemma MulNegStrict(a: real, k: real)
    requires a < 0.0 && k > 0.0
    ensures a * k < 0.0
  {
    assert (-a) * k > 0.0;
  }

  /** On one axis with positive direction: the crossing parameters are
      ordered like the corners, and scaling by the direction maps one
      interval onto the other. */
  lemma SlabPositive(c1: real, c2: real, o: real, d: real, inv: real, s: real)
    requires inv * d == 1.0 && d > 0.0
    ensures Crossing(c1, o, inv) <= s <= Crossing(c2, o, inv) <==> c1 <= o + s * d <= c2
  {
    var t1, t2 := Crossing(c1, o, inv), Crossing(c2, o, inv);
    var p := o + s * d;
    assert inv > 0.0 by {
      if inv <= 0.0 { MulLe(inv, 0.0, d); }
    }
    assert s == (p - o) * inv by {
      assert (p - o) * inv == s * (d * inv);
    }
    assert s - t1 == (p - c1) * inv;
    assert t2 - s == (c2 - p) * inv;
    SignOfProduct(p - c1, inv);
    SignOfProduct(c2 - p, inv);
  }

  lemma SignOfProduct(x: real, k: real)
    requires k > 0.0
    ensures x * k >= 0.0 <==> x >= 0.0
  {
    if x >= 0.0 { MulLe(0.0, x, k); } else { MulNegStrict(x, k); }
  }

  /** The same with a negative direction: the order flips. */
  lemma SlabNegative(c1: real, c2: real, o: real, d: real, inv: real, s: real)
    requires inv * d == 1.0 && d < 0.0
    ensures Crossing(c2, o, inv) <= s <= Crossing(c1, o, inv) <==> c1 <= o + s * d <= c2
  {
    SlabPositive(-c2, -c1, -o, -d, -inv, s);
    assert Crossing(-c1, -o, -inv) == Crossing(c1, o, inv);
    assert Crossing(-c2, -o, -inv) == Crossing(c2, o, inv);
    assert -o + s * -d == -(o + s * d);
  }

  /** On one axis: `s` lies between the two crossing parameters iff the point
      at `s` lies between the two corner coordinates. */
  lemma SlabPoint(c1: real, c2: real, o: real, d: real, inv: real, s: real)
    requires inv * d == 1.0
    ensures Min(Crossing(c1, o, inv), Crossing(c2, o, inv)) <= s <= Max(Crossing(c1, o, inv), Crossing(c2, o, inv))
        <==> Min(c1, c2) <= o + s * d <= Max(c1, c2)
  {
    var lo, hi := Min(c1, c2), Max(c1, c2);
    assert d != 0.0;
    if d > 0.0 {
      SlabPositive(lo, hi, o, d, inv, s);
      OrderPositive(c1, c2, o, d, inv);
    } else {
      SlabNegative(lo, hi, o, d, inv, s);
      OrderPositive(-c1, -c2, -o, -d, -inv);
      assert Crossing(-c1, -o, -inv) == Crossing(c1, o, inv);
      assert Crossing(-c2, -o, -inv) == Crossing(c2, o, inv);
    }
  }

  /** With a positive direction the crossings are ordered like the corners. */
  lemma OrderPositive(c1: real, c2: real, o: real, d: real, inv: real)
    requires inv * d == 1.0 && d > 0.0
    ensures c1 <= c2 <==> Crossing(c1, o, inv) <= Crossing(c2, o, inv)
  {
    assert inv > 0.0 by {
      if inv <= 0.0 { MulLe(inv, 0.0, d); }
    }
    if c1 <= c2 {
      MulLe(c1 - o, c2 - o, inv);
    } else {
      MulLe(c2 - o, c1 - o, inv);
      assert Crossing(c1, o, inv) != Crossing(c2, o, inv) by {
        assert Crossing(c1, o, inv) * d == c1 - o;
        assert Crossing(c2, o, inv) * d == c2 - o;
      }
    }
  }

  lemma CoordAt(ray: Ray, s: real, a: Axis)
    ensures Coord(At(ray, s), a) == Coord(ray.origin, a) + s * Coord(ray.dir, a)
  {
    assert Coord(Scale(ray.dir, s), a) == Coord(ray.dir, a) * s by {
      match a
      case X =>
      case Y =>
      case Z =>
    }
    match a
    case X =>
    case Y =>
    case Z =>
  }

  lemma ValidAxis(ray: Ray, a: Axis)
    requires Valid(ray)
    ensures Coord(ray.invDir, a) * Coord(ray.dir, a) == 1.0
    ensures Coord(ray.dir, a) != 0.0
  {
    match a
    case X =>
    case Y =>
    case Z =>
  }

  lemma WithinAxisAt(b: BoxShape, ray: Ray, s: real, a: Axis)
    ensures WithinAxis(b, At(ray, s), a) <==>
      Min(LatticeCoord(b.start, a), LatticeCoord(b.end, a))
        <= Coord(ray.origin, a) + s * Coord(ray.dir, a)
        <= Max(LatticeCoord(b.start, a), LatticeCoord(b.end, a))
  {
    CoordAt(ray, s, a);
  }

  lemma SlabAxis(b: BoxShape, ray: Ray, s: real, a: Axis)
    requires Coord(ray.invDir, a) * Coord(ray.dir, a) == 1.0
    ensures Entry(b, ray, a) <= s <= Exit(b, ray, a) <==> WithinAxis(b, At(ray, s), a)
  {
    var c1, c2 := LatticeCoord(b.start, a), LatticeCoord(b.end, a);
    var o, d, inv := Coord(ray.origin, a), Coord(ray.dir, a), Coord(ray.invDir, a);
    var lo, hi := Min(Crossing(c1, o, inv), Crossing(c2, o, inv)), Max(Crossing(c1, o, inv), Crossing(c2, o, inv));
    assert Entry(b, ray, a) == lo && Exit(b, ray, a) == hi;
    var p := o + s * d;
    assert WithinAxis(b, At(ray, s), a) <==> Min(c1, c2) <= p <= Max(c1, c2) by {
      WithinAxisAt(b, ray, s, a);
    }
    assert lo <= s <= hi <==> Min(c1, c2) <= p <= Max(c1, c2) by {
      SlabPoint(c1, c2, o, d, inv, s);
    }
  }

  /** Every parameter between the returned `t` and the internal `t_max` (the
      smallest exit) gives a point inside the box. */
  lemma {:induction false} PointsBetweenAreInside(b: BoxShape, ray: Ray, s: real)
    requires Valid(ray)
    requires Intersect(b, ray).t <= s
    requires s <= Exit(b, ray, X) && s <= Exit(b, ray, Y) && s <= Exit(b, ray, Z)
    ensures Inside(b, At(ray, s))
  {
    ValidAxis(ray, X);
    SlabAxis(b, ray, s, X);
    ValidAxis(ray, Y);
    SlabAxis(b, ray, s, Y);
    ValidAxis(ray, Z);
    SlabAxis(b, ray, s, Z);
  }

  /** Conversely, a parameter whose point is inside the box lies between the
      returned `t` and every exit. */
  lemma {:induction false} InsideIsBetween(b: BoxShape, ray: Ray, s: real)
    requires Valid(ray)
    requires Inside(b, At(ray, s))
    ensures Intersect(b, ray).t <= s
    ensures s <= Exit(b, ray, X) && s <= Exit(b, ray, Y) && s <= Exit(b, ray, Z)
  {
    ValidAxis(ray, X);
    SlabAxis(b, ray, s, X);
    ValidAxis(ray, Y);
    SlabAxis(b, ray, s, Y);
    ValidAxis(ray, Z);
    SlabAxis(b, ray, s, Z);
  }

  /** The slab test reports a hit exactly when some point of the ray at a
      non-negative parameter lies in the box. */
  lemma {:induction false} HitIffPointAhead(b: BoxShape, ray: Ray)
    requires Valid(ray)
    ensures Intersect(b, ray).hit <==> exists s :: s >= 0.0 && Inside(b, At(ray, s))
  {
    var r := Intersect(b, ray);
    if r.hit {
      var s := Max(r.t, 0.0);
      PointsBetweenAreInside(b, ray, s);
    }
    if exists s :: s >= 0.0 && Inside(b, At(ray, s)) {
      var s :| s >= 0.0 && Inside(b, At(ray, s));
      InsideIsBetween(b, ray, s);
    }
  }

  /** A ray that starts inside the box hits it, and the reported `t` is not
      ahead of the origin (the entry lies behind or at it). */
  lemma {:induction false} OriginInsideHits(b: BoxShape, ray: Ray)
    requires Valid(ray)
    requires Inside(b, ray.origin)
    ensures Intersect(b, ray).hit
    ensures Intersect(b, ray).t <= 0.0
  {
    assert At(ray, 0.0) == ray.origin;
    InsideIsBetween(b, ray, 0.0);
  }

  /** `p` lies strictly between the two corners on axis `a`. */
  predicate StrictlyWithinAxis(b: BoxShape, p: Vector, a: Axis) {
    Min(LatticeCoord(b.start, a), LatticeCoord(b.end, a)) < Coord(p, a)
      < Max(LatticeCoord(b.start, a), LatticeCoord(b.end, a))
  }

  /** An origin strictly inside a slab has a corner of that slab behind it,
      so the ray entered the slab at a negative parameter. */
  lemma EntryBehindOrigin(b: BoxShape, ray: Ray, a: Axis)
    requires Valid(ray) && StrictlyWithinAxis(b, ray.origin, a)
    ensures Entry(b, ray, a) < 0.0
  {
    ValidAxis(ray, a);
    SlabEntryBehind(LatticeCoord(b.start, a), LatticeCoord(b.end, a),
      Coord(ray.origin, a), Coord(ray.dir, a), Coord(ray.invDir, a));
  }

  /** The scalar core: with `o` strictly between `c1` and `c2`, the corner on
      the side the ray comes from is crossed at a negative parameter. */
  lemma SlabEntryBehind(c1: real, c2: real, o: real, d: real, inv: real)
    requires inv * d == 1.0 && Min(c1, c2) < o < Max(c1, c2)
    ensures Min(Crossing(c1, o, inv), Crossing(c2, o, inv)) < 0.0
  {
    var c := if d > 0.0 then Min(c1, c2) else Max(c1, c2);
    if d > 0.0 {
      MulNegStrict(c - o, d);
    } else {
      assert d < 0.0;
      MulNegStrict(d, c - o);
    }
    BehindIsNegative(c - o, d, inv);
  }

  /** A ray that starts strictly inside the box hits it at a negative `t`:
      `t` is 0 only for an origin on the boundary. */
  lemma {:induction false} OriginStrictlyInsideHitsBehind(b: BoxShape, ray: Ray)
    requires Valid(ray)
    requires StrictlyWithinAxis(b, ray.origin, X) && StrictlyWithinAxis(b, ray.origin, Y)
      && StrictlyWithinAxis(b, ray.origin, Z)
    ensures Intersect(b, ray).hit
    ensures Intersect(b, ray).t < 0.0
  {
    OriginInsideHits(b, ray);
    EntryBehindOrigin(b, ray, X);
    EntryBehindOrigin(b, ray, Y);
    EntryBehindOrigin(b, ray, Z);
  }

  /** A corner at offset `e` from the origin, behind it along direction `d`,
      is crossed at a negative parameter. */
  lemma BehindIsNegative(e: real, d: real, inv: real)
    requires inv * d == 1.0 && e * d < 0.0
    ensures e * inv < 0.0
  {
    // (e * inv) * (d * d) == e * d, and d * d > 0.
    assert d * d > 0.0 by {
      if d > 0.0 { MulNegStrict(-d, d); } else { MulNegStrict(d, -d); }
    }
    assert (e * inv) * (d * d) == e * d by {
      assert (e * inv) * (d * d) == (e * d) * (inv * d);
    }
    if e * inv >= 0.0 { MulLe(0.0, e * inv, d * d); }
  }

  /** Two corners behind the origin are both crossed at negative parameters. */
  lemma SlabBehind(c1: real, c2: real, o: real, d: real, inv: real)
    requires inv * d == 1.0 && (c1 - o) * d < 0.0 && (c2 - o) * d < 0.0
    ensures Max(Crossing(c1, o, inv), Crossing(c2, o, inv)) < 0.0
  {
    BehindIsNegative(c1 - o, d, inv);
    BehindIsNegative(c2 - o, d, inv);
  }

  /** A box one of whose slabs is left entirely behind the origin is missed. */
  lemma ExitBehindMisses(b: BoxShape, ray: Ray, a: Axis)
    requires Exit(b, ray, a) < 0.0
    ensures !Intersect(b, ray).hit
  {
  }

  /** If on some axis both corners lie behind the origin, seen along the
      direction, the box is missed. */
  lemma {:induction false} BothCornersBehindMisses(b: BoxShape, ray: Ray, a: Axis)
    requires Valid(ray)
    requires (LatticeCoord(b.start, a) - Coord(ray.origin, a)) * Coord(ray.dir, a) < 0.0
    requires (LatticeCoord(b.end, a) - Coord(ray.origin, a)) * Coord(ray.dir, a) < 0.0
    ensures !Intersect(b, ray).hit
  {
    ValidAxis(ray, a);
    SlabBehind(LatticeCoord(b.start, a), LatticeCoord(b.end, a), Coord(ray.origin, a), Coord(ray.dir, a), Coord(ray.invDir, a));
    ExitBehindMisses(b, ray, a);
  }
}
