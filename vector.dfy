/** Three-component vectors over the reals (the renderer's `f32` vectors) and
    integer lattice vectors used for box corners. */
module Vectors {

  datatype Vector = Vector(x: real, y: real, z: real)

  /** A point on the unit lattice; box corners are authored this way. */
  datatype SteppedVector = SteppedVector(x: int, y: int, z: int)

  const Zero := Vector(0.0, 0.0, 0.0)

  function Add(a: Vector, b: Vector): Vector {
    Vector(a.x + b.x, a.y + b.y, a.z + b.z)
  }

  function Sub(a: Vector, b: Vector): Vector {
    Vector(a.x - b.x, a.y - b.y, a.z - b.z)
  }

  function Neg(a: Vector): Vector {
    Vector(-a.x, -a.y, -a.z)
  }

  function Scale(a: Vector, k: real): Vector {
    Vector(a.x * k, a.y * k, a.z * k)
  }

  function Dot(a: Vector, b: Vector): real {
    a.x * b.x + a.y * b.y + a.z * b.z
  }

  function Cross(a: Vector, b: Vector): Vector {
    Vector(a.y * b.z - a.z * b.y, a.z * b.x - a.x * b.z, a.x * b.y - a.y * b.x)
  }

  lemma DotSymmetric(a: Vector, b: Vector)
    ensures Dot(a, b) == Dot(b, a)
  {
  }

  lemma DotAdd(a: Vector, b: Vector, n: Vector)
    ensures Dot(Add(a, b), n) == Dot(a, n) + Dot(b, n)
  {
  }

  lemma DotSub(a: Vector, b: Vector, n: Vector)
    ensures Dot(Sub(a, b), n) == Dot(a, n) - Dot(b, n)
  {
  }

  lemma DotScaleLeft(a: Vector, k: real, n: Vector)
    ensures Dot(Scale(a, k), n) == k * Dot(a, n)
  {
  }

  lemma DotScaleRight(a: Vector, n: Vector, k: real)
    ensures Dot(a, Scale(n, k)) == k * Dot(a, n)
  {
  }

  lemma DotNeg(a: Vector, n: Vector)
    ensures Dot(a, Neg(n)) == -Dot(a, n)
  {
  }
}
