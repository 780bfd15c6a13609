/** Vectors of the mesh cache: 3-vectors for positions, normals and velocities,
    2-vectors for UV coordinates. Single-precision floats are modelled by exact
    reals; narrowing to float is not modelled. */
module Vectors {

  datatype Vec3 = Vec3(x: real, y: real, z: real)

  datatype Vec2 = Vec2(x: real, y: real)

  /** The largest finite single-precision float, 0x1.fffffep+127. */
  const FLT_MAX: real := 340282346638528859811704183484516925440.0

  const Zero3: Vec3 := Vec3(0.0, 0.0, 0.0)

  /** The reserved "invalid" point written in place of an empty array. */
  const Invalid3: Vec3 := Vec3(FLT_MAX, FLT_MAX, FLT_MAX)

  function Add(a: Vec3, b: Vec3): Vec3 {
    Vec3(a.x + b.x, a.y + b.y, a.z + b.z)
  }

  function Scale(k: real, a: Vec3): Vec3 {
    Vec3(k * a.x, k * a.y, k * a.z)
  }

  /** Linear interpolation from a (t = 0) to b (t = 1). */
  function Lerp(a: Vec3, b: Vec3, t: real): (r: Vec3)
    ensures t == 0.0 ==> r == a
    ensures t == 1.0 ==> r == b
    ensures a == b ==> r == a
  {
    Vec3((1.0 - t) * a.x + t * b.x, (1.0 - t) * a.y + t * b.y, (1.0 - t) * a.z + t * b.z)
  }

  /** Component k (0, 1 or 2) of a 3-vector. */
  function Comp(v: Vec3, k: nat): real
    requires k < 3
  {
    if k == 0 then v.x else if k == 1 then v.y else v.z
  }
}
