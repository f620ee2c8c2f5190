/** Three-component vectors, used by the tracer as points, directions and RGB
    colours alike. Floating point is modelled by `real`; every operation is
    component-wise, except the dot product. */
module Vectors {

  datatype Vec3 = Vec3(x: real, y: real, z: real)

  /** The one-argument constructor: all three components equal `a`. */
  function Splat(a: real): Vec3
  {
    Vec3(a, a, a)
  }

  const Zero: Vec3 := Splat(0.0)

  function Add(u: Vec3, v: Vec3): Vec3
  {
    Vec3(u.x + v.x, u.y + v.y, u.z + v.z)
  }

  function Sub(u: Vec3, v: Vec3): Vec3
  {
    Vec3(u.x - v.x, u.y - v.y, u.z - v.z)
  }

  function Neg(v: Vec3): Vec3
  {
    Vec3(-v.x, -v.y, -v.z)
  }

  /** Multiplication by a scalar. */
  function Scale(v: Vec3, s: real): Vec3
  {
    Vec3(v.x * s, v.y * s, v.z * s)
  }

  /** Component-wise product (colour modulation). */
  function Mul(u: Vec3, v: Vec3): Vec3
  {
    Vec3(u.x * v.x, u.y * v.y, u.z * v.z)
  }

  function Dot(u: Vec3, v: Vec3): real
  {
    u.x * v.x + u.y * v.y + u.z * v.z
  }
}
