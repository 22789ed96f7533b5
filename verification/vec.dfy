/**
 * Three-component vectors (the source's `Vec3`, also used as `Point3` and `Color`),
 * with IEEE doubles modelled as reals.
 */
module Vec {

  datatype Vec3 = Vec3(x: real, y: real, z: real)

  /** An axis index `0..3`, as used by `v[a]` in the source. */
  type Axis = a: nat | a < 3

  function Comp(v: Vec3, a: Axis): real {
    if a == 0 then v.x else if a == 1 then v.y else v.z
  }

  function Zero(): Vec3 {
    Vec3(0.0, 0.0, 0.0)
  }

  function Add(u: Vec3, v: Vec3): Vec3 {
    Vec3(u.x + v.x, u.y + v.y, u.z + v.z)
  }

  /** Component-wise product, the source's `Color * Color`. */
  function Mul(u: Vec3, v: Vec3): Vec3 {
    Vec3(u.x * v.x, u.y * v.y, u.z * v.z)
  }

  function Scale(k: real, v: Vec3): Vec3 {
    Vec3(k * v.x, k * v.y, k * v.z)
  }

  function Neg(v: Vec3): Vec3 {
    Vec3(-v.x, -v.y, -v.z)
  }

  function Dot(u: Vec3, v: Vec3): real {
    u.x * v.x + u.y * v.y + u.z * v.z
  }
}
