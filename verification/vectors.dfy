/** Points and vectors of three real components (the renderer's `Point` and
    `Vector`), with the handful of operations the shading core uses. */
module Vectors {

  datatype Vec3 = Vec3(x: real, y: real, z: real) {

    function Add(v: Vec3): Vec3 {
      Vec3(x + v.x, y + v.y, z + v.z)
    }

    function Sub(v: Vec3): Vec3 {
      Vec3(x - v.x, y - v.y, z - v.z)
    }

    function Scale(s: real): Vec3 {
      Vec3(s * x, s * y, s * z)
    }

    /** `-1. * v`, as the source writes a negation. */
    function Neg(): Vec3 {
      Scale(-1.0)
    }

    function Dot(v: Vec3): real {
      x * v.x + y * v.y + z * v.z
    }

    function NormSq(): real {
      Dot(this)
    }

    /** `p.vec2point(q)`: the vector from this point to `q`. */
    function ToPoint(q: Vec3): Vec3 {
      q.Sub(this)
    }
  }

  const Origin := Vec3(0.0, 0.0, 0.0)

  lemma DotScale(u: Vec3, s: real, v: Vec3)
    ensures u.Scale(s).Dot(v) == s * u.Dot(v)
  {
    assert u.Scale(s).Dot(v) == s * u.x * v.x + s * u.y * v.y + s * u.z * v.z;
  }
}
