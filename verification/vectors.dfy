/** Three-component vectors of exact reals, standing in for the engine's
    single-precision `vec3`. No claim is made about IEEE rounding. */
module Vectors {

  datatype Vec3 = Vec3(x: real, y: real, z: real) {

    function Plus(o: Vec3): Vec3 {
      Vec3(x + o.x, y + o.y, z + o.z)
    }

    function Minus(o: Vec3): Vec3 {
      Vec3(x - o.x, y - o.y, z - o.z)
    }

    function Scale(k: real): Vec3 {
      Vec3(k * x, k * y, k * z)
    }

    /** Squared Euclidean length, as `vec3::squareLength`. */
    function SquareLength(): real {
      x * x + y * y + z * z
    }
  }

  const Zero: Vec3 := Vec3(0.0, 0.0, 0.0)

  lemma ZeroSquareLength()
    ensures Zero.SquareLength() == 0.0
  {
  }
}
