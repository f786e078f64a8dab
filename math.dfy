/** Vector, quaternion and transform values the scene graph builds on.
    They come from the engine's math libraries (cgmath and the engine's
    `Transform`); only the operations the scene graph uses are modelled.
    Coordinates are exact reals: f32 rounding is not modelled. */
module Math {

  datatype Vector3 = Vector3(x: real, y: real, z: real)

  const Zero: Vector3 := Vector3(0.0, 0.0, 0.0)
  const Ones: Vector3 := Vector3(1.0, 1.0, 1.0)

  /** Vector addition (`+` on `Vector3`). */
  function Add(a: Vector3, b: Vector3): Vector3 {
    Vector3(a.x + b.x, a.y + b.y, a.z + b.z)
  }

  /** `mul_element_wise`: the Hadamard product. */
  function MulElementWise(a: Vector3, b: Vector3): Vector3 {
    Vector3(a.x * b.x, a.y * b.y, a.z * b.z)
  }

  /** A quaternion with scalar part `s` and vector part `v`, as cgmath lays it out. */
  datatype Quaternion = Quaternion(s: real, v: Vector3)

  const QuaternionOne: Quaternion := Quaternion(1.0, Zero)

  /** The Hamilton product `a * b` (apply `b`, then `a`). */
  function QMul(a: Quaternion, b: Quaternion): Quaternion {
    Quaternion(
      a.s * b.s - a.v.x * b.v.x - a.v.y * b.v.y - a.v.z * b.v.z,
      Vector3(
        a.s * b.v.x + a.v.x * b.s + a.v.y * b.v.z - a.v.z * b.v.y,
        a.s * b.v.y + a.v.y * b.s + a.v.z * b.v.x - a.v.x * b.v.z,
        a.s * b.v.z + a.v.z * b.s + a.v.x * b.v.y - a.v.y * b.v.x))
  }

  /** Position, rotation and scale of a node. */
  datatype Transform = Transform(position: Vector3, rotation: Quaternion, scale: Vector3)

  /** `Transform::default()`: at the origin, unrotated, unit scale. */
  const Identity: Transform := Transform(Zero, QuaternionOne, Ones)

  lemma QMulIdentity(q: Quaternion)
    ensures QMul(QuaternionOne, q) == q
    ensures QMul(q, QuaternionOne) == q
  {
  }
}
