/** The engine's value types that the typed models hold. Floating-point
    arithmetic is never performed on them by the core: a float is only
    stored, compared and handed to or received from the parser. */
module Numerics {

  /** A System.Single, by its IEEE 754 bit pattern. */
  datatype Float32 = Float32(bits: bv32)

  /** 0f, which is default(float). */
  const Zero: Float32 := Float32(0)

  /** 1f. */
  const One: Float32 := Float32(0x3F80_0000)

  /** UnityEngine.Vector2. */
  datatype Vector2 = Vector2(x: Float32, y: Float32)

  /** UnityEngine.Vector3. */
  datatype Vector3 = Vector3(x: Float32, y: Float32, z: Float32)

  /** default(Vector2), Vector2.zero. */
  const Vector2Zero: Vector2 := Vector2(Zero, Zero)

  /** default(Vector3), Vector3.zero. */
  const Vector3Zero: Vector3 := Vector3(Zero, Zero, Zero)

  /** Vector3.one. */
  const Vector3One: Vector3 := Vector3(One, One, One)

  /** Vector3.right. */
  const Vector3Right: Vector3 := Vector3(One, Zero, Zero)
}
