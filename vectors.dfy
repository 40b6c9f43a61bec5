/** Two-, three- and four-component vectors with the operators the renderer defines on them.
    Components are exact reals (integers for `Vector2i`); see README for what that leaves out. */
module Vectors {

  datatype Vector2i = Vector2i(x: int, y: int)

  datatype Vector3 = Vector3(x: real, y: real, z: real)

  datatype Vector4 = Vector4(x: real, y: real, z: real, w: real)

  /** A real square is non-negative. */
  lemma SquareNonNegative(a: real)
    ensures a * a >= 0.0
  {
    if a < 0.0 {
      assert a * a == (-a) * (-a);
    }
  }

  // ---- Vector2i ----

  function Add2i(a: Vector2i, b: Vector2i): Vector2i {
    Vector2i(a.x + b.x, a.y + b.y)
  }

  function Sub2i(a: Vector2i, b: Vector2i): Vector2i {
    Vector2i(a.x - b.x, a.y - b.y)
  }

  /** `Vector2i * Vector2i` as written: it subtracts (see Findings in README). */
  function Mul2i(a: Vector2i, b: Vector2i): Vector2i {
    Vector2i(a.x - b.x, a.y - b.y)
  }

  /** The componentwise product `Vector2i * Vector2i` evidently means. */
  function Hadamard2i(a: Vector2i, b: Vector2i): Vector2i {
    Vector2i(a.x * b.x, a.y * b.y)
  }

  /** `magnitude()` of a `Vector2i` before its square root. */
  function MagnitudeSquared2i(v: Vector2i): (r: int)
    ensures r >= 0
    ensures r == 0 <==> v == Vector2i(0, 0)
  {
    v.x * v.x + v.y * v.y
  }

  lemma AddSubRoundTrip2i(a: Vector2i, b: Vector2i)
    ensures Sub2i(Add2i(a, b), b) == a
  {
  }

  /** As written, multiplying by the unit vector (1, 1) does not give the vector back. */
  lemma Mul2iUnitCounterexample()
    ensures Mul2i(Vector2i(2, 3), Vector2i(1, 1)) != Vector2i(2, 3)
  {
  }

  /** The corrected product has (1, 1) as unit and commutes. */
  lemma Hadamard2iLaws(a: Vector2i, b: Vector2i)
    ensures Hadamard2i(a, Vector2i(1, 1)) == a
    ensures Hadamard2i(a, b) == Hadamard2i(b, a)
  {
  }

  // ---- Vector3 ----

  function Add3(a: Vector3, b: Vector3): Vector3 {
    Vector3(a.x + b.x, a.y + b.y, a.z + b.z)
  }

  function Sub3(a: Vector3, b: Vector3): Vector3 {
    Vector3(a.x - b.x, a.y - b.y, a.z - b.z)
  }

  /** `Vector3 * Vector3` as written: its z component is `y * rhs.y` (see Findings in README). */
  function Mul3(a: Vector3, b: Vector3): Vector3 {
    Vector3(a.x * b.x, a.y * b.y, a.y * b.y)
  }

  /** The componentwise product `Vector3 * Vector3` evidently means. */
  function Hadamard3(a: Vector3, b: Vector3): Vector3 {
    Vector3(a.x * b.x, a.y * b.y, a.z * b.z)
  }

  /** `Vector3 * f64`. */
  function Scaled3(v: Vector3, k: real): Vector3 {
    Vector3(v.x * k, v.y * k, v.z * k)
  }

  /** `magnitude()` of a `Vector3` before its square root. */
  function MagnitudeSquared3(v: Vector3): (r: real)
    ensures r >= 0.0
  {
    SquareNonNegative(v.x); SquareNonNegative(v.y); SquareNonNegative(v.z);
    v.x * v.x + v.y * v.y + v.z * v.z
  }

  lemma AddSubRoundTrip3(a: Vector3, b: Vector3)
    ensures Sub3(Add3(a, b), b) == a
  {
  }

  /** As written, the product does not scale z: (1, 1, 2) * (1, 1, 3) has z = 1, not 6. */
  lemma Mul3Counterexample()
    ensures Mul3(Vector3(1.0, 1.0, 2.0), Vector3(1.0, 1.0, 3.0)).z == 1.0
    ensures Hadamard3(Vector3(1.0, 1.0, 2.0), Vector3(1.0, 1.0, 3.0)).z == 6.0
  {
  }

  /** The corrected product has (1, 1, 1) as unit, commutes, and scaling by k is the
      product with (k, k, k). */
  lemma Hadamard3Laws(a: Vector3, b: Vector3, k: real)
    ensures Hadamard3(a, Vector3(1.0, 1.0, 1.0)) == a
    ensures Hadamard3(a, b) == Hadamard3(b, a)
    ensures Scaled3(a, k) == Hadamard3(a, Vector3(k, k, k))
  {
  }

  // ---- Vector4 ----

  function Add4(a: Vector4, b: Vector4): Vector4 {
    Vector4(a.x + b.x, a.y + b.y, a.z + b.z, a.w + b.w)
  }

  function Sub4(a: Vector4, b: Vector4): Vector4 {
    Vector4(a.x - b.x, a.y - b.y, a.z - b.z, a.w - b.w)
  }

  function Mul4(a: Vector4, b: Vector4): Vector4 {
    Vector4(a.x * b.x, a.y * b.y, a.z * b.z, a.w * b.w)
  }

  /** `magnitude()` of a `Vector4` before its square root. */
  function MagnitudeSquared4(v: Vector4): (r: real)
    ensures r >= 0.0
  {
    SquareNonNegative(v.x); SquareNonNegative(v.y); SquareNonNegative(v.z); SquareNonNegative(v.w);
    v.x * v.x + v.y * v.y + v.z * v.z + v.w * v.w
  }

  lemma AddSubRoundTrip4(a: Vector4, b: Vector4)
    ensures Sub4(Add4(a, b), b) == a
  {
  }

  lemma Mul4Laws(a: Vector4, b: Vector4)
    ensures Mul4(a, Vector4(1.0, 1.0, 1.0, 1.0)) == a
    ensures Mul4(a, b) == Mul4(b, a)
  {
  }

  // ---- conversions ----

  /** `Vector4::from(&Vector3)`: homogeneous form with w = 1. */
  function Promote(v: Vector3): (r: Vector4)
    ensures r.w == 1.0
  {
    Vector4(v.x, v.y, v.z, 1.0)
  }

  /** `Vector3::from(&Vector4)`: drops w. */
  function Demote(v: Vector4): Vector3 {
    Vector3(v.x, v.y, v.z)
  }

  /** Promotion is lossless, and demotion loses only w. */
  lemma PromoteDemote(v: Vector3, u: Vector4)
    ensures Demote(Promote(v)) == v
    ensures u.w == 1.0 ==> Promote(Demote(u)) == u
  {
  }
}
