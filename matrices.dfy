/** 4x4 transform matrices over reals, stored row-major as in `[[f64; 4]; 4]`. */
module Matrices {
  import opened Vectors

  predicate IsMat4(m: seq<seq<real>>) {
    |m| == 4 && forall i :: 0 <= i < 4 ==> |m[i]| == 4
  }

  type Mat4 = m: seq<seq<real>> | IsMat4(m)
    witness [[0.0, 0.0, 0.0, 0.0], [0.0, 0.0, 0.0, 0.0], [0.0, 0.0, 0.0, 0.0], [0.0, 0.0, 0.0, 0.0]]

  /** `Mat4::empty()`. */
  function Empty(): Mat4 {
    [[0.0, 0.0, 0.0, 0.0],
     [0.0, 0.0, 0.0, 0.0],
     [0.0, 0.0, 0.0, 0.0],
     [0.0, 0.0, 0.0, 0.0]]
  }

  /** `Mat4::identity()`. */
  function Identity(): Mat4 {
    [[1.0, 0.0, 0.0, 0.0],
     [0.0, 1.0, 0.0, 0.0],
     [0.0, 0.0, 1.0, 0.0],
     [0.0, 0.0, 0.0, 1.0]]
  }

  /** `Mat4::scale(s)`. */
  function Scale(s: Vector3): Mat4 {
    [[s.x, 0.0, 0.0, 0.0],
     [0.0, s.y, 0.0, 0.0],
     [0.0, 0.0, s.z, 0.0],
     [0.0, 0.0, 0.0, 1.0]]
  }

  /** `Mat4::translation(t)`: the offset sits in the last column. */
  function Translation(t: Vector3): Mat4 {
    [[1.0, 0.0, 0.0, t.x],
     [0.0, 1.0, 0.0, t.y],
     [0.0, 0.0, 1.0, t.z],
     [0.0, 0.0, 0.0, 1.0]]
  }

  /** Rotation about x, given the sine and cosine of the angle. */
  function RotationX(sin: real, cos: real): Mat4 {
    [[1.0, 0.0, 0.0, 0.0],
     [0.0, cos, -sin, 0.0],
     [0.0, sin, cos, 0.0],
     [0.0, 0.0, 0.0, 1.0]]
  }

  /** Rotation about y, given the sine and cosine of the angle. */
  function RotationY(sin: real, cos: real): Mat4 {
    [[cos, 0.0, sin, 0.0],
     [0.0, 1.0, 0.0, 0.0],
     [-sin, 0.0, cos, 0.0],
     [0.0, 0.0, 0.0, 1.0]]
  }

  /** Rotation about z, given the sine and cosine of the angle. */
  function RotationZ(sin: real, cos: real): Mat4 {
    [[cos, -sin, 0.0, 0.0],
     [sin, cos, 0.0, 0.0],
     [0.0, 0.0, 1.0, 0.0],
     [0.0, 0.0, 0.0, 1.0]]
  }

  /** Entry (row, column) of `a * b`: the row of `a` against the column of `b`. */
  function ProductEntry(a: Mat4, b: Mat4, row: nat, column: nat): real
    requires row < 4 && column < 4
  {
    a[row][0] * b[0][column] +
    a[row][1] * b[1][column] +
    a[row][2] * b[2][column] +
    a[row][3] * b[3][column]
  }

  /** `Mat4 * Mat4`, the ordinary matrix product. */
  function Product(a: Mat4, b: Mat4): Mat4 {
    seq(4, row requires 0 <= row < 4 =>
      seq(4, column requires 0 <= column < 4 => ProductEntry(a, b, row, column)))
  }

  /** `Mat4::euler_rotation`: Rx * Ry * Rz built from caller-supplied sines and cosines. */
  function EulerRotation(sinX: real, cosX: real, sinY: real, cosY: real, sinZ: real, cosZ: real): Mat4 {
    Product(Product(RotationX(sinX, cosX), RotationY(sinY, cosY)), RotationZ(sinZ, cosZ))
  }

  /** `Vector4 * &Mat4`: despite the operand order, row i of the matrix is dotted with the
      vector, so this is M v with v a column vector. */
  function Apply(m: Mat4, v: Vector4): Vector4 {
    Vector4(
      v.x * m[0][0] + v.y * m[0][1] + v.z * m[0][2] + v.w * m[0][3],
      v.x * m[1][0] + v.y * m[1][1] + v.z * m[1][2] + v.w * m[1][3],
      v.x * m[2][0] + v.y * m[2][1] + v.z * m[2][2] + v.w * m[2][3],
      v.x * m[3][0] + v.y * m[3][1] + v.z * m[3][2] + v.w * m[3][3])
  }

  /** The matrix product as the source computes it: a zeroed local 4x4 array filled by two
      nested loops. */
  method Multiply(a: Mat4, b: Mat4) returns (r: Mat4)
    ensures r == Product(a, b)
  {
    var result := new real[4, 4]((_, _) => 0.0);
    for row := 0 to 4
      invariant forall i, j :: 0 <= i < row && 0 <= j < 4 ==> result[i, j] == ProductEntry(a, b, i, j)
    {
      for column := 0 to 4
        invariant forall i, j :: 0 <= i < row && 0 <= j < 4 ==> result[i, j] == ProductEntry(a, b, i, j)
        invariant forall j :: 0 <= j < column ==> result[row, j] == ProductEntry(a, b, row, j)
      {
        result[row, column] :=
          a[row][0] * b[0][column] +
          a[row][1] * b[1][column] +
          a[row][2] * b[2][column] +
          a[row][3] * b[3][column];
      }
    }
    r := seq(4, i requires 0 <= i < 4 reads result =>
           seq(4, j requires 0 <= j < 4 reads result => result[i, j]));
    assert forall i :: 0 <= i < 4 ==> r[i] == Product(a, b)[i];
  }

  /** The identity matrix is a two-sided unit of the product. */
  lemma ProductIdentity(m: Mat4)
    ensures Product(Identity(), m) == m
    ensures Product(m, Identity()) == m
  {
    forall i | 0 <= i < 4
      ensures Product(Identity(), m)[i] == m[i] && Product(m, Identity())[i] == m[i]
    {
      forall j | 0 <= j < 4
        ensures Product(Identity(), m)[i][j] == m[i][j] && Product(m, Identity())[i][j] == m[i][j]
      {
        assert i == 0 || i == 1 || i == 2 || i == 3;
        assert j == 0 || j == 1 || j == 2 || j == 3;
      }
    }
  }

  /** Applying the identity leaves every vector as it is. */
  lemma ApplyIdentity(v: Vector4)
    ensures Apply(Identity(), v) == v
  {
  }

  /** A translation moves a point (w = 1) by t, because w multiplies the last column. */
  lemma ApplyTranslation(t: Vector3, p: Vector3)
    ensures Apply(Translation(t), Promote(p)) == Promote(Add3(p, t))
  {
  }

  /** A scale matrix multiplies a point componentwise. */
  lemma ApplyScale(s: Vector3, p: Vector3)
    ensures Apply(Scale(s), Promote(p)) == Promote(Hadamard3(p, s))
  {
  }

  /** With every angle zero (sine 0, cosine 1) the Euler rotation is the identity. */
  lemma EulerRotationAtZero()
    ensures EulerRotation(0.0, 1.0, 0.0, 1.0, 0.0, 1.0) == Identity()
  {
    assert RotationX(0.0, 1.0) == Identity();
    assert RotationY(0.0, 1.0) == Identity();
    assert RotationZ(0.0, 1.0) == Identity();
    ProductIdentity(Identity());
  }

  /** Rotation about x leaves a vector's x and w as they are. */
  lemma RotationXKeepsAxis(sin: real, cos: real, v: Vector4)
    ensures Apply(RotationX(sin, cos), v).x == v.x && Apply(RotationX(sin, cos), v).w == v.w
  {
  }

  /** Rotation about y leaves a vector's y and w as they are. */
  lemma RotationYKeepsAxis(sin: real, cos: real, v: Vector4)
    ensures Apply(RotationY(sin, cos), v).y == v.y && Apply(RotationY(sin, cos), v).w == v.w
  {
  }

  /** Rotation about z leaves a vector's z and w as they are. */
  lemma RotationZKeepsAxis(sin: real, cos: real, v: Vector4)
    ensures Apply(RotationZ(sin, cos), v).z == v.z && Apply(RotationZ(sin, cos), v).w == v.w
  {
  }

  /** The matrix's last row is (0, 0, 0, 1): it maps points to points and directions to
      directions. */
  predicate Affine(m: Mat4) {
    m[3] == [0.0, 0.0, 0.0, 1.0]
  }

  /** A product of two such matrices is one too. */
  lemma ProductAffine(a: Mat4, b: Mat4)
    requires Affine(a) && Affine(b)
    ensures Affine(Product(a, b))
  {
    var r := Product(a, b);
    assert r[3][0] == ProductEntry(a, b, 3, 0) == 0.0;
    assert r[3][1] == ProductEntry(a, b, 3, 1) == 0.0;
    assert r[3][2] == ProductEntry(a, b, 3, 2) == 0.0;
    assert r[3][3] == ProductEntry(a, b, 3, 3) == 1.0;
  }

  /** Such a matrix keeps every vector's w. */
  lemma ApplyAffine(m: Mat4, v: Vector4)
    requires Affine(m)
    ensures Apply(m, v).w == v.w
  {
  }

  /** For every angle the Euler rotation keeps the last row (0, 0, 0, 1), so it keeps every
      vector's w: a point stays a point. */
  lemma EulerRotationKeepsW(sinX: real, cosX: real, sinY: real, cosY: real, sinZ: real, cosZ: real, v: Vector4)
    ensures Affine(EulerRotation(sinX, cosX, sinY, cosY, sinZ, cosZ))
    ensures Apply(EulerRotation(sinX, cosX, sinY, cosY, sinZ, cosZ), v).w == v.w
  {
    ProductAffine(RotationX(sinX, cosX), RotationY(sinY, cosY));
    ProductAffine(Product(RotationX(sinX, cosX), RotationY(sinY, cosY)), RotationZ(sinZ, cosZ));
    ApplyAffine(EulerRotation(sinX, cosX, sinY, cosY, sinZ, cosZ), v);
  }
}
