/** The rotation matrix initFromQuaternion builds from a quaternion
    (w, x, y, z) = (q[0], q[1], q[2], q[3]). */
module Quaternions {
  import opened Grids

  function SumOfSquares(w: real, x: real, y: real, z: real): (s: real) {
    w * w + x * x + y * y + z * z
  }

  /** The squared norm of the quaternion `q`. */
  function Norm2(q: seq<real>): (s: real)
    requires |q| == 4
  {
    SumOfSquares(q[0], q[1], q[2], q[3])
  }

  /** The nine entries initFromQuaternion writes for (w, x, y, z). */
  function Rotation(w: real, x: real, y: real, z: real): (g: Grid)
    ensures IsSquare(g, 3)
  {
    [[w * w + x * x - y * y - z * z, 2.0 * (x * y - w * z), 2.0 * (x * z + w * y)],
     [2.0 * (x * y + w * z), w * w - x * x + y * y - z * z, 2.0 * (y * z - w * x)],
     [2.0 * (x * z - w * y), 2.0 * (y * z + w * x), w * w - x * x - y * y + z * z]]
  }

  function RotationFromQuaternion(q: seq<real>): (g: Grid)
    requires |q| == 4
    ensures IsSquare(g, 3)
  {
    Rotation(q[0], q[1], q[2], q[3])
  }

  /** The unit quaternion (1, 0, 0, 0) gives the identity. */
  lemma UnitQuaternionGivesIdentity()
    ensures RotationFromQuaternion([1.0, 0.0, 0.0, 0.0]) == Identity(3)
  {
    GridsEqual(RotationFromQuaternion([1.0, 0.0, 0.0, 0.0]), Identity(3), 3);
  }

  /** q and -q give the same matrix (the double cover of rotations). */
  lemma OppositeQuaternionSameRotation(q: seq<real>)
    requires |q| == 4
    ensures RotationFromQuaternion([-q[0], -q[1], -q[2], -q[3]]) == RotationFromQuaternion(q)
  {
    var w, x, y, z := q[0], q[1], q[2], q[3];
    NegatedProducts(w, x, y, z);
    var a, b := Rotation(-w, -x, -y, -z), Rotation(w, x, y, z);
    assert a[0][0] == b[0][0] && a[0][1] == b[0][1] && a[0][2] == b[0][2];
    assert a[1][0] == b[1][0] && a[1][1] == b[1][1] && a[1][2] == b[1][2];
    assert a[2][0] == b[2][0] && a[2][1] == b[2][1] && a[2][2] == b[2][2];
    GridsEqual(a, b, 3);
  }

  lemma NegatedProducts(w: real, x: real, y: real, z: real)
    ensures (-w) * (-w) == w * w && (-x) * (-x) == x * x && (-y) * (-y) == y * y && (-z) * (-z) == z * z
    ensures (-x) * (-y) == x * y && (-w) * (-z) == w * z && (-x) * (-z) == x * z
    ensures (-w) * (-y) == w * y && (-y) * (-z) == y * z && (-w) * (-x) == w * x
  {
  }

  /** For a normalised quaternion the trace is 4w² - 1. */
  lemma TraceOfRotation(q: seq<real>)
    requires |q| == 4 && Norm2(q) == 1.0
    ensures Trace(RotationFromQuaternion(q), 3) == 4.0 * q[0] * q[0] - 1.0
  {
    TraceThree(RotationFromQuaternion(q));
  }

  lemma InnerSymmetric(a0: real, a1: real, a2: real, b0: real, b1: real, b2: real)
    ensures Inner(a0, a1, a2, b0, b1, b2) == Inner(b0, b1, b2, a0, a1, a2)
  {
  }

  lemma RowLength0(w: real, x: real, y: real, z: real)
    ensures Inner(w * w + x * x - y * y - z * z, 2.0 * (x * y - w * z), 2.0 * (x * z + w * y),
                  w * w + x * x - y * y - z * z, 2.0 * (x * y - w * z), 2.0 * (x * z + w * y))
      == SumOfSquares(w, x, y, z) * SumOfSquares(w, x, y, z)
  {
  }

  lemma RowLength1(w: real, x: real, y: real, z: real)
    ensures Inner(2.0 * (x * y + w * z), w * w - x * x + y * y - z * z, 2.0 * (y * z - w * x),
                  2.0 * (x * y + w * z), w * w - x * x + y * y - z * z, 2.0 * (y * z - w * x))
      == SumOfSquares(w, x, y, z) * SumOfSquares(w, x, y, z)
  {
  }

  lemma RowLength2(w: real, x: real, y: real, z: real)
    ensures Inner(2.0 * (x * z - w * y), 2.0 * (y * z + w * x), w * w - x * x - y * y + z * z,
                  2.0 * (x * z - w * y), 2.0 * (y * z + w * x), w * w - x * x - y * y + z * z)
      == SumOfSquares(w, x, y, z) * SumOfSquares(w, x, y, z)
  {
  }

  lemma RowsOrthogonal01(w: real, x: real, y: real, z: real)
    ensures Inner(w * w + x * x - y * y - z * z, 2.0 * (x * y - w * z), 2.0 * (x * z + w * y),
                  2.0 * (x * y + w * z), w * w - x * x + y * y - z * z, 2.0 * (y * z - w * x)) == 0.0
  {
  }

  lemma RowsOrthogonal02(w: real, x: real, y: real, z: real)
    ensures Inner(w * w + x * x - y * y - z * z, 2.0 * (x * y - w * z), 2.0 * (x * z + w * y),
                  2.0 * (x * z - w * y), 2.0 * (y * z + w * x), w * w - x * x - y * y + z * z) == 0.0
  {
  }

  lemma RowsOrthogonal12(w: real, x: real, y: real, z: real)
    ensures Inner(2.0 * (x * y + w * z), w * w - x * x + y * y - z * z, 2.0 * (y * z - w * x),
                  2.0 * (x * z - w * y), 2.0 * (y * z + w * x), w * w - x * x - y * y + z * z) == 0.0
  {
  }

  /** The rotation matrix times its transpose: rows have squared length
      (w² + x² + y² + z²)² and are pairwise orthogonal. */
  lemma RowProducts(w: real, x: real, y: real, z: real)
    ensures var m, s2 := Rotation(w, x, y, z), SumOfSquares(w, x, y, z) * SumOfSquares(w, x, y, z);
      forall r, c :: 0 <= r < 3 && 0 <= c < 3 ==>
        Mul(m, Transpose(m, 3), 3)[r][c] == if r == c then s2 else 0.0
  {
    var m := Rotation(w, x, y, z);
    assert m[0] == [w * w + x * x - y * y - z * z, 2.0 * (x * y - w * z), 2.0 * (x * z + w * y)];
    assert m[1] == [2.0 * (x * y + w * z), w * w - x * x + y * y - z * z, 2.0 * (y * z - w * x)];
    assert m[2] == [2.0 * (x * z - w * y), 2.0 * (y * z + w * x), w * w - x * x - y * y + z * z];
    RowLength0(w, x, y, z);
    RowLength1(w, x, y, z);
    RowLength2(w, x, y, z);
    RowsOrthogonal01(w, x, y, z);
    RowsOrthogonal02(w, x, y, z);
    RowsOrthogonal12(w, x, y, z);
    InnerSymmetric(m[0][0], m[0][1], m[0][2], m[1][0], m[1][1], m[1][2]);
    InnerSymmetric(m[0][0], m[0][1], m[0][2], m[2][0], m[2][1], m[2][2]);
    InnerSymmetric(m[1][0], m[1][1], m[1][2], m[2][0], m[2][1], m[2][2]);
    MulTransposeAllThree(m);
  }

  /** The matrix times its transpose is |q|⁴ times the identity: rows have
      squared length |q|⁴ and are pairwise orthogonal. */
  lemma RotationTimesTranspose(q: seq<real>)
    requires |q| == 4
    ensures forall r, c :: 0 <= r < 3 && 0 <= c < 3 ==>
      Mul(RotationFromQuaternion(q), Transpose(RotationFromQuaternion(q), 3), 3)[r][c] ==
        if r == c then Norm2(q) * Norm2(q) else 0.0
  {
    RowProducts(q[0], q[1], q[2], q[3]);
  }

  /** For a normalised quaternion the matrix is orthogonal. */
  lemma RotationIsOrthogonal(q: seq<real>)
    requires |q| == 4 && Norm2(q) == 1.0
    ensures Mul(RotationFromQuaternion(q), Transpose(RotationFromQuaternion(q), 3), 3) == Identity(3)
  {
    RotationTimesTranspose(q);
    GridsEqual(Mul(RotationFromQuaternion(q), Transpose(RotationFromQuaternion(q), 3), 3), Identity(3), 3);
  }
}
