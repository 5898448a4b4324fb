/**
 * SO(3) helpers of src/robotics/math/so3.py: the hat map from 3-vectors to
 * skew-symmetric matrices, its inverse vee, and Rodrigues' exponential.
 * Sine, cosine and the square root behind the vector norm are supplied by
 * the caller (see Support.Elementary).
 */
module SO3 {
  import opened Support
  import opened Matrices

  /** A 3x3 matrix whose transpose is its negation (an element of so(3)). */
  predicate IsSkew(m: Matrix) {
    IsMatrix(m, 3, 3) && forall i, j :: 0 <= i < 3 && 0 <= j < 3 ==> m[j][i] == -m[i][j]
  }

  /**
   * `hat(omega)`: the skew-symmetric matrix whose entries below the
   * diagonal, read at (2,1), (0,2) and (1,0), are omega's x, y and z.
   */
  function Hat(w: Vector): (m: Matrix)
    requires |w| == 3
    ensures IsSkew(m)
    ensures forall i :: 0 <= i < 3 ==> m[i][i] == 0.0
    ensures m[2][1] == w[0] && m[0][2] == w[1] && m[1][0] == w[2]
  {
    [[0.0, -w[2], w[1]], [w[2], 0.0, -w[0]], [-w[1], w[0], 0.0]]
  }

  /** `vee(omega_hat)`: the 3-vector stored in entries (2,1), (0,2), (1,0). */
  function Vee(m: Matrix): (w: Vector)
    requires IsMatrix(m, 3, 3)
    ensures |w| == 3
  {
    [m[2][1], m[0][2], m[1][0]]
  }

  /** The transpose of `hat(omega)` is its negation. */
  lemma HatTransposeIsNegation(w: Vector)
    requires |w| == 3
    ensures Transpose(Hat(w), 3, 3) == MatScale(-1.0, Hat(w), 3, 3)
  {
    EqualByEntries(Transpose(Hat(w), 3, 3), MatScale(-1.0, Hat(w), 3, 3), 3, 3);
  }

  /** vee undoes hat. */
  lemma VeeHat(w: Vector)
    requires |w| == 3
    ensures Vee(Hat(w)) == w
  {
  }

  /** hat undoes vee on every skew-symmetric matrix. */
  lemma HatVee(m: Matrix)
    requires IsSkew(m)
    ensures Hat(Vee(m)) == m
  {
    var h := Hat(Vee(m));
    forall i, j | 0 <= i < 3 && 0 <= j < 3 ensures h[i][j] == m[i][j] {
      assert m[i][j] == -m[j][i];
    }
    EqualByEntries(h, m, 3, 3);
  }

  /** vee reads only entries (2,1), (0,2) and (1,0) of its argument. */
  lemma VeeReadsThreeEntries(a: Matrix, b: Matrix)
    requires IsMatrix(a, 3, 3) && IsMatrix(b, 3, 3)
    requires a[2][1] == b[2][1] && a[0][2] == b[0][2] && a[1][0] == b[1][0]
    ensures Vee(a) == Vee(b)
  {
  }

  /** Multiplying by `hat(omega)` is taking the cross product with omega. */
  lemma HatIsCross(w: Vector, v: Vector)
    requires |w| == 3 && |v| == 3
    ensures MatVec(Hat(w), v) == Cross(w, v)
  {
    var h, m := Hat(w), MatVec(Hat(w), v);
    Dot3(h[0], v);
    Dot3(h[1], v);
    Dot3(h[2], v);
    assert m[0] == w[1] * v[2] - w[2] * v[1];
    assert m[1] == w[2] * v[0] - w[0] * v[2];
    assert m[2] == w[0] * v[1] - w[1] * v[0];
  }

  lemma HatScale(a: real, u: Vector)
    requires |u| == 3
    ensures MatScale(a, Hat(u), 3, 3) == Hat(VecScale(a, u))
  {
    var su := VecScale(a, u);
    var lhs, rhs := MatScale(a, Hat(u), 3, 3), Hat(su);
    assert su[0] == a * u[0] && su[1] == a * u[1] && su[2] == a * u[2];
    forall i, j | 0 <= i < 3 && 0 <= j < 3 ensures lhs[i][j] == rhs[i][j] {
      assert lhs[i][j] == a * Hat(u)[i][j];
    }
    EqualByEntries(lhs, rhs, 3, 3);
  }

  lemma HatAdd(u: Vector, v: Vector)
    requires |u| == 3 && |v| == 3
    ensures MatAdd(Hat(u), Hat(v), 3, 3) == Hat(VecAdd(u, v))
  {
    var lhs, rhs := MatAdd(Hat(u), Hat(v), 3, 3), Hat(VecAdd(u, v));
    EqualByEntries(lhs, rhs, 3, 3);
  }

  /** hat is linear: hat(a u + b v) == a hat(u) + b hat(v). */
  lemma HatLinear(a: real, u: Vector, b: real, v: Vector)
    requires |u| == 3 && |v| == 3
    ensures Hat(VecAdd(VecScale(a, u), VecScale(b, v)))
         == MatAdd(MatScale(a, Hat(u), 3, 3), MatScale(b, Hat(v), 3, 3), 3, 3)
  {
    HatScale(a, u);
    HatScale(b, v);
    HatAdd(VecScale(a, u), VecScale(b, v));
  }

  /**
   * `exp(omega, theta)`, Rodrigues' formula: the identity when omega has
   * norm zero, otherwise I + sin(theta) K + (1 - cos(theta)) K @ K with K
   * the hat of omega / |omega|.
   */
  function Exp(w: Vector, theta: real, f: Elementary): (r: Matrix)
    requires |w| == 3
    ensures IsMatrix(r, 3, 3)
  {
    var norm := f.sqrt(Dot(w, w));
    if norm == 0.0 then Identity(3)
    else
      var k := Hat(VecScale(1.0 / norm, w));
      MatAdd(MatAdd(Identity(3), MatScale(f.sin(theta), k, 3, 3), 3, 3),
             MatScale(1.0 - f.cos(theta), MatMul(k, k, 3, 3, 3), 3, 3), 3, 3)
  }

  /** A zero axis gives the identity rotation whatever the angle. */
  lemma ExpZeroAxis(theta: real, f: Elementary)
    requires f.sqrt(0.0) == 0.0
    ensures Exp([0.0, 0.0, 0.0], theta, f) == Identity(3)
  {
    Dot3([0.0, 0.0, 0.0], [0.0, 0.0, 0.0]);
  }

  /** A zero angle gives the identity rotation for every axis. */
  lemma ExpZeroAngle(w: Vector, f: Elementary)
    requires |w| == 3
    requires f.sin(0.0) == 0.0 && f.cos(0.0) == 1.0
    ensures Exp(w, 0.0, f) == Identity(3)
  {
    var r := Exp(w, 0.0, f);
    forall i, j | 0 <= i < 3 && 0 <= j < 3 ensures r[i][j] == Identity(3)[i][j] {
    }
    EqualByEntries(r, Identity(3), 3, 3);
  }
}
