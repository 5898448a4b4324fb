/**
 * The slice of numpy's dense linear algebra that the rigid-body code uses:
 * vectors and row-major matrices of exact reals, with identity, transpose,
 * matrix products, sums and scalings.
 */
module Matrices {

  type Vector = seq<real>
  type Matrix = seq<seq<real>>

  /** `a` has `m` rows of `n` entries each. */
  predicate IsMatrix(a: Matrix, m: nat, n: nat) {
    |a| == m && forall i :: 0 <= i < m ==> |a[i]| == n
  }

  /** `np.eye(n)`. */
  function Identity(n: nat): (r: Matrix)
    ensures IsMatrix(r, n, n)
    ensures forall i, j :: 0 <= i < n && 0 <= j < n ==> r[i][j] == (if i == j then 1.0 else 0.0)
  {
    seq(n, i => seq(n, j => if i == j then 1.0 else 0.0))
  }

  /** `np.zeros((m, n))`. */
  function Zeros(m: nat, n: nat): (r: Matrix)
    ensures IsMatrix(r, m, n)
    ensures forall i, j :: 0 <= i < m && 0 <= j < n ==> r[i][j] == 0.0
  {
    seq(m, i => seq(n, j => 0.0))
  }

  /** Two matrices of the same shape are equal when all their entries are. */
  lemma {:induction false} EqualByEntries(a: Matrix, b: Matrix, m: nat, n: nat)
    requires IsMatrix(a, m, n) && IsMatrix(b, m, n)
    requires forall i, j :: 0 <= i < m && 0 <= j < n ==> a[i][j] == b[i][j]
    ensures a == b
  {
    forall i | 0 <= i < m ensures a[i] == b[i] {
      assert forall j :: 0 <= j < n ==> a[i][j] == b[i][j];
    }
  }

  /** The inner product `u @ v` of two vectors of equal length. */
  function Dot(u: Vector, v: Vector): real
    requires |u| == |v|
  {
    if |u| == 0 then 0.0 else u[0] * v[0] + Dot(u[1..], v[1..])
  }

  lemma Dot3(u: Vector, v: Vector)
    requires |u| == |v| == 3
    ensures Dot(u, v) == u[0] * v[0] + u[1] * v[1] + u[2] * v[2]
  {
    var u1, v1 := u[1..], v[1..];
    var u2, v2 := u1[1..], v1[1..];
    assert u2[1..] == [] && v2[1..] == [];
    assert Dot(u2, v2) == u[2] * v[2] + Dot(u2[1..], v2[1..]);
    assert Dot(u1, v1) == u[1] * v[1] + Dot(u2, v2);
  }

  lemma Dot4(u: Vector, v: Vector)
    requires |u| == |v| == 4
    ensures Dot(u, v) == u[0] * v[0] + u[1] * v[1] + u[2] * v[2] + u[3] * v[3]
  {
    Dot3(u[1..], v[1..]);
  }

  /** The inner product of two 3-vectors given entry by entry. */
  lemma Dot3Of(u: Vector, v: Vector, a0: real, a1: real, a2: real, b0: real, b1: real, b2: real)
    requires |u| == |v| == 3
    requires u[0] == a0 && u[1] == a1 && u[2] == a2
    requires v[0] == b0 && v[1] == b1 && v[2] == b2
    ensures Dot(u, v) == a0 * b0 + a1 * b1 + a2 * b2
  {
    Dot3(u, v);
  }

  /** The inner product of two 4-vectors given entry by entry. */
  lemma Dot4Of(u: Vector, v: Vector, a0: real, a1: real, a2: real, a3: real,
               b0: real, b1: real, b2: real, b3: real)
    requires |u| == |v| == 4
    requires u[0] == a0 && u[1] == a1 && u[2] == a2 && u[3] == a3
    requires v[0] == b0 && v[1] == b1 && v[2] == b2 && v[3] == b3
    ensures Dot(u, v) == a0 * b0 + a1 * b1 + a2 * b2 + a3 * b3
  {
    Dot4(u, v);
  }

  /** The inner product of two 4-vectors the second of which ends in 0. */
  lemma Dot4LastZero(u: Vector, v: Vector, a0: real, a1: real, a2: real, b0: real, b1: real, b2: real)
    requires |u| == |v| == 4
    requires u[0] == a0 && u[1] == a1 && u[2] == a2
    requires v[0] == b0 && v[1] == b1 && v[2] == b2 && v[3] == 0.0
    ensures Dot(u, v) == a0 * b0 + a1 * b1 + a2 * b2
  {
    Dot4(u, v);
  }

  /** Column `j` of `b`. */
  function Column(b: Matrix, j: nat): (c: Vector)
    requires forall k :: 0 <= k < |b| ==> j < |b[k]|
    ensures |c| == |b|
    ensures forall k :: 0 <= k < |b| ==> c[k] == b[k][j]
  {
    seq(|b|, k requires 0 <= k < |b| => b[k][j])
  }

  /** The matrix product `a @ b` of an m-by-k and a k-by-n matrix. */
  function MatMul(a: Matrix, b: Matrix, m: nat, k: nat, n: nat): (c: Matrix)
    requires IsMatrix(a, m, k) && IsMatrix(b, k, n)
    ensures IsMatrix(c, m, n)
    ensures forall i, j :: 0 <= i < m && 0 <= j < n ==> c[i][j] == Dot(a[i], Column(b, j))
  {
    seq(m, i requires 0 <= i < m => seq(n, j requires 0 <= j < n => Dot(a[i], Column(b, j))))
  }

  /** The matrix-vector product `a @ v`. */
  function MatVec(a: Matrix, v: Vector): (w: Vector)
    requires IsMatrix(a, |a|, |v|)
    ensures |w| == |a|
    ensures forall i :: 0 <= i < |a| ==> w[i] == Dot(a[i], v)
  {
    seq(|a|, i requires 0 <= i < |a| => Dot(a[i], v))
  }

  /** `a.T` for an m-by-n matrix. */
  function Transpose(a: Matrix, m: nat, n: nat): (t: Matrix)
    requires IsMatrix(a, m, n)
    ensures IsMatrix(t, n, m)
    ensures forall i, j :: 0 <= i < n && 0 <= j < m ==> t[i][j] == a[j][i]
  {
    seq(n, i requires 0 <= i < n => seq(m, j requires 0 <= j < m => a[j][i]))
  }

  function MatAdd(a: Matrix, b: Matrix, m: nat, n: nat): (c: Matrix)
    requires IsMatrix(a, m, n) && IsMatrix(b, m, n)
    ensures IsMatrix(c, m, n)
    ensures forall i, j :: 0 <= i < m && 0 <= j < n ==> c[i][j] == a[i][j] + b[i][j]
  {
    seq(m, i requires 0 <= i < m => seq(n, j requires 0 <= j < n => a[i][j] + b[i][j]))
  }

  function MatScale(s: real, a: Matrix, m: nat, n: nat): (c: Matrix)
    requires IsMatrix(a, m, n)
    ensures IsMatrix(c, m, n)
    ensures forall i, j :: 0 <= i < m && 0 <= j < n ==> c[i][j] == s * a[i][j]
  {
    seq(m, i requires 0 <= i < m => seq(n, j requires 0 <= j < n => s * a[i][j]))
  }

  function VecAdd(u: Vector, v: Vector): (w: Vector)
    requires |u| == |v|
    ensures |w| == |u|
    ensures forall i :: 0 <= i < |u| ==> w[i] == u[i] + v[i]
  {
    seq(|u|, i requires 0 <= i < |u| => u[i] + v[i])
  }

  function VecScale(s: real, v: Vector): (w: Vector)
    ensures |w| == |v|
    ensures forall i :: 0 <= i < |v| ==> w[i] == s * v[i]
  {
    seq(|v|, i requires 0 <= i < |v| => s * v[i])
  }

  /** `-v`. */
  function Neg(v: Vector): (w: Vector)
    ensures |w| == |v|
    ensures forall i :: 0 <= i < |v| ==> w[i] == -v[i]
  {
    seq(|v|, i requires 0 <= i < |v| => -v[i])
  }

  /** The cross product `u x v` of two 3-vectors. */
  function Cross(u: Vector, v: Vector): (w: Vector)
    requires |u| == 3 && |v| == 3
    ensures |w| == 3
  {
    [u[1] * v[2] - u[2] * v[1], u[2] * v[0] - u[0] * v[2], u[0] * v[1] - u[1] * v[0]]
  }
}
