/**
 * SE(3) helpers of src/robotics/math/se3.py over 4x4 homogeneous
 * transforms: building one from a rotation and a translation, the
 * closed-form inverse, and the 6x6 adjoint.
 */
module SE3 {
  import opened Matrices
  import SO3

  /** The last row of every homogeneous transform. */
  const BottomRow: Vector := [0.0, 0.0, 0.0, 1.0]

  /** A 4x4 matrix whose last row is [0, 0, 0, 1]. */
  predicate IsHomogeneous(t: Matrix) {
    IsMatrix(t, 4, 4) && t[3] == BottomRow
  }

  /** `T[:3, :3]`. */
  function Rotation(t: Matrix): (r: Matrix)
    requires IsMatrix(t, 4, 4)
    ensures IsMatrix(r, 3, 3)
    ensures forall i, j :: 0 <= i < 3 && 0 <= j < 3 ==> r[i][j] == t[i][j]
  {
    seq(3, i requires 0 <= i < 3 => t[i][..3])
  }

  /** `T[:3, 3]`. */
  function Translation(t: Matrix): (p: Vector)
    requires IsMatrix(t, 4, 4)
    ensures |p| == 3
    ensures forall i :: 0 <= i < 3 ==> p[i] == t[i][3]
  {
    seq(3, i requires 0 <= i < 3 => t[i][3])
  }

  /**
   * `from_RT(R, p)`: the transform whose top-left block is R, whose last
   * column starts with p, and whose last row is [0, 0, 0, 1].
   */
  function FromRT(rot: Matrix, p: Vector): (t: Matrix)
    requires IsMatrix(rot, 3, 3) && |p| == 3
    ensures IsHomogeneous(t)
    ensures Rotation(t) == rot && Translation(t) == p
  {
    var t := [rot[0] + [p[0]], rot[1] + [p[1]], rot[2] + [p[2]], BottomRow];
    EqualByEntries(Rotation(t), rot, 3, 3);
    t
  }

  /** A homogeneous transform is rebuilt exactly from its two blocks. */
  lemma FromRTOfParts(t: Matrix)
    requires IsHomogeneous(t)
    ensures FromRT(Rotation(t), Translation(t)) == t
  {
    EqualByEntries(FromRT(Rotation(t), Translation(t)), t, 4, 4);
  }

  /**
   * `invert(T)`: the closed form [[R^T, -R^T p], [0, 0, 0, 1]], written out
   * entry by entry; InvertIsFromRT shows it is from_RT(R^T, -(R^T @ p)).
   */
  function Invert(t: Matrix): (r: Matrix)
    requires IsMatrix(t, 4, 4)
    ensures IsHomogeneous(r)
    ensures forall i, j :: 0 <= i < 3 && 0 <= j < 3 ==> r[i][j] == t[j][i]
    ensures forall i :: 0 <= i < 3 ==> r[i][3] == -(t[0][i] * t[0][3] + t[1][i] * t[1][3] + t[2][i] * t[2][3])
  {
    [[t[0][0], t[1][0], t[2][0], -(t[0][0] * t[0][3] + t[1][0] * t[1][3] + t[2][0] * t[2][3])],
     [t[0][1], t[1][1], t[2][1], -(t[0][1] * t[0][3] + t[1][1] * t[1][3] + t[2][1] * t[2][3])],
     [t[0][2], t[1][2], t[2][2], -(t[0][2] * t[0][3] + t[1][2] * t[1][3] + t[2][2] * t[2][3])],
     BottomRow]
  }

  /** invert(T) is from_RT(R^T, -(R^T @ p)), the composition the source spells out. */
  lemma InvertIsFromRT(t: Matrix)
    requires IsMatrix(t, 4, 4)
    ensures var rt := Transpose(Rotation(t), 3, 3);
            Invert(t) == FromRT(rt, Neg(MatVec(rt, Translation(t))))
  {
    var rt := Transpose(Rotation(t), 3, 3);
    var q := MatVec(rt, Translation(t));
    Dot3Of(rt[0], Translation(t), t[0][0], t[1][0], t[2][0], t[0][3], t[1][3], t[2][3]);
    Dot3Of(rt[1], Translation(t), t[0][1], t[1][1], t[2][1], t[0][3], t[1][3], t[2][3]);
    Dot3Of(rt[2], Translation(t), t[0][2], t[1][2], t[2][2], t[0][3], t[1][3], t[2][3]);
    EqualByEntries(Invert(t), FromRT(rt, Neg(q)), 4, 4);
  }

  /** invert reads only the top three rows of its argument. */
  lemma InvertReadsTopRows(a: Matrix, b: Matrix)
    requires IsMatrix(a, 4, 4) && IsMatrix(b, 4, 4)
    requires a[..3] == b[..3]
    ensures Invert(a) == Invert(b)
  {
    assert a[0] == b[0] && a[1] == b[1] && a[2] == b[2];
    EqualByEntries(Invert(a), Invert(b), 4, 4);
  }

  /** R^T R = I: the columns of R are orthonormal. */
  predicate OrthonormalColumns(rot: Matrix)
    requires IsMatrix(rot, 3, 3)
  {
    MatMul(Transpose(rot, 3, 3), rot, 3, 3, 3) == Identity(3)
  }

  /** R R^T = I: the rows of R are orthonormal. */
  predicate OrthonormalRows(rot: Matrix)
    requires IsMatrix(rot, 3, 3)
  {
    MatMul(rot, Transpose(rot, 3, 3), 3, 3, 3) == Identity(3)
  }

  /** The (i, j) entry of the 3x3 identity. */
  function Delta(i: nat, j: nat): real {
    if i == j then 1.0 else 0.0
  }

  /** Columns i and j of the rotation block of T, dotted: entry (i, j) of R^T R. */
  function ColumnDot(t: Matrix, i: nat, j: nat): real
    requires IsMatrix(t, 4, 4) && i < 3 && j < 3
  {
    t[0][i] * t[0][j] + t[1][i] * t[1][j] + t[2][i] * t[2][j]
  }

  /** Rows i and j of the rotation block of T, dotted: entry (i, j) of R R^T. */
  function RowDot(t: Matrix, i: nat, j: nat): real
    requires IsMatrix(t, 4, 4) && i < 3 && j < 3
  {
    t[i][0] * t[j][0] + t[i][1] * t[j][1] + t[i][2] * t[j][2]
  }

  /** Entry (i, j) of R^T R = I, written out over T. */
  lemma ColumnProduct(t: Matrix, i: nat, j: nat)
    requires IsMatrix(t, 4, 4) && OrthonormalColumns(Rotation(t)) && i < 3 && j < 3
    ensures ColumnDot(t, i, j) == Delta(i, j)
  {
    var rot := Rotation(t);
    var rt := Transpose(rot, 3, 3);
    assert MatMul(rt, rot, 3, 3, 3)[i][j] == Identity(3)[i][j];
    Dot3Of(rt[i], Column(rot, j), t[0][i], t[1][i], t[2][i], t[0][j], t[1][j], t[2][j]);
  }

  /** Entry (i, j) of R R^T = I, written out over T. */
  lemma RowProduct(t: Matrix, i: nat, j: nat)
    requires IsMatrix(t, 4, 4) && OrthonormalRows(Rotation(t)) && i < 3 && j < 3
    ensures RowDot(t, i, j) == Delta(i, j)
  {
    var rot := Rotation(t);
    var rt := Transpose(rot, 3, 3);
    assert MatMul(rot, rt, 3, 3, 3)[i][j] == Identity(3)[i][j];
    Dot3Of(rot[i], Column(rt, j), t[i][0], t[i][1], t[i][2], t[j][0], t[j][1], t[j][2]);
  }

  /** Regrouping a row times (R^T p) as (row . columns) times p. */
  lemma Regroup(a0: real, a1: real, a2: real,
                c00: real, c01: real, c02: real,
                c10: real, c11: real, c12: real,
                c20: real, c21: real, c22: real,
                p0: real, p1: real, p2: real)
    ensures a0 * (c00 * p0 + c10 * p1 + c20 * p2)
          + a1 * (c01 * p0 + c11 * p1 + c21 * p2)
          + a2 * (c02 * p0 + c12 * p1 + c22 * p2)
         == (a0 * c00 + a1 * c01 + a2 * c02) * p0
          + (a0 * c10 + a1 * c11 + a2 * c12) * p1
          + (a0 * c20 + a1 * c21 + a2 * c22) * p2
  {
  }

  /** When row i of R is orthonormal to the rows of R, row i of R (R^T p) is p's entry i. */
  lemma RotateBack(t: Matrix, i: nat)
    requires IsMatrix(t, 4, 4) && i < 3
    requires RowDot(t, i, 0) == Delta(i, 0) && RowDot(t, i, 1) == Delta(i, 1) && RowDot(t, i, 2) == Delta(i, 2)
    ensures t[i][0] * (t[0][0] * t[0][3] + t[1][0] * t[1][3] + t[2][0] * t[2][3])
          + t[i][1] * (t[0][1] * t[0][3] + t[1][1] * t[1][3] + t[2][1] * t[2][3])
          + t[i][2] * (t[0][2] * t[0][3] + t[1][2] * t[1][3] + t[2][2] * t[2][3]) == t[i][3]
  {
    Regroup(t[i][0], t[i][1], t[i][2],
            t[0][0], t[0][1], t[0][2],
            t[1][0], t[1][1], t[1][2],
            t[2][0], t[2][1], t[2][2],
            t[0][3], t[1][3], t[2][3]);
    if i == 0 {
    } else if i == 1 {
    } else {
    }
  }

  /** Entries of the last row and the last column of invert(T) @ T. */
  lemma LeftInverseOuterEntry(t: Matrix, i: nat, j: nat)
    requires IsHomogeneous(t) && i < 4 && j < 4 && (i == 3 || j == 3)
    ensures Dot(Invert(t)[i], Column(t, j)) == if i == j then 1.0 else 0.0
  {
    var inv, col := Invert(t), Column(t, j);
    Dot4(inv[i], col);
    if i == 3 {
      assert inv[i] == BottomRow;
    } else {
      assert inv[i][0] == t[0][i] && inv[i][1] == t[1][i] && inv[i][2] == t[2][i];
    }
  }

  /** Entries of the top-left block of invert(T) @ T are entries of R^T R. */
  lemma LeftInverseInnerDot(t: Matrix, i: nat, j: nat)
    requires IsHomogeneous(t) && i < 3 && j < 3
    ensures Dot(Invert(t)[i], Column(t, j)) == ColumnDot(t, i, j)
  {
    assert t[3][j] == 0.0 by { assert t[3] == BottomRow; }
    Dot4LastZero(Invert(t)[i], Column(t, j), t[0][i], t[1][i], t[2][i], t[0][j], t[1][j], t[2][j]);
  }

  /** If R^T R = I then invert(T) @ T = I. */
  lemma InvertIsLeftInverse(t: Matrix)
    requires IsHomogeneous(t) && OrthonormalColumns(Rotation(t))
    ensures MatMul(Invert(t), t, 4, 4, 4) == Identity(4)
  {
    var c := MatMul(Invert(t), t, 4, 4, 4);
    forall i, j | 0 <= i < 4 && 0 <= j < 4 ensures c[i][j] == Identity(4)[i][j] {
      if i == 3 || j == 3 {
        LeftInverseOuterEntry(t, i, j);
      } else {
        LeftInverseInnerDot(t, i, j);
        ColumnProduct(t, i, j);
      }
    }
    EqualByEntries(c, Identity(4), 4, 4);
  }

  /** Entries of the last row of T @ invert(T). */
  lemma RightInverseLastRow(t: Matrix, j: nat)
    requires IsHomogeneous(t) && j < 4
    ensures Dot(t[3], Column(Invert(t), j)) == if j == 3 then 1.0 else 0.0
  {
    var col := Column(Invert(t), j);
    Dot4(t[3], col);
  }

  /** Entries of the top-left block of T @ invert(T) are entries of R R^T. */
  lemma RightInverseInnerDot(t: Matrix, i: nat, j: nat)
    requires IsHomogeneous(t) && i < 3 && j < 3
    ensures Dot(t[i], Column(Invert(t), j)) == RowDot(t, i, j)
  {
    Dot4LastZero(t[i], Column(Invert(t), j), t[i][0], t[i][1], t[i][2], t[j][0], t[j][1], t[j][2]);
  }

  /** A row times -(R^T p), plus that row's translation entry. */
  lemma AddNegated(a0: real, a1: real, a2: real, a3: real, s0: real, s1: real, s2: real)
    ensures a0 * -s0 + a1 * -s1 + a2 * -s2 + a3 * 1.0 == a3 - (a0 * s0 + a1 * s1 + a2 * s2)
  {
  }

  /** Entry i of the last column of T @ invert(T) is p_i minus row i of R (R^T p). */
  lemma RightInverseLastColumnDot(t: Matrix, i: nat)
    requires IsHomogeneous(t) && i < 3
    ensures Dot(t[i], Column(Invert(t), 3))
         == t[i][3] - (t[i][0] * (t[0][0] * t[0][3] + t[1][0] * t[1][3] + t[2][0] * t[2][3])
                     + t[i][1] * (t[0][1] * t[0][3] + t[1][1] * t[1][3] + t[2][1] * t[2][3])
                     + t[i][2] * (t[0][2] * t[0][3] + t[1][2] * t[1][3] + t[2][2] * t[2][3]))
  {
    var s0 := t[0][0] * t[0][3] + t[1][0] * t[1][3] + t[2][0] * t[2][3];
    var s1 := t[0][1] * t[0][3] + t[1][1] * t[1][3] + t[2][1] * t[2][3];
    var s2 := t[0][2] * t[0][3] + t[1][2] * t[1][3] + t[2][2] * t[2][3];
    Dot4Of(t[i], Column(Invert(t), 3), t[i][0], t[i][1], t[i][2], t[i][3], -s0, -s1, -s2, 1.0);
    AddNegated(t[i][0], t[i][1], t[i][2], t[i][3], s0, s1, s2);
  }

  /** If R R^T = I then T @ invert(T) = I. */
  lemma InvertIsRightInverse(t: Matrix)
    requires IsHomogeneous(t) && OrthonormalRows(Rotation(t))
    ensures MatMul(t, Invert(t), 4, 4, 4) == Identity(4)
  {
    var c := MatMul(t, Invert(t), 4, 4, 4);
    forall i, j | 0 <= i < 4 && 0 <= j < 4 ensures c[i][j] == Identity(4)[i][j] {
      if i == 3 {
        RightInverseLastRow(t, j);
      } else if j == 3 {
        RowProduct(t, i, 0);
        RowProduct(t, i, 1);
        RowProduct(t, i, 2);
        RightInverseLastColumnDot(t, i);
        RotateBack(t, i);
      } else {
        RightInverseInnerDot(t, i, j);
        RowProduct(t, i, j);
      }
    }
    EqualByEntries(c, Identity(4), 4, 4);
  }

  /** Negating a dot product with negated entries gives the dot product back. */
  lemma NegatedDot(a0: real, a1: real, a2: real, b0: real, b1: real, b2: real,
                   s0: real, s1: real, s2: real)
    requires b0 == -s0 && b1 == -s1 && b2 == -s2
    ensures -(a0 * b0 + a1 * b1 + a2 * b2) == a0 * s0 + a1 * s1 + a2 * s2
  {
  }

  /** The translation of invert(invert(T)) is R (R^T p), written out over T. */
  lemma InvertTwiceTranslation(t: Matrix, i: nat)
    requires IsMatrix(t, 4, 4) && i < 3
    ensures Invert(Invert(t))[i][3]
         == t[i][0] * (t[0][0] * t[0][3] + t[1][0] * t[1][3] + t[2][0] * t[2][3])
          + t[i][1] * (t[0][1] * t[0][3] + t[1][1] * t[1][3] + t[2][1] * t[2][3])
          + t[i][2] * (t[0][2] * t[0][3] + t[1][2] * t[1][3] + t[2][2] * t[2][3])
  {
    var inv := Invert(t);
    var s0 := t[0][0] * t[0][3] + t[1][0] * t[1][3] + t[2][0] * t[2][3];
    var s1 := t[0][1] * t[0][3] + t[1][1] * t[1][3] + t[2][1] * t[2][3];
    var s2 := t[0][2] * t[0][3] + t[1][2] * t[1][3] + t[2][2] * t[2][3];
    assert inv[0][i] == t[i][0] && inv[1][i] == t[i][1] && inv[2][i] == t[i][2];
    NegatedDot(t[i][0], t[i][1], t[i][2], inv[0][3], inv[1][3], inv[2][3], s0, s1, s2);
  }

  /** Inverting twice gives the transform back when R R^T = I. */
  lemma InvertInvolutive(t: Matrix)
    requires IsHomogeneous(t) && OrthonormalRows(Rotation(t))
    ensures Invert(Invert(t)) == t
  {
    var ii := Invert(Invert(t));
    forall i, j | 0 <= i < 4 && 0 <= j < 4 ensures ii[i][j] == t[i][j] {
      if i < 3 && j == 3 {
        RowProduct(t, i, 0);
        RowProduct(t, i, 1);
        RowProduct(t, i, 2);
        InvertTwiceTranslation(t, i);
        RotateBack(t, i);
      }
    }
    EqualByEntries(ii, t, 4, 4);
  }

  /** A pure translation by p inverts to the translation by -p. */
  lemma InvertTranslation(p: Vector)
    requires |p| == 3
    ensures Invert(FromRT(Identity(3), p)) == FromRT(Identity(3), Neg(p))
  {
    EqualByEntries(Invert(FromRT(Identity(3), p)), FromRT(Identity(3), Neg(p)), 4, 4);
  }

  /** The m-by-n block of `a` whose top-left corner is at (r0, c0). */
  function Block(a: Matrix, r0: nat, c0: nat, m: nat, n: nat): (b: Matrix)
    requires |a| >= r0 + m && forall i :: r0 <= i < r0 + m ==> |a[i]| >= c0 + n
    ensures IsMatrix(b, m, n)
    ensures forall i, j :: 0 <= i < m && 0 <= j < n ==> b[i][j] == a[r0 + i][c0 + j]
  {
    seq(m, i requires 0 <= i < m => seq(n, j requires 0 <= j < n => a[r0 + i][c0 + j]))
  }

  /**
   * `adjoint(T)`: the 6x6 matrix [[R, 0], [[p] R, R]], where [p] is the
   * skew-symmetric matrix of the translation.
   */
  function Adjoint(t: Matrix): (ad: Matrix)
    requires IsMatrix(t, 4, 4)
    ensures IsMatrix(ad, 6, 6)
  {
    var r := Rotation(t);
    var pr := MatMul(SO3.Hat(Translation(t)), r, 3, 3, 3);
    seq(6, i requires 0 <= i < 6 => seq(6, j requires 0 <= j < 6 =>
      if i < 3 && j < 3 then r[i][j]
      else if i < 3 then 0.0
      else if j < 3 then pr[i - 3][j]
      else r[i - 3][j - 3]))
  }

  /** The block layout of the adjoint. */
  lemma AdjointBlocks(t: Matrix)
    requires IsMatrix(t, 4, 4)
    ensures Block(Adjoint(t), 0, 0, 3, 3) == Rotation(t)
    ensures Block(Adjoint(t), 0, 3, 3, 3) == Zeros(3, 3)
    ensures Block(Adjoint(t), 3, 0, 3, 3) == MatMul(SO3.Hat(Translation(t)), Rotation(t), 3, 3, 3)
    ensures Block(Adjoint(t), 3, 3, 3, 3) == Rotation(t)
  {
    var ad := Adjoint(t);
    EqualByEntries(Block(ad, 0, 0, 3, 3), Rotation(t), 3, 3);
    EqualByEntries(Block(ad, 0, 3, 3, 3), Zeros(3, 3), 3, 3);
    EqualByEntries(Block(ad, 3, 0, 3, 3), MatMul(SO3.Hat(Translation(t)), Rotation(t), 3, 3, 3), 3, 3);
    EqualByEntries(Block(ad, 3, 3, 3, 3), Rotation(t), 3, 3);
  }

  /** The 6x6 matrix with `a` and `b` on the diagonal and zeros elsewhere. */
  function BlockDiagonal(a: Matrix, b: Matrix): (d: Matrix)
    requires IsMatrix(a, 3, 3) && IsMatrix(b, 3, 3)
    ensures IsMatrix(d, 6, 6)
  {
    seq(6, i requires 0 <= i < 6 => seq(6, j requires 0 <= j < 6 =>
      if i < 3 && j < 3 then a[i][j]
      else if i >= 3 && j >= 3 then b[i - 3][j - 3]
      else 0.0))
  }

  /** A transform without translation has the adjoint diag(R, R). */
  lemma AdjointOfRotation(rot: Matrix)
    requires IsMatrix(rot, 3, 3)
    ensures Adjoint(FromRT(rot, [0.0, 0.0, 0.0])) == BlockDiagonal(rot, rot)
  {
    var t := FromRT(rot, [0.0, 0.0, 0.0]);
    var h := SO3.Hat(Translation(t));
    var pr := MatMul(h, rot, 3, 3, 3);
    forall i, j | 0 <= i < 3 && 0 <= j < 3 ensures pr[i][j] == 0.0 {
      Dot3(h[i], Column(rot, j));
    }
    EqualByEntries(Adjoint(t), BlockDiagonal(rot, rot), 6, 6);
  }

  /** The adjoint of the identity transform is the 6x6 identity. */
  lemma AdjointOfIdentity()
    ensures Adjoint(Identity(4)) == Identity(6)
  {
    var id3 := Identity(3);
    assert Identity(4) == FromRT(id3, [0.0, 0.0, 0.0]) by {
      EqualByEntries(Identity(4), FromRT(id3, [0.0, 0.0, 0.0]), 4, 4);
    }
    AdjointOfRotation(id3);
    EqualByEntries(BlockDiagonal(id3, id3), Identity(6), 6, 6);
  }
}
