/** Matrices over GF(256): `_mat_mul_vec` and `_mat_invert` of
    `mods/asset_fabric/erasure.py` (lines 62-97).

    Gauss-Jordan elimination is proved through one invariant: every row
    operation leaves the set of vectors that all rows of the augmented matrix
    annihilate as it was. */
module LinearAlgebra {
  import opened GF256
  import opened GFTables

  type Vec = seq<byte>
  type Matrix = seq<seq<byte>>

  /** `_mat_invert` raises ValueError on a singular matrix. */
  datatype Inversion = Inverse(matrix: Matrix) | Singular

  ghost predicate Dim(a: Matrix, rows: nat, cols: nat) {
    |a| == rows && forall r :: 0 <= r < rows ==> |a[r]| == cols
  }

  // ----- scalar products -----

  /** Sum of the first n products. */
  function Dot(u: Vec, v: Vec, n: nat): byte
    requires n <= |u| && n <= |v|
  {
    if n == 0 then 0 else Add(Dot(u, v, n - 1), Mul(u[n - 1], v[n - 1]))
  }

  function Delta(i: nat, j: nat): byte {
    if i == j then 1 else 0
  }

  function UnitRow(i: nat, n: nat): (u: Vec)
    ensures |u| == n
  {
    seq(n, j => if i == j then 1 else 0)
  }

  function Zeros(n: nat): (v: Vec)
    ensures |v| == n
  {
    seq(n, _ => 0)
  }

  /** `[_gf_mul(x, f) for x in u]`, as a vector and as the code computes it. */
  function Scaled(u: Vec, f: byte): (s: Vec)
    ensures |s| == |u|
  {
    seq(|u|, c requires 0 <= c < |u| => Mul(u[c], f))
  }

  /** `[u[c] ^ _gf_mul(f, p[c]) for c in ...]` */
  function Combined(u: Vec, f: byte, p: Vec): (s: Vec)
    requires |p| == |u|
    ensures |s| == |u|
  {
    seq(|u|, c requires 0 <= c < |u| => Add(u[c], Mul(f, p[c])))
  }

  function ScaledRow(gf: Tables, u: Vec, f: byte): (s: Vec)
    requires gf.Valid()
    ensures s == Scaled(u, f)
  {
    seq(|u|, c requires 0 <= c < |u| => gf.GfMul(u[c], f))
  }

  function CombinedRow(gf: Tables, u: Vec, f: byte, p: Vec): (s: Vec)
    requires gf.Valid() && |p| == |u|
    ensures s == Combined(u, f, p)
  {
    seq(|u|, c requires 0 <= c < |u| => Add(u[c], gf.GfMul(f, p[c])))
  }

  lemma {:induction false} DotScaled(u: Vec, f: byte, v: Vec, n: nat)
    requires n <= |u| && n <= |v|
    ensures Dot(Scaled(u, f), v, n) == Mul(f, Dot(u, v, n))
  {
    hide Add, Mul;
    if n == 0 {
      MulZero(f);
    } else {
      DotScaled(u, f, v, n - 1);
      MulComm(u[n - 1], f);
      MulAssoc(f, u[n - 1], v[n - 1]);
      MulDistrib(f, Dot(u, v, n - 1), Mul(u[n - 1], v[n - 1]));
    }
  }

  lemma {:induction false} DotCombined(u: Vec, f: byte, p: Vec, v: Vec, n: nat)
    requires n <= |u| == |p| && n <= |v|
    ensures Dot(Combined(u, f, p), v, n) == Add(Dot(u, v, n), Mul(f, Dot(p, v, n)))
  {
    hide Add, Mul;
    if n == 0 {
      MulZero(f);
      AddSelf(0);
    } else {
      var x, y, z := u[n - 1], p[n - 1], v[n - 1];
      DotCombined(u, f, p, v, n - 1);
      MulDistribLeft(x, Mul(f, y), z);
      MulAssoc(f, y, z);
      MulDistrib(f, Dot(p, v, n - 1), Mul(y, z));
      AddSwap(Dot(u, v, n - 1), Mul(f, Dot(p, v, n - 1)), Mul(x, z), Mul(f, Mul(y, z)));
    }
  }

  /** A row that is a unit row on its first n places picks one entry. */
  lemma {:induction false} DotUnit(u: Vec, i: nat, v: Vec, n: nat)
    requires n <= |u| && n <= |v|
    requires forall c :: 0 <= c < n ==> u[c] == Delta(i, c)
    ensures Dot(u, v, n) == if i < n then v[i] else 0
  {
    hide Add, Mul;
    if n > 0 {
      DotUnit(u, i, v, n - 1);
      MulOne(v[n - 1]);
      MulZero(v[n - 1]);
      AddSelf(v[n - 1]);
      AddSelf(if i < n then v[i] else 0);
    }
  }

  lemma {:induction false} DotZeroTail(u: Vec, v: Vec, m: nat, n: nat)
    requires m <= n <= |u| && n <= |v|
    requires forall c :: m <= c < n ==> v[c] == 0
    ensures Dot(u, v, n) == Dot(u, v, m)
    decreases n
  {
    hide Add, Mul;
    if m < n {
      DotZeroTail(u, v, m, n - 1);
      MulZero(u[n - 1]);
      AddSelf(Dot(u, v, n - 1));
    }
  }

  /** Only the first n places matter. */
  lemma {:induction false} DotPrefix(u: Vec, u': Vec, v: Vec, v': Vec, n: nat)
    requires n <= |u| && n <= |v| && n <= |u'| && n <= |v'|
    requires forall c :: 0 <= c < n ==> u[c] == u'[c] && v[c] == v'[c]
    ensures Dot(u, v, n) == Dot(u', v', n)
  {
    if n > 0 {
      DotPrefix(u, u', v, v', n - 1);
    }
  }

  lemma {:induction false} DotAppend(l: Vec, r: Vec, v: Vec, w: Vec, n: nat)
    requires |l| == |v| && n <= |r| && n <= |w|
    ensures Dot(l + r, v + w, |l| + n) == Add(Dot(l, v, |l|), Dot(r, w, n))
    decreases n
  {
    hide Add, Mul;
    if n == 0 {
      DotPrefix(l + r, l, v + w, v, |l|);
      AddSelf(Dot(l, v, |l|));
    } else {
      DotAppend(l, r, v, w, n - 1);
      AddAssoc(Dot(l, v, |l|), Dot(r, w, n - 1), Mul(r[n - 1], w[n - 1]));
    }
  }

  // ----- matrix times vector -----

  function MatVec(a: Matrix, v: Vec): (out: Vec)
    requires forall r :: 0 <= r < |a| ==> |v| <= |a[r]|
    ensures |out| == |a|
  {
    seq(|a|, r requires 0 <= r < |a| => Dot(a[r], v, |v|))
  }

  /** `_mat_mul_vec` */
  method MatMulVec(gf: Tables, mat: Matrix, vec: Vec) returns (out: Vec)
    requires gf.Valid()
    requires forall r :: 0 <= r < |mat| ==> |vec| <= |mat[r]|
    ensures out == MatVec(mat, vec)
  {
    hide Add, Mul;
    var rows, cols := |mat|, |vec|;
    out := Zeros(rows);
    for r := 0 to rows
      invariant |out| == rows
      invariant forall k :: 0 <= k < r ==> out[k] == Dot(mat[k], vec, cols)
    {
      var s: byte := 0;
      var row := mat[r];
      for c := 0 to cols
        invariant s == Dot(row, vec, c)
      {
        s := Add(s, gf.GfMul(row[c], vec[c]));
      }
      out := out[r := s];
    }
  }

  // ----- the kernel of a list of rows -----

  /** Every row is orthogonal to w. */
  ghost predicate Kills(a: Matrix, w: Vec) {
    forall r :: 0 <= r < |a| ==> |a[r]| == |w| && Dot(a[r], w, |w|) == 0
  }

  ghost predicate SameKernel(a: Matrix, b: Matrix, n: nat) {
    forall w: Vec :: |w| == n ==> (Kills(a, w) <==> Kills(b, w))
  }

  lemma SwapKernel(a: Matrix, i: nat, j: nat, n: nat)
    requires i < |a| && j < |a|
    ensures SameKernel(a, a[i := a[j]][j := a[i]], n)
  {
    var b := a[i := a[j]][j := a[i]];
    assert b[i := b[j]][j := b[i]] == a;
    forall w: Vec | |w| == n
      ensures Kills(a, w) <==> Kills(b, w)
    {
      assert a[i] == b[j] && a[j] == b[i];
    }
  }

  lemma ScaleKernel(a: Matrix, i: nat, f: byte, n: nat)
    requires Dim(a, |a|, n) && i < |a| && f != 0
    ensures SameKernel(a, a[i := Scaled(a[i], f)], n)
  {
    hide Dot, Mul;
    var b := a[i := Scaled(a[i], f)];
    forall w: Vec | |w| == n
      ensures Kills(a, w) <==> Kills(b, w)
    {
      DotScaled(a[i], f, w, n);
      MulNotZero(f, Dot(a[i], w, n));
      assert forall r :: 0 <= r < |a| && r != i ==> a[r] == b[r];
      assert Kills(b, w) ==> Dot(b[i], w, n) == 0;
    }
  }

  lemma EliminateKernel(a: Matrix, r: nat, f: byte, p: nat, n: nat)
    requires Dim(a, |a|, n) && r < |a| && p < |a| && r != p
    ensures SameKernel(a, a[r := Combined(a[r], f, a[p])], n)
  {
    hide Dot, Mul, Add;
    var b := a[r := Combined(a[r], f, a[p])];
    forall w: Vec | |w| == n
      ensures Kills(a, w) <==> Kills(b, w)
    {
      DotCombined(a[r], f, a[p], w, n);
      MulZero(f);
      AddSelf(Dot(a[r], w, n));
      assert b[p] == a[p];
      assert forall i :: 0 <= i < |a| && i != r ==> a[i] == b[i];
      assert Kills(b, w) ==> Dot(b[r], w, n) == 0 && Dot(b[p], w, n) == 0;
    }
  }

  // ----- Gauss-Jordan elimination -----

  /** The matrix with the identity appended. */
  function Augmented(mat: Matrix): (a: Matrix)
    requires Dim(mat, |mat|, |mat|)
    ensures Dim(a, |mat|, 2 * |mat|)
  {
    seq(|mat|, i requires 0 <= i < |mat| => mat[i] + UnitRow(i, |mat|))
  }

  /** The first `col` columns are those of the identity. */
  ghost predicate UnitColumns(a: Matrix, col: nat)
    requires forall r :: 0 <= r < |a| ==> col <= |a[r]|
  {
    forall r, c :: 0 <= r < |a| && 0 <= c < col ==> a[r][c] == Delta(r, c)
  }

  /** A non-zero vector that the matrix sends to zero. */
  ghost predicate InKernel(mat: Matrix, v: Vec)
    requires Dim(mat, |mat|, |mat|)
  {
    && |v| == |mat|
    && MatVec(mat, v) == Zeros(|mat|)
    && v != Zeros(|mat|)
  }

  lemma AugmentedRow(mat: Matrix, v: Vec, w: Vec, i: nat)
    requires Dim(mat, |mat|, |mat|) && |v| == |w| == |mat| && i < |mat|
    ensures Dot(Augmented(mat)[i], v + w, 2 * |mat|) == Add(Dot(mat[i], v, |v|), w[i])
  {
    hide Dot, Add, Mul;
    DotAppend(mat[i], UnitRow(i, |mat|), v, w, |mat|);
    DotUnit(UnitRow(i, |mat|), i, w, |mat|);
  }

  /** The augmented matrix annihilates exactly the pairs (v, mat * v). */
  lemma AugmentedKernel(mat: Matrix, v: Vec, w: Vec)
    requires Dim(mat, |mat|, |mat|) && |v| == |w| == |mat|
    ensures Kills(Augmented(mat), v + w) <==> MatVec(mat, v) == w
  {
    hide Dot, Add, Mul, Augmented;
    var n := |mat|;
    forall i | 0 <= i < n
      ensures Dot(Augmented(mat)[i], v + w, 2 * n) == 0 <==> MatVec(mat, v)[i] == w[i]
    {
      AugmentedRow(mat, v, w, i);
      AddZero(Dot(mat[i], v, n), w[i]);
    }
  }

  function RightHalf(a: Matrix, n: nat): (inv: Matrix)
    requires Dim(a, n, 2 * n)
    ensures Dim(inv, n, n)
  {
    seq(n, i requires 0 <= i < n => a[i][n..])
  }

  lemma ReducedRow(a: Matrix, n: nat, v: Vec, w: Vec, i: nat)
    requires Dim(a, n, 2 * n) && UnitColumns(a, n) && |v| == |w| == n && i < n
    ensures Dot(a[i], v + w, 2 * n) == Add(v[i], Dot(a[i][n..], w, n))
  {
    hide Dot, Add, Mul;
    assert a[i] == a[i][..n] + a[i][n..];
    DotAppend(a[i][..n], a[i][n..], v, w, n);
    DotUnit(a[i][..n], i, v, n);
  }

  /** A fully reduced matrix annihilates exactly the pairs (right half * w, w). */
  lemma ReducedKernel(a: Matrix, n: nat, v: Vec, w: Vec)
    requires Dim(a, n, 2 * n) && UnitColumns(a, n) && |v| == |w| == n
    ensures Kills(a, v + w) <==> MatVec(RightHalf(a, n), w) == v
  {
    hide Dot, Add, Mul, UnitColumns;
    forall i | 0 <= i < n
      ensures Dot(a[i], v + w, 2 * n) == 0 <==> MatVec(RightHalf(a, n), w)[i] == v[i]
    {
      ReducedRow(a, n, v, w, i);
      AddZero(v[i], Dot(a[i][n..], w, n));
    }
  }

  /** The vector that exposes a column without pivot: minus that column above
      the diagonal, one on it, nothing below. */
  function Witness(a: Matrix, col: nat, n: nat): (w: Vec)
    requires Dim(a, n, 2 * n) && col < n
    ensures |w| == n
  {
    seq(n, c requires 0 <= c < n => if c < col then a[c][col] else if c == col then 1 else 0)
  }

  lemma WitnessRow(a: Matrix, col: nat, n: nat, r: nat)
    requires Dim(a, n, 2 * n) && col < n && r < n
    requires UnitColumns(a, col)
    requires forall i :: col <= i < n ==> a[i][col] == 0
    ensures Dot(a[r], Witness(a, col, n) + Zeros(n), 2 * n) == 0
  {
    hide Add, Mul;
    var w := Witness(a, col, n) + Zeros(n);
    DotZeroTail(a[r], w, col + 1, 2 * n);
    DotUnit(a[r], r, w, col);
    MulOne(a[r][col]);
    AddSelf(a[r][col]);
    AddSelf(0);
  }

  lemma WitnessKilled(a: Matrix, col: nat, n: nat)
    requires Dim(a, n, 2 * n) && col < n
    requires UnitColumns(a, col)
    requires forall i :: col <= i < n ==> a[i][col] == 0
    ensures Kills(a, Witness(a, col, n) + Zeros(n))
  {
    hide Dot, UnitColumns, Witness;
    forall r | 0 <= r < n
      ensures Dot(a[r], Witness(a, col, n) + Zeros(n), 2 * n) == 0
    {
      WitnessRow(a, col, n, r);
    }
  }

  /** A column without pivot means that the matrix has a kernel. */
  lemma NoPivot(mat: Matrix, a: Matrix, col: nat)
    requires Dim(mat, |mat|, |mat|) && Dim(a, |mat|, 2 * |mat|) && col < |mat|
    requires SameKernel(Augmented(mat), a, 2 * |mat|)
    requires UnitColumns(a, col)
    requires forall r :: col <= r < |mat| ==> a[r][col] == 0
    ensures InKernel(mat, Witness(a, col, |mat|))
  {
    hide Dot, Augmented, MatVec, UnitColumns, Kills;
    var n := |mat|;
    var v := Witness(a, col, n);
    WitnessKilled(a, col, n);
    AugmentedKernel(mat, v, Zeros(n));
    assert v[col] != Zeros(n)[col];
  }

  /** Each matrix undoes the other on every vector. */
  ghost predicate Inverses(inv: Matrix, mat: Matrix) {
    && Dim(mat, |mat|, |mat|)
    && Dim(inv, |mat|, |mat|)
    && forall v: Vec :: |v| == |mat| ==> MatVec(inv, MatVec(mat, v)) == v && MatVec(mat, MatVec(inv, v)) == v
  }

  /** Full reduction yields the inverse. */
  lemma ReducedIsInverse(mat: Matrix, a: Matrix, v: Vec)
    requires Dim(mat, |mat|, |mat|) && Dim(a, |mat|, 2 * |mat|) && |v| == |mat|
    requires SameKernel(Augmented(mat), a, 2 * |mat|)
    requires UnitColumns(a, |mat|)
    ensures MatVec(RightHalf(a, |mat|), MatVec(mat, v)) == v
    ensures MatVec(mat, MatVec(RightHalf(a, |mat|), v)) == v
  {
    hide Dot, Augmented, MatVec, UnitColumns, Kills, RightHalf;
    var n := |mat|;
    AugmentedKernel(mat, v, MatVec(mat, v));
    ReducedKernel(a, n, v, MatVec(mat, v));
    var u := MatVec(RightHalf(a, n), v);
    ReducedKernel(a, n, u, v);
    AugmentedKernel(mat, u, v);
  }

  lemma DotNone(u: Vec, v: Vec)
    ensures Dot(u, v, 0) == 0
  {
  }

  /** An invertible matrix has no kernel. */
  lemma InverseHasNoKernel(inv: Matrix, mat: Matrix, v: Vec)
    requires Inverses(inv, mat)
    ensures !InKernel(mat, v)
  {
    hide Dot;
    if InKernel(mat, v) {
      forall i | 0 <= i < |mat|
        ensures v[i] == 0
      {
        assert MatVec(inv, MatVec(mat, v)) == v;
        DotZeroTail(inv[i], Zeros(|mat|), 0, |mat|);
        assert Dot(inv[i], Zeros(|mat|), 0) == 0 by { DotNone(inv[i], Zeros(|mat|)); }
      }
    }
  }

  /** Scaling the pivot row by the inverse of the pivot. */
  lemma PivotStep(mat: Matrix, a: Matrix, col: nat, inv: byte)
    requires Dim(mat, |mat|, |mat|) && Dim(a, |mat|, 2 * |mat|) && col < |mat|
    requires SameKernel(Augmented(mat), a, 2 * |mat|) && UnitColumns(a, col)
    requires Mul(inv, a[col][col]) == 1
    ensures var b := a[col := Scaled(a[col], inv)];
            && Dim(b, |mat|, 2 * |mat|)
            && SameKernel(Augmented(mat), b, 2 * |mat|)
            && UnitColumns(b, col)
            && b[col][col] == 1
  {
    hide Mul, Dot, Kills, Augmented;
    MulNotZero(inv, a[col][col]);
    MulComm(inv, a[col][col]);
    MulZero(inv);
    ScaleKernel(a, col, inv, 2 * |mat|);
  }

  /** Clearing the pivot column in row r. */
  lemma EliminateStep(mat: Matrix, a: Matrix, col: nat, r: nat)
    requires Dim(mat, |mat|, |mat|) && Dim(a, |mat|, 2 * |mat|) && col < |mat| && r < |mat| && r != col
    requires SameKernel(Augmented(mat), a, 2 * |mat|) && UnitColumns(a, col)
    requires a[col][col] == 1
    ensures var b := a[r := Combined(a[r], a[r][col], a[col])];
            && Dim(b, |mat|, 2 * |mat|)
            && SameKernel(Augmented(mat), b, 2 * |mat|)
            && UnitColumns(b, col)
            && b[r][col] == 0
  {
    hide Mul, Add, Dot, Kills, Augmented;
    EliminateKernel(a, r, a[r][col], col, 2 * |mat|);
    MulOne(a[r][col]);
    AddSelf(a[r][col]);
    MulZero(a[r][col]);
    forall c | 0 <= c < col
      ensures Add(a[r][c], Mul(a[r][col], a[col][c])) == a[r][c]
    {
      AddSelf(a[r][c]);
    }
  }

  lemma ReducedInverts(mat: Matrix, a: Matrix)
    requires Dim(mat, |mat|, |mat|) && Dim(a, |mat|, 2 * |mat|)
    requires SameKernel(Augmented(mat), a, 2 * |mat|) && UnitColumns(a, |mat|)
    ensures Inverses(RightHalf(a, |mat|), mat) && forall v :: !InKernel(mat, v)
  {
    hide Dot, Kills, Augmented, SameKernel, UnitColumns, MatVec;
    var inv := RightHalf(a, |mat|);
    forall v: Vec | |v| == |mat|
      ensures MatVec(inv, MatVec(mat, v)) == v && MatVec(mat, MatVec(inv, v)) == v
    {
      ReducedIsInverse(mat, a, v);
    }
    forall v
      ensures !InKernel(mat, v)
    {
      InverseHasNoKernel(inv, mat, v);
    }
  }

  /** `_mat_invert`: the augmented rows are swapped, scaled and combined in
      place until the left half is the identity. */
  method MatInvert(gf: Tables, mat: Matrix) returns (r: Inversion)
    requires gf.Valid()
    requires Dim(mat, |mat|, |mat|)
    ensures r.Inverse? ==> Inverses(r.matrix, mat)
    ensures r.Singular? <==> exists v :: InKernel(mat, v)
  {
    hide Add, Mul, Dot, Kills, Augmented, Combined, Scaled;
    var n := |mat|;
    var a: Matrix := Augmented(mat);
    for col := 0 to n
      invariant Dim(a, n, 2 * n)
      invariant SameKernel(Augmented(mat), a, 2 * n)
      invariant UnitColumns(a, col)
    {
      var piv := col;
      while piv < n && a[piv][col] == 0
        invariant col <= piv <= n
        invariant forall k :: col <= k < piv ==> a[k][col] == 0
      {
        piv := piv + 1;
      }
      if piv == n {
        NoPivot(mat, a, col);
        return Singular;
      }
      if piv != col {
        SwapKernel(a, col, piv, 2 * n);
        a := a[col := a[piv]][piv := a[col]];
      }
      var inv := gf.GfDiv(1, a[col][col]).value;
      PivotStep(mat, a, col, inv);
      a := a[col := ScaledRow(gf, a[col], inv)];
      for r := 0 to n
        invariant Dim(a, n, 2 * n)
        invariant SameKernel(Augmented(mat), a, 2 * n)
        invariant UnitColumns(a, col)
        invariant a[col][col] == 1
        invariant forall k :: 0 <= k < r ==> a[k][col] == Delta(k, col)
      {
        if r != col {
          var factor := a[r][col];
          if factor != 0 {
            EliminateStep(mat, a, col, r);
            a := a[r := CombinedRow(gf, a[r], factor, a[col])];
          }
        }
      }
    }
    r := Inverse(RightHalf(a, n));
    ReducedInverts(mat, a);
  }
}
