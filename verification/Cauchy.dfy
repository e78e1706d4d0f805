/** The generator matrix of the erasure code: the identity on top of the Cauchy
    matrix of `_parity_matrix` (`mods/asset_fabric/erasure.py`, lines 100-115).

    Row i of the generator belongs to the field element i + 1, whether it is a
    data row or a parity row.  A data vector v is turned into a polynomial of
    degree below `nData` that vanishes at i + 1 whenever row i sends v to zero,
    so `nData` rows can only all send v to zero if v is zero. */
module Cauchy {
  import opened GF256
  import opened GFTables
  import opened LinearAlgebra
  import opened Polynomials

  datatype ParityResult = Parity(matrix: Matrix) | ParityError

  /** The field element of generator row i. */
  function Node(i: nat): byte
    requires i < 255
  {
    i + 1
  }

  /** P[p][d] is the inverse of x_p + y_d, where x_p is nData + 1 + p and y_d is
      d + 1. */
  ghost predicate IsCauchy(P: Matrix, nData: nat, nParity: nat)
    requires nData + nParity <= 255
  {
    && Dim(P, nParity, nData)
    && forall p, d :: 0 <= p < nParity && 0 <= d < nData ==>
         Mul(P[p][d], Add(nData + 1 + p, d + 1)) == 1
  }

  /** Every non-zero byte has an inverse. */
  lemma InverseExists(a: byte)
    requires a != 0
    ensures exists b: byte :: Mul(b, a) == 1
  {
    var i := EveryByteIsAPower(a);
    MulPow2(255 - i, a, i);
    PowerPeriod();
  }

  ghost function Inverse(a: byte): (b: byte)
    requires a != 0
    ensures Mul(b, a) == 1
  {
    InverseExists(a);
    var b: byte :| Mul(b, a) == 1;
    b
  }

  /** The first n entries of parity row p. */
  ghost predicate CauchyRow(row: Vec, nData: nat, p: nat, n: nat)
    requires nData + p < 255 && n <= nData
  {
    && |row| == n
    && forall d :: 0 <= d < n ==> Mul(row[d], Add(Node(nData + p), Node(d))) == 1
  }

  lemma DifferentNodes(i: nat, j: nat)
    requires i < 255 && j < 255 && i != j
    ensures Add(Node(i), Node(j)) != 0
  {
    AddZero(Node(i), Node(j));
  }

  lemma DifferentNodesAll()
    ensures forall i, j :: 0 <= i < j < 255 ==> Add(Node(j), Node(i)) != 0
  {
    forall i, j | 0 <= i < j < 255
      ensures Add(Node(j), Node(i)) != 0
    {
      DifferentNodes(j, i);
    }
  }

  ghost function IdealRow(nData: nat, p: nat): (row: Vec)
    requires nData + p < 255
    ensures CauchyRow(row, nData, p, nData)
  {
    hide Mul, Add;
    DifferentNodesAll();
    seq(nData, d requires 0 <= d < nData => Inverse(Add(Node(nData + p), Node(d))))
  }

  /** The Cauchy matrix itself. */
  ghost function CauchyMatrix(nData: nat, nParity: nat): (P: Matrix)
    requires nData + nParity <= 255
    ensures IsCauchy(P, nData, nParity)
  {
    hide Mul, Add;
    seq(nParity, p requires 0 <= p < nParity => IdealRow(nData, p))
  }

  lemma InverseUnique(a: byte, b: byte, c: byte)
    requires Mul(a, c) == 1 && Mul(b, c) == 1
    ensures a == b
  {
    hide Mul;
    MulOne(a);
    MulComm(b, c);
    MulAssoc(a, c, b);
    MulOne(b);
  }

  /** Encoder and decoder compute the same parity matrix. */
  lemma CauchyUnique(P: Matrix, Q: Matrix, nData: nat, nParity: nat)
    requires nData + nParity <= 255
    requires IsCauchy(P, nData, nParity) && IsCauchy(Q, nData, nParity)
    ensures P == Q
  {
    hide Mul, Add;
    forall p | 0 <= p < nParity
      ensures P[p] == Q[p]
    {
      forall d | 0 <= d < nData
        ensures P[p][d] == Q[p][d]
      {
        InverseUnique(P[p][d], Q[p][d], Add(Node(nData + p), Node(d)));
      }
    }
  }

  /** `_parity_matrix`.  Negative counts give empty ranges. */
  method ParityMatrix(gf: Tables, nData: int, nParity: int) returns (r: ParityResult)
    requires gf.Valid()
    ensures r.ParityError? <==> nData + nParity > 255
    ensures r.Parity? && nData >= 0 && nParity >= 0 ==>
              && r.matrix == CauchyMatrix(nData, nParity)
              && |r.matrix| == nParity
              && forall p, d :: 0 <= p < nParity && 0 <= d < nData ==>
                   |r.matrix[p]| == nData && Mul(r.matrix[p][d], Add(nData + 1 + p, d + 1)) == 1
    ensures r.Parity? && nParity < 0 ==> r.matrix == []
    ensures r.Parity? && nData < 0 <= nParity ==> |r.matrix| == nParity && forall i :: 0 <= i < nParity ==> r.matrix[i] == []
  {
    hide Mul, Xor;
    if nData + nParity > 255 {
      return ParityError;
    }
    var P: Matrix := [];
    var p := 0;
    while p < nParity
      invariant p == |P| && (p == 0 || p <= nParity)
      invariant nData >= 0 ==> forall i :: 0 <= i < p && i < nParity ==> CauchyRow(P[i], nData, i, nData)
      invariant nData < 0 ==> forall i :: 0 <= i < p ==> P[i] == []
    {
      var x := nData + 1 + p;
      var row: Vec := [];
      var d := 0;
      while d < nData
        invariant 0 <= d && (d == 0 || d <= nData)
        invariant nData >= 0 ==> CauchyRow(row, nData, p, d)
        invariant nData < 0 ==> row == []
      {
        var y := d + 1;
        DifferentNodes(nData + p, d);
        row := row + [gf.GfDiv(1, Add(x, y)).value];
        d := d + 1;
      }
      P := P + [row];
      p := p + 1;
    }
    r := Parity(P);
    if nData >= 0 && nParity >= 0 {
      CauchyUnique(P, CauchyMatrix(nData, nParity), nData, nParity);
    }
  }

  /** Row i of the generator. */
  function GeneratorRow(P: Matrix, nData: nat, i: nat): (row: Vec)
    requires Dim(P, |P|, nData) && i < nData + |P|
    ensures |row| == nData
  {
    if i < nData then UnitRow(i, nData) else P[i - nData]
  }

  // ----- the polynomial of a data vector -----

  /** The product of (x + y_d) over the first n data nodes. */
  function NodeProduct(n: nat): (p: Poly)
    requires n <= 255
    ensures |p| == n + 1
  {
    if n == 0 then [1] else TimesLinear(NodeProduct(n - 1), Node(n - 1))
  }

  /** Sum over d < n of v[d] times the product of all other factors. */
  function Numerator(v: Vec, n: nat): (p: Poly)
    requires n <= |v| && n <= 255
    ensures |p| == n
  {
    if n == 0 then []
    else Sum(TimesLinear(Numerator(v, n - 1), Node(n - 1)), Multiple(NodeProduct(n - 1), v[n - 1]))
  }

  lemma ProductStep(n: nat, x: byte)
    requires 0 < n <= 255
    ensures Eval(NodeProduct(n), x) == Mul(Add(x, Node(n - 1)), Eval(NodeProduct(n - 1), x))
  {
    EvalTimesLinear(NodeProduct(n - 1), Node(n - 1), x);
  }

  lemma NumeratorStep(v: Vec, n: nat, x: byte)
    requires 0 < n <= |v| && n <= 255
    ensures Eval(Numerator(v, n), x)
         == Add(Mul(Add(x, Node(n - 1)), Eval(Numerator(v, n - 1), x)),
                Mul(v[n - 1], Eval(NodeProduct(n - 1), x)))
  {
    hide Mul, Add, Eval, TimesLinear, Multiple, Sum;
    var t := TimesLinear(Numerator(v, n - 1), Node(n - 1));
    var m := Multiple(NodeProduct(n - 1), v[n - 1]);
    EvalSum(t, m, x);
    EvalTimesLinear(Numerator(v, n - 1), Node(n - 1), x);
    EvalMultiple(NodeProduct(n - 1), v[n - 1], x);
  }

  lemma {:induction false} ProductAtNode(n: nat, i: nat)
    requires n <= 255 && i < 255
    ensures Eval(NodeProduct(n), Node(i)) == 0 <==> i < n
  {
    if n == 0 {
      assert [1][1..] == [];
      MulZero(Node(i));
      AddSelf(1);
    } else {
      hide Mul, Add, Eval, NodeProduct;
      ProductAtNode(n - 1, i);
      ProductStep(n, Node(i));
      MulNotZero(Add(Node(i), Node(n - 1)), Eval(NodeProduct(n - 1), Node(i)));
      AddZero(Node(i), Node(n - 1));
    }
  }

  lemma AwayAlgebra(s: byte, q: byte, t: byte, r: byte, w: byte)
    requires Mul(r, s) == 1
    ensures Add(Mul(s, Mul(q, t)), Mul(w, q)) == Mul(Mul(s, q), Add(t, Mul(r, w)))
  {
    hide Mul, Add;
    MulDistrib(Mul(s, q), t, Mul(r, w));
    MulAssoc(s, q, t);
    MulComm(s, q);
    MulAssoc(q, s, Mul(r, w));
    MulAssoc(s, r, w);
    MulComm(r, s);
    MulOne(w);
    MulComm(w, q);
  }

  /** Away from the data nodes the numerator is the product times the sum of
      v[d] / (x + y_d). */
  lemma {:induction false} NumeratorAway(v: Vec, row: Vec, n: nat, x: byte)
    requires n <= |v| && n <= |row| && n <= 255
    requires forall d :: 0 <= d < n ==> Mul(row[d], Add(x, Node(d))) == 1
    ensures Eval(Numerator(v, n), x) == Mul(Eval(NodeProduct(n), x), Dot(row, v, n))
  {
    if n == 0 {
      MulZero(1);
      MulZero(Eval(NodeProduct(0), x));
    } else {
      hide Mul, Add, Eval, NodeProduct, Numerator;
      NumeratorAway(v, row, n - 1, x);
      NumeratorStep(v, n, x);
      ProductStep(n, x);
      var s := Add(x, Node(n - 1));
      var q := Eval(NodeProduct(n - 1), x);
      var t := Dot(row, v, n - 1);
      AwayAlgebra(s, q, t, row[n - 1], v[n - 1]);
    }
  }

  /** At its own node the numerator shows whether v[i] is zero. */
  lemma {:induction false} NumeratorAtNode(v: Vec, n: nat, i: nat)
    requires i < n <= |v| && n <= 255
    ensures Eval(Numerator(v, n), Node(i)) == 0 <==> v[i] == 0
  {
    hide Mul, Add, Eval, NodeProduct, Numerator;
    var x, y := Node(i), Node(n - 1);
    NumeratorStep(v, n, x);
    ProductAtNode(n - 1, i);
    AddZero(x, y);
    var q, e := Eval(Numerator(v, n - 1), x), Eval(NodeProduct(n - 1), x);
    MulNotZero(Add(x, y), q);
    MulNotZero(v[n - 1], e);
    AddSelf(Mul(Add(x, y), q));
    AddSelf(Mul(v[n - 1], e));
    if i < n - 1 {
      NumeratorAtNode(v, n - 1, i);
    }
  }

  /** Every row that sends v to zero is a root of the numerator. */
  lemma RowGivesRoot(P: Matrix, nData: nat, nParity: nat, v: Vec, i: nat)
    requires nData + nParity <= 255 && IsCauchy(P, nData, nParity)
    requires |v| == nData && i < nData + nParity
    requires Dot(GeneratorRow(P, nData, i), v, nData) == 0
    ensures Eval(Numerator(v, nData), Node(i)) == 0
  {
    hide Mul, Add, Eval, NodeProduct, Numerator, Dot;
    if i < nData {
      DotUnit(UnitRow(i, nData), i, v, nData);
      NumeratorAtNode(v, nData, i);
    } else {
      NumeratorAway(v, P[i - nData], nData, Node(i));
      MulZero(Eval(NodeProduct(nData), Node(i)));
    }
  }

  /** The code is maximum distance separable: no non-zero data vector is sent
      to zero by `nData` different generator rows. */
  lemma AnyRowsDetermine(P: Matrix, nData: nat, nParity: nat, rows: seq<nat>, v: Vec)
    requires nData + nParity <= 255 && IsCauchy(P, nData, nParity)
    requires |rows| == nData == |v|
    requires forall k :: 0 <= k < nData ==> rows[k] < nData + nParity
    requires forall j, k :: 0 <= j < k < nData ==> rows[j] != rows[k]
    requires forall k :: 0 <= k < nData ==> Dot(GeneratorRow(P, nData, rows[k]), v, nData) == 0
    ensures v == Zeros(nData)
  {
    hide Mul, Add, Eval, NodeProduct, Numerator, Dot, GeneratorRow;
    var roots: seq<byte> := seq(nData, k requires 0 <= k < nData => Node(rows[k]));
    forall k | 0 <= k < nData
      ensures Eval(Numerator(v, nData), roots[k]) == 0
    {
      RowGivesRoot(P, nData, nParity, v, rows[k]);
    }
    forall d | 0 <= d < nData
      ensures v[d] == 0
    {
      ManyRoots(Numerator(v, nData), roots, Node(d));
      NumeratorAtNode(v, nData, d);
    }
  }
}
