/** Polynomials over GF(256) as coefficient sequences, lowest degree first:
    a polynomial with n coefficients and n different roots vanishes everywhere. */
module Polynomials {
  import opened GF256

  type Poly = seq<byte>

  function Eval(p: Poly, x: byte): byte {
    if p == [] then 0 else Add(p[0], Mul(x, Eval(p[1..], x)))
  }

  // ----- division by a linear factor -----

  /** Quotient of p by (x + r). */
  function Quotient(p: Poly, r: byte): (q: Poly)
    requires p != []
    ensures |q| == |p| - 1
  {
    if |p| == 1 then [] else [Eval(p[1..], r)] + Quotient(p[1..], r)
  }

  lemma AddMiddle(m: byte, r: byte, x: byte)
    ensures Add(Add(m, r), Add(x, m)) == Add(x, r)
  {
    hide Add;
    AddComm(m, r);
    AddComm(x, m);
    AddAssoc(r, m, Add(m, x));
    AddCancel(m, x);
    AddComm(r, x);
  }

  lemma {:induction false} DivisionLaw(p: Poly, r: byte, x: byte)
    requires p != []
    ensures Add(Eval(p, x), Eval(p, r)) == Mul(Add(x, r), Eval(Quotient(p, r), x))
  {
    hide Add, Mul;
    var c, q := p[0], p[1..];
    var s := Add(x, r);
    var qx, qr := Mul(x, Eval(q, x)), Mul(r, Eval(q, r));
    AddSwap(c, qx, c, qr);
    AddSelf(c);
    AddSelf(Add(qx, qr));
    if |p| == 1 {
      MulZero(x);
      MulZero(r);
      MulZero(s);
      AddSelf(0);
    } else {
      DivisionLaw(q, r, x);
      var d := Eval(Quotient(q, r), x);
      assert Quotient(p, r)[1..] == Quotient(q, r);
      MulDistrib(s, Eval(q, r), Mul(x, d));
      MulDistribLeft(x, r, Eval(q, r));
      MulAssoc(s, x, d);
      MulComm(s, x);
      MulAssoc(x, s, d);
      MulDistrib(x, Eval(q, x), Eval(q, r));
      AddMiddle(Mul(x, Eval(q, r)), qr, qx);
    }
  }

  ghost predicate Distinct(xs: seq<byte>) {
    forall i, j :: 0 <= i < j < |xs| ==> xs[i] != xs[j]
  }

  lemma EvalNothing(x: byte)
    ensures Eval([], x) == 0
  {
  }

  /** As many different roots as coefficients: the polynomial is zero. */
  lemma {:induction false} ManyRoots(p: Poly, roots: seq<byte>, x: byte)
    requires |roots| >= |p| && Distinct(roots)
    requires forall i :: 0 <= i < |roots| ==> Eval(p, roots[i]) == 0
    ensures Eval(p, x) == 0
    decreases |p|
  {
    hide Add, Mul, Eval;
    if p == [] {
      assert Eval(p, x) == 0 by { EvalNothing(x); }
    } else {
      var r := roots[0];
      var q := Quotient(p, r);
      forall i | 0 <= i < |roots| - 1
        ensures Eval(q, roots[1..][i]) == 0
      {
        var y := roots[i + 1];
        DivisionLaw(p, r, y);
        AddSelf(0);
        MulNotZero(Add(y, r), Eval(q, y));
        AddZero(y, r);
      }
      ManyRoots(q, roots[1..], x);
      DivisionLaw(p, r, x);
      MulZero(Add(x, r));
      AddSelf(Eval(p, x));
    }
  }

  // ----- sums, multiples and linear factors -----

  function Sum(p: Poly, q: Poly): (s: Poly)
    requires |p| == |q|
    ensures |s| == |p|
  {
    seq(|p|, i requires 0 <= i < |p| => Add(p[i], q[i]))
  }

  function Multiple(p: Poly, f: byte): (s: Poly)
    ensures |s| == |p|
  {
    seq(|p|, i requires 0 <= i < |p| => Mul(f, p[i]))
  }

  /** (x + y) * p */
  function TimesLinear(p: Poly, y: byte): (s: Poly)
    ensures |s| == |p| + 1
  {
    Sum([0] + p, Multiple(p, y) + [0])
  }

  lemma {:induction false} EvalSum(p: Poly, q: Poly, x: byte)
    requires |p| == |q|
    ensures Eval(Sum(p, q), x) == Add(Eval(p, x), Eval(q, x))
    decreases |p|
  {
    hide Add, Mul;
    if p == [] {
      AddSelf(0);
    } else {
      EvalSum(p[1..], q[1..], x);
      assert Sum(p, q)[1..] == Sum(p[1..], q[1..]);
      MulDistrib(x, Eval(p[1..], x), Eval(q[1..], x));
      AddSwap(p[0], q[0], Mul(x, Eval(p[1..], x)), Mul(x, Eval(q[1..], x)));
    }
  }

  lemma {:induction false} EvalMultiple(p: Poly, f: byte, x: byte)
    ensures Eval(Multiple(p, f), x) == Mul(f, Eval(p, x))
    decreases |p|
  {
    hide Add, Mul;
    if p == [] {
      MulZero(f);
    } else {
      var e := Eval(p[1..], x);
      EvalMultiple(p[1..], f, x);
      assert Multiple(p, f)[1..] == Multiple(p[1..], f);
      MulDistrib(f, p[0], Mul(x, e));
      MulAssoc(f, x, e);
      MulComm(f, x);
      MulAssoc(x, f, e);
    }
  }

  lemma {:induction false} EvalPadded(p: Poly, x: byte)
    ensures Eval(p + [0], x) == Eval(p, x)
    decreases |p|
  {
    hide Add, Mul;
    if p == [] {
      assert p + [0] == [0] && [0][1..] == [];
      MulZero(x);
      AddSelf(0);
    } else {
      EvalPadded(p[1..], x);
      assert (p + [0])[1..] == p[1..] + [0];
    }
  }

  lemma EvalTimesLinear(p: Poly, y: byte, x: byte)
    ensures Eval(TimesLinear(p, y), x) == Mul(Add(x, y), Eval(p, x))
  {
    hide Add, Mul;
    EvalSum([0] + p, Multiple(p, y) + [0], x);
    assert ([0] + p)[1..] == p;
    AddSelf(Mul(x, Eval(p, x)));
    EvalPadded(Multiple(p, y), x);
    EvalMultiple(p, y, x);
    MulDistribLeft(x, y, Eval(p, x));
  }
}
