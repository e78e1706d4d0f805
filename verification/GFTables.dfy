/** The exponent and logarithm tables of `mods/asset_fabric/erasure.py`
    (lines 28-59) and the multiplication and division that read them. */
module GFTables {
  import opened GF256
  import opened Options

  /** The logarithm table is right about `a`. */
  ghost predicate Finds(log: seq<nat>, a: byte)
    requires |log| == 256
  {
    log[a] < 255 && Pow2(log[a]) == a
  }

  lemma DivIndex(la: nat, lb: nat, i: nat)
    requires la < 255 && lb < 255
    requires i == (la as int - lb) % 255
    ensures i < 255 && Pow2(i + lb) == Pow2(la)
  {
    hide Pow2;
    if la >= lb {
      assert i == la - lb;
    } else {
      assert i == la - lb + 255;
      PowerWrap(la);
    }
  }

  /** The two module-level lists after `_init_gf` has run. */
  datatype Tables = Tables(exp: seq<byte>, log: seq<nat>) {
    /** `exp` holds the powers of x, twice over; `log` finds every non-zero
        byte among the first 255 of them. */
    ghost predicate Valid() {
      && |exp| == 512
      && |log| == 256
      && (forall i :: 0 <= i < 512 ==> exp[i] == Pow2(i))
      && (forall a: byte :: a != 0 ==> Finds(log, a))
    }

    /** `_gf_mul` */
    function GfMul(a: byte, b: byte): (r: byte)
      requires Valid()
      ensures r == Mul(a, b)
    {
      if a == 0 || b == 0 then
        MulZero(a);
        MulZero(b);
        0
      else
        assert Finds(log, a) && Finds(log, b);
        MulPow2(log[a], b, log[b]);
        exp[log[a] + log[b]]
    }

    /** `_gf_div`; dividing by zero raises. */
    function GfDiv(a: byte, b: byte): (r: Option<byte>)
      requires Valid()
      ensures r.None? <==> b == 0
      ensures r.Some? ==> Mul(r.value, b) == a
    {
      if b == 0 then None
      else if a == 0 then
        MulZero(b);
        Some(0)
      else
        assert Finds(log, a) && Finds(log, b);
        var la: int := log[a];
        var lb: int := log[b];
        var i := (la - lb) % 255;
        DivIndex(la, lb, i);
        MulPow2(i, b, lb);
        Some(exp[i])
    }
  }

  /** One turn of the loop of `_init_gf` is a multiplication by x. */
  lemma ShiftAndReduce(x: byte)
    ensures X2(x) == if 2 * x / 256 % 2 == 1 then Xor(2 * x, PRIM) else 2 * x
  {
  }

  lemma PowerSteps(i: nat)
    ensures Pow2(0) == 1
    ensures Pow2(i + 1) == X2(Pow2(i))
  {
  }

  /** `_init_gf`: one pass writes both tables, the second pass repeats `exp`. */
  method InitGf() returns (t: Tables)
    ensures t.Valid()
  {
    hide Xor, X2, Pow2;
    var exp: seq<byte> := seq(512, _ => 0);
    var log: seq<nat> := seq(256, _ => 0);
    var x := 1;
    ghost var seen: set<byte> := {};
    PowerSteps(0);
    for i := 0 to 255
      invariant |exp| == 512 && |log| == 256
      invariant 0 <= x < 256 && x == Pow2(i)
      invariant forall k :: 0 <= k < i ==> exp[k] == Pow2(k) && Pow2(k) in seen
      invariant forall a :: a in seen ==> Finds(log, a)
    {
      exp := exp[i := x];
      log := log[x := i];
      seen := seen + {x};
      ShiftAndReduce(x);
      PowerSteps(i);
      x := 2 * x;
      if x / 256 % 2 == 1 {
        x := Xor(x, PRIM);
      }
    }
    forall a: byte | a != 0
      ensures Finds(log, a)
    {
      var k := EveryByteIsAPower(a);
    }
    for i := 255 to 512
      invariant |exp| == 512
      invariant forall k :: 0 <= k < i ==> exp[k] == Pow2(k)
    {
      PowerWrap(i - 255);
      exp := exp[i := exp[i - 255]];
    }
    t := Tables(exp, log);
  }
}
