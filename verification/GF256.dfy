/** The field GF(256) of `mods/asset_fabric/erasure.py`: bytes, exclusive or,
    and multiplication of polynomials over GF(2) modulo 0x11D.

    `Mul` is the reference multiplication (shift and add, one bit at a time).
    The exponent and logarithm tables live in GFTables.dfy and are proved
    against it. */
module GF256 {
  const PRIM := 0x11D

  type byte = x: int | 0 <= x < 256

  // ----- exclusive or on integers -----

  function Xor(a: nat, b: nat): nat
    decreases a + b
  {
    if a == 0 then b
    else if b == 0 then a
    else 2 * Xor(a / 2, b / 2) + (if a % 2 == b % 2 then 0 else 1)
  }

  function TwoTo(n: nat): nat {
    if n == 0 then 1 else 2 * TwoTo(n - 1)
  }

  lemma XorHalves(a: nat, b: nat)
    ensures Xor(a, b) / 2 == Xor(a / 2, b / 2)
    ensures Xor(a, b) % 2 == if a % 2 == b % 2 then 0 else 1
  {
  }

  lemma {:induction false} XorComm(a: nat, b: nat)
    ensures Xor(a, b) == Xor(b, a)
    decreases a
  {
    if a != 0 && b != 0 {
      XorComm(a / 2, b / 2);
    }
  }

  lemma {:induction false} XorAssoc(a: nat, b: nat, c: nat)
    ensures Xor(Xor(a, b), c) == Xor(a, Xor(b, c))
    decreases a
  {
    if a != 0 && b != 0 && c != 0 {
      XorAssoc(a / 2, b / 2, c / 2);
      XorHalves(a, b);
      XorHalves(b, c);
    }
  }

  lemma {:induction false} XorSelf(a: nat)
    ensures Xor(a, a) == 0
  {
    if a != 0 {
      XorSelf(a / 2);
    }
  }

  /** A number is recovered by adding the same mask twice. */
  lemma XorCancel(a: nat, b: nat)
    ensures Xor(a, Xor(a, b)) == b
  {
    XorAssoc(a, a, b);
    XorSelf(a);
  }

  lemma XorZero(a: nat, b: nat)
    ensures Xor(a, b) == 0 <==> a == b
  {
    XorCancel(a, b);
    XorSelf(a);
  }

  /** (a + b) + (c + d) == (a + c) + (b + d) */
  lemma XorSwap(a: nat, b: nat, c: nat, d: nat)
    ensures Xor(Xor(a, b), Xor(c, d)) == Xor(Xor(a, c), Xor(b, d))
  {
    XorAssoc(a, b, Xor(c, d));
    XorAssoc(b, c, d);
    XorComm(b, c);
    XorAssoc(c, b, d);
    XorAssoc(a, c, Xor(b, d));
  }

  lemma {:induction false} XorBound(a: nat, b: nat, n: nat)
    requires a < TwoTo(n) && b < TwoTo(n)
    ensures Xor(a, b) < TwoTo(n)
    decreases n
  {
    if n > 0 {
      XorBound(a / 2, b / 2, n - 1);
    }
  }

  /** The top bits of two numbers add up like any other bit. */
  lemma {:induction false} XorTop(a: nat, b: nat, n: nat)
    requires a < TwoTo(n + 1) && b < TwoTo(n + 1)
    ensures Xor(a, b) < TwoTo(n) <==> (a < TwoTo(n) <==> b < TwoTo(n))
    decreases n
  {
    if n > 0 {
      XorTop(a / 2, b / 2, n - 1);
    }
  }

  // ----- the field operations -----

  /** Addition: exclusive or of two bytes. */
  function Add(a: byte, b: byte): byte {
    XorBound(a, b, 8);
    Xor(a, b)
  }

  /** Multiplication by the polynomial x. */
  function X2(a: byte): byte {
    if 2 * a < 256 then 2 * a
    else
      XorTop(2 * a, PRIM, 8);
      Xor(2 * a, PRIM)
  }

  /** Multiplication of polynomials modulo 0x11D, the multiplier `b` being
      consumed from its lowest bit. */
  function Mul(a: byte, b: byte): byte
    decreases b
  {
    if b == 0 then 0
    else Add(if b % 2 == 1 then a else 0, Mul(X2(a), b / 2))
  }

  /** The i-th power of x. */
  function Pow2(i: nat): byte {
    if i == 0 then 1 else X2(Pow2(i - 1))
  }

  // ----- laws of addition -----

  lemma AddComm(a: byte, b: byte)
    ensures Add(a, b) == Add(b, a)
  {
    XorComm(a, b);
  }

  lemma AddAssoc(a: byte, b: byte, c: byte)
    ensures Add(Add(a, b), c) == Add(a, Add(b, c))
  {
    XorAssoc(a, b, c);
  }

  lemma AddSelf(a: byte)
    ensures Add(a, a) == 0
    ensures Add(a, 0) == a == Add(0, a)
  {
    XorSelf(a);
  }

  lemma AddCancel(a: byte, b: byte)
    ensures Add(a, Add(a, b)) == b
  {
    XorCancel(a, b);
  }

  lemma AddZero(a: byte, b: byte)
    ensures Add(a, b) == 0 <==> a == b
  {
    XorZero(a, b);
  }

  lemma AddSwap(a: byte, b: byte, c: byte, d: byte)
    ensures Add(Add(a, b), Add(c, d)) == Add(Add(a, c), Add(b, d))
  {
    XorSwap(a, b, c, d);
  }

  // ----- multiplication by x is linear -----

  lemma {:induction false} X2Linear(a: byte, b: byte)
    ensures X2(Add(a, b)) == Add(X2(a), X2(b))
  {
    assert Xor(2 * a, 2 * b) == 2 * Xor(a, b);
    XorTop(a, b, 7);
    if a < 128 && b >= 128 {
      XorAssoc(2 * a, 2 * b, PRIM);
    } else if a >= 128 && b < 128 {
      XorComm(2 * a, 2 * b);
      XorAssoc(2 * b, 2 * a, PRIM);
      XorComm(2 * b, X2(a));
    } else if a >= 128 && b >= 128 {
      XorSwap(2 * a, PRIM, 2 * b, PRIM);
      XorSelf(PRIM);
    }
  }

  lemma {:induction false} X2Zero(a: byte)
    ensures X2(a) == 0 <==> a == 0
  {
    if 2 * a >= 256 {
      XorZero(2 * a, PRIM);
    }
  }

  lemma X2Injective(a: byte, b: byte)
    requires X2(a) == X2(b)
    ensures a == b
  {
    X2Linear(a, b);
    AddSelf(X2(a));
    X2Zero(Add(a, b));
    AddZero(a, b);
  }

  // ----- laws of multiplication that follow from the definition -----

  lemma {:induction false} MulX2(a: byte, b: byte)
    ensures Mul(X2(a), b) == X2(Mul(a, b))
    decreases b
  {
    if b != 0 {
      MulX2(X2(a), b / 2);
      X2Linear(if b % 2 == 1 then a else 0, Mul(X2(a), b / 2));
    }
  }

  lemma {:induction false} MulZero(a: byte)
    ensures Mul(a, 0) == 0
    ensures Mul(0, a) == 0
  {
    if a != 0 {
      MulZero(a / 2);
    }
  }

  lemma {:induction false} MulOneLeft(b: byte)
    ensures Mul(1, b) == b
  {
    if b != 0 {
      MulX2(1, b / 2);
      MulOneLeft(b / 2);
      assert Xor(b % 2, 2 * (b / 2)) == b;
    }
  }

  lemma {:induction false} MulDistribLeft(a: byte, b: byte, c: byte)
    ensures Mul(Add(a, b), c) == Add(Mul(a, c), Mul(b, c))
    decreases c
  {
    if c != 0 {
      X2Linear(a, b);
      MulDistribLeft(X2(a), X2(b), c / 2);
      if c % 2 == 1 {
        AddSwap(a, b, Mul(X2(a), c / 2), Mul(X2(b), c / 2));
      }
    }
  }

  lemma {:induction false} MulPow2(i: nat, b: byte, j: nat)
    requires b == Pow2(j)
    ensures Mul(Pow2(i), b) == Pow2(i + j)
    decreases i
  {
    if i == 0 {
      MulOneLeft(b);
    } else {
      MulPow2(i - 1, b, j);
      MulX2(Pow2(i - 1), b);
    }
  }

  lemma {:induction false} Pow2NotZero(i: nat)
    ensures Pow2(i) != 0
  {
    if i > 0 {
      Pow2NotZero(i - 1);
      X2Zero(Pow2(i - 1));
    }
  }

  // ----- doubling in integer arithmetic -----

  /** A common top bit cancels. */
  lemma {:induction false} XorDropTop(a: nat, b: nat, n: nat)
    requires a < TwoTo(n) && b < TwoTo(n)
    ensures Xor(TwoTo(n) + a, TwoTo(n) + b) == Xor(a, b)
    decreases n
  {
    hide Xor;
    if n > 0 {
      XorHalves(a, b);
      XorHalves(TwoTo(n) + a, TwoTo(n) + b);
      XorDropTop(a / 2, b / 2, n - 1);
    } else {
      XorSelf(0);
      XorSelf(1);
    }
  }

  lemma XorNone(a: nat)
    ensures Xor(a, 0) == a
  {
  }

  /** Adding 7 flips the three lowest bits. */
  lemma XorSeven(v: nat)
    ensures Xor(v, 7) == v + 7 - 2 * (v % 8)
  {
    hide Xor;
    XorHalves(v, 7);
    XorHalves(v / 2, 3);
    XorHalves(v / 4, 1);
    XorNone(v / 8);
  }

  lemma XorEven(u: nat)
    ensures Xor(2 * u, 29) == 2 * u + 29 - 8 * (u / 2 % 8)
  {
    hide Xor;
    XorHalves(2 * u, 29);
    XorHalves(u, 14);
    XorSeven(u / 2);
  }

  lemma Reduced(u: nat)
    requires u < 128
    ensures Xor(2 * (u + 128), PRIM) == Xor(2 * u, 29)
  {
    hide Xor;
    assert TwoTo(8) == 256;
    XorDropTop(2 * u, 29, 8);
  }

  /** Doubling without exclusive or: 0x11D is 256 + 4 * 7 + 1. */
  function X2Arith(a: byte): int {
    if a < 128 then 2 * a
    else 2 * (a - 128) + 29 - 8 * ((a - 128) / 2 % 8)
  }

  lemma X2IsArith(a: byte)
    ensures X2(a) == X2Arith(a)
  {
    hide Xor, TwoTo;
    if a >= 128 {
      Reduced(a - 128);
      XorEven(a - 128);
    }
  }

  // ----- x has order exactly 255: its orbit, step by step -----

  /** `a` is the i-th power of x, and 1 has not come back so far. */
  ghost predicate At(i: nat, a: byte) {
    && Pow2(i) == a
    && forall d :: 0 < d <= i ==> Pow2(d) != 1
  }

  lemma AtStart()
    ensures At(0, 1)
  {
  }

  lemma Next(i: nat, a: byte)
    requires At(i, a) && X2Arith(a) != 1
    ensures At(i + 1, X2Arith(a))
  {
    X2IsArith(a);
  }

  lemma Orbit1()
    ensures At(32, 157)
  {
    hide At;
    AtStart();
    Next(0, 1); Next(1, 2); Next(2, 4); Next(3, 8); Next(4, 16); Next(5, 32);
    Next(6, 64); Next(7, 128); Next(8, 29); Next(9, 58); Next(10, 116); Next(11, 232);
    Next(12, 205); Next(13, 135); Next(14, 19); Next(15, 38); Next(16, 76); Next(17, 152);
    Next(18, 45); Next(19, 90); Next(20, 180); Next(21, 117); Next(22, 234); Next(23, 201);
    Next(24, 143); Next(25, 3); Next(26, 6); Next(27, 12); Next(28, 24); Next(29, 48);
    Next(30, 96); Next(31, 192);
  }

  lemma Orbit2()
    ensures At(64, 95)
  {
    hide At;
    Orbit1();
    Next(32, 157); Next(33, 39); Next(34, 78); Next(35, 156); Next(36, 37); Next(37, 74);
    Next(38, 148); Next(39, 53); Next(40, 106); Next(41, 212); Next(42, 181); Next(43, 119);
    Next(44, 238); Next(45, 193); Next(46, 159); Next(47, 35); Next(48, 70); Next(49, 140);
    Next(50, 5); Next(51, 10); Next(52, 20); Next(53, 40); Next(54, 80); Next(55, 160);
    Next(56, 93); Next(57, 186); Next(58, 105); Next(59, 210); Next(60, 185); Next(61, 111);
    Next(62, 222); Next(63, 161);
  }

  lemma Orbit3()
    ensures At(96, 217)
  {
    hide At;
    Orbit2();
    Next(64, 95); Next(65, 190); Next(66, 97); Next(67, 194); Next(68, 153); Next(69, 47);
    Next(70, 94); Next(71, 188); Next(72, 101); Next(73, 202); Next(74, 137); Next(75, 15);
    Next(76, 30); Next(77, 60); Next(78, 120); Next(79, 240); Next(80, 253); Next(81, 231);
    Next(82, 211); Next(83, 187); Next(84, 107); Next(85, 214); Next(86, 177); Next(87, 127);
    Next(88, 254); Next(89, 225); Next(90, 223); Next(91, 163); Next(92, 91); Next(93, 182);
    Next(94, 113); Next(95, 226);
  }

  lemma Orbit4()
    ensures At(128, 133)
  {
    hide At;
    Orbit3();
    Next(96, 217); Next(97, 175); Next(98, 67); Next(99, 134); Next(100, 17); Next(101, 34);
    Next(102, 68); Next(103, 136); Next(104, 13); Next(105, 26); Next(106, 52); Next(107, 104);
    Next(108, 208); Next(109, 189); Next(110, 103); Next(111, 206); Next(112, 129); Next(113, 31);
    Next(114, 62); Next(115, 124); Next(116, 248); Next(117, 237); Next(118, 199); Next(119, 147);
    Next(120, 59); Next(121, 118); Next(122, 236); Next(123, 197); Next(124, 151); Next(125, 51);
    Next(126, 102); Next(127, 204);
  }

  lemma Orbit5()
    ensures At(160, 230)
  {
    hide At;
    Orbit4();
    Next(128, 133); Next(129, 23); Next(130, 46); Next(131, 92); Next(132, 184); Next(133, 109);
    Next(134, 218); Next(135, 169); Next(136, 79); Next(137, 158); Next(138, 33); Next(139, 66);
    Next(140, 132); Next(141, 21); Next(142, 42); Next(143, 84); Next(144, 168); Next(145, 77);
    Next(146, 154); Next(147, 41); Next(148, 82); Next(149, 164); Next(150, 85); Next(151, 170);
    Next(152, 73); Next(153, 146); Next(154, 57); Next(155, 114); Next(156, 228); Next(157, 213);
    Next(158, 183); Next(159, 115);
  }

  lemma Orbit6()
    ensures At(192, 130)
  {
    hide At;
    Orbit5();
    Next(160, 230); Next(161, 209); Next(162, 191); Next(163, 99); Next(164, 198); Next(165, 145);
    Next(166, 63); Next(167, 126); Next(168, 252); Next(169, 229); Next(170, 215); Next(171, 179);
    Next(172, 123); Next(173, 246); Next(174, 241); Next(175, 255); Next(176, 227); Next(177, 219);
    Next(178, 171); Next(179, 75); Next(180, 150); Next(181, 49); Next(182, 98); Next(183, 196);
    Next(184, 149); Next(185, 55); Next(186, 110); Next(187, 220); Next(188, 165); Next(189, 87);
    Next(190, 174); Next(191, 65);
  }

  lemma Orbit7()
    ensures At(224, 18)
  {
    hide At;
    Orbit6();
    Next(192, 130); Next(193, 25); Next(194, 50); Next(195, 100); Next(196, 200); Next(197, 141);
    Next(198, 7); Next(199, 14); Next(200, 28); Next(201, 56); Next(202, 112); Next(203, 224);
    Next(204, 221); Next(205, 167); Next(206, 83); Next(207, 166); Next(208, 81); Next(209, 162);
    Next(210, 89); Next(211, 178); Next(212, 121); Next(213, 242); Next(214, 249); Next(215, 239);
    Next(216, 195); Next(217, 155); Next(218, 43); Next(219, 86); Next(220, 172); Next(221, 69);
    Next(222, 138); Next(223, 9);
  }

  lemma Orbit8()
    ensures At(254, 142)
  {
    hide At;
    Orbit7();
    Next(224, 18); Next(225, 36); Next(226, 72); Next(227, 144); Next(228, 61); Next(229, 122);
    Next(230, 244); Next(231, 245); Next(232, 247); Next(233, 243); Next(234, 251); Next(235, 235);
    Next(236, 203); Next(237, 139); Next(238, 11); Next(239, 22); Next(240, 44); Next(241, 88);
    Next(242, 176); Next(243, 125); Next(244, 250); Next(245, 233); Next(246, 207); Next(247, 131);
    Next(248, 27); Next(249, 54); Next(250, 108); Next(251, 216); Next(252, 173); Next(253, 71);
  }

  lemma PowerPeriod()
    ensures Pow2(255) == 1
  {
    hide X2, Xor;
    assert Pow2(254) == 142 by { Orbit8(); }
    X2IsArith(142);
  }

  lemma {:induction false} PowerCancel(i: nat, d: nat)
    requires Pow2(i + d) == Pow2(i)
    ensures Pow2(d) == 1
    decreases i
  {
    if i > 0 {
      X2Injective(Pow2(i - 1 + d), Pow2(i - 1));
      PowerCancel(i - 1, d);
    }
  }

  /** The first 255 powers of x are pairwise different. */
  lemma PowersDistinct(i: nat, j: nat)
    requires i < j < 255
    ensures Pow2(i) != Pow2(j)
  {
    hide Pow2;
    Orbit8();
    if Pow2(i) == Pow2(j) {
      PowerCancel(i, j - i);
    }
  }

  lemma {:induction false} PowerWrap(i: nat)
    ensures Pow2(i + 255) == Pow2(i)
  {
    if i == 0 {
      PowerPeriod();
    } else {
      PowerWrap(i - 1);
    }
  }

  // ----- every non-zero byte is a power of x -----

  ghost function FirstPowers(n: nat): set<int> {
    set i | 0 <= i < n :: Pow2(i)
  }

  lemma OneMore(s: set<int>, x: int)
    requires x !in s
    ensures |s + {x}| == |s| + 1
  {
  }

  lemma {:induction false} FirstPowersSize(n: nat)
    requires n <= 255
    ensures |FirstPowers(n)| == n
  {
    hide Pow2;
    if n == 0 {
      assert FirstPowers(0) == {};
    } else {
      FirstPowersSize(n - 1);
      forall i | 0 <= i < n - 1
        ensures Pow2(i) != Pow2(n - 1)
      {
        PowersDistinct(i, n - 1);
      }
      OneMore(FirstPowers(n - 1), Pow2(n - 1));
      assert FirstPowers(n) == FirstPowers(n - 1) + {Pow2(n - 1)};
    }
  }

  ghost function Interval(n: nat): (s: set<int>)
    ensures forall x :: x in s <==> 1 <= x <= n
    ensures |s| == n
  {
    if n == 0 then {} else Interval(n - 1) + {n}
  }

  lemma SubsetOfSameSize(s: set<int>, t: set<int>)
    requires s <= t && |s| == |t|
    ensures s == t
  {
    assert |t - s| == |t| - |s|;
    assert t - s == {};
  }

  /** x generates the multiplicative group. */
  lemma EveryByteIsAPower(a: byte) returns (i: nat)
    requires a != 0
    ensures i < 255 && Pow2(i) == a
  {
    var bytes := Interval(255);
    FirstPowersSize(255);
    forall k | 0 <= k < 255
      ensures Pow2(k) in bytes
    {
      Pow2NotZero(k);
    }
    SubsetOfSameSize(FirstPowers(255), bytes);
    assert a in FirstPowers(255);
    i :| 0 <= i < 255 && Pow2(i) == a;
  }

  // ----- the field laws -----

  lemma MulComm(a: byte, b: byte)
    ensures Mul(a, b) == Mul(b, a)
  {
    if a == 0 || b == 0 {
      MulZero(a);
      MulZero(b);
    } else {
      var i := EveryByteIsAPower(a);
      var j := EveryByteIsAPower(b);
      MulPow2(i, b, j);
      MulPow2(j, a, i);
    }
  }

  lemma {:induction false} MulAssoc(a: byte, b: byte, c: byte)
    ensures Mul(Mul(a, b), c) == Mul(a, Mul(b, c))
  {
    if a == 0 || b == 0 || c == 0 {
      MulZero(a);
      MulZero(b);
      MulZero(c);
      MulZero(Mul(a, b));
      MulZero(Mul(b, c));
    } else {
      var i := EveryByteIsAPower(a);
      var j := EveryByteIsAPower(b);
      var k := EveryByteIsAPower(c);
      MulPow2(i, b, j);
      MulPow2(j, c, k);
      MulPow2(i + j, c, k);
      MulPow2(i, Mul(b, c), j + k);
    }
  }

  lemma MulDistrib(a: byte, b: byte, c: byte)
    ensures Mul(a, Add(b, c)) == Add(Mul(a, b), Mul(a, c))
  {
    MulComm(a, Add(b, c));
    MulComm(a, b);
    MulComm(a, c);
    MulDistribLeft(b, c, a);
  }

  lemma MulOne(a: byte)
    ensures Mul(a, 1) == a == Mul(1, a)
  {
    MulComm(a, 1);
    MulOneLeft(a);
  }

  lemma MulNotZero(a: byte, b: byte)
    ensures Mul(a, b) == 0 <==> a == 0 || b == 0
  {
    if a == 0 || b == 0 {
      MulZero(a);
      MulZero(b);
    } else {
      var i := EveryByteIsAPower(a);
      var j := EveryByteIsAPower(b);
      MulPow2(i, b, j);
      Pow2NotZero(i + j);
    }
  }
}
