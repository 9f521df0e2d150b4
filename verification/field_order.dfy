/** 2 generates the multiplicative group of GF(2^8)/0x11D: its first 255 powers are the 255
    non-zero bytes. Hence the ring of GF256 is a field. */
module FieldOrder {
  import opened Basics
  import opened Bitwise
  import opened GF256

  // ---- A machine byte, and the value it stands for ----

  function Value(b: bv8): Byte {
    (if b & 1 == 0 then 0 else 1) + (if b & 2 == 0 then 0 else 2)
    + (if b & 4 == 0 then 0 else 4) + (if b & 8 == 0 then 0 else 8)
    + (if b & 16 == 0 then 0 else 16) + (if b & 32 == 0 then 0 else 32)
    + (if b & 64 == 0 then 0 else 64) + (if b & 128 == 0 then 0 else 128)
  }

  function Next(z: bv8): bv8 {
    (z << 1) ^ ((z >> 7) * 0x1D)
  }

  lemma NextBits(b: bv8)
    ensures Next(b) & 1 == 0 <==> b & 128 == 0
    ensures Next(b) & 2 == 0 <==> b & 1 == 0
    ensures Next(b) & 4 == 0 <==> (b & 2 == 0 <==> b & 128 == 0)
    ensures Next(b) & 8 == 0 <==> (b & 4 == 0 <==> b & 128 == 0)
    ensures Next(b) & 16 == 0 <==> (b & 8 == 0 <==> b & 128 == 0)
    ensures Next(b) & 32 == 0 <==> b & 16 == 0
    ensures Next(b) & 64 == 0 <==> b & 32 == 0
    ensures Next(b) & 128 == 0 <==> b & 64 == 0
  {
  }

  /** The reduction of a byte with top bit 1 and lower bits p0 to p6. */
  lemma ReduceBits(p0: nat, p1: nat, p2: nat, p3: nat, high: nat)
    requires p0 < 2 && p1 < 2 && p2 < 2 && p3 < 2 && 8 <= high < 16
    ensures var n := p0 + 2 * p1 + 4 * p2 + 8 * p3 + 16 * high;
      Xor(2 * n, 0x11D) == 1 + 2 * p0 + 4 * (1 - p1) + 8 * (1 - p2) + 16 * (1 - p3) + 32 * (high - 8)
  {
    hide Xor;
    assert Xor(high, 8) == high - 8 by { TopNibble(high); }
    XorAppend(high, 8, p3, 1);
    XorAppend(2 * high + p3, 17, p2, 1);
    XorAppend(4 * high + 2 * p3 + p2, 35, p1, 1);
    XorAppend(8 * high + 4 * p3 + 2 * p2 + p1, 71, p0, 0);
    XorAppend(16 * high + 8 * p3 + 4 * p2 + 2 * p1 + p0, 142, 0, 1);
  }

  /** The field polynomial: x to the eighth is x^4 + x^3 + x^2 + 1. */
  lemma FieldPolynomial()
    ensures Mul(128, 2) == 0x1D
  {
    hide Xor, Mul;
    MulTwo(128);
    ReduceBits(0, 0, 0, 0, 8);
  }

  lemma TopNibble(h: nat)
    requires 8 <= h < 16
    ensures Xor(h, 8) == h - 8
  {
    hide Xor;
    var a, b, c := h % 2, h / 2 % 2, h / 4 % 2;
    assert h == 8 + 4 * c + 2 * b + a;
    XorSelf(1);
    XorAppend(1, 1, c, 0);
    XorAppend(2 + c, 2, b, 0);
    XorAppend(4 + 2 * c + b, 4, a, 0);
  }

  function Digit(zero: bool): nat {
    if zero then 0 else 1
  }

  lemma XtimeValue(b: bv8)
    ensures Xtime(Value(b)) == Value(Next(b))
  {
    hide Next, Xor;
    NextBits(b);
    var n := Value(b);
    if b & 128 == 0 {
      XtimeSmall(n);
    } else {
      var high := Digit(b & 16 == 0) + 2 * Digit(b & 32 == 0) + 4 * Digit(b & 64 == 0) + 8;
      ReduceBits(Digit(b & 1 == 0), Digit(b & 2 == 0), Digit(b & 4 == 0), Digit(b & 8 == 0), high);
      assert n == Digit(b & 1 == 0) + 2 * Digit(b & 2 == 0) + 4 * Digit(b & 4 == 0) + 8 * Digit(b & 8 == 0) + 16 * high;
      assert n / 128 == 1;
    }
  }

  // ---- No power of 2 below the 255th is 1 ----

  /** 2 * k steps lead from z to r without meeting 1. */
  predicate Walk(z: bv8, k: nat, r: bv8)
    decreases k
  {
    if k == 0 then z == r
    else Next(z) != 1 && Next(Next(z)) != 1 && Walk(Next(Next(z)), k - 1, r)
  }

  lemma ExpStep(k: nat)
    ensures Exp(k + 1) == Xtime(Exp(k))
  {
    MulTwo(Exp(k));
  }

  lemma ExpZero()
    ensures Exp(0) == 1 == Value(1)
  {
  }

  lemma ValueOne(b: bv8)
    ensures Value(b) == 1 <==> b == 1
  {
  }

  lemma WalkUnfold(z: bv8, k: nat, r: bv8)
    requires k > 0 && Walk(z, k, r)
    ensures Next(z) != 1 && Next(Next(z)) != 1 && Walk(Next(Next(z)), k - 1, r)
  {
  }

  lemma {:induction false} WalkSound(i: nat, z: bv8, k: nat, r: bv8)
    requires Exp(i) == Value(z) && Walk(z, k, r)
    ensures Exp(i + 2 * k) == Value(r)
    ensures forall j :: i < j <= i + 2 * k ==> Exp(j) != 1
    decreases k
  {
    if k == 0 {
      hide Exp, Next, Value;
    } else {
      hide *;
      WalkUnfold(z, k, r);
      ExpStep(i);
      XtimeValue(z);
      ValueOne(Next(z));
      ExpStep(i + 1);
      XtimeValue(Next(z));
      ValueOne(Next(Next(z)));
      WalkSound(i + 2, Next(Next(z)), k - 1, r);
      assert i + 2 + 2 * (k - 1) == i + 2 * k;
    }
  }

  lemma FirstHalf()
    ensures Exp(128) == Value(133)
    ensures forall j :: 0 < j <= 128 ==> Exp(j) != 1
  {
    hide Exp, Value;
    assert Walk(1, 8, 76);
    assert Walk(76, 8, 157);
    assert Walk(157, 8, 70);
    assert Walk(70, 8, 95);
    assert Walk(95, 8, 253);
    assert Walk(253, 8, 217);
    assert Walk(217, 8, 129);
    assert Walk(129, 8, 133);
    hide Walk;
    ExpZero();
    WalkSound(0, 1, 8, 76);
    WalkSound(16, 76, 8, 157);
    WalkSound(32, 157, 8, 70);
    WalkSound(48, 70, 8, 95);
    WalkSound(64, 95, 8, 253);
    WalkSound(80, 253, 8, 217);
    WalkSound(96, 217, 8, 129);
    WalkSound(112, 129, 8, 133);
  }

  lemma SecondHalf()
    ensures forall j :: 128 < j < 255 ==> Exp(j) != 1
  {
    hide Exp, Value;
    assert Walk(133, 8, 168);
    assert Walk(168, 8, 230);
    assert Walk(230, 8, 227);
    assert Walk(227, 8, 130);
    assert Walk(130, 8, 81);
    assert Walk(81, 8, 18);
    assert Walk(18, 8, 44);
    assert Walk(44, 7, 142);
    hide Walk;
    FirstHalf();
    WalkSound(128, 133, 8, 168);
    WalkSound(144, 168, 8, 230);
    WalkSound(160, 230, 8, 227);
    WalkSound(176, 227, 8, 130);
    WalkSound(192, 130, 8, 81);
    WalkSound(208, 81, 8, 18);
    WalkSound(224, 18, 8, 44);
    WalkSound(240, 44, 7, 142);
  }

  lemma PowerIsNotOne(k: nat)
    requires 0 < k < 255
    ensures Exp(k) != 1
  {
    hide Exp;
    FirstHalf();
    SecondHalf();
  }

  // ---- The powers are distinct, non-zero, and all there is ----

  lemma XtimeNonZero(z: Byte)
    requires z != 0
    ensures Xtime(z) != 0
  {
    hide Xtime, Xor;
    if z < 128 {
      XtimeSmall(z);
    } else {
      XtimeLarge(z);
      XorParts(2 * z, 0x11D);
      OddSum(z);
    }
  }

  lemma XtimeLarge(z: Byte)
    requires z >= 128
    ensures Xtime(z) == Xor(2 * z, 0x11D)
  {
    hide Xor;
    assert z / 128 == 1;
  }

  lemma OddSum(z: nat)
    ensures (2 * z + 0x11D) % 2 == 1
  {
    assert 2 * z + 0x11D == 2 * (z + 142) + 1;
  }

  lemma {:induction false} ExpNonZero(k: nat)
    ensures Exp(k) != 0
  {
    hide *;
    if k == 0 {
      ExpZero();
    } else {
      ExpNonZero(k - 1);
      ExpStep(k - 1);
      XtimeNonZero(Exp(k - 1));
    }
  }

  lemma XtimeInjective(a: Byte, b: Byte)
    requires Xtime(a) == Xtime(b)
    ensures a == b
  {
    hide Xtime, Xor;
    XtimeLinear(a, b);
    AddZero(Xtime(a));
    if a != b {
      XorCancel(a, b);
      XtimeNonZero(Add(a, b));
    }
  }

  lemma {:induction false} PowersDistinct(i: nat, j: nat)
    requires i < j < 255
    ensures Exp(i) != Exp(j)
  {
    hide *;
    if i == 0 {
      ExpZero();
      PowerIsNotOne(j);
    } else {
      PowersDistinct(i - 1, j - 1);
      ExpStep(i - 1);
      ExpStep(j - 1);
      if Exp(i) == Exp(j) {
        XtimeInjective(Exp(i - 1), Exp(j - 1));
      }
    }
  }

  ghost function Powers(n: nat): set<int> {
    set k | 0 <= k < n :: Exp(k)
  }

  lemma {:induction false} PowersCount(n: nat)
    requires n <= 255
    ensures |Powers(n)| == n
  {
    hide Exp;
    if n > 0 {
      PowersCount(n - 1);
      assert Powers(n) == Powers(n - 1) + {Exp(n - 1)};
      forall k | 0 <= k < n - 1
        ensures Exp(k) != Exp(n - 1)
      {
        PowersDistinct(k, n - 1);
      }
    }
  }

  ghost function UpTo(n: nat): (s: set<int>)
    ensures forall k :: k in s <==> 1 <= k <= n
    ensures |s| == n
  {
    if n == 0 then {} else UpTo(n - 1) + {n}
  }

  /** The discrete logarithm of a non-zero byte. */
  lemma Log(a: Byte) returns (k: nat)
    requires a != 0
    ensures k < 255 && Exp(k) == a
  {
    hide Exp;
    PowersCount(255);
    forall v | v in Powers(255)
      ensures v in UpTo(255)
    {
      var j :| 0 <= j < 255 && Exp(j) == v;
      ExpNonZero(j);
    }
    SubsetSize(Powers(255), UpTo(255));
    assert a in UpTo(255);
    k :| 0 <= k < 255 && Exp(k) == a;
  }

  lemma {:induction false} ExpAdd(i: nat, j: nat)
    ensures Exp(i + j) == Mul(Exp(i), Exp(j))
    decreases j
  {
    hide Mul;
    if j == 0 {
      MulOne(Exp(i));
    } else {
      ExpAdd(i, j - 1);
      MulAssociative(Exp(i), Exp(j - 1), 2);
    }
  }

  /** GF(2^8)/0x11D is a field: a product vanishes only when a factor does. */
  lemma NoZeroDivisors(a: Byte, b: Byte)
    ensures Mul(a, b) == 0 <==> a == 0 || b == 0
  {
    hide *;
    MulZero(a);
    MulZero(b);
    if a != 0 && b != 0 {
      var i := Log(a);
      var j := Log(b);
      ExpAdd(i, j);
      ExpNonZero(i + j);
    }
  }
}
