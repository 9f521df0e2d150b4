/** Exclusive or on non-negative integers, and the shifts that go with it. */
module Bitwise {

  function Xor(a: nat, b: nat): nat {
    if a == 0 && b == 0 then 0 else 2 * Xor(a / 2, b / 2) + (a + b) % 2
  }

  function Pow2(n: nat): (r: nat)
    ensures r > 0
  {
    if n == 0 then 1 else 2 * Pow2(n - 1)
  }

  lemma Halves(h: nat, b: nat)
    requires b < 2
    ensures (2 * h + b) / 2 == h && (2 * h + b) % 2 == b
  {
  }

  lemma SameHalves(x: nat, y: nat)
    requires x / 2 == y / 2 && x % 2 == y % 2
    ensures x == y
  {
    assert x == 2 * (x / 2) + x % 2 && y == 2 * (y / 2) + y % 2;
  }

  lemma XorStep(a: nat, b: nat)
    ensures Xor(a, b) == 2 * Xor(a / 2, b / 2) + (a + b) % 2
  {
    if a == 0 && b == 0 {
      assert Xor(0, 0) == 0;
    }
  }

  lemma XorParts(a: nat, b: nat)
    ensures Xor(a, b) / 2 == Xor(a / 2, b / 2)
    ensures Xor(a, b) % 2 == (a + b) % 2
  {
    hide Xor;
    XorStep(a, b);
    Halves(Xor(a / 2, b / 2), (a + b) % 2);
  }

  /** The last bits by themselves. */
  lemma XorAppend(a: nat, b: nat, p: nat, q: nat)
    requires p < 2 && q < 2
    ensures Xor(2 * a + p, 2 * b + q) == 2 * Xor(a, b) + if p == q then 0 else 1
  {
    hide Xor;
    XorStep(2 * a + p, 2 * b + q);
    Halves(a, p);
    Halves(b, q);
    ParityOf(a + b, p, q);
  }

  lemma ParityOf(s: nat, p: nat, q: nat)
    requires p < 2 && q < 2
    ensures (2 * s + p + q) % 2 == if p == q then 0 else 1
  {
  }

  lemma {:induction false} XorCommutative(a: nat, b: nat)
    ensures Xor(a, b) == Xor(b, a)
  {
    if a != 0 || b != 0 {
      XorCommutative(a / 2, b / 2);
    }
  }

  lemma ParityAssociative(a: nat, b: nat, c: nat, bc: nat, ab: nat)
    requires bc % 2 == (b + c) % 2 && ab % 2 == (a + b) % 2
    ensures (a + bc) % 2 == (ab + c) % 2
  {
    assert (a + bc) % 2 == (a + b + c) % 2;
    assert (ab + c) % 2 == (a + b + c) % 2;
  }

  lemma {:induction false} XorAssociative(a: nat, b: nat, c: nat)
    ensures Xor(a, Xor(b, c)) == Xor(Xor(a, b), c)
    decreases a + b + c
  {
    if a != 0 || b != 0 || c != 0 {
      hide *;
      XorAssociative(a / 2, b / 2, c / 2);
      XorParts(b, c);
      XorParts(a, b);
      ParityAssociative(a, b, c, Xor(b, c), Xor(a, b));
      XorParts(a, Xor(b, c));
      XorParts(Xor(a, b), c);
      SameHalves(Xor(a, Xor(b, c)), Xor(Xor(a, b), c));
    }
  }

  lemma XorZero(a: nat)
    ensures Xor(a, 0) == a
    ensures Xor(0, a) == a
  {
  }

  lemma XorSelf(a: nat)
    ensures Xor(a, a) == 0
  {
  }

  /** The middle two of four operands may change places. */
  lemma XorExchange(a: nat, b: nat, c: nat, d: nat)
    ensures Xor(Xor(a, b), Xor(c, d)) == Xor(Xor(a, c), Xor(b, d))
  {
    hide *;
    XorAssociative(Xor(a, b), c, d);
    XorAssociative(a, b, c);
    XorCommutative(b, c);
    XorAssociative(a, c, b);
    XorAssociative(Xor(a, c), b, d);
  }

  lemma XorCancel(a: nat, b: nat)
    ensures Xor(a, Xor(a, b)) == b
    ensures Xor(Xor(a, b), b) == a
    ensures Xor(a, b) == 0 <==> a == b
  {
    XorAssociative(a, a, b);
    XorAssociative(a, b, b);
    XorSelf(a);
    XorSelf(b);
    XorZero(a);
    XorZero(b);
  }

  /** a >> n. */
  function Shr(a: nat, n: nat): nat
    decreases n
  {
    if n == 0 then a else Shr(a / 2, n - 1)
  }

  lemma {:induction false} XorShr(a: nat, b: nat, n: nat)
    ensures Shr(Xor(a, b), n) == Xor(Shr(a, n), Shr(b, n))
    decreases n
  {
    if n > 0 {
      XorParts(a, b);
      XorShr(a / 2, b / 2, n - 1);
    }
  }

  lemma {:induction false} ShrZero(a: nat, n: nat)
    ensures Shr(a, n) == 0 <==> a < Pow2(n)
    decreases n
  {
    if n > 0 {
      ShrZero(a / 2, n - 1);
    }
  }

  lemma XorBound(a: nat, b: nat, n: nat)
    requires a < Pow2(n) && b < Pow2(n)
    ensures Xor(a, b) < Pow2(n)
  {
    XorShr(a, b, n);
    ShrZero(a, n);
    ShrZero(b, n);
    ShrZero(Xor(a, b), n);
  }
}
