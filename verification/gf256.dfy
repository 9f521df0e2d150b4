/** The finite field GF(2^8) modulo x^8 + x^4 + x^3 + x^2 + 1 (0x11D), in which the QR Code
    error correction of external/qrcodegen/QrCode.cpp is computed. */
module GF256 {
  import opened Basics
  import opened Bitwise

  /** (z << 1) ^ ((z >> 7) * 0x11D): multiplication by x. */
  function Xtime(z: Byte): Byte {
    XtimeBound(z);
    Xor(2 * z, z / 128 * 0x11D)
  }

  lemma XtimeBound(z: Byte)
    ensures Xor(2 * z, z / 128 * 0x11D) < 256
  {
    XorShr(2 * z, z / 128 * 0x11D, 8);
    ShrZero(Xor(2 * z, z / 128 * 0x11D), 8);
    Shr8(2 * z);
    Shr8(z / 128 * 0x11D);
    XorSelf(z / 128);
    assert Pow2(8) == 256;
  }

  lemma Shr8(a: nat)
    ensures Shr(a, 7) == a / 128
    ensures Shr(a, 8) == a / 256
  {
    assert Shr(a, 1) == a / 2;
    assert Shr(a, 2) == a / 4;
    assert Shr(a, 3) == a / 8;
    assert Shr(a, 4) == a / 16;
    assert Shr(a, 5) == a / 32;
    assert Shr(a, 6) == a / 64;
  }

  function Add(a: Byte, b: Byte): Byte {
    assert Pow2(8) == 256;
    XorBound(a, b, 8);
    Xor(a, b)
  }

  predicate Bit(y: nat, i: nat) {
    Shr(y, i) % 2 == 1
  }

  function Pick(bit: bool, x: Byte): Byte {
    if bit then x else 0
  }

  /** The partial product of x and the n highest bits of y. */
  function Horner(x: Byte, y: Byte, n: nat): Byte
    requires n <= 8
  {
    if n == 0 then 0 else Add(Xtime(Horner(x, y, n - 1)), Pick(Bit(y, 8 - n), x))
  }

  function Mul(x: Byte, y: Byte): Byte {
    Horner(x, y, 8)
  }

  // ---- Xtime and Bit are linear ----

  lemma XorDouble(a: nat, b: nat)
    ensures Xor(2 * a, 2 * b) == 2 * Xor(a, b)
  {
    hide Xor;
    XorAppend(a, b, 0, 0);
  }

  lemma XorScale(p: nat, q: nat, c: nat)
    requires p < 2 && q < 2
    ensures Xor(p, q) < 2
    ensures Xor(p, q) * c == Xor(p * c, q * c)
  {
    if p == 0 {
      XorZero(q);
      XorZero(q * c);
    } else if q == 0 {
      XorZero(p);
      XorZero(p * c);
    } else {
      XorSelf(p);
      XorSelf(c);
    }
  }

  lemma XtimeLinear(a: Byte, b: Byte)
    ensures Xtime(Add(a, b)) == Add(Xtime(a), Xtime(b))
  {
    XorDouble(a, b);
    XorShr(a, b, 7);
    Shr8(a);
    Shr8(b);
    Shr8(Xor(a, b));
    XorScale(a / 128, b / 128, 0x11D);
    XorExchange(2 * a, 2 * b, a / 128 * 0x11D, b / 128 * 0x11D);
    assert Xtime(a) == Xor(2 * a, a / 128 * 0x11D);
    assert Xtime(b) == Xor(2 * b, b / 128 * 0x11D);
    assert Xtime(Xor(a, b)) == Xor(2 * Xor(a, b), Xor(a, b) / 128 * 0x11D);
  }

  lemma PickLinear(p: bool, q: bool, x: Byte, y: Byte)
    ensures Pick(p != q, x) == Add(Pick(p, x), Pick(q, x))
    ensures Pick(p, Add(x, y)) == Add(Pick(p, x), Pick(p, y))
    ensures Pick(p, Xtime(x)) == Xtime(Pick(p, x))
  {
    XorZero(x);
    XorSelf(x);
    XorZero(0);
  }

  lemma BitLinear(a: Byte, b: Byte, i: nat)
    ensures Bit(Add(a, b), i) == (Bit(a, i) != Bit(b, i))
  {
    XorShr(a, b, i);
    XorParts(Shr(a, i), Shr(b, i));
    hide Shr, Xor;
  }

  lemma AddExchange(a: Byte, b: Byte, c: Byte, d: Byte)
    ensures Add(Add(a, b), Add(c, d)) == Add(Add(a, c), Add(b, d))
  {
    XorExchange(a, b, c, d);
  }

  // ---- Multiplication is bilinear and commutes with Xtime in its left argument ----

  lemma HornerStep(x: Byte, y: Byte, n: nat)
    requires 0 < n <= 8
    ensures Horner(x, y, n) == Add(Xtime(Horner(x, y, n - 1)), Pick(Bit(y, 8 - n), x))
  {
  }

  lemma {:induction false} HornerRightLinear(x: Byte, a: Byte, b: Byte, n: nat)
    requires n <= 8
    ensures Horner(x, Add(a, b), n) == Add(Horner(x, a, n), Horner(x, b, n))
  {
    if n > 0 {
      hide *;
      HornerRightLinear(x, a, b, n - 1);
      HornerStep(x, a, n);
      HornerStep(x, b, n);
      HornerStep(x, Add(a, b), n);
      BitLinear(a, b, 8 - n);
      PickLinear(Bit(a, 8 - n), Bit(b, 8 - n), x, x);
      XtimeLinear(Horner(x, a, n - 1), Horner(x, b, n - 1));
      AddExchange(Xtime(Horner(x, a, n - 1)), Xtime(Horner(x, b, n - 1)),
                  Pick(Bit(a, 8 - n), x), Pick(Bit(b, 8 - n), x));
    }
  }

  lemma {:induction false} HornerLeftLinear(a: Byte, b: Byte, y: Byte, n: nat)
    requires n <= 8
    ensures Horner(Add(a, b), y, n) == Add(Horner(a, y, n), Horner(b, y, n))
  {
    if n > 0 {
      hide *;
      HornerLeftLinear(a, b, y, n - 1);
      HornerStep(a, y, n);
      HornerStep(b, y, n);
      HornerStep(Add(a, b), y, n);
      var bit := Bit(y, 8 - n);
      PickLinear(bit, bit, a, b);
      XtimeLinear(Horner(a, y, n - 1), Horner(b, y, n - 1));
      AddExchange(Xtime(Horner(a, y, n - 1)), Xtime(Horner(b, y, n - 1)), Pick(bit, a), Pick(bit, b));
    }
  }

  lemma {:induction false} HornerLeftXtime(x: Byte, y: Byte, n: nat)
    requires n <= 8
    ensures Horner(Xtime(x), y, n) == Xtime(Horner(x, y, n))
  {
    if n == 0 {
      XorZero(0);
    } else {
      hide *;
      var h, bit := Horner(x, y, n - 1), Bit(y, 8 - n);
      HornerLeftXtime(x, y, n - 1);
      HornerStep(x, y, n);
      HornerStep(Xtime(x), y, n);
      PickLinear(bit, bit, x, x);
      XtimeLinear(Xtime(h), Pick(bit, x));
    }
  }

  // ---- One generates: a linear map that commutes with Xtime is fixed by its value at 1 ----

  ghost predicate Semilinear(f: Byte -> Byte) {
    && (forall a, b :: f(Add(a, b)) == Add(f(a), f(b)))
    && (forall a :: f(Xtime(a)) == Xtime(f(a)))
  }

  /** The n highest bits of y are what Horner(1, y, n) holds. */
  lemma {:induction false} HornerOne(y: Byte, n: nat)
    requires n <= 8
    ensures Horner(1, y, n) == Shr(y, 8 - n)
  {
    if n == 0 {
      Shr8(y);
    } else {
      HornerOne(y, n - 1);
      ShrBound(y, 9 - n);
      HornerStep(1, y, n);
      hide Horner;
      ShrStep(y, 8 - n);
      XtimeAppend(Shr(y, 9 - n), Bit(y, 8 - n));
    }
  }

  lemma XtimeAppend(z: Byte, bit: bool)
    requires z < 128
    ensures Add(Xtime(z), Pick(bit, 1)) == 2 * z + if bit then 1 else 0
  {
    hide Xtime, Xor;
    XtimeSmall(z);
    XorDoubleBit(z, if bit then 1 else 0);
  }

  lemma XtimeSmall(z: Byte)
    requires z < 128
    ensures Xtime(z) == 2 * z
  {
    assert z / 128 == 0;
    XorZero(2 * z);
  }

  lemma XorDoubleBit(z: nat, b: nat)
    requires b < 2
    ensures Xor(2 * z, b) == 2 * z + b
  {
    XorParts(2 * z, b);
    XorZero(z);
  }

  lemma {:induction false} ShrStep(a: nat, n: nat)
    ensures Shr(a, n) == 2 * Shr(a, n + 1) + Shr(a, n) % 2
    decreases n
  {
    if n > 0 {
      ShrStep(a / 2, n - 1);
    }
  }

  lemma ShrBound(y: Byte, n: nat)
    requires 1 <= n
    ensures Shr(y, n) < 128
  {
    ShrBelow(y / 2, n - 1);
  }

  lemma {:induction false} ShrBelow(a: nat, n: nat)
    ensures Shr(a, n) <= a
    decreases n
  {
    if n > 0 {
      ShrBelow(a / 2, n - 1);
    }
  }

  lemma {:induction false} GeneratesUpTo(f: Byte -> Byte, g: Byte -> Byte, y: Byte, n: nat)
    requires n <= 8
    requires Semilinear(f) && Semilinear(g) && f(1) == g(1)
    ensures f(Horner(1, y, n)) == g(Horner(1, y, n))
  {
    XorSelf(0);
    XorCancel(f(0), f(0));
    XorCancel(g(0), g(0));
    assert Add(0, 0) == 0;
    assert f(0) == Add(f(0), f(0)) && g(0) == Add(g(0), g(0));
    if n > 0 {
      GeneratesUpTo(f, g, y, n - 1);
      HornerStep(1, y, n);
      hide Add, Xtime, Horner, Bit;
      var h := Horner(1, y, n - 1);
      assert f(Xtime(h)) == g(Xtime(h));
    }
  }

  lemma Generates(f: Byte -> Byte, g: Byte -> Byte, y: Byte)
    requires Semilinear(f) && Semilinear(g) && f(1) == g(1)
    ensures f(y) == g(y)
  {
    HornerOne(y, 8);
    GeneratesUpTo(f, g, y, 8);
  }

  lemma SemilinearCompose(f: Byte -> Byte, g: Byte -> Byte, h: Byte -> Byte)
    requires Semilinear(f) && Semilinear(g)
    requires forall a :: h(a) == g(f(a))
    ensures Semilinear(h)
  {
    hide Add, Xtime;
  }

  lemma XtimeSemilinear()
    ensures Semilinear(Xtime)
  {
    forall a: Byte, b: Byte
      ensures Xtime(Add(a, b)) == Add(Xtime(a), Xtime(b))
    {
      XtimeLinear(a, b);
    }
  }

  lemma MulLeftSemilinear(y: Byte)
    ensures Semilinear(x => Mul(x, y))
  {
    forall a: Byte, b: Byte
      ensures Mul(Add(a, b), y) == Add(Mul(a, y), Mul(b, y))
    {
      HornerLeftLinear(a, b, y, 8);
    }
    forall a: Byte
      ensures Mul(Xtime(a), y) == Xtime(Mul(a, y))
    {
      HornerLeftXtime(a, y, 8);
    }
    hide *;
  }

  lemma MulOne(x: Byte)
    ensures Mul(1, x) == x
    ensures Mul(x, 1) == x
  {
    HornerOne(x, 8);
    MulLeftSemilinear(1);
    HornerOne(1, 8);
    Generates(v => Mul(v, 1), v => v, x);
  }

  lemma MulRightSemilinear(x: Byte)
    ensures Semilinear(y => Mul(x, y))
  {
    forall a: Byte, b: Byte
      ensures Mul(x, Add(a, b)) == Add(Mul(x, a), Mul(x, b))
    {
      HornerRightLinear(x, a, b, 8);
    }
    forall y: Byte
      ensures Mul(x, Xtime(y)) == Xtime(Mul(x, y))
    {
      MulRightXtime(x, y);
    }
    hide *;
  }

  lemma MulRightXtime(x: Byte, y: Byte)
    ensures Mul(x, Xtime(y)) == Xtime(Mul(x, y))
  {
    hide Mul, Add, Xtime;
    MulLeftSemilinear(Xtime(y));
    MulLeftSemilinear(y);
    MulOne(Xtime(y));
    MulOne(y);
    var f, g := (v: Byte) => Mul(v, Xtime(y)), (v: Byte) => Xtime(Mul(v, y));
    XtimeSemilinear();
    SemilinearCompose(v => Mul(v, y), Xtime, g);
    Generates(f, g, x);
  }

  // ---- The ring laws ----

  lemma MulCommutative(x: Byte, y: Byte)
    ensures Mul(x, y) == Mul(y, x)
  {
    hide Mul, Add, Xtime, Semilinear;
    MulLeftSemilinear(y);
    MulRightSemilinear(y);
    MulOne(y);
    Generates(v => Mul(v, y), v => Mul(y, v), x);
  }

  lemma MulDistributive(x: Byte, a: Byte, b: Byte)
    ensures Mul(x, Add(a, b)) == Add(Mul(x, a), Mul(x, b))
    ensures Mul(Add(a, b), x) == Add(Mul(a, x), Mul(b, x))
  {
    HornerRightLinear(x, a, b, 8);
    HornerLeftLinear(a, b, x, 8);
  }

  lemma MulAssociative(x: Byte, y: Byte, w: Byte)
    ensures Mul(Mul(x, y), w) == Mul(x, Mul(y, w))
  {
    hide Mul, Add, Xtime;
    MulLeftSemilinear(y);
    MulLeftSemilinear(w);
    MulLeftSemilinear(Mul(y, w));
    MulOne(y);
    MulOne(Mul(y, w));
    var f, g := (v: Byte) => Mul(v, Mul(y, w)), (v: Byte) => Mul(Mul(v, y), w);
    SemilinearCompose(v => Mul(v, y), v => Mul(v, w), g);
    Generates(f, g, x);
  }

  lemma MulZero(x: Byte)
    ensures Mul(0, x) == 0 && Mul(x, 0) == 0
  {
    MulDistributive(x, 0, 0);
    XorSelf(0);
    XorSelf(Mul(x, 0));
    XorSelf(Mul(0, x));
    hide *;
  }

  /** Multiplication by 2 is one reduction step. */
  lemma MulTwo(x: Byte)
    ensures Mul(x, 2) == Xtime(x)
  {
    XtimeSmall(1);
    MulRightXtime(x, 1);
    MulOne(x);
  }

  // ---- Addition, restated for bytes ----

  lemma AddCommutative(a: Byte, b: Byte)
    ensures Add(a, b) == Add(b, a)
  {
    XorCommutative(a, b);
  }

  lemma AddAssociative(a: Byte, b: Byte, c: Byte)
    ensures Add(a, Add(b, c)) == Add(Add(a, b), c)
  {
    XorAssociative(a, b, c);
  }

  lemma AddZero(a: Byte)
    ensures Add(a, 0) == a && Add(0, a) == a
    ensures Add(a, a) == 0
  {
    XorZero(a);
    XorSelf(a);
  }

  /** The powers of x. */
  function Power(x: Byte, n: nat): Byte {
    if n == 0 then 1 else Mul(Power(x, n - 1), x)
  }

  /** The powers of 2, the root from which the generator polynomial is built. */
  function Exp(k: nat): Byte {
    if k == 0 then 1 else Mul(Exp(k - 1), 2)
  }
}
