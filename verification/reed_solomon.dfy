/** The Reed-Solomon code of external/qrcodegen/QrCode.cpp: the generator polynomial, the
    remainder that is appended to a data block, and what makes the result a codeword. */
module ReedSolomon {
  import opened Bitwise
  import opened GF256
  import opened Basics

  // ---- Polynomials ----

  /** Coefficients from the highest to the lowest power. */
  type Poly = seq<Byte>

  function At(p: Poly, i: int): Byte {
    if 0 <= i < |p| then p[i] else 0
  }

  function Eval(p: Poly, x: Byte): Byte {
    if p == [] then 0 else Add(Mul(Eval(p[..|p| - 1], x), x), p[|p| - 1])
  }

  /** c * p + q, for polynomials with equally many coefficients. */
  function Combine(c: Byte, p: Poly, q: Poly): (r: Poly)
    requires |p| == |q|
  {
    seq<Byte>(|p|, i requires 0 <= i < |p| => Add(Mul(c, p[i]), q[i]))
  }

  lemma EvalLast(p: Poly, b: Byte, x: Byte)
    ensures Eval(p + [b], x) == Add(Mul(Eval(p, x), x), b)
  {
    assert (p + [b])[..|p|] == p;
  }

  lemma {:induction false} EvalConcat(p: Poly, q: Poly, x: Byte)
    ensures Eval(p + q, x) == Add(Mul(Eval(p, x), Power(x, |q|)), Eval(q, x))
    decreases |q|
  {
    hide Add, Mul;
    if q == [] {
      assert p + q == p;
      MulOne(Eval(p, x));
      AddZero(Eval(p, x));
    } else {
      var r, b := q[..|q| - 1], q[|q| - 1];
      assert p + q == (p + r) + [b] && q == r + [b];
      EvalConcat(p, r, x);
      EvalLast(p + r, b, x);
      EvalLast(r, b, x);
      assert Power(x, |q|) == Mul(Power(x, |r|), x);
      hide *;
      var e, w := Eval(p, x), Power(x, |r|);
      MulDistributive(x, Mul(e, w), Eval(r, x));
      MulAssociative(e, w, x);
      AddAssociative(Mul(Mul(e, w), x), Mul(Eval(r, x), x), b);
    }
  }

  lemma {:induction false} EvalCombine(c: Byte, p: Poly, q: Poly, x: Byte)
    requires |p| == |q|
    ensures Eval(Combine(c, p, q), x) == Add(Mul(c, Eval(p, x)), Eval(q, x))
    decreases |p|
  {
    hide Add, Mul;
    if p == [] {
      MulZero(c);
      AddZero(0);
    } else {
      var p', q', a, b := p[..|p| - 1], q[..|p| - 1], p[|p| - 1], q[|p| - 1];
      EvalCombine(c, p', q', x);
      assert Combine(c, p, q) == Combine(c, p', q') + [Add(Mul(c, a), b)];
      EvalLast(Combine(c, p', q'), Add(Mul(c, a), b), x);
      assert p == p' + [a] && q == q' + [b];
      EvalLast(p', a, x);
      EvalLast(q', b, x);
      hide *;
      var e, f := Eval(p', x), Eval(q', x);
      MulDistributive(x, Mul(c, e), f);
      MulAssociative(c, e, x);
      MulDistributive(c, Mul(e, x), a);
      AddExchange(Mul(c, Mul(e, x)), Mul(f, x), Mul(c, a), b);
    }
  }

  // ---- The generator polynomial ----

  /** p * (x - r). */
  function TimesLinear(p: Poly, r: Byte): Poly {
    seq<Byte>(|p| + 1, i => Add(Mul(r, At(p, i - 1)), At(p, i)))
  }

  /** (x - 2^0) * (x - 2^1) * ... * (x - 2^(n-1)). */
  function Generator(n: nat): (g: Poly)
    ensures |g| == n + 1
  {
    if n == 0 then [1] else TimesLinear(Generator(n - 1), Exp(n - 1))
  }

  function LinearProduct(n: nat, x: Byte): Byte {
    if n == 0 then 1 else Mul(LinearProduct(n - 1, x), Add(Exp(n - 1), x))
  }

  lemma {:induction false} GeneratorMonic(n: nat)
    ensures Generator(n)[0] == 1
  {
    if n > 0 {
      GeneratorMonic(n - 1);
      MulZero(Exp(n - 1));
      AddZero(1);
    }
  }

  lemma EvalTimesLinear(p: Poly, r: Byte, x: Byte)
    ensures Eval(TimesLinear(p, r), x) == Mul(Eval(p, x), Add(r, x))
  {
    hide Add, Mul;
    assert TimesLinear(p, r) == Combine(r, [0] + p, p + [0]);
    EvalCombine(r, [0] + p, p + [0], x);
    EvalLast(p, 0, x);
    EvalConcat([0], p, x);
    assert [0] == [] + [0];
    EvalLast([], 0, x);
    MulZero(x);
    MulZero(Power(x, |p|));
    AddZero(0);
    var e := Eval(p, x);
    AddZero(e);
    AddZero(Mul(e, x));
    MulCommutative(r, e);
    MulDistributive(e, r, x);
  }

  lemma {:induction false} EvalGenerator(n: nat, x: Byte)
    ensures Eval(Generator(n), x) == LinearProduct(n, x)
  {
    hide Add, Mul;
    if n == 0 {
      assert [1] == [] + [1];
      EvalLast([], 1, x);
      MulZero(x);
      AddZero(1);
    } else {
      EvalGenerator(n - 1, x);
      EvalTimesLinear(Generator(n - 1), Exp(n - 1), x);
    }
  }

  lemma {:induction false} GeneratorRoots(n: nat, i: nat)
    requires i < n
    ensures Eval(Generator(n), Exp(i)) == 0
  {
    hide Add, Mul;
    EvalGenerator(n, Exp(i));
    LinearProductRoot(n, i);
  }

  lemma {:induction false} LinearProductRoot(n: nat, i: nat)
    requires i < n
    ensures LinearProduct(n, Exp(i)) == 0
  {
    hide Add, Mul;
    if i == n - 1 {
      AddZero(Exp(i));
      MulZero(LinearProduct(n - 1, Exp(i)));
    } else {
      LinearProductRoot(n - 1, i);
      MulZero(Add(Exp(n - 1), Exp(i)));
    }
  }

  // ---- The remainder ----

  function Zeros(n: nat): Poly {
    seq(n, i => 0)
  }

  /** One step of the division: bring down the byte b. */
  function DivideStep(r: Poly, b: Byte, divisor: Poly): (r': Poly)
    requires |r| == |divisor| > 0
    ensures |r'| == |r|
  {
    Combine(Add(b, r[0]), divisor, r[1..] + [0])
  }

  function Remainder(data: Poly, divisor: Poly): (r: Poly)
    requires |divisor| > 0
    ensures |r| == |divisor|
  {
    if data == [] then Zeros(|divisor|)
    else DivideStep(Remainder(data[..|data| - 1], divisor), data[|data| - 1], divisor)
  }

  lemma {:induction false} EvalZeros(n: nat, x: Byte)
    ensures Eval(Zeros(n), x) == 0
  {
    hide Add, Mul;
    if n > 0 {
      EvalZeros(n - 1, x);
      assert Zeros(n) == Zeros(n - 1) + [0];
      EvalLast(Zeros(n - 1), 0, x);
      MulZero(x);
      AddZero(0);
    }
  }

  lemma EvalFirst(p: Poly, x: Byte)
    requires |p| > 0
    ensures Eval(p, x) == Add(Mul(p[0], Power(x, |p| - 1)), Eval(p[1..], x))
  {
    hide Add, Mul;
    assert p == [p[0]] + p[1..];
    EvalConcat([p[0]], p[1..], x);
    assert [p[0]] == [] + [p[0]];
    EvalLast([], p[0], x);
    MulZero(x);
    AddZero(p[0]);
  }

  /** At a root of the monic polynomial x^n + divisor, one step multiplies the value of the
      remainder by x and adds the new byte times x^n. */
  lemma EvalDivideStep(r: Poly, b: Byte, divisor: Poly, x: Byte)
    requires |r| == |divisor| > 0
    requires Eval([1] + divisor, x) == 0
    ensures Eval(DivideStep(r, b, divisor), x) == Add(Mul(Eval(r, x), x), Mul(b, Power(x, |r|)))
  {
    hide Add, Mul;
    var n, f := |r|, Add(b, r[0]);
    var w, t := Power(x, n), Eval(r[1..], x);
    EvalFirst([1] + divisor, x);
    assert ([1] + divisor)[1..] == divisor;
    MulOne(w);
    AddEqual(w, Eval(divisor, x));
    EvalCombine(f, divisor, r[1..] + [0], x);
    EvalLast(r[1..], 0, x);
    AddZero(Mul(t, x));
    EvalFirst(r, x);
    assert w == Mul(Power(x, n - 1), x);
    DivideAlgebra(b, r[0], Power(x, n - 1), t, x);
  }

  lemma AddEqual(a: Byte, b: Byte)
    requires Add(a, b) == 0
    ensures a == b
  {
    XorCancel(a, b);
  }

  lemma DivideAlgebra(b: Byte, h: Byte, v: Byte, t: Byte, x: Byte)
    ensures Add(Mul(Add(b, h), Mul(v, x)), Mul(t, x)) == Add(Mul(Add(Mul(h, v), t), x), Mul(b, Mul(v, x)))
  {
    hide *;
    var w := Mul(v, x);
    MulDistributive(w, b, h);
    MulDistributive(x, Mul(h, v), t);
    MulAssociative(h, v, x);
    AddAssociative(Mul(b, w), Mul(h, w), Mul(t, x));
    AddCommutative(Mul(b, w), Add(Mul(h, w), Mul(t, x)));
  }

  /** data * x^n and its remainder agree at every root of the divisor. */
  lemma {:induction false} RemainderAtRoot(data: Poly, divisor: Poly, x: Byte)
    requires |divisor| > 0
    requires Eval([1] + divisor, x) == 0
    ensures Eval(Remainder(data, divisor), x) == Mul(Eval(data, x), Power(x, |divisor|))
  {
    hide Add, Mul;
    var w := Power(x, |divisor|);
    if data == [] {
      EvalZeros(|divisor|, x);
      MulZero(w);
    } else {
      var d, b := data[..|data| - 1], data[|data| - 1];
      RemainderAtRoot(d, divisor, x);
      EvalDivideStep(Remainder(d, divisor), b, divisor, x);
      assert data == d + [b];
      EvalLast(d, b, x);
      hide *;
      var e := Eval(d, x);
      MulDistributive(w, Mul(e, x), b);
      MulAssociative(e, w, x);
      MulAssociative(e, x, w);
      MulCommutative(x, w);
    }
  }

  /** The systematic codeword of a data block vanishes at 2^0, ..., 2^(n-1). */
  lemma CodewordRoots(data: Poly, n: nat, i: nat)
    requires i < n
    ensures Eval(data + Remainder(data, Generator(n)[1..]), Exp(i)) == 0
  {
    hide Add, Mul;
    var divisor := Generator(n)[1..];
    var rem := Remainder(data, divisor);
    GeneratorMonic(n);
    assert [1] + divisor == Generator(n);
    GeneratorRoots(n, i);
    RemainderAtRoot(data, divisor, Exp(i));
    EvalConcat(data, rem, Exp(i));
    AddZero(Eval(rem, Exp(i)));
  }

  // ---- The source's loops ----

  method ReedSolomonMultiply(x: Byte, y: Byte) returns (z: nat)
    ensures z == Mul(x, y)
  {
    z := 0;
    var i := 8;
    while i > 0
      invariant 0 <= i <= 8
      invariant z == Horner(x, y, 8 - i)
    {
      i := i - 1;
      HornerStep(x, y, 8 - i);
      assert Xtime(z) == Xor(2 * z, z / 128 * 0x11D);
      z := Xor(2 * z, z / 128 * 0x11D);
      z := Xor(z, Shr(y, i) % 2 * x);
    }
  }

  /** The n lowest coefficients of p. */
  function Low(p: Poly, n: nat): (r: Poly)
    ensures |r| == n
  {
    seq<Byte>(n, j => At(p, |p| - n + j))
  }

  lemma LowTimesLinear(p: Poly, r: Byte, n: nat, j: nat)
    requires j < n
    ensures Low(TimesLinear(p, r), n)[j] == Add(Mul(r, Low(p, n)[j]), At(Low(p, n), j + 1))
  {
    hide Add, Mul;
    MulZero(r);
    AddZero(0);
    var i := |p| + 1 - n + j;
    assert Low(p, n)[j] == At(p, i - 1);
    assert At(Low(p, n), j + 1) == At(p, i);
    assert Low(TimesLinear(p, r), n)[j] == At(TimesLinear(p, r), i);
  }

  lemma LowOne(n: nat)
    requires n > 0
    ensures Low(Generator(0), n) == Zeros(n)[n - 1 := 1]
  {
    var p := Generator(0);
    assert p == [1];
    forall k | 0 <= k < n
      ensures Low(p, n)[k] == Zeros(n)[n - 1 := 1][k]
    {
      assert Low(p, n)[k] == At(p, 1 - n + k);
    }
  }

  lemma LowGenerator(n: nat)
    ensures [1] + Low(Generator(n), n) == Generator(n)
  {
    GeneratorMonic(n);
    hide Generator;
    forall k | 0 <= k < n
      ensures Low(Generator(n), n)[k] == Generator(n)[k + 1]
    {
      assert Low(Generator(n), n)[k] == At(Generator(n), k + 1);
    }
  }

  /** The inner loop: multiply the product kept in result by (x - root), in place. */
  method MultiplyByLinear(result: array<Byte>, root: Byte, ghost p: Poly)
    requires result[..] == Low(p, result.Length)
    modifies result
    ensures result[..] == Low(TimesLinear(p, root), result.Length)
  {
    hide Add, Mul, Low, TimesLinear;
    var j := 0;
    ghost var old', next := result[..], Low(TimesLinear(p, root), result.Length);
    while j < result.Length
      invariant 0 <= j <= result.Length
      invariant forall k :: 0 <= k < j ==> result[k] == next[k]
      invariant forall k :: j <= k < result.Length ==> result[k] == old'[k]
    {
      LowTimesLinear(p, root, result.Length, j);
      MulCommutative(result[j], root);
      AddZero(Mul(root, result[j]));
      var m := ReedSolomonMultiply(result[j], root);
      result[j] := m;
      if j + 1 < result.Length {
        result[j] := Add(result[j], result[j + 1]);
      }
      j := j + 1;
    }
  }

  method ReedSolomonComputeDivisor(degree: int) returns (res: Option<Poly>)
    ensures res.None? <==> degree < 1 || degree > 255
    ensures res.Some? ==> [1] + res.value == Generator(degree)
  {
    hide Add, Mul, Low, TimesLinear;
    if degree < 1 || degree > 255 {
      return None;
    }
    var result := new Byte[degree](i => 0);
    result[degree - 1] := 1;
    LowOne(degree);
    assert result[..] == Zeros(degree)[degree - 1 := 1];
    var root: Byte := 1;
    var i := 0;
    while i < degree
      invariant 0 <= i <= degree
      invariant root == Exp(i)
      invariant result[..] == Low(Generator(i), degree)
    {
      MultiplyByLinear(result, root, Generator(i));
      root := ReedSolomonMultiply(root, 2);
      i := i + 1;
    }
    LowGenerator(degree);
    return Some(result[..]);
  }

  method ReedSolomonComputeRemainder(data: Poly, divisor: Poly) returns (result: Poly)
    requires |divisor| > 0
    ensures result == Remainder(data, divisor)
  {
    hide Add, Mul;
    result := Zeros(|divisor|);
    var k := 0;
    while k < |data|
      invariant 0 <= k <= |data|
      invariant result == Remainder(data[..k], divisor)
    {
      ghost var next := DivideStep(result, data[k], divisor);
      var factor := Add(data[k], result[0]);
      result := result[1..] + [0];
      ghost var shifted := result;
      var i := 0;
      while i < |result|
        invariant 0 <= i <= |result| == |shifted| == |divisor|
        invariant result == next[..i] + shifted[i..]
      {
        MulCommutative(divisor[i], factor);
        AddCommutative(shifted[i], Mul(factor, divisor[i]));
        var m := ReedSolomonMultiply(divisor[i], factor);
        result := result[i := Add(result[i], m)];
        i := i + 1;
      }
      assert data[..k + 1][..k] == data[..k];
      k := k + 1;
    }
    assert data[..|data|] == data;
  }
}
