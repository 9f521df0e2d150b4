/** What the error correction bytes are for: two codewords of at most 255 bytes with n error
    correction bytes differ in more than n places, so up to n/2 corrupted bytes can be undone. */
module CodeDistance {
  import opened Basics
  import opened GF256
  import opened FieldOrder
  import opened ReedSolomon

  ghost predicate IsCodeword(c: Poly, n: nat) {
    forall i :: 0 <= i < n ==> Eval(c, Exp(i)) == 0
  }

  ghost function Support(f: Poly): set<int> {
    set j | 0 <= j < |f| && f[j] != 0
  }

  ghost function Differ(a: Poly, b: Poly): set<int>
    requires |a| == |b|
  {
    set j | 0 <= j < |a| && a[j] != b[j]
  }

  // ---- f(x) becomes f(2x) ----

  function Stretch(f: Poly): (r: Poly)
    ensures |r| == |f|
  {
    seq<Byte>(|f|, j requires 0 <= j < |f| => Mul(f[j], Exp(|f| - 1 - j)))
  }

  lemma {:induction false} PowerDouble(x: Byte, n: nat)
    ensures Power(Mul(2, x), n) == Mul(Exp(n), Power(x, n))
  {
    hide Mul;
    if n == 0 {
      MulOne(1);
    } else {
      PowerDouble(x, n - 1);
      var e, p := Exp(n - 1), Power(x, n - 1);
      MulAssociative(Mul(e, p), 2, x);
      MulAssociative(e, p, 2);
      MulCommutative(p, 2);
      MulAssociative(e, 2, p);
      MulAssociative(Mul(e, 2), p, x);
    }
  }

  lemma {:induction false} EvalStretch(f: Poly, x: Byte)
    ensures Eval(Stretch(f), x) == Eval(f, Mul(2, x))
    decreases |f|
  {
    hide Add, Mul, Exp, Power;
    if f != [] {
      var q := f[1..];
      EvalStretch(q, x);
      assert Stretch(f)[1..] == Stretch(q);
      EvalFirst(f, Mul(2, x));
      EvalFirst(Stretch(f), x);
      PowerDouble(x, |q|);
      MulAssociative(f[0], Exp(|q|), Power(x, |q|));
    }
  }

  // ---- A word with few non-zero bytes is no codeword ----

  /** Multiplying the coefficient of x^k by 2^k - 2^e removes the term of exponent e and no other. */
  lemma SupportTwist(f: Poly, m: nat)
    requires |f| <= 255 && m < |f|
    ensures Support(Combine(Exp(|f| - 1 - m), f, Stretch(f))) == Support(f) - {m}
  {
    hide Add, Mul, Exp;
    var e := Exp(|f| - 1 - m);
    var t := Combine(e, f, Stretch(f));
    forall j | 0 <= j < |f|
      ensures t[j] != 0 <==> f[j] != 0 && j != m
    {
      var w := Exp(|f| - 1 - j);
      MulCommutative(e, f[j]);
      MulDistributive(f[j], e, w);
      NoZeroDivisors(f[j], Add(e, w));
      if j == m {
        AddZero(e);
      } else {
        if j < m { PowersDistinct(|f| - 1 - m, |f| - 1 - j); } else { PowersDistinct(|f| - 1 - j, |f| - 1 - m); }
        if Add(e, w) == 0 {
          AddEqual(e, w);
        }
      }
    }
  }

  lemma EvalMonomial(f: Poly, m: nat)
    requires m < |f|
    requires Support(f) <= {m}
    ensures Eval(f, 1) == f[m]
  {
    hide Add, Mul, Eval;
    var k := |f| - 1 - m;
    forall j | 0 <= j < |f| && j != m
      ensures f[j] == 0
    {
      assert j !in Support(f);
    }
    assert f == Zeros(m) + ([f[m]] + Zeros(k));
    EvalConcat(Zeros(m), [f[m]] + Zeros(k), 1);
    EvalZeros(m, 1);
    MulZero(Power(1, k + 1));
    EvalFirst([f[m]] + Zeros(k), 1);
    assert ([f[m]] + Zeros(k))[1..] == Zeros(k);
    EvalZeros(k, 1);
    PowerOfOne(k);
    MulOne(f[m]);
    AddZero(f[m]);
  }

  lemma {:induction false} PowerOfOne(n: nat)
    ensures Power(1, n) == 1
  {
    hide Mul;
    if n > 0 {
      PowerOfOne(n - 1);
      MulOne(1);
    }
  }

  lemma {:induction false} SparseWordIsZero(f: Poly, n: nat)
    requires |f| <= 255 && IsCodeword(f, n) && |Support(f)| <= n
    ensures Support(f) == {}
    decreases n
  {
    hide Add, Mul, Eval;
    assert Exp(0) == 1;
    if Support(f) != {} {
      var m :| m in Support(f);
      var e := Exp(|f| - 1 - m);
      var t := Combine(e, f, Stretch(f));
      SupportTwist(f, m);
      forall i | 0 <= i < n - 1
        ensures Eval(t, Exp(i)) == 0
      {
        EvalCombine(e, f, Stretch(f), Exp(i));
        EvalStretch(f, Exp(i));
        MulCommutative(2, Exp(i));
        assert Exp(i + 1) == Mul(Exp(i), 2);
        MulZero(e);
        AddZero(0);
      }
      SparseWordIsZero(t, n - 1);
      EvalMonomial(f, m);
    }
  }

  // ---- Distance ----

  /** Different codewords differ in more than n places. */
  lemma CodewordsFarApart(a: Poly, b: Poly, n: nat)
    requires |a| == |b| <= 255
    requires IsCodeword(a, n) && IsCodeword(b, n)
    requires a != b
    ensures |Differ(a, b)| > n
  {
    hide Add, Mul, Eval, Exp;
    var d := Combine(1, a, b);
    forall i | 0 <= i < n
      ensures Eval(d, Exp(i)) == 0
    {
      EvalCombine(1, a, b, Exp(i));
      MulZero(1);
      AddZero(0);
    }
    forall j | 0 <= j < |a|
      ensures d[j] != 0 <==> a[j] != b[j]
    {
      MulOne(a[j]);
      AddZero(a[j]);
      if d[j] == 0 {
        AddEqual(a[j], b[j]);
      }
    }
    assert Support(d) == Differ(a, b);
    if |Differ(a, b)| <= n {
      SparseWordIsZero(d, n);
      forall j | 0 <= j < |a|
        ensures a[j] == b[j]
      {
        assert j !in Differ(a, b);
      }
    }
  }

  /** A received word has at most one codeword within half the number of error correction bytes. */
  lemma UniqueDecoding(received: Poly, a: Poly, b: Poly, n: nat)
    requires |received| == |a| == |b| <= 255
    requires IsCodeword(a, n) && IsCodeword(b, n)
    requires 2 * |Differ(a, received)| <= n && 2 * |Differ(received, b)| <= n
    ensures a == b
  {
    var p, q := Differ(a, received), Differ(received, b);
    assert Differ(a, b) <= p + q;
    SubsetSize(Differ(a, b), p + q);
    assert |p + q| + |p * q| == |p| + |q|;
    if a != b {
      CodewordsFarApart(a, b, n);
    }
  }

  /** A word of at most 255 bytes vanishes at the n roots exactly when its last n bytes are the
      remainder the encoder computes for the others. */
  lemma CodewordIsSystematic(data: Poly, ecc: Poly, n: nat)
    requires |ecc| == n > 0 && |data| + n <= 255
    ensures IsCodeword(data + ecc, n) <==> ecc == Remainder(data, Generator(n)[1..])
  {
    hide Add, Mul, Eval, Exp, Remainder, Generator;
    var r := Remainder(data, Generator(n)[1..]);
    forall i | 0 <= i < n
      ensures Eval(data + r, Exp(i)) == 0
    {
      CodewordRoots(data, n, i);
    }
    if IsCodeword(data + ecc, n) && ecc != r {
      assert (data + ecc)[|data|..] == ecc && (data + r)[|data|..] == r;
      CodewordsFarApart(data + ecc, data + r, n);
      SubsetSize(Differ(data + ecc, data + r), Tail(|data|, n));
    }
  }

  ghost function Tail(start: nat, n: nat): (s: set<int>)
    ensures |s| == n
    ensures forall j :: j in s <==> start <= j < start + n
  {
    if n == 0 then {} else Tail(start, n - 1) + {start + n - 1}
  }
}
