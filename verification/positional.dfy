/** Fixed-width positional notation in any base, most significant digit first. */
module Positional {
  import opened Arith

  function Pow(base: nat, n: nat): (r: nat)
    requires base > 0
    ensures r > 0
  {
    if n == 0 then 1 else base * Pow(base, n - 1)
  }

  predicate AllBelow(ds: seq<nat>, base: nat) {
    forall i :: 0 <= i < |ds| ==> ds[i] < base
  }

  function Num(base: nat, ds: seq<nat>): nat {
    if ds == [] then 0 else base * Num(base, ds[..|ds| - 1]) + ds[|ds| - 1]
  }

  function Digits(base: nat, v: nat, n: nat): (ds: seq<nat>)
    requires base > 0
    ensures |ds| == n && AllBelow(ds, base)
    decreases n
  {
    if n == 0 then [] else Digits(base, v / base, n - 1) + [v % base]
  }

  lemma {:induction false} DigitsNum(base: nat, ds: seq<nat>)
    requires base > 0 && AllBelow(ds, base)
    ensures Digits(base, Num(base, ds), |ds|) == ds
  {
    if ds != [] {
      var init, last := ds[..|ds| - 1], ds[|ds| - 1];
      DigitsNum(base, init);
      DivModUnique(base, Num(base, init), last);
      assert ds == init + [last];
    }
  }

  lemma {:induction false} NumDigits(base: nat, v: nat, n: nat)
    requires base > 0 && v < Pow(base, n)
    ensures Num(base, Digits(base, v, n)) == v
    decreases n
  {
    if n > 0 {
      hide Num, Digits, Pow;
      var q, r := v / base, v % base;
      PowStep(base, n);
      QuotientBelow(v, base, q, r, Pow(base, n - 1));
      NumDigits(base, q, n - 1);
      DigitsLast(base, v, n);
      NumLast(base, Digits(base, q, n - 1), r);
    } else {
      NothingIsZero(base, v);
    }
  }

  lemma PowStep(base: nat, n: nat)
    requires base > 0 && n > 0
    ensures Pow(base, n) == base * Pow(base, n - 1)
  {
  }

  lemma QuotientBelow(v: nat, base: nat, q: nat, r: nat, p: nat)
    requires base > 0 && q == v / base && r == v % base && v < base * p
    ensures v == base * q + r && q < p
  {
    assert v == base * q + r;
    if q >= p {
      MulOrder(p, q, base);
    }
  }

  lemma DigitsLast(base: nat, v: nat, n: nat)
    requires base > 0 && n > 0
    ensures Digits(base, v, n) == Digits(base, v / base, n - 1) + [v % base]
  {
  }

  lemma NumLast(base: nat, ds: seq<nat>, d: nat)
    ensures Num(base, ds + [d]) == base * Num(base, ds) + d
  {
    assert (ds + [d])[..|ds|] == ds;
  }

  lemma NothingIsZero(base: nat, v: nat)
    requires base > 0 && v < Pow(base, 0)
    ensures v == 0 && Num(base, Digits(base, v, 0)) == 0
  {
  }

  lemma {:induction false} NumBound(base: nat, ds: seq<nat>)
    requires base > 0 && AllBelow(ds, base)
    ensures Num(base, ds) < Pow(base, |ds|)
  {
    if ds != [] {
      var init := ds[..|ds| - 1];
      NumBound(base, init);
      MulOrder(Num(base, init) + 1, Pow(base, |init|), base);
      assert (Num(base, init) + 1) * base == base * Num(base, init) + base;
    }
  }

  lemma NumFirstAlgebra(b: nat, d: nat, p: nat, t: nat)
    ensures b * (d * p + t) == d * (b * p) + b * t
  {
  }

  /** The most significant digit carries the highest power. */
  lemma {:induction false} NumFirst(base: nat, ds: seq<nat>)
    requires base > 0 && ds != []
    ensures Num(base, ds) == ds[0] * Pow(base, |ds| - 1) + Num(base, ds[1..])
    decreases |ds|
  {
    var init, last := ds[..|ds| - 1], ds[|ds| - 1];
    if init == [] {
      assert ds[1..] == [];
    } else {
      NumFirst(base, init);
      assert init[1..] == ds[1..][..|ds| - 2];
      NumFirstAlgebra(base, ds[0], Pow(base, |ds| - 2), Num(base, init[1..]));
    }
  }

  lemma {:induction false} PowMonotone(base: nat, m: nat, n: nat)
    requires base > 0 && m <= n
    ensures Pow(base, m) <= Pow(base, n)
    decreases n
  {
    if m < n {
      PowMonotone(base, m, n - 1);
      MulOrder(1, base, Pow(base, n - 1));
    }
  }

  // ---- Order ----

  /** Lexicographic order. */
  predicate Less(a: seq<nat>, b: seq<nat>) {
    a != [] && b != [] && (a[0] < b[0] || (a[0] == b[0] && Less(a[1..], b[1..])))
  }

  /** Numbers of one width are ordered as their digit strings are. */
  lemma {:induction false} NumOrder(base: nat, a: seq<nat>, b: seq<nat>)
    requires base > 0 && |a| == |b| && AllBelow(a, base) && AllBelow(b, base)
    ensures Num(base, a) < Num(base, b) <==> Less(a, b)
    decreases |a|
  {
    if a != [] {
      hide Num, Pow;
      var p := Pow(base, |a| - 1);
      NumFirst(base, a);
      NumFirst(base, b);
      NumBound(base, a[1..]);
      NumBound(base, b[1..]);
      NumOrder(base, a[1..], b[1..]);
      LeadOrder(a[0], b[0], p, Num(base, a[1..]), Num(base, b[1..]));
    }
  }

  lemma LeadOrder(x: nat, y: nat, p: nat, s: nat, t: nat)
    requires s < p && t < p
    ensures x * p + s < y * p + t <==> x < y || (x == y && s < t)
  {
    if x < y {
      MulOrder(x + 1, y, p);
      assert (x + 1) * p == x * p + p;
    } else if y < x {
      MulOrder(y + 1, x, p);
      assert (y + 1) * p == y * p + p;
    }
  }

  lemma {:induction false} LessConcat(a: seq<nat>, b: seq<nat>, c: seq<nat>, d: seq<nat>)
    requires |a| == |c|
    ensures Less(a + b, c + d) <==> Less(a, c) || (a == c && Less(b, d))
    decreases |a|
  {
    if a == [] {
      assert a + b == b && c + d == d;
    } else {
      LessConcat(a[1..], b, c[1..], d);
      assert (a + b)[1..] == a[1..] + b && (c + d)[1..] == c[1..] + d;
      assert a == [a[0]] + a[1..] && c == [c[0]] + c[1..];
    }
  }
}
