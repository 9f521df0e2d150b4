/** Combinator (src/common/combinator.h, src/common/combinator.cpp): listing and counting choices of k out of n. */
module Combinator {
  import opened Basics
  import opened Arith

  // ---- The listing ----

  function Prefixed(i: nat, cs: seq<seq<nat>>): seq<seq<nat>> {
    seq(|cs|, j requires 0 <= j < |cs| => [i] + cs[j])
  }

  /** Choices of k of the indices i, ..., n - 1, those with the smallest first index first. */
  function Choices(n: nat, i: nat, k: nat): seq<seq<nat>>
    decreases n - i, k
  {
    if k == 0 then [[]]
    else if i + k > n then []
    else Prefixed(i, Choices(n, i + 1, k - 1)) + Choices(n, i + 1, k)
  }

  /** c is an increasing list of k indices from i to n - 1. */
  ghost predicate IsChoice(c: seq<nat>, n: nat, i: nat, k: nat) {
    && |c| == k
    && (forall j :: 0 <= j < |c| ==> i <= c[j] < n)
    && forall j, l :: 0 <= j < l < |c| ==> c[j] < c[l]
  }

  /** Lexicographic order. */
  ghost predicate Before(a: seq<nat>, b: seq<nat>) {
    exists j :: 0 <= j < |a| && j < |b| && a[..j] == b[..j] && a[j] < b[j]
  }

  lemma ChoiceRest(c: seq<nat>, n: nat, i: nat, k: nat)
    requires k > 0 && IsChoice(c, n, i, k) && c[0] == i
    ensures IsChoice(c[1..], n, i + 1, k - 1) && c == [i] + c[1..]
  {
  }

  lemma ChoiceExtended(c: seq<nat>, n: nat, i: nat, k: nat)
    requires k > 0 && IsChoice(c, n, i + 1, k - 1) && i < n
    ensures IsChoice([i] + c, n, i, k)
  {
  }

  lemma {:induction false} ChoiceRoom(c: seq<nat>, n: nat, i: nat, k: nat)
    requires IsChoice(c, n, i, k) && k > 0
    ensures i + k <= n && (c[0] != i ==> IsChoice(c, n, i + 1, k))
    decreases k
  {
    assert i <= c[0] < n;
    if k > 1 {
      assert c[0] < c[1];
      ChoiceRoom(c[1..], n, c[0] + 1, k - 1);
    }
  }

  /** The list holds exactly the increasing k-tuples of indices. */
  lemma {:induction false} ChoicesExactly(n: nat, i: nat, k: nat, c: seq<nat>)
    ensures c in Choices(n, i, k) <==> IsChoice(c, n, i, k)
    decreases n - i, k
  {
    hide IsChoice;
    if k == 0 {
      assert IsChoice(c, n, i, 0) <==> c == [] by {
        NoChoice(c, n, i);
      }
    } else if i + k > n {
      if IsChoice(c, n, i, k) {
        ChoiceRoom(c, n, i, k);
      }
    } else {
      ChoicesExactly(n, i + 1, k, c);
      PrefixedMembers(i, Choices(n, i + 1, k - 1), c);
      if c != [] {
        ChoicesExactly(n, i + 1, k - 1, c[1..]);
      }
      SplitChoice(c, n, i, k);
    }
  }

  /** A choice starts with i, or is one of the indices after i. */
  lemma SplitChoice(c: seq<nat>, n: nat, i: nat, k: nat)
    requires k > 0 && i < n
    ensures IsChoice(c, n, i, k) <==>
      (c != [] && c[0] == i && IsChoice(c[1..], n, i + 1, k - 1)) || IsChoice(c, n, i + 1, k)
  {
    if IsChoice(c, n, i, k) {
      ChoiceRoom(c, n, i, k);
      if c[0] == i {
        ChoiceRest(c, n, i, k);
      }
    }
    if c != [] && c[0] == i && IsChoice(c[1..], n, i + 1, k - 1) {
      ChoiceExtended(c[1..], n, i, k);
      assert c == [i] + c[1..];
    }
    ChoiceWider(c, n, i, k);
    hide IsChoice;
  }

  lemma PrefixedMembers(i: nat, cs: seq<seq<nat>>, c: seq<nat>)
    ensures c in Prefixed(i, cs) <==> c != [] && c[0] == i && c[1..] in cs
  {
    var first := Prefixed(i, cs);
    if c in first {
      var j :| 0 <= j < |first| && first[j] == c;
      assert c[1..] == cs[j];
    }
    if c != [] && c[0] == i && c[1..] in cs {
      var j :| 0 <= j < |cs| && cs[j] == c[1..];
      assert first[j] == c;
    }
  }

  lemma NoChoice(c: seq<nat>, n: nat, i: nat)
    ensures IsChoice(c, n, i, 0) <==> c == []
  {
  }

  lemma ChoiceWider(c: seq<nat>, n: nat, i: nat, k: nat)
    ensures IsChoice(c, n, i + 1, k) ==> IsChoice(c, n, i, k)
  {
  }

  ghost predicate Ascending(cs: seq<seq<nat>>) {
    forall a, b :: 0 <= a < b < |cs| ==> Before(cs[a], cs[b])
  }

  lemma BeforePrefixed(i: nat, a: seq<nat>, b: seq<nat>)
    requires Before(a, b)
    ensures Before([i] + a, [i] + b)
  {
    var j :| 0 <= j < |a| && j < |b| && a[..j] == b[..j] && a[j] < b[j];
    assert ([i] + a)[..j + 1] == [i] + a[..j] && ([i] + b)[..j + 1] == [i] + b[..j];
    assert ([i] + a)[j + 1] < ([i] + b)[j + 1];
  }

  /** The list is in strictly ascending lexicographic order, so no choice is listed twice. */
  lemma {:induction false} ChoicesAscend(n: nat, i: nat, k: nat)
    ensures Ascending(Choices(n, i, k))
    decreases n - i, k
  {
    hide Before, IsChoice;
    if k > 0 && i + k <= n {
      var tails, rest := Choices(n, i + 1, k - 1), Choices(n, i + 1, k);
      var first := Prefixed(i, tails);
      ChoicesAscend(n, i + 1, k - 1);
      ChoicesAscend(n, i + 1, k);
      forall a, b | 0 <= a < b < |first + rest|
        ensures Before((first + rest)[a], (first + rest)[b])
      {
        if b < |first| {
          BeforePrefixed(i, tails[a], tails[b]);
        } else if a < |first| {
          ChoicesExactly(n, i + 1, k, rest[b - |first|]);
          assert rest[b - |first|] in rest;
          FirstDecides(i, tails[a], rest[b - |first|], n, k);
        } else {
          assert Before(rest[a - |first|], rest[b - |first|]);
        }
      }
    }
  }

  lemma FirstDecides(i: nat, a: seq<nat>, b: seq<nat>, n: nat, k: nat)
    requires IsChoice(b, n, i + 1, k) && k > 0
    ensures Before([i] + a, b)
  {
    assert ([i] + a)[..0] == b[..0];
    assert ([i] + a)[0] < b[0];
  }

  // ---- The counting ----

  function Binomial(n: nat, k: nat): nat
    decreases n
  {
    if k == 0 then 1 else if n == 0 then 0 else Binomial(n - 1, k) + Binomial(n - 1, k - 1)
  }

  /** As many choices are listed as the binomial coefficient says. */
  lemma {:induction false} ChoicesCount(n: nat, i: nat, k: nat)
    requires i <= n
    ensures |Choices(n, i, k)| == Binomial(n - i, k)
    decreases n - i, k
  {
    if k > 0 {
      if i + k > n {
        BinomialZero(n - i, k);
      } else {
        ChoicesCount(n, i + 1, k - 1);
        ChoicesCount(n, i + 1, k);
      }
    }
  }

  lemma {:induction false} BinomialZero(n: nat, k: nat)
    requires k > n
    ensures Binomial(n, k) == 0
    decreases n
  {
    if n > 0 {
      BinomialZero(n - 1, k);
      BinomialZero(n - 1, k - 1);
    }
  }

  /** (k + 1) * C(n, k + 1) == (n - k) * C(n, k). */
  lemma {:induction false} Absorption(n: nat, k: nat)
    requires k <= n
    ensures (k + 1) * Binomial(n, k + 1) == (n - k) * Binomial(n, k)
    decreases n
  {
    if n == 0 {
    } else if k == n {
      BinomialZero(n, n + 1);
      MulZero(k + 1, n - k, Binomial(n, k));
    } else {
      var b := Binomial(n - 1, k);
      Absorption(n - 1, k);
      if k == 0 {
        OneTerm(n, Binomial(n - 1, 1));
      } else {
        Absorption(n - 1, k - 1);
        Pascal(n, k, Binomial(n - 1, k + 1), b, Binomial(n - 1, k - 1));
      }
    }
  }

  lemma MulZero(a: nat, d: int, b: nat)
    requires d == 0
    ensures a * 0 == d * b
  {
  }

  lemma OneTerm(n: nat, b1: nat)
    requires n > 0 && 1 * b1 == (n - 1) * 1
    ensures 1 * (b1 + 1) == n * 1
  {
  }

  lemma Pascal(n: nat, k: nat, up: nat, b: nat, down: nat)
    requires 0 < k < n
    requires (k + 1) * up == (n - 1 - k) * b
    requires k * b == (n - k) * down
    ensures (k + 1) * (up + b) == (n - k) * (b + down)
  {
    calc {
      (k + 1) * (up + b);
      (k + 1) * up + (k + 1) * b;
      (n - 1 - k) * b + (k + 1) * b;
      (n - k) * b + k * b;
      (n - k) * b + (n - k) * down;
      (n - k) * (b + down);
    }
  }

  /** The 64-bit loop after i rounds. */
  function Count(n: nat, i: nat): nat
    requires i <= n
  {
    if i == 0 then 1 else Count(n, i - 1) * (n - i + 1) % TWO64 / i
  }

  method CombinationsCount(k: nat, n: nat) returns (c: Option<nat>)
    requires k < 0x1_0000_0000 && n < 0x1_0000_0000
    ensures k > n ==> c == None
    ensures k <= n ==> c == Some(Count(n, k))
  {
    hide Count;
    if k > n {
      return None;
    }
    var m, r := n, 1;
    CountStart(n);
    var i := 1;
    while i <= k
      invariant 1 <= i <= k + 1 && m == n - i + 1 && r == Count(n, i - 1)
    {
      CountStep(n, i);
      r := r * m % TWO64;
      m := m - 1;
      r := r / i;
      i := i + 1;
    }
    c := Some(r);
  }

  lemma CountStart(n: nat)
    ensures Count(n, 0) == 1
  {
  }

  lemma CountStep(n: nat, i: nat)
    requires 0 < i <= n
    ensures Count(n, i) == Count(n, i - 1) * (n - i + 1) % TWO64 / i
  {
  }

  /** i * C(n, i), the product of round i, grows up to the middle. */
  lemma {:induction false} ProductsGrow(n: nat, i: nat, k: nat)
    requires i <= k && 2 * k <= n + 1
    ensures i * Binomial(n, i) <= k * Binomial(n, k)
    decreases k
  {
    if i < k {
      ProductsGrow(n, i, k - 1);
      Absorption(n, k - 1);
      MulOrder(k - 1, n - (k - 1), Binomial(n, k - 1));
    }
  }

  lemma DivExact(i: nat, b: nat)
    requires i > 0
    ensures i * b / i == b
  {
    DivModUnique(i, b, 0);
  }

  lemma CountExactStep(n: nat, k: nat)
    requires 0 < k <= n && Count(n, k - 1) == Binomial(n, k - 1) && k * Binomial(n, k) < TWO64
    ensures Count(n, k) == Binomial(n, k)
  {
    hide *;
    CountStep(n, k);
    Absorption(n, k - 1);
    RoundExact(Count(n, k - 1), n - k + 1, k, Binomial(n, k));
  }

  lemma RoundExact(c: nat, m: nat, k: nat, b: nat)
    requires 0 < k && k * b == m * c && k * b < TWO64
    ensures c * m % TWO64 / k == b
  {
    SmallMod(c * m, k * b);
    DivExact(k, b);
  }

  /** While every product fits in 64 bits the loop computes binomial coefficients. */
  lemma {:induction false} CountExact(n: nat, k: nat)
    requires k <= n && forall i :: 1 <= i <= k ==> i * Binomial(n, i) < TWO64
    ensures Count(n, k) == Binomial(n, k)
  {
    hide Binomial, Count;
    if k == 0 {
      BinomialNone(n);
      CountStart(n);
    } else {
      CountExact(n, k - 1);
      CountExactStep(n, k);
    }
  }

  lemma BinomialNone(n: nat)
    ensures Binomial(n, 0) == 1
  {
  }

  lemma SmallMod(x: nat, y: nat)
    requires x == y < TWO64
    ensures x % TWO64 == y
  {
  }

  /** A quotient by k of a 64-bit number is too small for a count whose k-fold does not fit. */
  lemma CountTooSmall(n: nat, k: nat)
    requires 0 < k <= n && k * Binomial(n, k) >= TWO64
    ensures Count(n, k) < Binomial(n, k)
  {
    hide Binomial, Count;
    CountStep(n, k);
    QuotientTooSmall(Count(n, k - 1) * (n - k + 1), k, Binomial(n, k));
  }

  lemma QuotientTooSmall(p: nat, k: nat, b: nat)
    requires 0 < k && k * b >= TWO64
    ensures p % TWO64 / k < b
  {
    var x := p % TWO64;
    var q := x / k;
    assert k * q <= x < TWO64;
    if q >= b {
      MulOrder(b, q, k);
    }
  }

  /** A count that is too small stays too small. */
  lemma {:induction false} TooSmallStays(n: nat, i: nat, k: nat)
    requires i <= k <= n && Count(n, i) < Binomial(n, i)
    ensures Count(n, k) < Binomial(n, k)
    decreases k
  {
    hide Count, Binomial;
    if i < k {
      TooSmallStays(n, i, k - 1);
      CountStep(n, k);
      Absorption(n, k - 1);
      RoundTooSmall(Count(n, k - 1), n - k + 1, k, Binomial(n, k - 1), Binomial(n, k));
    }
  }

  lemma RoundTooSmall(c: nat, m: nat, k: nat, b: nat, b': nat)
    requires c < b && 0 < m && 0 < k && k * b' == m * b
    ensures c * m % TWO64 / k < b'
  {
    var x := c * m % TWO64;
    var q := x / k;
    assert k * q <= x <= c * m;
    assert c * m < b * m by {
      MulOrder(c + 1, b, m);
    }
    if q >= b' {
      MulOrder(b', q, k);
    }
  }

  /** The round with the largest product: the last one, or the one in the middle. */
  function Peak(n: nat, k: nat): nat {
    if 2 * k <= n + 1 then k else (n + 1) / 2
  }

  /** The count is right if and only if the largest product of its rounds fits in 64 bits. */
  lemma CountExactly(n: nat, k: nat)
    requires k <= n
    ensures Count(n, k) == Binomial(n, k) <==> Peak(n, k) * Binomial(n, Peak(n, k)) < TWO64
  {
    hide Count, Binomial;
    var m := Peak(n, k);
    if m * Binomial(n, m) < TWO64 {
      forall i | 1 <= i <= k
        ensures i * Binomial(n, i) < TWO64
      {
        if i <= m {
          ProductsGrow(n, i, m);
        } else {
          ProductsShrink(n, m, i);
        }
      }
      CountExact(n, k);
    } else {
      CountTooSmall(n, m);
      TooSmallStays(n, m, k);
    }
  }

  lemma {:induction false} ProductsShrink(n: nat, m: nat, i: nat)
    requires m <= i <= n && n <= 2 * m
    ensures i * Binomial(n, i) <= m * Binomial(n, m)
    decreases i
  {
    if m < i {
      ProductsShrink(n, m, i - 1);
      Absorption(n, i - 1);
      MulOrder(n - (i - 1), i - 1, Binomial(n, i - 1));
    }
  }

  /** The listing is as long as the count says if and only if the largest product fits. */
  lemma CountMatchesListing(n: nat, k: nat)
    requires k <= n
    ensures |Choices(n, 0, k)| == Count(n, k) <==> Peak(n, k) * Binomial(n, Peak(n, k)) < TWO64
  {
    hide Choices, Count, Binomial, Peak;
    ChoicesCount(n, 0, k);
    CountExactly(n, k);
  }

  /** Three out of four million is one count that does not come out. */
  lemma WrongCount()
    ensures Count(4_000_000, 3) != Binomial(4_000_000, 3)
  {
    var n := 4_000_000;
    hide Count, Binomial;
    BinomialNone(n);
    Absorption(n, 0);
    Absorption(n, 1);
    Absorption(n, 2);
    CountTooSmall(n, 3);
  }

  // ---- The class ----

  function Pick<T>(origin: seq<T>, c: seq<nat>): seq<T>
    requires forall j :: 0 <= j < |c| ==> c[j] < |origin|
  {
    seq(|c|, j requires 0 <= j < |c| => origin[c[j]])
  }

  ghost predicate Inside(cs: seq<seq<nat>>, n: nat) {
    forall a, j :: 0 <= a < |cs| && 0 <= j < |cs[a]| ==> cs[a][j] < n
  }

  /** The vectors that the choices cs name, each after the indices in head. */
  ghost function PickAll<T>(origin: seq<T>, head: seq<nat>, cs: seq<seq<nat>>): seq<seq<T>>
    requires (forall j :: 0 <= j < |head| ==> head[j] < |origin|) && Inside(cs, |origin|)
  {
    seq(|cs|, a requires 0 <= a < |cs| => Pick(origin, head + cs[a]))
  }

  lemma ChoicesInside(n: nat, i: nat, k: nat)
    ensures Inside(Choices(n, i, k), n)
  {
    forall a, j | 0 <= a < |Choices(n, i, k)| && 0 <= j < |Choices(n, i, k)[a]|
      ensures Choices(n, i, k)[a][j] < n
    {
      ChoicesExactly(n, i, k, Choices(n, i, k)[a]);
    }
  }

  class Combinator<T> {
    const origin: seq<T>
    var combinations: seq<seq<T>>
    var current: seq<nat>

    constructor (v: seq<T>)
      ensures origin == v && combinations == [] && current == []
    {
      origin, combinations, current := v, [], [];
    }

    ghost predicate Valid()
      reads this`current
    {
      forall j :: 0 <= j < |current| ==> current[j] < |origin|
    }

    method DoCombine(from: nat, k: nat)
      requires Valid() && 0 < k && from + k <= |origin| + 1
      modifies this
      ensures current == old(current)
      ensures Inside(Choices(|origin|, from, k), |origin|)
      ensures combinations == old(combinations) + PickAll(origin, current, Choices(|origin|, from, k))
      decreases k
    {
      hide Choices, Pick;
      var n := |origin|;
      ghost var head := current;
      ChoicesInside(n, from, k);
      current := current + [0];
      var i := from;
      Nothing(origin, head);
      ghost var done: seq<seq<nat>> := [];
      while i + k <= n
        invariant from <= i <= n - k + 1 && |current| == |head| + 1 && current[..|head|] == head
        invariant Inside(done, n) && combinations == old(combinations) + PickAll(origin, head, done)
        invariant done + Choices(n, i, k) == Choices(n, from, k)
      {
        current := current[..|current| - 1] + [i];
        ghost var tails := Choices(n, i + 1, k - 1);
        ChoicesInside(n, i + 1, k - 1);
        if k > 1 {
          DoCombine(i + 1, k - 1);
        } else {
          OneChoice(n, i + 1);
          combinations := combinations + [Pick(origin, current)];
          PickOne(origin, current);
        }
        PickPrefixed(origin, head, i, tails);
        PickMore(origin, head, done, Prefixed(i, tails));
        ChoicesStep(n, i, k, done);
        done := done + Prefixed(i, tails);
        i := i + 1;
      }
      NoneLeft(n, i, k);
      assert done + [] == done;
      current := current[..|current| - 1];
    }

    /** Every choice of k elements once, in lexicographic order of their positions; None for the errors. */
    method Combine(k: nat) returns (r: Option<seq<seq<T>>>)
      requires current == []
      modifies this
      ensures current == []
      ensures r.None? <==> k > |origin| || k == 0
      ensures Inside(Choices(|origin|, 0, k), |origin|)
      ensures r.Some? ==> r.value == PickAll(origin, [], Choices(|origin|, 0, k))
    {
      ChoicesInside(|origin|, 0, k);
      if k > |origin| || k == 0 {
        return None;
      }
      combinations := [];
      DoCombine(0, k);
      r := Some(combinations);
    }
  }

  lemma Nothing<T>(origin: seq<T>, head: seq<nat>)
    requires forall j :: 0 <= j < |head| ==> head[j] < |origin|
    ensures PickAll(origin, head, []) == []
  {
  }

  lemma OneChoice(n: nat, i: nat)
    ensures Choices(n, i, 0) == [[]]
  {
  }

  lemma NoneLeft(n: nat, i: nat, k: nat)
    requires k > 0 && i + k > n
    ensures Choices(n, i, k) == []
  {
  }

  lemma ChoicesStep(n: nat, i: nat, k: nat, done: seq<seq<nat>>)
    requires k > 0 && i + k <= n
    ensures done + Choices(n, i, k) == done + Prefixed(i, Choices(n, i + 1, k - 1)) + Choices(n, i + 1, k)
  {
  }

  lemma PickOne<T>(origin: seq<T>, head: seq<nat>)
    requires forall j :: 0 <= j < |head| ==> head[j] < |origin|
    ensures PickAll(origin, head, [[]]) == [Pick(origin, head)]
  {
    assert head + [] == head;
  }

  lemma PickPrefixed<T>(origin: seq<T>, head: seq<nat>, i: nat, cs: seq<seq<nat>>)
    requires (forall j :: 0 <= j < |head| ==> head[j] < |origin|) && i < |origin| && Inside(cs, |origin|)
    ensures Inside(Prefixed(i, cs), |origin|)
    ensures PickAll(origin, head, Prefixed(i, cs)) == PickAll(origin, head + [i], cs)
  {
    assert forall a :: 0 <= a < |cs| ==> head + ([i] + cs[a]) == head + [i] + cs[a];
  }

  lemma PickMore<T>(origin: seq<T>, head: seq<nat>, cs: seq<seq<nat>>, ds: seq<seq<nat>>)
    requires (forall j :: 0 <= j < |head| ==> head[j] < |origin|) && Inside(cs, |origin|) && Inside(ds, |origin|)
    ensures Inside(cs + ds, |origin|)
    ensures PickAll(origin, head, cs + ds) == PickAll(origin, head, cs) + PickAll(origin, head, ds)
  {
  }
}
