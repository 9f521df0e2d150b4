/** apply_permutation (src/common/apply_permutation.h): rearranging vectors by swaps along cycles. */
module Permutation {
  import opened Basics

  /** The entries are the indices, each once. */
  ghost predicate IsPermutation(p: seq<nat>) {
    && (forall j :: 0 <= j < |p| ==> p[j] < |p|)
    && forall j, k :: 0 <= j < k < |p| ==> p[j] != p[k]
  }

  /** Position j of the result holds what was at position p[j]. */
  function Permuted<T>(s: seq<T>, p: seq<nat>): seq<T>
    requires |s| == |p| && forall j :: 0 <= j < |p| ==> p[j] < |s|
  {
    seq(|s|, j requires 0 <= j < |s| => s[p[j]])
  }

  function Identity(n: nat): (r: seq<nat>)
    ensures |r| == n
  {
    seq<nat>(n, i => i)
  }

  // ---- The sanity check ----

  ghost function Entries(p: seq<nat>): set<nat> {
    set j | 0 <= j < |p| :: p[j]
  }

  lemma EntriesLast(p: seq<nat>)
    requires p != []
    ensures Entries(p) == Entries(p[..|p| - 1]) + {p[|p| - 1]}
  {
    var init := p[..|p| - 1];
    assert forall j :: 0 <= j < |init| ==> init[j] == p[j];
    assert p[|p| - 1] in Entries(p);
  }

  ghost predicate Repeats(p: seq<nat>) {
    exists j, k :: 0 <= j < k < |p| && p[j] == p[k]
  }

  /** As many different entries as places if and only if no entry repeats. */
  lemma {:induction false} EntriesSize(p: seq<nat>)
    ensures |Entries(p)| <= |p|
    ensures |Entries(p)| == |p| <==> !Repeats(p)
  {
    if p != [] {
      var init, last := p[..|p| - 1], p[|p| - 1];
      EntriesSize(init);
      EntriesLast(p);
      assert forall j :: 0 <= j < |init| ==> init[j] == p[j];
      if Repeats(init) {
        var j, k :| 0 <= j < k < |init| && init[j] == init[k];
        assert p[j] == p[k];
      }
      if last in Entries(init) {
        var j :| 0 <= j < |init| && init[j] == last;
        assert p[j] == p[|p| - 1];
      } else if Repeats(p) {
        var j, k :| 0 <= j < k < |p| && p[j] == p[k];
        assert k < |init| ==> init[j] == init[k];
        assert init[j] in Entries(init);
      }
    }
  }

  ghost function Below(n: nat): set<nat> {
    Entries(Identity(n))
  }

  lemma BelowSize(n: nat)
    ensures |Below(n)| == n && forall x: nat :: x in Below(n) <==> x < n
  {
    EntriesSize(Identity(n));
    forall x: nat
      ensures x in Below(n) <==> x < n
    {
      assert x < n ==> Identity(n)[x] == x;
    }
  }

  /** Looking for each index in turn accepts exactly the permutations. */
  lemma FindsAllExactly(p: seq<nat>)
    ensures (forall n: nat :: n < |p| ==> n in p) <==> IsPermutation(p)
  {
    BelowSize(|p|);
    EntriesSize(p);
    if forall n: nat :: n < |p| ==> n in p {
      AllFound(p);
    } else if IsPermutation(p) {
      AllDistinct(p);
    }
  }

  lemma AllFound(p: seq<nat>)
    requires forall n: nat :: n < |p| ==> n in p
    ensures IsPermutation(p)
  {
    BelowSize(|p|);
    EntriesSize(p);
    forall n | n in Below(|p|)
      ensures n in Entries(p)
    {
      assert n in p;
    }
    SubsetSize(Below(|p|), Entries(p));
    forall j | 0 <= j < |p|
      ensures p[j] < |p|
    {
      assert p[j] in Entries(p);
    }
  }

  lemma AllDistinct(p: seq<nat>)
    requires IsPermutation(p)
    ensures forall n: nat :: n < |p| ==> n in p
  {
    BelowSize(|p|);
    EntriesSize(p);
    SubsetSize(Entries(p), Below(|p|));
    forall n: nat | n < |p|
      ensures n in p
    {
      assert n in Entries(p);
    }
  }

  // ---- Swaps ----

  datatype Swap = Swap(i0: nat, i1: nat)

  predicate InRange(swaps: seq<Swap>, n: nat) {
    forall k :: 0 <= k < |swaps| ==> swaps[k].i0 < n && swaps[k].i1 < n
  }

  function Swapped<T>(s: seq<T>, w: Swap): seq<T>
    requires w.i0 < |s| && w.i1 < |s|
  {
    s[w.i0 := s[w.i1]][w.i1 := s[w.i0]]
  }

  function SwapAll<T>(s: seq<T>, swaps: seq<Swap>): (r: seq<T>)
    requires InRange(swaps, |s|)
    ensures |r| == |s|
  {
    if swaps == [] then s else Swapped(SwapAll(s, swaps[..|swaps| - 1]), swaps[|swaps| - 1])
  }

  lemma {:induction false} SwapAllStays(n: nat, swaps: seq<Swap>)
    requires InRange(swaps, n)
    ensures forall j :: 0 <= j < n ==> SwapAll<nat>(Identity(n), swaps)[j] < n
  {
    if swaps != [] {
      SwapAllStays(n, swaps[..|swaps| - 1]);
    }
  }

  /** The same swaps rearrange every vector in the same way, so vectors swapped together stay aligned. */
  lemma {:induction false} SwapsAlign<T>(s: seq<T>, swaps: seq<Swap>)
    requires InRange(swaps, |s|)
    ensures forall j :: 0 <= j < |s| ==> SwapAll<nat>(Identity(|s|), swaps)[j] < |s|
    ensures SwapAll(s, swaps) == Permuted(s, SwapAll<nat>(Identity(|s|), swaps))
  {
    SwapAllStays(|s|, swaps);
    if swaps != [] {
      SwapsAlign(s, swaps[..|swaps| - 1]);
    }
  }

  // ---- The cycles ----

  /** Outside a cycle: settled places hold what they should, and each other place knows where its content is. */
  ghost predicate Between(p: seq<nat>, c: seq<nat>, goal: seq<nat>) {
    && |p| == |c| == |goal|
    && (forall j :: 0 <= j < |p| ==> p[j] < |p|)
    && (forall j :: 0 <= j < |p| ==> c[p[j]] == goal[j])
    && (forall j, k :: 0 <= j < k < |p| && p[j] != j && p[k] != k ==> p[j] != p[k])
    && (forall j :: 0 <= j < |p| && p[j] != j ==> p[p[j]] != p[j])
  }

  /** Inside the cycle of i: what belongs to the place that points at i has moved along to current. */
  ghost predicate Within(p: seq<nat>, c: seq<nat>, goal: seq<nat>, i: nat, current: nat) {
    && |p| == |c| == |goal| && i < |p| && current < |p|
    && (forall j :: 0 <= j < |p| ==> p[j] < |p|)
    && (forall j :: 0 <= j < |p| && p[j] == j ==> c[j] == goal[j])
    && (forall j :: 0 <= j < |p| && p[j] != j && p[j] != i ==> c[p[j]] == goal[j])
    && (forall j :: 0 <= j < |p| && p[j] != j && p[j] == i ==> c[current] == goal[j])
    && (forall j, k :: 0 <= j < k < |p| && p[j] != j && p[k] != k ==> p[j] != p[k])
    && (forall j :: 0 <= j < |p| && p[j] != j && p[j] != i ==> p[p[j]] != p[j] && p[j] != current)
    && (current == i || (p[i] == i && p[current] != current))
    && (current == i && p[i] == i ==> forall j :: 0 <= j < |p| && p[j] == i ==> j == i)
  }

  ghost function Unsettled(p: seq<nat>): set<nat> {
    set j | 0 <= j < |p| && p[j] != j
  }

  lemma EnterCycle(p: seq<nat>, c: seq<nat>, goal: seq<nat>, i: nat)
    requires Between(p, c, goal) && i < |p|
    ensures Within(p, c, goal, i, i)
  {
  }

  lemma FollowCycle(p: seq<nat>, c: seq<nat>, goal: seq<nat>, i: nat, current: nat)
    requires Within(p, c, goal, i, current) && p[current] != i
    ensures Within(p[current := current], Swapped<nat>(c, Swap(current, p[current])), goal, i, p[current])
    ensures Unsettled(p[current := current]) < Unsettled(p)
  {
    assert p[current] != current;
    assert current in Unsettled(p);
  }

  lemma LeaveCycle(p: seq<nat>, c: seq<nat>, goal: seq<nat>, i: nat, current: nat)
    requires Within(p, c, goal, i, current) && p[current] == i
    ensures Between(p[current := current], c, goal) && p[current := current][i] == i
    ensures forall j :: 0 <= j < |p| && p[j] == j ==> p[current := current][j] == j
  {
  }

  /** The calls of swap that rearrange any vector as the permutation says; none when it is not one. */
  method ApplyPermutation(permutation: seq<nat>) returns (ok: bool, swaps: seq<Swap>)
    ensures ok <==> IsPermutation(permutation)
    ensures ok ==> InRange(swaps, |permutation|) && SwapAll<nat>(Identity(|permutation|), swaps) == permutation
  {
    hide Between, Within, IsPermutation, Swapped;
    swaps := [];
    FindsAllExactly(permutation);
    for n := 0 to |permutation|
      invariant forall m: nat :: m < n ==> m in permutation
    {
      if n !in permutation {
        return false, [];
      }
    }
    var p: seq<nat> := permutation;
    StartBetween(permutation);
    for i := 0 to |permutation|
      invariant |p| == |permutation| && InRange(swaps, |p|)
      invariant Between(p, SwapAll<nat>(Identity(|p|), swaps), permutation)
      invariant forall j :: 0 <= j < i ==> p[j] == j
    {
      p, swaps := FollowFrom(p, swaps, permutation, i);
    }
    AllSettled(p, SwapAll<nat>(Identity(|p|), swaps), permutation);
    ok := true;
  }

  /** One round of the outer loop: the cycle of i is settled. */
  method FollowFrom(p0: seq<nat>, swaps0: seq<Swap>, ghost goal: seq<nat>, i: nat) returns (p: seq<nat>, swaps: seq<Swap>)
    requires InRange(swaps0, |p0|) && Between(p0, SwapAll<nat>(Identity(|p0|), swaps0), goal) && i < |p0|
    ensures |p| == |p0| && InRange(swaps, |p|)
    ensures Between(p, SwapAll<nat>(Identity(|p|), swaps), goal)
    ensures p[i] == i && forall j :: 0 <= j < |p| && p0[j] == j ==> p[j] == j
  {
    hide Between, Within, Swapped, SwapAll, InRange, Unsettled;
    p, swaps := p0, swaps0;
    var current: nat := i;
    ghost var c: seq<nat> := SwapAll<nat>(Identity(|p|), swaps);
    EnterCycle(p, c, goal, i);
    WithinSizes(p, c, goal, i, i);
    while i != p[current]
      invariant |p| == |p0| && current < |p| && p[current] < |p|
      invariant InRange(swaps, |p|) && c == SwapAll<nat>(Identity(|p|), swaps)
      invariant Within(p, c, goal, i, current)
      invariant forall j :: 0 <= j < |p| && p0[j] == j ==> p[j] == j
      decreases Unsettled(p)
    {
      var next := p[current];
      FollowCycle(p, c, goal, i, current);
      SwapAllOneMore(|p|, swaps, Swap(current, next));
      swaps := swaps + [Swap(current, next)];
      c := Swapped<nat>(c, Swap(current, next));
      p := p[current := current];
      WithinSizes(p, c, goal, i, next);
      current := next;
    }
    LeaveCycle(p, c, goal, i, current);
    p := p[current := current];
  }

  lemma StartBetween(p: seq<nat>)
    requires IsPermutation(p)
    ensures Between(p, SwapAll<nat>(Identity(|p|), []), p)
  {
  }

  lemma WithinSizes(p: seq<nat>, c: seq<nat>, goal: seq<nat>, i: nat, current: nat)
    requires Within(p, c, goal, i, current)
    ensures p[current] < |p|
  {
  }

  lemma SwapAllOneMore(n: nat, swaps: seq<Swap>, w: Swap)
    requires InRange(swaps, n) && w.i0 < n && w.i1 < n
    ensures InRange(swaps + [w], n)
    ensures SwapAll<nat>(Identity(n), swaps + [w]) == Swapped<nat>(SwapAll<nat>(Identity(n), swaps), w)
  {
    assert (swaps + [w])[..|swaps|] == swaps;
  }

  lemma AllSettled(p: seq<nat>, c: seq<nat>, goal: seq<nat>)
    requires Between(p, c, goal) && forall j :: 0 <= j < |p| ==> p[j] == j
    ensures c == goal
  {
    assert forall j :: 0 <= j < |p| ==> c[p[j]] == goal[j];
  }

  /** The vector version: the calls of swap exchange elements of v. */
  method ApplyToVector<T>(permutation: seq<nat>, v: array<T>) returns (ok: bool)
    modifies v
    ensures ok <==> |permutation| == v.Length && IsPermutation(permutation)
    ensures !ok ==> v[..] == old(v[..])
    ensures ok ==> v[..] == Permuted(old(v[..]), permutation)
  {
    if |permutation| != v.Length {
      return false;
    }
    var swaps;
    ok, swaps := ApplyPermutation(permutation);
    if !ok {
      return;
    }
    hide IsPermutation;
    for k := 0 to |swaps|
      invariant v[..] == SwapAll(old(v[..]), swaps[..k])
    {
      assert swaps[..k + 1][..k] == swaps[..k];
      var w := swaps[k];
      v[w.i0], v[w.i1] := v[w.i1], v[w.i0];
    }
    assert swaps[..|swaps|] == swaps;
    SwapsAlign(old(v[..]), swaps);
  }
}
