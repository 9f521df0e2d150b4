/**
 * What the references and counts of the ancestry tool stand for, said by position
 * (src/blockchain_utilities/blockchain_ancestry.cpp).
 */
module AncestryWays {
  import opened Ancestry

  // ---- The ring members of a transaction ----

  /** Member k of the ring of input i is output a. */
  predicate MemberIs(vin: seq<Ring>, i: nat, k: nat, a: Ancestor) {
    i < |vin| && k < |vin[i].offsets| && vin[i].amount == a.amount && vin[i].offsets[k] == a.offset
  }

  /** The places at which output a is a ring member. */
  ghost function Places(vin: seq<Ring>, a: Ancestor): set<(nat, nat)> {
    set i: nat, k: nat | i < |vin| && k < |vin[i].offsets| && MemberIs(vin, i, k, a) :: (i, k)
  }

  ghost function RingPlaces(vin: seq<Ring>, i: nat, n: nat, a: Ancestor): set<(nat, nat)>
    requires i < |vin|
  {
    set k: nat | k < n && MemberIs(vin, i, k, a) :: (i, k)
  }

  lemma {:induction false} RingCount(vin: seq<Ring>, i: nat, n: nat, a: Ancestor)
    requires i < |vin| && n <= |vin[i].offsets|
    ensures multiset(RingRefs(vin[i])[..n])[a] == |RingPlaces(vin, i, n, a)|
  {
    var s := RingRefs(vin[i]);
    if n == 0 {
      assert s[..0] == [];
      assert RingPlaces(vin, i, 0, a) == {};
    } else {
      RingCount(vin, i, n - 1, a);
      assert s[..n] == s[..n - 1] + [s[n - 1]];
      assert s[n - 1] == Ancestor(vin[i].amount, vin[i].offsets[n - 1]);
      RingPlacesStep(vin, i, n - 1, a);
    }
  }

  lemma RingPlacesStep(vin: seq<Ring>, i: nat, n: nat, a: Ancestor)
    requires i < |vin|
    ensures |RingPlaces(vin, i, n + 1, a)| == |RingPlaces(vin, i, n, a)| + if MemberIs(vin, i, n, a) then 1 else 0
  {
    hide MemberIs;
    if MemberIs(vin, i, n, a) {
      assert RingPlaces(vin, i, n + 1, a) == RingPlaces(vin, i, n, a) + {(i, n)};
    } else {
      assert RingPlaces(vin, i, n + 1, a) == RingPlaces(vin, i, n, a);
    }
  }

  lemma PlacesLast(vin: seq<Ring>, a: Ancestor)
    requires vin != []
    ensures var last := |vin| - 1;
      |Places(vin, a)| == |Places(vin[..last], a)| + |RingPlaces(vin, last, |vin[last].offsets|, a)|
  {
    var last := |vin| - 1;
    var init, ring := Places(vin[..last], a), RingPlaces(vin, last, |vin[last].offsets|, a);
    forall i: nat, k: nat
      ensures (i, k) in Places(vin, a) <==> (i, k) in init || (i, k) in ring
    {
      assert i < last ==> vin[..last][i] == vin[i];
    }
    assert Places(vin, a) == init + ring;
    assert init * ring == {};
  }

  lemma {:induction false} RingsCount(vin: seq<Ring>, a: Ancestor)
    ensures multiset(RingsRefs(vin))[a] == |Places(vin, a)|
    decreases |vin|
  {
    hide Places, RingPlaces, RingRefs;
    if vin == [] {
      NoPlaces(a);
    } else {
      var last := |vin| - 1;
      RingsCount(vin[..last], a);
      RingCount(vin, last, |vin[last].offsets|, a);
      var s := RingRefs(vin[last]);
      assert s[..|vin[last].offsets|] == s;
      PlacesLast(vin, a);
    }
  }

  lemma NoPlaces(a: Ancestor)
    ensures Places([], a) == {}
  {
  }

  /** An output is referred to as often as it is a member of a ring, under the amount of that ring. */
  lemma RefsCount(tx: TxData, a: Ancestor)
    requires !tx.coinbase
    ensures multiset(Refs(tx))[a] == |Places(tx.vin, a)|
    ensures a in Refs(tx) <==> exists i: nat, k: nat :: MemberIs(tx.vin, i, k, a)
  {
    hide Places, RingsRefs, MemberIs;
    RingsCount(tx.vin, a);
    SomePlace(tx.vin, a);
    assert a in Refs(tx) <==> a in multiset(Refs(tx));
  }

  lemma SomePlace(vin: seq<Ring>, a: Ancestor)
    ensures |Places(vin, a)| > 0 <==> exists i: nat, k: nat :: MemberIs(vin, i, k, a)
  {
    if i: nat, k: nat :| MemberIs(vin, i, k, a) {
      assert (i, k) in Places(vin, a);
    }
    if |Places(vin, a)| > 0 {
      var p :| p in Places(vin, a);
      assert MemberIs(vin, p.0, p.1, a);
    }
  }

  // ---- Ways ----

  /** w leads from t to a: each number picks a ring member, of t first and then of what the search finds for it. */
  ghost predicate Way(db: Db, t: TxId, w: seq<nat>, a: Ancestor)
    decreases |w|
  {
    && w != [] && t in db.txs && w[0] < |Refs(db.txs[t])|
    && var r := Refs(db.txs[t])[w[0]];
       if |w| == 1 then r == a else Locate(db, r).Some? && Way(db, Locate(db, r).value, w[1..], a)
  }

  /** The same among the first n ring members of t. */
  ghost predicate EarlyWay(db: Db, t: TxId, n: nat, w: seq<nat>, a: Ancestor) {
    Way(db, t, w, a) && w[0] < n
  }

  ghost predicate AreWays(ways: set<seq<nat>>, db: Db, t: TxId, n: nat, a: Ancestor) {
    forall w :: w in ways <==> EarlyWay(db, t, n, w, a)
  }

  ghost function Longer(k: nat, ways: set<seq<nat>>): set<seq<nat>> {
    set w | w in ways :: [k] + w
  }

  lemma {:induction false} LongerSize(k: nat, ways: set<seq<nat>>)
    ensures |Longer(k, ways)| == |ways|
    decreases |ways|
  {
    if ways == {} {
      assert Longer(k, ways) == {};
    } else {
      var w :| w in ways;
      var rest := ways - {w};
      LongerSize(k, rest);
      forall v | v in ways && [k] + v == [k] + w
        ensures v == w
      {
        assert ([k] + v)[1..] == v && ([k] + w)[1..] == w;
      }
      assert Longer(k, ways) == Longer(k, rest) + {[k] + w};
    }
  }

  lemma LongerHas(k: nat, ways: set<seq<nat>>, w: seq<nat>)
    ensures w in Longer(k, ways) <==> w != [] && w[0] == k && w[1..] in ways
  {
    if w != [] && w[0] == k && w[1..] in ways {
      assert w == [k] + w[1..];
    }
    if w in Longer(k, ways) {
      var v :| v in ways && w == [k] + v;
      assert w[1..] == v;
    }
  }

  /** The ways that begin with ring member n of t. */
  ghost function WaysAt(n: nat, direct: bool, onward: set<seq<nat>>): set<seq<nat>> {
    (if direct then {[n]} else {}) + Longer(n, onward)
  }

  lemma WaysAtSize(n: nat, direct: bool, onward: set<seq<nat>>)
    requires [] !in onward
    ensures |WaysAt(n, direct, onward)| == |onward| + if direct then 1 else 0
  {
    hide Longer;
    LongerSize(n, onward);
    LongerHas(n, onward, [n]);
    if direct {
      assert [n][1..] == [];
      assert {[n]} * Longer(n, onward) == {};
    } else {
      assert {} + Longer(n, onward) == Longer(n, onward);
    }
  }

  lemma WaysAtAre(db: Db, t: TxId, n: nat, onward: set<seq<nat>>, a: Ancestor, w: seq<nat>)
    requires t in db.txs && n < |Refs(db.txs[t])|
    requires var r := Refs(db.txs[t])[n];
      forall v :: v in onward <==> Locate(db, r).Some? && Way(db, Locate(db, r).value, v, a)
    ensures w in WaysAt(n, Refs(db.txs[t])[n] == a, onward) <==> Way(db, t, w, a) && w[0] == n
  {
    hide Locate, Refs, Longer;
    LongerHas(n, onward, w);
    if w != [] && w[0] == n {
      assert |w| == 1 ==> w == [n] && w[1..] == [];
      assert w[1..] in onward ==> w[1..] != [];
    }
  }

  /** One more ring member of t: what the count adds for it. */
  lemma CountRefsNext(db: Db, t: TxId, n: nat, a: Ancestor)
    requires Searchable(db) && t in Chain(db) && t in db.txs && n < |Refs(db.txs[t])|
    ensures var refs, p := Refs(db.txs[t]), Position(db, t);
      && AllBefore(db, p, refs[..n]) && AllBefore(db, p, refs[..n + 1])
      && (Locate(db, refs[n]).Some? ==> Locate(db, refs[n]).value in Chain(db) && Position(db, Locate(db, refs[n]).value) < p)
      && CountRefs(db, p, refs[..n + 1], a) == CountRefs(db, p, refs[..n], a) + (if refs[n] == a then 1 else 0)
           + if Locate(db, refs[n]).Some? then Count(db, Locate(db, refs[n]).value, a) else 0
  {
    hide Locate, Chain, Refs, Count, Searchable, Position;
    RefsMadeEarlier(db, t);
    var refs := Refs(db.txs[t]);
    var s := refs[..n + 1];
    assert s[..n] == refs[..n] && s[n] == refs[n];
    assert forall x :: x in refs[..n] ==> x in refs;
    assert forall x :: x in s ==> x in refs;
  }

  lemma {:induction false} EarlyWays(db: Db, t: TxId, n: nat, a: Ancestor) returns (ways: set<seq<nat>>)
    requires Searchable(db) && t in Chain(db) && t in db.txs && n <= |Refs(db.txs[t])|
    ensures AllBefore(db, Position(db, t), Refs(db.txs[t])[..n])
    ensures AreWays(ways, db, t, n, a) && |ways| == CountRefs(db, Position(db, t), Refs(db.txs[t])[..n], a)
    decreases Position(db, t), n
  {
    hide Locate, Chain, Refs, Searchable, Count, Way;
    var refs := Refs(db.txs[t]);
    if n == 0 {
      assert refs[..0] == [];
      ways := {};
      NoEarlyWay(db, t, a);
    } else {
      CountRefsNext(db, t, n - 1, a);
      var before := EarlyWays(db, t, n - 1, a);
      var r := refs[n - 1];
      var onward: set<seq<nat>> := {};
      if Locate(db, r).Some? {
        onward := Ways(db, Locate(db, r).value, a);
      }
      ways := before + WaysAt(n - 1, r == a, onward);
      JoinWays(db, t, n - 1, a, before, onward);
    }
  }

  lemma NoEarlyWay(db: Db, t: TxId, a: Ancestor)
    ensures AreWays({}, db, t, 0, a)
  {
    hide Refs, Locate;
  }

  lemma JoinWays(db: Db, t: TxId, n: nat, a: Ancestor, before: set<seq<nat>>, onward: set<seq<nat>>)
    requires t in db.txs && n < |Refs(db.txs[t])| && AreWays(before, db, t, n, a)
    requires var r := Refs(db.txs[t])[n];
      forall v :: v in onward <==> Locate(db, r).Some? && Way(db, Locate(db, r).value, v, a)
    ensures var at := WaysAt(n, Refs(db.txs[t])[n] == a, onward);
      AreWays(before + at, db, t, n + 1, a)
      && |before + at| == |before| + |onward| + if Refs(db.txs[t])[n] == a then 1 else 0
  {
    hide Locate, Refs, WaysAt;
    var at := WaysAt(n, Refs(db.txs[t])[n] == a, onward);
    assert [] !in onward;
    WaysAtSize(n, Refs(db.txs[t])[n] == a, onward);
    forall w: seq<nat>
      ensures w in at <==> Way(db, t, w, a) && w[0] == n
    {
      WaysAtAre(db, t, n, onward, a, w);
    }
    assert before * at == {};
  }

  /** The number of ways from t to a is the number of index sequences that lead there. */
  lemma {:induction false} Ways(db: Db, t: TxId, a: Ancestor) returns (ways: set<seq<nat>>)
    requires Searchable(db) && t in Chain(db)
    ensures forall w :: w in ways <==> Way(db, t, w, a)
    ensures |ways| == Count(db, t, a)
    decreases Position(db, t), |Refs(db.txs[t])| + 1
  {
    RefsMadeEarlier(db, t);
    hide Locate, Chain, Refs, Searchable, CountRefs;
    var refs := Refs(db.txs[t]);
    ways := EarlyWays(db, t, |refs|, a);
    assert refs[..|refs|] == refs;
  }
}
