/** Which outputs a transaction descends from (src/blockchain_utilities/blockchain_ancestry.cpp):
    the chain, the search for the transaction that made an output, and true reachability. */
module Ancestry {
  import opened Basics

  type TxId = nat
  type Key = nat

  /** An output, by amount and index among the outputs of that amount. */
  datatype Ancestor = Ancestor(amount: nat, offset: nat)

  datatype Ring = Ring(amount: nat, offsets: seq<nat>)

  datatype TxData = TxData(coinbase: bool, vin: seq<Ring>, vout: seq<Key>)

  /** minerOuts holds None for an output whose target is not a plain key. */
  datatype Block = Block(minerTx: TxId, minerOuts: seq<Option<Key>>, txHashes: seq<TxId>)

  /** An output as the database records it, and the transaction that made it, which it does not record. */
  datatype Output = Output(height: nat, key: Key, maker: TxId)

  /** The database; the tool reads all of it but the makers. */
  datatype Db = Db(blocks: seq<Block>, txs: map<TxId, TxData>, outputs: map<Ancestor, Output>)

  // ---- Inputs ----

  function RingRefs(r: Ring): (s: seq<Ancestor>)
    ensures |s| == |r.offsets|
  {
    seq(|r.offsets|, i requires 0 <= i < |r.offsets| => Ancestor(r.amount, r.offsets[i]))
  }

  function RingsRefs(vin: seq<Ring>): seq<Ancestor> {
    if vin == [] then [] else RingsRefs(vin[..|vin| - 1]) + RingRefs(vin[|vin| - 1])
  }

  /** The ring members of a transaction, in the order in which both methods visit them. */
  function Refs(tx: TxData): seq<Ancestor> {
    if tx.coinbase then [] else RingsRefs(tx.vin)
  }

  // ---- The transaction that made an output ----

  /** The scan of the miner transaction's outputs: found, not there, or stopped by a bad output. */
  datatype Scan = Found | Absent | Bad

  function ScanMiner(outs: seq<Option<Key>>, key: Key): Scan {
    if outs == [] then Absent
    else if outs[0].None? then Bad
    else if outs[0].value == key then Found
    else ScanMiner(outs[1..], key)
  }

  function ScanTxs(db: Db, ids: seq<TxId>, key: Key): Option<TxId> {
    if ids == [] || ids[0] !in db.txs then None
    else if key in db.txs[ids[0]].vout then Some(ids[0])
    else ScanTxs(db, ids[1..], key)
  }

  /** get_output_txid without its caches. */
  function Locate(db: Db, a: Ancestor): Option<TxId> {
    if a !in db.outputs || db.outputs[a].height >= |db.blocks| then None
    else
      var b, key := db.blocks[db.outputs[a].height], db.outputs[a].key;
      match ScanMiner(b.minerOuts, key)
      case Found => Some(b.minerTx)
      case Bad => None
      case Absent => ScanTxs(db, b.txHashes, key)
  }

  /** Transaction t of the block at the output's height pays to the output's key. */
  ghost predicate Pays(db: Db, t: TxId, a: Ancestor) {
    && a in db.outputs && db.outputs[a].height < |db.blocks|
    && var b, key := db.blocks[db.outputs[a].height], db.outputs[a].key;
       || (t == b.minerTx && Some(key) in b.minerOuts)
       || (t in b.txHashes && t in db.txs && key in db.txs[t].vout)
  }

  /** Output i of the miner transaction has the key, and only plain outputs come before it. */
  predicate MinerPaysAt(outs: seq<Option<Key>>, key: Key, i: nat) {
    i < |outs| && outs[i] == Some(key) && forall k :: 0 <= k < i ==> outs[k].Some?
  }

  /** Every output of the miner transaction is plain and has another key. */
  predicate MinerPaysOthers(outs: seq<Option<Key>>, key: Key) {
    forall k :: 0 <= k < |outs| ==> outs[k].Some? && outs[k].value != key
  }

  /** Transaction j of the list is the first that pays to the key, and those before it are known. */
  predicate PaysFirst(db: Db, ids: seq<TxId>, key: Key, j: nat) {
    && j < |ids| && ids[j] in db.txs && key in db.txs[ids[j]].vout
    && forall k :: 0 <= k < j ==> ids[k] in db.txs && key !in db.txs[ids[k]].vout
  }

  /** Transaction t is the first payer in block order, and nothing unreadable comes before it. */
  ghost predicate FirstPayer(db: Db, a: Ancestor, t: TxId) {
    && a in db.outputs && db.outputs[a].height < |db.blocks|
    && var b, key := db.blocks[db.outputs[a].height], db.outputs[a].key;
       || (t == b.minerTx && exists i: nat :: MinerPaysAt(b.minerOuts, key, i))
       || (MinerPaysOthers(b.minerOuts, key) && exists j: nat :: PaysFirst(db, b.txHashes, key, j) && b.txHashes[j] == t)
  }

  lemma {:induction false} ScanMinerExactly(outs: seq<Option<Key>>, key: Key)
    ensures ScanMiner(outs, key) == Found <==> exists i: nat :: MinerPaysAt(outs, key, i)
    ensures ScanMiner(outs, key) == Absent <==> MinerPaysOthers(outs, key)
  {
    if outs != [] {
      var rest := outs[1..];
      ScanMinerExactly(rest, key);
      if ScanMiner(outs, key) == Found {
        if outs[0].value == key {
          assert MinerPaysAt(outs, key, 0);
        } else {
          var i: nat :| MinerPaysAt(rest, key, i);
          assert MinerPaysAt(outs, key, i + 1);
        }
      }
      if i: nat :| MinerPaysAt(outs, key, i) {
        if i > 0 {
          assert outs[0].Some?;
          MinerPaysLater(outs, key, i);
        }
      }
      if ScanMiner(outs, key) == Absent {
        assert forall k :: 0 < k < |outs| ==> outs[k] == rest[k - 1];
      }
      if MinerPaysOthers(outs, key) {
        assert forall k :: 0 <= k < |rest| ==> rest[k] == outs[k + 1];
      }
    }
  }

  lemma MinerPaysLater(outs: seq<Option<Key>>, key: Key, i: nat)
    requires i > 0 && MinerPaysAt(outs, key, i)
    ensures MinerPaysAt(outs[1..], key, i - 1)
  {
  }

  lemma {:induction false} ScanTxsExactly(db: Db, ids: seq<TxId>, key: Key, t: TxId)
    ensures ScanTxs(db, ids, key) == Some(t) <==> exists j: nat :: PaysFirst(db, ids, key, j) && ids[j] == t
  {
    if ids != [] && ids[0] in db.txs {
      var rest := ids[1..];
      if key in db.txs[ids[0]].vout {
        assert PaysFirst(db, ids, key, 0);
      } else {
        ScanTxsExactly(db, rest, key, t);
        if ScanTxs(db, ids, key) == Some(t) {
          var j: nat :| PaysFirst(db, rest, key, j) && rest[j] == t;
          PaysOneLater(db, ids, key, j);
        }
        if j: nat :| PaysFirst(db, ids, key, j) && ids[j] == t {
          assert j > 0;
          PaysOneSooner(db, ids, key, j);
        }
      }
    }
  }

  lemma PaysOneLater(db: Db, ids: seq<TxId>, key: Key, j: nat)
    requires ids != [] && ids[0] in db.txs && key !in db.txs[ids[0]].vout && PaysFirst(db, ids[1..], key, j)
    ensures PaysFirst(db, ids, key, j + 1)
  {
    var rest := ids[1..];
    assert ids[j + 1] == rest[j];
    forall k | 0 < k < j + 1
      ensures ids[k] in db.txs && key !in db.txs[ids[k]].vout
    {
      assert ids[k] == rest[k - 1];
    }
  }

  lemma PaysOneSooner(db: Db, ids: seq<TxId>, key: Key, j: nat)
    requires j > 0 && PaysFirst(db, ids, key, j)
    ensures PaysFirst(db, ids[1..], key, j - 1)
  {
  }

  /** The search names t if and only if t is the first payer in block order and nothing unreadable comes before it. */
  lemma LocateExactly(db: Db, a: Ancestor, t: TxId)
    ensures Locate(db, a) == Some(t) <==> FirstPayer(db, a, t)
  {
    if a in db.outputs && db.outputs[a].height < |db.blocks| {
      var b, key := db.blocks[db.outputs[a].height], db.outputs[a].key;
      hide ScanMiner, ScanTxs, MinerPaysAt, MinerPaysOthers, PaysFirst;
      ScanMinerExactly(b.minerOuts, key);
      ScanTxsExactly(db, b.txHashes, key, t);
    }
  }

  /** The search names the transaction that made the output if and only if it is the first payer of its key. */
  lemma LocateIsMaker(db: Db, a: Ancestor)
    requires a in db.outputs
    ensures Locate(db, a) == Some(db.outputs[a].maker) <==> FirstPayer(db, a, db.outputs[a].maker)
  {
    LocateExactly(db, a, db.outputs[a].maker);
  }

  /** The block of the output can be read, and no two of its transactions pay to the output's key. */
  ghost predicate KeyUnique(db: Db, a: Ancestor) {
    && a in db.outputs && db.outputs[a].height < |db.blocks|
    && (forall t, u :: Pays(db, t, a) && Pays(db, u, a) ==> t == u)
    && var b := db.blocks[db.outputs[a].height];
       && (forall k :: 0 <= k < |b.minerOuts| ==> b.minerOuts[k].Some?)
       && (forall t :: t in b.txHashes ==> t in db.txs)
  }

  lemma SomePayer(db: Db, a: Ancestor, t: TxId)
    requires KeyUnique(db, a) && Pays(db, t, a)
    ensures Locate(db, a).Some?
  {
    var b, key := db.blocks[db.outputs[a].height], db.outputs[a].key;
    ScanMinerExactly(b.minerOuts, key);
    if Locate(db, a).None? {
      if ScanMiner(b.minerOuts, key) == Bad {
        NotBad(b.minerOuts, key);
      }
      NobodyPays(db, b.txHashes, key);
    }
  }

  lemma {:induction false} NotBad(outs: seq<Option<Key>>, key: Key)
    requires forall k :: 0 <= k < |outs| ==> outs[k].Some?
    ensures ScanMiner(outs, key) != Bad
  {
    if outs != [] {
      NotBad(outs[1..], key);
    }
  }

  lemma {:induction false} NobodyPays(db: Db, ids: seq<TxId>, key: Key)
    requires (forall t :: t in ids ==> t in db.txs) && ScanTxs(db, ids, key).None?
    ensures forall t :: t in ids ==> key !in db.txs[t].vout
  {
    if ids != [] {
      assert ids == [ids[0]] + ids[1..];
      NobodyPays(db, ids[1..], key);
    }
  }

  /** A unique payer is the first one: with it the search is right. */
  lemma UniquePayerFound(db: Db, a: Ancestor, t: TxId)
    requires KeyUnique(db, a)
    ensures Locate(db, a) == Some(t) <==> Pays(db, t, a)
  {
    hide ScanMiner, ScanTxs;
    if Locate(db, a).Some? {
      var u := Locate(db, a).value;
      LocateExactly(db, a, u);
      FirstPays(db, a, u);
    }
    if Pays(db, t, a) {
      SomePayer(db, a, t);
    }
  }

  lemma FirstPays(db: Db, a: Ancestor, t: TxId)
    requires FirstPayer(db, a, t)
    ensures Pays(db, t, a)
  {
  }

  /** Two transactions of a block pay to one key: the search names the first, and the second made the output. */
  lemma SharedKey()
    ensures var a := Ancestor(0, 1);
      var db := Db([Block(0, [Some(5)], [1])],
                   map[0 := TxData(true, [], [5]), 1 := TxData(false, [], [5])],
                   map[a := Output(0, 5, 1)]);
      Pays(db, 1, a) && db.outputs[a].maker == 1 && Locate(db, a) == Some(0)
  {
  }

  // ---- Chain order ----

  function BlockTxs(b: Block): seq<TxId> {
    [b.minerTx] + b.txHashes
  }

  /** All transactions of the first n blocks, in chain order. */
  function Order(db: Db, n: nat): seq<TxId>
    requires n <= |db.blocks|
  {
    if n == 0 then [] else Order(db, n - 1) + BlockTxs(db.blocks[n - 1])
  }

  function Chain(db: Db): seq<TxId> {
    Order(db, |db.blocks|)
  }

  ghost predicate Distinct(s: seq<TxId>) {
    forall i, j :: 0 <= i < j < |s| ==> s[i] != s[j]
  }

  ghost function Position(db: Db, t: TxId): (i: nat)
    requires t in Chain(db)
    ensures i < |Chain(db)| && Chain(db)[i] == t
  {
    var i :| 0 <= i < |Chain(db)| && Chain(db)[i] == t;
    i
  }

  /** If the search for a ring member of t leads anywhere, it leads to a transaction earlier than t. */
  ghost predicate MadeEarlier(db: Db, t: TxId, a: Ancestor)
    requires t in Chain(db)
  {
    Locate(db, a).Some? ==> Locate(db, a).value in Chain(db) && Position(db, Locate(db, a).value) < Position(db, t)
  }

  /** What both methods need of the chain: every search that succeeds leads to an earlier transaction. */
  ghost predicate Searchable(db: Db) {
    && Distinct(Chain(db))
    && (forall i :: 0 <= i < |db.blocks| ==> db.blocks[i].minerTx in db.txs && db.txs[db.blocks[i].minerTx].coinbase)
    && (forall t :: t in Chain(db) ==> t in db.txs)
    && (forall t, a :: t in Chain(db) && t in db.txs && a in Refs(db.txs[t]) ==> MadeEarlier(db, t, a))
  }

  /** The search finds something for every ring member of t. */
  ghost predicate Located(db: Db, t: TxId) {
    t in db.txs && forall a :: a in Refs(db.txs[t]) ==> Locate(db, a).Some?
  }

  /**
   * A chain in which transactions differ, and every ring member was made by an earlier transaction, the first
   * of its block that pays to its key.
   */
  ghost predicate WellFormed(db: Db) {
    && Distinct(Chain(db))
    && (forall i :: 0 <= i < |db.blocks| ==> db.blocks[i].minerTx in db.txs && db.txs[db.blocks[i].minerTx].coinbase)
    && (forall t :: t in Chain(db) ==> t in db.txs)
    && (forall t, a :: t in Chain(db) && t in db.txs && a in Refs(db.txs[t]) ==> HasEarlierMaker(db, t, a))
  }

  ghost predicate HasEarlierMaker(db: Db, t: TxId, a: Ancestor)
    requires t in Chain(db)
  {
    && a in db.outputs
    && var maker := db.outputs[a].maker;
       FirstPayer(db, a, maker) && maker in Chain(db) && Position(db, maker) < Position(db, t)
  }

  /** In such a chain every search finds the maker, and so an earlier transaction. */
  lemma WellFormedSearchable(db: Db)
    requires WellFormed(db)
    ensures Searchable(db)
    ensures forall t :: t in Chain(db) ==> Located(db, t)
  {
    hide Locate, Chain, Refs, FirstPayer, Position;
    forall t, a | t in Chain(db) && t in db.txs && a in Refs(db.txs[t])
      ensures MadeEarlier(db, t, a) && Locate(db, a).Some?
    {
      assert HasEarlierMaker(db, t, a);
      LocateIsMaker(db, a);
    }
  }

  // ---- Reachability ----

  /** What the search finds for refs comes before position bound. */
  ghost predicate AllBefore(db: Db, bound: nat, refs: seq<Ancestor>) {
    forall a :: a in refs && Locate(db, a).Some? ==>
      Locate(db, a).value in Chain(db) && Position(db, Locate(db, a).value) < bound
  }

  /** The outputs that refs name, and those reachable from the transactions that the search finds for them. */
  ghost function ReachRefs(db: Db, bound: nat, refs: seq<Ancestor>): set<Ancestor>
    requires Searchable(db)
    requires AllBefore(db, bound, refs)
    decreases bound, |refs|
  {
    if refs == [] then {}
    else
      var r := refs[|refs| - 1];
      ReachRefs(db, bound, refs[..|refs| - 1]) + {r} + if Locate(db, r).Some? then Reach(db, Locate(db, r).value) else {}
  }

  /** Every output that transaction t descends from. */
  ghost function Reach(db: Db, t: TxId): set<Ancestor>
    requires Searchable(db) && t in Chain(db)
    decreases Position(db, t)
  {
    RefsMadeEarlier(db, t);
    ReachRefs(db, Position(db, t), Refs(db.txs[t]))
  }

  /** A way from t to a: a ring member of t, then ring members of the makers. */
  ghost predicate Path(db: Db, t: TxId, p: seq<Ancestor>, a: Ancestor)
    decreases |p|
  {
    && p != [] && t in db.txs && p[0] in Refs(db.txs[t])
    && if |p| == 1 then p[0] == a
       else Locate(db, p[0]).Some? && Path(db, Locate(db, p[0]).value, p[1..], a)
  }

  lemma {:induction false} PathReaches(db: Db, t: TxId, p: seq<Ancestor>, a: Ancestor)
    requires Searchable(db) && t in Chain(db) && Path(db, t, p, a)
    ensures a in Reach(db, t)
    decreases |p|
  {
    hide Locate, Refs, Chain;
    var refs := Refs(db.txs[t]);
    RefsMadeEarlier(db, t);
    ReachRefsMember(db, Position(db, t), refs, p[0]);
    if |p| > 1 {
      PathReaches(db, Locate(db, p[0]).value, p[1..], a);
    }
  }

  lemma {:induction false} ReachRefsMember(db: Db, bound: nat, refs: seq<Ancestor>, r: Ancestor)
    requires Searchable(db) && r in refs
    requires AllBefore(db, bound, refs)
    ensures r in ReachRefs(db, bound, refs)
    ensures Locate(db, r).Some? ==> Reach(db, Locate(db, r).value) <= ReachRefs(db, bound, refs)
    decreases |refs|
  {
    hide Locate, Reach, Chain, Searchable;
    var init := refs[..|refs| - 1];
    assert refs == init + [refs[|refs| - 1]];
    if r != refs[|refs| - 1] {
      ReachRefsMember(db, bound, init, r);
    }
  }

  lemma {:induction false} ReachRefsOrigin(db: Db, bound: nat, refs: seq<Ancestor>, x: Ancestor) returns (r: Ancestor)
    requires Searchable(db)
    requires AllBefore(db, bound, refs)
    requires x in ReachRefs(db, bound, refs)
    ensures r in refs && (x == r || (Locate(db, r).Some? && x in Reach(db, Locate(db, r).value)))
    decreases |refs|
  {
    hide Locate, Reach, Chain, Searchable;
    var init := refs[..|refs| - 1];
    r := refs[|refs| - 1];
    if x != r && !(Locate(db, r).Some? && x in Reach(db, Locate(db, r).value)) {
      r := ReachRefsOrigin(db, bound, init, x);
    }
  }

  lemma {:induction false} ReachHasPath(db: Db, t: TxId, a: Ancestor) returns (p: seq<Ancestor>)
    requires Searchable(db) && t in Chain(db) && a in Reach(db, t)
    ensures Path(db, t, p, a)
    decreases Position(db, t)
  {
    hide Locate, Refs, Chain;
    var refs := Refs(db.txs[t]);
    RefsMadeEarlier(db, t);
    var r := ReachRefsOrigin(db, Position(db, t), refs, a);
    if a == r {
      p := [r];
    } else {
      var q := ReachHasPath(db, Locate(db, r).value, a);
      p := [r] + q;
      assert p[1..] == q;
    }
  }

  /** A way from t to a in the chain itself: a ring member of t, then ring members of its maker, and so on. */
  ghost predicate TruePath(db: Db, t: TxId, p: seq<Ancestor>, a: Ancestor)
    decreases |p|
  {
    && p != [] && t in db.txs && p[0] in Refs(db.txs[t])
    && if |p| == 1 then p[0] == a else p[0] in db.outputs && TruePath(db, db.outputs[p[0]].maker, p[1..], a)
  }

  /** Transaction t descends from output a. */
  ghost predicate Descends(db: Db, t: TxId, a: Ancestor) {
    exists p :: TruePath(db, t, p, a)
  }

  lemma {:induction false} SamePaths(db: Db, t: TxId, p: seq<Ancestor>, a: Ancestor)
    requires WellFormed(db) && t in Chain(db)
    ensures TruePath(db, t, p, a) <==> Path(db, t, p, a)
    decreases |p|
  {
    hide Locate, Refs, FirstPayer, Chain, Position;
    if |p| > 1 && t in db.txs && p[0] in Refs(db.txs[t]) {
      assert HasEarlierMaker(db, t, p[0]);
      LocateIsMaker(db, p[0]);
      SamePaths(db, db.outputs[p[0]].maker, p[1..], a);
    }
  }

  /** Reach is true reachability: an output is in it exactly when ring members and their makers lead to it. */
  lemma ReachIsReachability(db: Db, t: TxId, a: Ancestor)
    requires WellFormed(db) && t in Chain(db)
    ensures Searchable(db)
    ensures a in Reach(db, t) <==> Descends(db, t, a)
  {
    WellFormedSearchable(db);
    hide Reach, Path, TruePath, Chain, Searchable, WellFormed;
    if a in Reach(db, t) {
      var p := ReachHasPath(db, t, a);
      SamePaths(db, t, p, a);
    }
    if Descends(db, t, a) {
      var p :| TruePath(db, t, p, a);
      SamePaths(db, t, p, a);
      PathReaches(db, t, p, a);
    }
  }

  /** What t descends from are ring members of chain transactions. */
  lemma {:induction false} ReachIsRef(db: Db, t: TxId, a: Ancestor) returns (u: TxId)
    requires Searchable(db) && t in Chain(db) && a in Reach(db, t)
    ensures u in Chain(db) && u in db.txs && a in Refs(db.txs[u])
    decreases Position(db, t)
  {
    hide Locate, Refs, Chain;
    RefsMadeEarlier(db, t);
    var r := ReachRefsOrigin(db, Position(db, t), Refs(db.txs[t]), a);
    if a == r {
      u := t;
    } else {
      u := ReachIsRef(db, Locate(db, r).value, a);
    }
  }

  // ---- Positions in the chain ----

  lemma {:induction false} OrderPrefix(db: Db, m: nat, n: nat)
    requires m <= n <= |db.blocks|
    ensures Order(db, m) <= Order(db, n)
    decreases n
  {
    if m < n {
      OrderPrefix(db, m, n - 1);
    }
  }

  lemma PositionInBlock(db: Db, h: nat, j: nat)
    requires h < |db.blocks| && j <= |db.blocks[h].txHashes|
    ensures |Order(db, h)| + j < |Chain(db)| && Chain(db)[|Order(db, h)| + j] == BlockTxs(db.blocks[h])[j]
    ensures |Order(db, h + 1)| == |Order(db, h)| + 1 + |db.blocks[h].txHashes|
  {
    OrderPrefix(db, h + 1, |db.blocks|);
    assert Order(db, h + 1)[|Order(db, h)| + j] == BlockTxs(db.blocks[h])[j];
  }

  lemma PositionUnique(db: Db, i: nat)
    requires Distinct(Chain(db)) && i < |Chain(db)|
    ensures Position(db, Chain(db)[i]) == i
  {
    hide Chain;
    var j := Position(db, Chain(db)[i]);
    assert Chain(db)[j] == Chain(db)[i];
  }

  /** What the search finds for the refs of a chain transaction is earlier. */
  lemma RefsMadeEarlier(db: Db, t: TxId)
    requires Searchable(db) && t in Chain(db)
    ensures t in db.txs
    ensures AllBefore(db, Position(db, t), Refs(db.txs[t]))
  {
    hide Locate, Chain, Refs;
    forall a | a in Refs(db.txs[t]) && Locate(db, a).Some?
      ensures Locate(db, a).value in Chain(db) && Position(db, Locate(db, a).value) < Position(db, t)
    {
      assert MadeEarlier(db, t, a);
    }
  }

  // ---- How often the backward walk meets an output ----

  ghost function CountRefs(db: Db, bound: nat, refs: seq<Ancestor>, a: Ancestor): nat
    requires Searchable(db) && AllBefore(db, bound, refs)
    decreases bound, |refs|
  {
    if refs == [] then 0
    else
      var r := refs[|refs| - 1];
      CountRefs(db, bound, refs[..|refs| - 1], a) + (if r == a then 1 else 0)
      + if Locate(db, r).Some? then Count(db, Locate(db, r).value, a) else 0
  }

  /** The number of ways from t to a. */
  ghost function Count(db: Db, t: TxId, a: Ancestor): nat
    requires Searchable(db) && t in Chain(db)
    decreases Position(db, t)
  {
    RefsMadeEarlier(db, t);
    CountRefs(db, Position(db, t), Refs(db.txs[t]), a)
  }

  ghost function WeightRefs(db: Db, bound: nat, refs: seq<Ancestor>): nat
    requires Searchable(db) && AllBefore(db, bound, refs)
    decreases bound, |refs|
  {
    if refs == [] then 0
    else
      var r := refs[|refs| - 1];
      WeightRefs(db, bound, refs[..|refs| - 1]) + if Locate(db, r).Some? then Weight(db, Locate(db, r).value) else 0
  }

  /** The number of transactions that a backward walk from t takes off its list. */
  ghost function Weight(db: Db, t: TxId): nat
    requires Searchable(db) && t in Chain(db)
    decreases Position(db, t)
  {
    RefsMadeEarlier(db, t);
    1 + WeightRefs(db, Position(db, t), Refs(db.txs[t]))
  }

  lemma {:induction false} CountRefsPositive(db: Db, bound: nat, refs: seq<Ancestor>, a: Ancestor)
    requires Searchable(db) && AllBefore(db, bound, refs)
    ensures CountRefs(db, bound, refs, a) > 0 <==> a in ReachRefs(db, bound, refs)
    decreases bound, |refs|
  {
    hide Chain, Searchable, Locate;
    if refs != [] {
      var r := refs[|refs| - 1];
      CountRefsPositive(db, bound, refs[..|refs| - 1], a);
      if Locate(db, r).Some? { CountPositive(db, Locate(db, r).value, a); }
    }
  }

  /** There is a way from t to a exactly when a is reachable from t. */
  lemma {:induction false} CountPositive(db: Db, t: TxId, a: Ancestor)
    requires Searchable(db) && t in Chain(db)
    ensures Count(db, t, a) > 0 <==> a in Reach(db, t)
    decreases Position(db, t)
  {
    RefsMadeEarlier(db, t);
    hide Chain, Searchable, Locate;
    CountRefsPositive(db, Position(db, t), Refs(db.txs[t]), a);
  }

  // ---- A list of transactions ----

  ghost function CountList(db: Db, ts: seq<TxId>, a: Ancestor): nat
    requires Searchable(db) && forall t :: t in ts ==> t in Chain(db)
  {
    if ts == [] then 0 else CountList(db, ts[..|ts| - 1], a) + Count(db, ts[|ts| - 1], a)
  }

  ghost function WeightList(db: Db, ts: seq<TxId>): nat
    requires Searchable(db) && forall t :: t in ts ==> t in Chain(db)
  {
    if ts == [] then 0 else WeightList(db, ts[..|ts| - 1]) + Weight(db, ts[|ts| - 1])
  }

  lemma ListAppend(db: Db, ts: seq<TxId>, t: TxId, a: Ancestor)
    requires Searchable(db) && t in Chain(db) && forall u :: u in ts ==> u in Chain(db)
    ensures CountList(db, ts + [t], a) == CountList(db, ts, a) + Count(db, t, a)
    ensures WeightList(db, ts + [t]) == WeightList(db, ts) + Weight(db, t)
  {
    hide Chain, Searchable, Count, Weight;
    assert (ts + [t])[..|ts|] == ts;
  }

  lemma {:induction false} ListFirst(db: Db, ts: seq<TxId>, a: Ancestor)
    requires Searchable(db) && ts != [] && forall u :: u in ts ==> u in Chain(db)
    ensures CountList(db, ts, a) == Count(db, ts[0], a) + CountList(db, ts[1..], a)
    ensures WeightList(db, ts) == Weight(db, ts[0]) + WeightList(db, ts[1..])
    decreases |ts|
  {
    hide Chain, Searchable, Count, Weight;
    if |ts| > 1 {
      var init := ts[..|ts| - 1];
      ListFirst(db, init, a);
      assert init[1..] == ts[1..][..|ts| - 2];
    } else {
      assert ts[1..] == [] && ts[..0] == [];
    }
  }

  // ---- The chain grows ----

  ghost predicate Extends(db: Db, db': Db) {
    && db.blocks <= db'.blocks
    && (forall t :: t in db.txs ==> t in db'.txs && db'.txs[t] == db.txs[t])
    && (forall a :: a in db.outputs ==> a in db'.outputs && db'.outputs[a] == db.outputs[a])
  }

  lemma {:induction false} OrderSame(db: Db, db': Db, n: nat)
    requires Extends(db, db') && n <= |db.blocks|
    ensures Order(db', n) == Order(db, n)
  {
    if n > 0 {
      OrderSame(db, db', n - 1);
    }
  }

  lemma ChainGrows(db: Db, db': Db)
    requires Extends(db, db')
    ensures Chain(db) <= Chain(db')
  {
    OrderSame(db, db', |db.blocks|);
    OrderPrefix(db', |db.blocks|, |db'.blocks|);
  }

  lemma PositionSame(db: Db, db': Db, t: TxId)
    requires Extends(db, db') && Distinct(Chain(db')) && t in Chain(db)
    ensures Chain(db) <= Chain(db') && t in Chain(db') && Position(db', t) == Position(db, t)
  {
    hide Extends, Chain;
    ChainGrows(db, db');
    assert Chain(db')[Position(db, t)] == t;
    PositionUnique(db', Position(db, t));
  }

  lemma {:induction false} ScanTxsSame(db: Db, db': Db, ids: seq<TxId>, key: Key)
    requires Extends(db, db') && ScanTxs(db, ids, key).Some?
    ensures ScanTxs(db', ids, key) == ScanTxs(db, ids, key)
  {
    if key !in db.txs[ids[0]].vout {
      ScanTxsSame(db, db', ids[1..], key);
    }
  }

  lemma LocateSame(db: Db, db': Db, a: Ancestor)
    requires Extends(db, db') && Locate(db, a).Some?
    ensures Locate(db', a) == Locate(db, a)
  {
    var b, key := db.blocks[db.outputs[a].height], db.outputs[a].key;
    if ScanMiner(b.minerOuts, key) == Absent {
      ScanTxsSame(db, db', b.txHashes, key);
    }
    hide ScanMiner, ScanTxs;
  }

  lemma FoundSame(db: Db, db': Db, bound: nat, refs: seq<Ancestor>, a: Ancestor)
    requires Searchable(db) && Searchable(db') && Extends(db, db') && AllBefore(db, bound, refs) && a in refs
    requires Locate(db, a).Some?
    ensures Locate(db', a) == Locate(db, a) && Locate(db, a).value in Chain(db) && Locate(db, a).value in Chain(db')
    ensures Position(db', Locate(db, a).value) == Position(db, Locate(db, a).value) < bound
  {
    hide Locate, Chain, Extends;
    LocateSame(db, db', a);
    PositionSame(db, db', Locate(db, a).value);
  }

  lemma {:induction false} ReachRefsGrows(db: Db, db': Db, bound: nat, refs: seq<Ancestor>)
    requires Searchable(db) && Searchable(db') && Extends(db, db') && AllBefore(db, bound, refs) && AllBefore(db', bound, refs)
    ensures ReachRefs(db, bound, refs) <= ReachRefs(db', bound, refs)
    decreases bound, |refs|
  {
    hide Locate, Chain, Extends, Searchable;
    if refs != [] {
      var r := refs[|refs| - 1];
      ReachRefsGrows(db, db', bound, refs[..|refs| - 1]);
      if Locate(db, r).Some? {
        FoundSame(db, db', bound, refs, r);
        ReachGrows(db, db', Locate(db, r).value);
      }
    }
  }

  /** Nothing that a transaction descends from is lost when blocks are added. */
  lemma {:induction false} ReachGrows(db: Db, db': Db, t: TxId)
    requires Searchable(db) && Searchable(db') && Extends(db, db') && t in Chain(db)
    ensures t in Chain(db') && Reach(db, t) <= Reach(db', t)
    decreases Position(db, t)
  {
    TxSame(db, db', t);
    RefsMadeEarlier(db, t);
    RefsMadeEarlier(db', t);
    hide Locate, Chain, Extends, Refs, Searchable;
    ReachRefsGrows(db, db', Position(db, t), Refs(db.txs[t]));
  }

  lemma TxSame(db: Db, db': Db, t: TxId)
    requires Searchable(db) && Searchable(db') && Extends(db, db') && t in Chain(db)
    ensures t in Chain(db') && Position(db', t) == Position(db, t) && t in db.txs && t in db'.txs && db'.txs[t] == db.txs[t]
  {
    hide Chain;
    PositionSame(db, db', t);
  }

  /** The searches for the ring members of the first n transactions of the chain all succeed. */
  ghost predicate LocatedUpTo(db: Db, n: nat) {
    n <= |Chain(db)| && forall i :: 0 <= i < n ==> Located(db, Chain(db)[i])
  }

  lemma {:induction false} ReachRefsSame(db: Db, db': Db, bound: nat, refs: seq<Ancestor>)
    requires Searchable(db) && Searchable(db') && Extends(db, db') && AllBefore(db, bound, refs) && AllBefore(db', bound, refs)
    requires LocatedUpTo(db, bound) && forall a :: a in refs ==> Locate(db, a).Some?
    ensures ReachRefs(db', bound, refs) == ReachRefs(db, bound, refs)
    decreases bound, |refs|
  {
    hide Locate, Chain, Extends, Searchable, LocatedUpTo;
    if refs != [] {
      var r := refs[|refs| - 1];
      ReachRefsSame(db, db', bound, refs[..|refs| - 1]);
      FoundSame(db, db', bound, refs, r);
      LocatedLess(db, bound, Position(db, Locate(db, r).value) + 1);
      ReachSame(db, db', Locate(db, r).value);
    }
  }

  lemma LocatedLess(db: Db, n: nat, m: nat)
    requires LocatedUpTo(db, n) && m <= n
    ensures LocatedUpTo(db, m)
  {
    hide Chain, Located;
  }

  /** What a transaction descends from does not change when blocks are added, if every search for it succeeds. */
  lemma {:induction false} ReachSame(db: Db, db': Db, t: TxId)
    requires Searchable(db) && Searchable(db') && Extends(db, db') && t in Chain(db) && LocatedUpTo(db, Position(db, t) + 1)
    ensures t in Chain(db') && Reach(db', t) == Reach(db, t)
    decreases Position(db, t)
  {
    TxSame(db, db', t);
    RefsMadeEarlier(db, t);
    RefsMadeEarlier(db', t);
    hide Locate, Chain, Extends, Refs, Searchable;
    assert Located(db, Chain(db)[Position(db, t)]);
    LocatedLess(db, Position(db, t) + 1, Position(db, t));
    ReachRefsSame(db, db', Position(db, t), Refs(db.txs[t]));
  }
}
