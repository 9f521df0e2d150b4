/** The two methods of src/blockchain_utilities/blockchain_ancestry.cpp over one state: the
    resumable forward refresh and the backward walk. */
module AncestryTool {
  import opened Ancestry
  import opened Basics

  datatype Options = Options(cacheOutputs: bool, cacheTxes: bool, cacheBlocks: bool, includeCoinbase: bool)

  /** get_ancestry: nothing is known of a transaction that is not in the map. */
  function Get(ancestry: map<TxId, set<Ancestor>>, t: TxId): set<Ancestor> {
    if t in ancestry then ancestry[t] else {}
  }

  /** add_ancestry. */
  function AddAncestry(ancestry: map<TxId, set<Ancestor>>, t: TxId, s: set<Ancestor>): (r: map<TxId, set<Ancestor>>)
    ensures forall u :: Get(r, u) == if u == t then Get(ancestry, t) + s else Get(ancestry, u)
  {
    ancestry[t := Get(ancestry, t) + s]
  }

  /** Nothing is recorded that is not true. */
  ghost predicate Sound(db: Db, ancestry: map<TxId, set<Ancestor>>)
    requires Searchable(db)
  {
    forall t :: t in ancestry ==> t in Chain(db) && ancestry[t] <= Reach(db, t)
  }

  /** For the first n transactions of the chain every search succeeds and everything is recorded. */
  ghost predicate CompleteUpTo(db: Db, ancestry: map<TxId, set<Ancestor>>, n: nat)
    requires Searchable(db)
  {
    LocatedUpTo(db, n) && forall i :: 0 <= i < n ==> Get(ancestry, Chain(db)[i]) == Reach(db, Chain(db)[i])
  }

  /** The searches for the ring members of the transactions of block h all succeed. */
  ghost predicate BlockLocated(db: Db, h: nat)
    requires h < |db.blocks|
  {
    forall t :: t in BlockTxs(db.blocks[h]) ==> Located(db, t)
  }

  /** For the first n transactions of the chain exactly the outputs that they descend from are recorded. */
  ghost predicate RecordsDescent(db: Db, ancestry: map<TxId, set<Ancestor>>, n: nat) {
    n <= |Chain(db)| && forall i, a :: 0 <= i < n ==> (a in Get(ancestry, Chain(db)[i]) <==> Descends(db, Chain(db)[i], a))
  }

  lemma CompleteIsDescent(db: Db, ancestry: map<TxId, set<Ancestor>>, n: nat)
    requires WellFormed(db) && Searchable(db) && CompleteUpTo(db, ancestry, n)
    ensures RecordsDescent(db, ancestry, n)
  {
    hide Chain, Reach, Searchable, WellFormed, Descends;
    forall i, a | 0 <= i < n
      ensures a in Get(ancestry, Chain(db)[i]) <==> Descends(db, Chain(db)[i], a)
    {
      ReachIsReachability(db, Chain(db)[i], a);
    }
  }

  class State {
    var height: nat
    var ancestry: map<TxId, set<Ancestor>>
    var outputCache: map<Ancestor, TxId>
    var txCache: map<TxId, TxData>
    var blockCache: seq<Option<Block>>

    constructor ()
      ensures height == 0 && ancestry == map[] && outputCache == map[] && txCache == map[] && blockCache == []
    {
      height, ancestry, outputCache, txCache, blockCache := 0, map[], map[], map[], [];
    }

    /** The caches hold what the database would have answered. */
    ghost predicate CachesValid(db: Db)
      reads this`outputCache, this`txCache, this`blockCache
    {
      && (forall a :: a in outputCache ==> Locate(db, a) == Some(outputCache[a]))
      && (forall t :: t in txCache ==> t in db.txs && db.txs[t] == txCache[t])
      && (forall i :: 0 <= i < |blockCache| && blockCache[i].Some? ==> i < |db.blocks| && db.blocks[i] == blockCache[i].value)
    }

    /** block_cache.resize(h + 1), then the assignment. */
    method CacheBlock(h: nat, b: Block)
      modifies this`blockCache
      ensures |blockCache| == h + 1 && blockCache[h] == Some(b)
      ensures forall i :: 0 <= i < h ==> blockCache[i] == if i < |old(blockCache)| then old(blockCache)[i] else None
    {
      var grown := if |blockCache| > h then blockCache[..h + 1] else blockCache + seq(h + 1 - |blockCache|, i => None);
      blockCache := grown[h := Some(b)];
    }

    method GetBlockFromHeight(db: Db, o: Options, h: nat) returns (r: Option<Block>)
      requires CachesValid(db)
      modifies this`blockCache
      ensures CachesValid(db)
      ensures r == if h < |db.blocks| then Some(db.blocks[h]) else None
    {
      hide Locate;
      if |blockCache| > h && blockCache[h].Some? {
        return blockCache[h];
      }
      if h >= |db.blocks| {
        return None;
      }
      var b := db.blocks[h];
      if o.cacheBlocks {
        CacheBlock(h, b);
      }
      r := Some(b);
    }

    /** The refresh loop reads every block anew, and caches it on request. */
    method NoteBlock(db: Db, o: Options, h: nat)
      requires CachesValid(db) && h < |db.blocks|
      modifies this`blockCache
      ensures CachesValid(db)
    {
      hide Locate;
      var b := db.blocks[h];
      if o.cacheBlocks {
        CacheBlock(h, b);
      }
    }

    method GetTransaction(db: Db, o: Options, t: TxId) returns (r: Option<TxData>)
      requires CachesValid(db)
      modifies this`txCache
      ensures CachesValid(db)
      ensures r == if t in db.txs then Some(db.txs[t]) else None
    {
      hide Locate;
      if t in txCache {
        return Some(txCache[t]);
      }
      if t !in db.txs {
        return None;
      }
      if o.cacheTxes {
        txCache := txCache[t := db.txs[t]];
      }
      r := Some(db.txs[t]);
    }

    method GetOutputTxid(db: Db, o: Options, a: Ancestor) returns (r: Option<TxId>)
      requires CachesValid(db)
      modifies this`outputCache, this`txCache, this`blockCache
      ensures CachesValid(db)
      ensures r == Locate(db, a)
    {
      if a in outputCache {
        return Some(outputCache[a]);
      }
      if a !in db.outputs {
        return None;
      }
      var od := db.outputs[a];
      var found := GetBlockFromHeight(db, o, od.height);
      if found.None? {
        return None;
      }
      r := SearchBlock(db, o, found.value, od.key);
      if r.Some? && o.cacheOutputs {
        outputCache := outputCache[a := r.value];
      }
    }

    /** The two scans of get_output_txid. */
    method SearchBlock(db: Db, o: Options, b: Block, key: Key) returns (r: Option<TxId>)
      requires CachesValid(db)
      modifies this`txCache
      ensures CachesValid(db)
      ensures r == match ScanMiner(b.minerOuts, key)
                   case Found => Some(b.minerTx)
                   case Bad => None
                   case Absent => ScanTxs(db, b.txHashes, key)
    {
      hide Locate;
      var out := 0;
      while out < |b.minerOuts|
        invariant 0 <= out <= |b.minerOuts|
        invariant ScanMiner(b.minerOuts, key) == ScanMiner(b.minerOuts[out..], key)
      {
        if b.minerOuts[out].None? {
          return None;
        }
        if b.minerOuts[out].value == key {
          return Some(b.minerTx);
        }
        out := out + 1;
      }
      var i := 0;
      while i < |b.txHashes|
        invariant 0 <= i <= |b.txHashes| && CachesValid(db)
        invariant ScanTxs(db, b.txHashes, key) == ScanTxs(db, b.txHashes[i..], key)
      {
        var tx := GetTransaction(db, o, b.txHashes[i]);
        if tx.None? {
          return None;
        }
        var j := 0;
        while j < |tx.value.vout|
          invariant 0 <= j <= |tx.value.vout| && key !in tx.value.vout[..j]
        {
          if tx.value.vout[j] == key {
            return Some(b.txHashes[i]);
          }
          j := j + 1;
        }
        assert tx.value.vout[..j] == tx.value.vout;
        i := i + 1;
      }
      r := None;
    }

    /** One input: every output of its ring, and everything those descend from. */
    method ProcessRing(db: Db, o: Options, t: TxId, data: TxData, ring: nat) returns (ok: bool)
      requires Searchable(db) && t in Chain(db) && CachesValid(db)
      requires t in db.txs && data == db.txs[t] && !data.coinbase && ring < |data.vin|
      requires Recorded(db, t, ancestry, RingsRefs(data.vin[..ring]))
      modifies this
      ensures CachesValid(db) && height == old(height)
      ensures ok <==> forall a :: a in RingRefs(data.vin[ring]) ==> Locate(db, a).Some?
      ensures ok ==> Recorded(db, t, ancestry, RingsRefs(data.vin[..ring]) + RingRefs(data.vin[ring]))
      ensures Sound(db, ancestry) && CompleteUpTo(db, ancestry, Position(db, t))
    {
      hide Locate, Chain, Reach, ReachRefs, Searchable, CachesValid, Sound, CompleteUpTo, AddAncestry, Get, Recorded, RingsRefs;
      RefsMadeEarlier(db, t);
      var k := 0;
      ghost var before := RingsRefs(data.vin[..ring]);
      ghost var these := RingRefs(data.vin[ring]);
      assert before + these[..0] == before;
      while k < |data.vin[ring].offsets|
        invariant 0 <= k <= |these| && CachesValid(db) && height == old(height)
        invariant Recorded(db, t, ancestry, before + these[..k])
        invariant forall a :: a in these[..k] ==> Locate(db, a).Some?
      {
        var a := Ancestor(data.vin[ring].amount, data.vin[ring].offsets[k]);
        assert these[..k + 1] == these[..k] + [a] && before + these[..k + 1] == before + these[..k] + [a];
        assert a in Refs(data) by { RingMember(data.vin, ring, k); }
        ghost var start := ancestry;
        RecordAlone(db, t, start, before + these[..k], a);
        ancestry := AddAncestry(ancestry, t, {a});
        var u := GetOutputTxid(db, o, a);
        if u.None? {
          assert these[k] == a;
          return false;
        }
        ancestry := AddAncestry(ancestry, t, Get(ancestry, u.value));
        RecordRef(db, t, start, before + these[..k], a);
        k := k + 1;
      }
      assert these[..k] == these;
      RecordedKnows(db, t, ancestry, before + these);
      ok := true;
    }

    /** One pass of the refresh loop's inner body: everything t descends from is recorded. */
    method ProcessTransaction(db: Db, o: Options, t: TxId) returns (ok: bool)
      requires Searchable(db) && t in Chain(db) && CachesValid(db)
      requires Sound(db, ancestry) && CompleteUpTo(db, ancestry, Position(db, t))
      modifies this
      ensures CachesValid(db) && height == old(height)
      ensures ok <==> Located(db, t)
      ensures Sound(db, ancestry) && CompleteUpTo(db, ancestry, Position(db, t) + if ok then 1 else 0)
    {
      hide Locate, Chain, Reach, ReachRefs, Searchable, CachesValid, Sound, CompleteUpTo, AddAncestry, Get;
      RefsMadeEarlier(db, t);
      ghost var n := Position(db, t);
      var tx := GetTransaction(db, o, t);
      var data := tx.value;
      ghost var refs := Refs(data);
      NothingYet(db, t, ancestry);
      if data.coinbase {
        AddNothing(db, t, ancestry);
        ancestry := AddAncestry(ancestry, t, {});
      } else {
        var ring := 0;
        while ring < |data.vin|
          invariant 0 <= ring <= |data.vin| && CachesValid(db) && height == old(height)
          invariant Recorded(db, t, ancestry, RingsRefs(data.vin[..ring]))
          invariant forall a :: a in RingsRefs(data.vin[..ring]) ==> Locate(db, a).Some?
        {
          RingStep(data.vin, ring);
          ok := ProcessRing(db, o, t, data, ring);
          if !ok {
            NotLocated(db, t, ring);
            return;
          }
          ring := ring + 1;
        }
        assert data.vin[..ring] == data.vin;
      }
      AllRecorded(db, t, ancestry);
      ok := true;
    }

    /** A state that a refresh may start from: fresh, or saved by an earlier refresh. */
    ghost predicate Ready(db: Db)
      reads this
    {
      && Searchable(db) && CachesValid(db) && Sound(db, ancestry)
      && height <= |db.blocks| && CompleteUpTo(db, ancestry, |Order(db, height)|)
    }

    /** The loop comes to block h: no stop request is seen after an earlier one. */
    static ghost predicate Comes(stopped: nat -> bool, start: nat, h: nat) {
      start <= h && forall g :: start <= g < h ==> !stopped(g)
    }

    /** The forward method. stopped says whether a stop request is seen after a block. It fails exactly
        when the loop comes to a block with a ring member that is not found. The first `next` blocks of
        the chain are complete afterwards; a stop or block `next` ends the loop early. */
    method Refresh(db: Db, o: Options, stopped: nat -> bool) returns (ok: bool, next: nat)
      requires Ready(db)
      modifies this
      ensures Ready(db)
      ensures ok <==> forall h: nat :: Comes(stopped, old(height), h) && h < |db.blocks| ==> BlockLocated(db, h)
      ensures old(height) <= next <= |db.blocks| && CompleteUpTo(db, ancestry, |Order(db, next)|)
      ensures height == if next == old(height) then next else next - 1
      ensures ok && next < |db.blocks| ==> next > old(height) && stopped(next - 1)
      ensures !ok ==> next < |db.blocks| && !BlockLocated(db, next)
      ensures WellFormed(db) ==> ok && RecordsDescent(db, ancestry, |Order(db, next)|)
    {
      hide Locate, Chain, Reach, Searchable, Sound, CompleteUpTo, Order, WellFormed, RecordsDescent, BlockLocated, CachesValid;
      var h := height;
      next := h;
      if WellFormed(db) {
        AllBlocksLocated(db);
      }
      ghost var start := height;
      while h < |db.blocks|
        invariant Ready(db) && next == h && start == old(height)
        invariant old(height) <= h <= |db.blocks| && CompleteUpTo(db, ancestry, |Order(db, h)|)
        invariant height == if h == old(height) then h else h - 1
        invariant Comes(stopped, start, h)
        invariant forall g :: start <= g < h ==> BlockLocated(db, g)
      {
        NoteBlock(db, o, h);
        ok := ProcessBlock(db, o, h);
        if !ok {
          CompleteLess(db, ancestry, h, height);
          return;
        }
        height := h;
        h := h + 1;
        next := h;
        CompleteLess(db, ancestry, h, height);
        if stopped(height) {
          break;
        }
      }
      if WellFormed(db) {
        CompleteIsDescent(db, ancestry, |Order(db, next)|);
      }
      ok := true;
    }

    /** The transactions of one block, the miner's only on request. */
    method ProcessBlock(db: Db, o: Options, h: nat) returns (ok: bool)
      requires Searchable(db) && CachesValid(db) && h < |db.blocks|
      requires Sound(db, ancestry) && CompleteUpTo(db, ancestry, |Order(db, h)|)
      modifies this
      ensures CachesValid(db) && height == old(height) && Sound(db, ancestry)
      ensures ok <==> BlockLocated(db, h)
      ensures CompleteUpTo(db, ancestry, |Order(db, if ok then h + 1 else h)|)
    {
      hide Locate, Chain, Reach, Searchable, CachesValid, Sound, CompleteUpTo, Order, Located;
      var b := db.blocks[h];
      ghost var start := |Order(db, h)|;
      PositionInBlock(db, h, 0);
      ChainDistinct(db);
      PositionUnique(db, start);
      MinerReachesNothing(db, h);
      if o.includeCoinbase {
        var done := ProcessTransaction(db, o, b.minerTx);
      } else {
        MinerIsComplete(db, ancestry, h);
      }
      var j := 0;
      while j < |b.txHashes|
        invariant 0 <= j <= |b.txHashes| && CachesValid(db) && height == old(height)
        invariant Sound(db, ancestry) && CompleteUpTo(db, ancestry, start + 1 + j)
        invariant forall k :: 0 <= k < j ==> Located(db, b.txHashes[k])
      {
        PositionInBlock(db, h, j + 1);
        PositionUnique(db, start + 1 + j);
        assert BlockTxs(b)[j + 1] == b.txHashes[j];
        ok := ProcessTransaction(db, o, b.txHashes[j]);
        if !ok {
          CompleteFewer(db, ancestry, start + 1 + j, start);
          return;
        }
        j := j + 1;
      }
      ok := true;
    }

    /** A saved state stays good while the chain grows: the next refresh may resume from it. */
    lemma StaysReady(db: Db, db': Db)
      requires Ready(db) && Searchable(db') && Extends(db, db')
      ensures Ready(db')
    {
      OrderSame(db, db', height);
      KnowledgeStays(db, db', ancestry, |Order(db, height)|);
      forall a | a in outputCache
        ensures Locate(db', a) == Some(outputCache[a])
      {
        LocateSame(db, db', a);
      }
      hide Locate, Chain, Searchable, Order, Sound, CompleteUpTo;
    }

    /** The backward method, from one transaction. It fails exactly when an output that the transaction
        descends from is not found; otherwise those outputs are the keys, each with the number of ways to
        it, kept in an unsigned int. */
    method BackwardWalk(db: Db, o: Options, start: TxId) returns (ok: bool, counts: map<Ancestor, nat>)
      requires Searchable(db) && start in Chain(db) && CachesValid(db) && Sound(db, ancestry)
      modifies this
      ensures CachesValid(db) && Sound(db, ancestry) && height == old(height)
      ensures ok <==> forall a :: a in Reach(db, start) ==> Locate(db, a).Some?
      ensures ok ==> counts.Keys == Reach(db, start)
      ensures ok ==> forall a :: a in counts ==> counts[a] == Count(db, start, a) % TWO32
      ensures WellFormed(db) ==> ok && forall a :: a in counts <==> Descends(db, start, a)
    {
      hide Locate, Chain, Reach, Searchable, CachesValid, Sound, Count, Weight, CountList, WeightList, WellFormed, Descends;
      counts := map[];
      ghost var full: map<Ancestor, nat> := map[];
      var txids := [start];
      ListStart(db, start);
      if WellFormed(db) {
        ReachLocated(db, start);
      }
      while txids != []
        invariant CachesValid(db) && Sound(db, ancestry) && height == old(height)
        invariant Walking(db, start, txids, counts, full)
        invariant forall a :: a in counts ==> Locate(db, a).Some?
        decreases WeightOf(db, txids)
      {
        ok, txids, counts, full := VisitTransaction(db, o, start, txids, counts, full);
        if !ok {
          return;
        }
      }
      ok := true;
      WalkDone(db, start, counts, full);
      if WellFormed(db) {
        forall a
          ensures a in counts <==> Descends(db, start, a)
        {
          ReachIsReachability(db, start, a);
        }
      }
    }

    /** Taking the first transaction off the list: count its ring members and append their makers. */
    method VisitTransaction(db: Db, o: Options, ghost start: TxId, list: seq<TxId>, counts0: map<Ancestor, nat>,
                            ghost full0: map<Ancestor, nat>)
      returns (ok: bool, txids: seq<TxId>, counts: map<Ancestor, nat>, ghost full: map<Ancestor, nat>)
      requires CachesValid(db) && list != [] && Walking(db, start, list, counts0, full0) && Sound(db, ancestry)
      requires forall a :: a in counts0 ==> Locate(db, a).Some?
      modifies this
      ensures CachesValid(db) && Searchable(db) && start in Chain(db) && Sound(db, ancestry) && height == old(height)
      ensures ok ==> Walking(db, start, txids, counts, full) && forall a :: a in counts ==> Locate(db, a).Some?
      ensures ok ==> WeightOf(db, txids) < WeightOf(db, list)
      ensures !ok ==> exists a :: a in Reach(db, start) && Locate(db, a).None?
    {
      hide Locate, Chain, Reach, Searchable, CachesValid, Sound, Walking, Visiting, RingsRefs, Bump, Get, AddAncestry, WeightOf;
      var txid := list[0];
      WalkingMember(db, start, list, counts0, full0);
      RefsMadeEarlier(db, txid);
      txids, counts, full := list[1..], counts0, full0;
      var tx := GetTransaction(db, o, txid);
      var data := tx.value;
      VisitStart(db, start, list, counts, full);
      if !data.coinbase {
        var ring := 0;
        while ring < |data.vin|
          invariant 0 <= ring <= |data.vin| && CachesValid(db) && Sound(db, ancestry) && height == old(height)
          invariant forall a :: a in counts ==> Locate(db, a).Some?
          invariant Visiting(db, start, list, txids, counts, full, RingsRefs(data.vin[..ring]))
        {
          var k := 0;
          ghost var before, these := RingsRefs(data.vin[..ring]), RingRefs(data.vin[ring]);
          RingStep(data.vin, ring);
          assert before + these[..0] == before;
          while k < |data.vin[ring].offsets|
            invariant 0 <= k <= |these| && CachesValid(db) && Sound(db, ancestry) && height == old(height)
            invariant forall a :: a in counts ==> Locate(db, a).Some?
            invariant Visiting(db, start, list, txids, counts, full, before + these[..k])
          {
            var a := Ancestor(data.vin[ring].amount, data.vin[ring].offsets[k]);
            assert these[..k + 1] == these[..k] + [a] && before + these[..k + 1] == before + these[..k] + [a];
            assert a == these[k] && a in Refs(data) by { RingMember(data.vin, ring, k); }
            ghost var counted := counts;
            counts := AddAncestor(counts, a);
            var u := GetOutputTxid(db, o, a);
            if u.None? {
              MetIsReached(db, start, list, counts0, full0, a);
              return false, txids, counts, full;
            }
            VisitRef(db, start, list, txids, counted, full, before + these[..k], a);
            full := Bump(full, a);
            RecordWhileWalking(db, ancestry, txid, a);
            ancestry := AddAncestry(ancestry, txid, Get(ancestry, u.value));
            txids := txids + [u.value];
            k := k + 1;
          }
          assert these[..k] == these;
          ring := ring + 1;
        }
        assert data.vin[..ring] == data.vin;
      }
      VisitDone(db, start, list, txids, counts, full);
      ok := true;
    }
  }

  lemma KnowledgeStays(db: Db, db': Db, ancestry: map<TxId, set<Ancestor>>, n: nat)
    requires Searchable(db) && Searchable(db') && Extends(db, db')
    requires Sound(db, ancestry) && CompleteUpTo(db, ancestry, n)
    ensures Sound(db', ancestry) && CompleteUpTo(db', ancestry, n)
  {
    hide Chain, Reach, Searchable, Extends, LocatedUpTo;
    ChainGrows(db, db');
    forall t | t in Chain(db)
      ensures t in Chain(db') && Reach(db, t) <= Reach(db', t)
    {
      ReachGrows(db, db', t);
    }
    LocatedStays(db, db', n);
    forall i | 0 <= i < n
      ensures Chain(db')[i] == Chain(db)[i] && Reach(db', Chain(db)[i]) == Reach(db, Chain(db)[i])
    {
      ChainDistinct(db);
      PositionUnique(db, i);
      LocatedLess(db, n, i + 1);
      ReachSame(db, db', Chain(db)[i]);
    }
  }

  lemma LocatedStays(db: Db, db': Db, n: nat)
    requires Searchable(db) && Searchable(db') && Extends(db, db') && LocatedUpTo(db, n)
    ensures LocatedUpTo(db', n) && n <= |Chain(db)| <= |Chain(db')|
  {
    hide Chain, Searchable, Locate, Refs;
    ChainGrows(db, db');
    forall i | 0 <= i < n
      ensures Located(db', Chain(db')[i])
    {
      var t := Chain(db)[i];
      assert Chain(db')[i] == t && Located(db, t);
      forall a | a in Refs(db.txs[t])
        ensures Locate(db', a).Some?
      {
        LocateSame(db, db', a);
      }
    }
  }

  lemma AllBlocksLocated(db: Db)
    requires WellFormed(db)
    ensures forall h :: 0 <= h < |db.blocks| ==> BlockLocated(db, h)
  {
    WellFormedSearchable(db);
    hide Chain, WellFormed, Located, Order;
    forall h | 0 <= h < |db.blocks|
      ensures BlockLocated(db, h)
    {
      forall t | t in BlockTxs(db.blocks[h])
        ensures t in Chain(db)
      {
        var j :| 0 <= j < |BlockTxs(db.blocks[h])| && BlockTxs(db.blocks[h])[j] == t;
        PositionInBlock(db, h, j);
      }
    }
  }

  lemma ReachLocated(db: Db, t: TxId)
    requires WellFormed(db) && t in Chain(db)
    ensures Searchable(db) && forall a :: a in Reach(db, t) ==> Locate(db, a).Some?
  {
    WellFormedSearchable(db);
    hide Chain, WellFormed, Searchable, Reach, Locate, Refs;
    forall a | a in Reach(db, t)
      ensures Locate(db, a).Some?
    {
      var u := ReachIsRef(db, t, a);
      assert Located(db, u);
    }
  }

  /** A ring member that the walk meets is one that start descends from. */
  lemma MetIsReached(db: Db, start: TxId, list: seq<TxId>, counts: map<Ancestor, nat>, full: map<Ancestor, nat>, r: Ancestor)
    requires list != [] && Walking(db, start, list, counts, full) && list[0] in db.txs && r in Refs(db.txs[list[0]])
    ensures Searchable(db) && start in Chain(db) && r in Reach(db, start)
  {
    hide Chain, Searchable, Count, CountList, Reach, Refs, Counters, Full;
    ListFirst(db, list, r);
    RefIsReached(db, list[0], r);
    CountPositive(db, list[0], r);
    CountPositive(db, start, r);
  }

  const TWO32: nat := 0x1_0000_0000

  /** add_ancestor: insert 1, or increment the unsigned int that is there. */
  function AddAncestor(counts: map<Ancestor, nat>, a: Ancestor): map<Ancestor, nat> {
    if a in counts then counts[a := (counts[a] + 1) % TWO32] else counts[a := 1]
  }

  function Bump(full: map<Ancestor, nat>, a: Ancestor): map<Ancestor, nat> {
    full[a := if a in full then full[a] + 1 else 1]
  }

  function Full(full: map<Ancestor, nat>, a: Ancestor): nat {
    if a in full then full[a] else 0
  }

  ghost predicate AllInChain(db: Db, ts: seq<TxId>) {
    forall t :: t in ts ==> t in Chain(db)
  }

  ghost function WeightOf(db: Db, ts: seq<TxId>): nat {
    if Searchable(db) && AllInChain(db, ts) then WeightList(db, ts) else 0
  }

  /** The counters are the exact counts reduced to 32 bits. */
  ghost predicate Counters(counts: map<Ancestor, nat>, full: map<Ancestor, nat>) {
    && counts.Keys == full.Keys
    && forall a :: a in full ==> full[a] > 0 && counts[a] == full[a] % TWO32
  }

  /** What is counted and what the list still leads to make up all ways from start. */
  ghost predicate Walking(db: Db, start: TxId, ts: seq<TxId>, counts: map<Ancestor, nat>, full: map<Ancestor, nat>) {
    && Searchable(db) && start in Chain(db) && AllInChain(db, ts) && Counters(counts, full)
    && forall a :: Full(full, a) + CountList(db, ts, a) == Count(db, start, a)
  }

  /** The same in the middle of a visit: the refs after `done` of the first transaction are still to come. */
  ghost predicate Visiting(db: Db, start: TxId, list: seq<TxId>, ts: seq<TxId>, counts: map<Ancestor, nat>,
                           full: map<Ancestor, nat>, done: seq<Ancestor>) {
    && Searchable(db) && start in Chain(db) && list != [] && AllInChain(db, list) && AllInChain(db, ts) && Counters(counts, full)
    && AllBefore(db, Position(db, list[0]), done)
    && (forall a :: Full(full, a) + CountList(db, ts, a) + Count(db, list[0], a)
                    == Count(db, start, a) + CountRefs(db, Position(db, list[0]), done, a))
    && WeightList(db, ts) + Weight(db, list[0]) == WeightList(db, list) + WeightRefs(db, Position(db, list[0]), done)
  }

  lemma ListStart(db: Db, start: TxId)
    requires Searchable(db) && start in Chain(db)
    ensures Walking(db, start, [start], map[], map[])
  {
    hide Chain, Searchable, Count, Weight;
    forall a: Ancestor
      ensures CountList(db, [start], a) == Count(db, start, a)
    {
      ListAppend(db, [], start, a);
      assert [] + [start] == [start];
    }
  }

  lemma WalkingMember(db: Db, start: TxId, ts: seq<TxId>, counts: map<Ancestor, nat>, full: map<Ancestor, nat>)
    requires Walking(db, start, ts, counts, full) && ts != []
    ensures Searchable(db) && start in Chain(db) && ts[0] in Chain(db)
  {
    hide Chain;
  }

  lemma VisitStart(db: Db, start: TxId, list: seq<TxId>, counts: map<Ancestor, nat>, full: map<Ancestor, nat>)
    requires list != [] && Walking(db, start, list, counts, full)
    ensures Visiting(db, start, list, list[1..], counts, full, [])
    ensures RingsRefs([]) == []
  {
    hide Chain, Searchable, Count, Weight, CountList, WeightList;
    forall a: Ancestor
      ensures CountList(db, list, a) == Count(db, list[0], a) + CountList(db, list[1..], a)
      ensures WeightList(db, list) == Weight(db, list[0]) + WeightList(db, list[1..])
    {
      ListFirst(db, list, a);
    }
    ListFirst(db, list, Ancestor(0, 0));
  }

  lemma CountRefsAppend(db: Db, n: nat, done: seq<Ancestor>, r: Ancestor, a: Ancestor)
    requires Searchable(db) && AllBefore(db, n, done + [r]) && Locate(db, r).Some?
    ensures AllBefore(db, n, done)
    ensures CountRefs(db, n, done + [r], a)
         == CountRefs(db, n, done, a) + (if r == a then 1 else 0) + Count(db, Locate(db, r).value, a)
    ensures WeightRefs(db, n, done + [r]) == WeightRefs(db, n, done) + Weight(db, Locate(db, r).value)
  {
    hide Chain, Searchable, Count, Weight, Locate;
    assert (done + [r])[..|done|] == done;
    assert forall x :: x in done ==> x in done + [r];
  }

  lemma VisitRef(db: Db, start: TxId, list: seq<TxId>, ts: seq<TxId>, counts: map<Ancestor, nat>,
                 full: map<Ancestor, nat>, done: seq<Ancestor>, r: Ancestor)
    requires Visiting(db, start, list, ts, counts, full, done) && list[0] in db.txs && r in Refs(db.txs[list[0]])
    requires Locate(db, r).Some?
    ensures Visiting(db, start, list, ts + [Locate(db, r).value], AddAncestor(counts, r), Bump(full, r), done + [r])
  {
    hide Chain, Searchable, Count, Weight, CountList, WeightList, CountRefs, WeightRefs, Locate, Refs;
    hide AllBefore, Position, Counters, Bump, AddAncestor, Full;
    RefsMadeEarlier(db, list[0]);
    BeforeOneMore(db, Position(db, list[0]), done, Refs(db.txs[list[0]]), r);
    var n, u := Position(db, list[0]), Locate(db, r).value;
    forall a: Ancestor
      ensures Full(Bump(full, r), a) + CountList(db, ts + [u], a) + Count(db, list[0], a)
              == Count(db, start, a) + CountRefs(db, n, done + [r], a)
    {
      CountRefsAppend(db, n, done, r, a);
      ListAppend(db, ts, u, a);
      BumpOne(full, r, a);
    }
    CountRefsAppend(db, n, done, r, r);
    ListAppend(db, ts, u, r);
    CountersStep(counts, full, r);
  }

  lemma BeforeOneMore(db: Db, n: nat, done: seq<Ancestor>, refs: seq<Ancestor>, r: Ancestor)
    requires AllBefore(db, n, done) && AllBefore(db, n, refs) && r in refs
    ensures AllBefore(db, n, done + [r]) && (Locate(db, r).Some? ==> Locate(db, r).value in Chain(db))
  {
    hide Chain, Locate, Position;
  }

  lemma BumpOne(full: map<Ancestor, nat>, r: Ancestor, a: Ancestor)
    ensures Full(Bump(full, r), a) == Full(full, a) + if r == a then 1 else 0
  {
  }

  lemma CountersStep(counts: map<Ancestor, nat>, full: map<Ancestor, nat>, r: Ancestor)
    requires Counters(counts, full)
    ensures Counters(AddAncestor(counts, r), Bump(full, r))
  {
  }

  lemma VisitDone(db: Db, start: TxId, list: seq<TxId>, ts: seq<TxId>, counts: map<Ancestor, nat>, full: map<Ancestor, nat>)
    requires list != [] && list[0] in db.txs && Visiting(db, start, list, ts, counts, full, Refs(db.txs[list[0]]))
    ensures Walking(db, start, ts, counts, full) && WeightOf(db, ts) < WeightOf(db, list)
  {
    hide Chain, Searchable, CountList, WeightList, Refs, Locate;
  }

  lemma WalkDone(db: Db, start: TxId, counts: map<Ancestor, nat>, full: map<Ancestor, nat>)
    requires Walking(db, start, [], counts, full)
    ensures counts.Keys == Reach(db, start)
    ensures forall a :: a in counts ==> counts[a] == Count(db, start, a) % TWO32
  {
    hide Chain, Searchable, Count, Reach;
    forall a: Ancestor
      ensures a in full <==> a in Reach(db, start)
    {
      CountPositive(db, start, a);
      assert Full(full, a) == Count(db, start, a);
    }
  }

  lemma RecordWhileWalking(db: Db, ancestry: map<TxId, set<Ancestor>>, t: TxId, a: Ancestor)
    requires Searchable(db) && t in Chain(db) && t in db.txs && a in Refs(db.txs[t]) && Locate(db, a).Some?
    requires Sound(db, ancestry)
    ensures Sound(db, AddAncestry(ancestry, t, Get(ancestry, Locate(db, a).value)))
  {
    hide Chain, Searchable, Reach, Locate, Refs;
    RefIsReached(db, t, a);
    assert Get(ancestry, Locate(db, a).value) <= Reach(db, Locate(db, a).value);
  }

  lemma CompleteFewer(db: Db, ancestry: map<TxId, set<Ancestor>>, m: nat, n: nat)
    requires Searchable(db) && n <= m && CompleteUpTo(db, ancestry, m)
    ensures CompleteUpTo(db, ancestry, n)
  {
    hide Searchable, Reach, Chain, Located;
  }

  lemma CompleteLess(db: Db, ancestry: map<TxId, set<Ancestor>>, m: nat, n: nat)
    requires Searchable(db) && n <= m <= |db.blocks| && CompleteUpTo(db, ancestry, |Order(db, m)|)
    ensures CompleteUpTo(db, ancestry, |Order(db, n)|)
  {
    hide Searchable, Reach, Chain, CompleteUpTo, Order;
    OrderPrefix(db, n, m);
    CompleteFewer(db, ancestry, |Order(db, m)|, |Order(db, n)|);
  }

  /** A miner transaction descends from nothing, so leaving it out loses nothing. */
  lemma MinerIsComplete(db: Db, ancestry: map<TxId, set<Ancestor>>, h: nat)
    requires Searchable(db) && h < |db.blocks| && Sound(db, ancestry) && CompleteUpTo(db, ancestry, |Order(db, h)|)
    ensures CompleteUpTo(db, ancestry, |Order(db, h)| + 1)
  {
    hide Searchable, Reach, Chain, Order, Position;
    PositionInBlock(db, h, 0);
    MinerReachesNothing(db, h);
  }

  lemma MinerReachesNothing(db: Db, h: nat)
    requires Searchable(db) && h < |db.blocks|
    ensures var t := db.blocks[h].minerTx;
      t in Chain(db) && t in db.txs && Reach(db, t) == {} && Located(db, t)
  {
    hide Order, Position;
    PositionInBlock(db, h, 0);
    var t := db.blocks[h].minerTx;
    assert Refs(db.txs[t]) == [];
  }

  /** Sound, complete before t, and for t complete for the refs visited so far. */
  ghost predicate Recorded(db: Db, t: TxId, ancestry: map<TxId, set<Ancestor>>, done: seq<Ancestor>) {
    && Searchable(db) && t in Chain(db) && t in db.txs
    && AllBefore(db, Position(db, t), done)
    && Sound(db, ancestry) && CompleteUpTo(db, ancestry, Position(db, t))
    && ReachRefs(db, Position(db, t), done) <= Get(ancestry, t)
  }

  lemma NothingYet(db: Db, t: TxId, ancestry: map<TxId, set<Ancestor>>)
    requires Searchable(db) && t in Chain(db) && t in db.txs
    requires Sound(db, ancestry) && CompleteUpTo(db, ancestry, Position(db, t))
    ensures Recorded(db, t, ancestry, [])
    ensures RingsRefs([]) == []
  {
    hide Chain, Reach, Searchable, Sound, CompleteUpTo;
  }

  lemma AddNothing(db: Db, t: TxId, ancestry: map<TxId, set<Ancestor>>)
    requires Recorded(db, t, ancestry, []) && Refs(db.txs[t]) == []
    ensures Recorded(db, t, AddAncestry(ancestry, t, {}), [])
  {
    hide Chain, Searchable, Reach, ReachRefs;
  }

  lemma RingStep(vin: seq<Ring>, i: nat)
    requires i < |vin|
    ensures RingsRefs(vin[..i + 1]) == RingsRefs(vin[..i]) + RingRefs(vin[i])
  {
    assert vin[..i + 1][..i] == vin[..i];
  }

  lemma {:induction false} RingMember(vin: seq<Ring>, i: nat, k: nat)
    requires i < |vin| && k < |vin[i].offsets|
    ensures RingRefs(vin[i])[k] in RingsRefs(vin)
    decreases |vin|
  {
    if i < |vin| - 1 {
      RingMember(vin[..|vin| - 1], i, k);
    }
  }

  /** Recording something true of t keeps soundness, and completeness before t. */
  lemma AddTrue(db: Db, ancestry: map<TxId, set<Ancestor>>, t: TxId, s: set<Ancestor>, n: nat)
    requires Searchable(db) && t in Chain(db) && n <= Position(db, t)
    requires Sound(db, ancestry) && CompleteUpTo(db, ancestry, n) && s <= Reach(db, t)
    ensures Sound(db, AddAncestry(ancestry, t, s)) && CompleteUpTo(db, AddAncestry(ancestry, t, s), n)
  {
    ChainDistinct(db);
    hide Chain, Searchable, Reach;
    var p := Position(db, t);
    assert Chain(db)[p] == t;
    assert forall i :: 0 <= i < n ==> Chain(db)[i] != Chain(db)[p];
  }

  lemma Known(db: Db, ancestry: map<TxId, set<Ancestor>>, u: TxId, n: nat)
    requires Searchable(db) && u in Chain(db) && Position(db, u) < n && CompleteUpTo(db, ancestry, n)
    ensures Get(ancestry, u) == Reach(db, u)
  {
    hide Chain, Searchable, Reach;
    assert Chain(db)[Position(db, u)] == u;
  }

  /** Recording a ring member alone, as far as the methods come when the search for it fails. */
  lemma RecordAlone(db: Db, t: TxId, ancestry: map<TxId, set<Ancestor>>, done: seq<Ancestor>, a: Ancestor)
    requires Recorded(db, t, ancestry, done) && a in Refs(db.txs[t])
    ensures Sound(db, AddAncestry(ancestry, t, {a})) && CompleteUpTo(db, AddAncestry(ancestry, t, {a}), Position(db, t))
  {
    hide Chain, Searchable, Reach, ReachRefs, Locate, Refs, Sound, CompleteUpTo;
    RefIsReached(db, t, a);
    AddTrue(db, ancestry, t, {a}, Position(db, t));
  }

  lemma RecordedKnows(db: Db, t: TxId, ancestry: map<TxId, set<Ancestor>>, done: seq<Ancestor>)
    requires Recorded(db, t, ancestry, done)
    ensures Searchable(db) && t in Chain(db) && Sound(db, ancestry) && CompleteUpTo(db, ancestry, Position(db, t))
  {
    hide Chain, Searchable, Sound, CompleteUpTo, ReachRefs;
  }

  lemma NotLocated(db: Db, t: TxId, ring: nat)
    requires t in db.txs && !db.txs[t].coinbase && ring < |db.txs[t].vin|
    requires exists a :: a in RingRefs(db.txs[t].vin[ring]) && Locate(db, a).None?
    ensures !Located(db, t)
  {
    hide Locate, RingsRefs;
    var vin := db.txs[t].vin;
    var a :| a in RingRefs(vin[ring]) && Locate(db, a).None?;
    var k :| 0 <= k < |RingRefs(vin[ring])| && RingRefs(vin[ring])[k] == a;
    RingMember(vin, ring, k);
  }

  /** Recording a ring member and what its maker descends from. */
  lemma RecordRef(db: Db, t: TxId, ancestry: map<TxId, set<Ancestor>>, done: seq<Ancestor>, a: Ancestor)
    requires Recorded(db, t, ancestry, done) && a in Refs(db.txs[t])
    requires Locate(db, a).Some?
    ensures var one := AddAncestry(ancestry, t, {a});
      Recorded(db, t, AddAncestry(one, t, Get(one, Locate(db, a).value)), done + [a])
  {
    hide Chain, Searchable, Reach, ReachRefs, Locate, Refs, Sound, CompleteUpTo;
    var u, n := Locate(db, a).value, Position(db, t);
    var one := AddAncestry(ancestry, t, {a});
    RefsMadeEarlier(db, t);
    RefIsReached(db, t, a);
    AddTrue(db, ancestry, t, {a}, n);
    Known(db, one, u, n);
    AddTrue(db, one, t, Reach(db, u), n);
    ReachRefsAppend(db, n, done, a);
  }

  lemma RefIsReached(db: Db, t: TxId, a: Ancestor)
    requires Searchable(db) && t in Chain(db) && t in db.txs && a in Refs(db.txs[t])
    ensures MadeEarlier(db, t, a) && a in Reach(db, t)
    ensures Locate(db, a).Some? ==> Reach(db, Locate(db, a).value) <= Reach(db, t)
  {
    RefsMadeEarlier(db, t);
    hide Chain, Locate, Refs;
    ReachRefsMember(db, Position(db, t), Refs(db.txs[t]), a);
  }

  lemma ReachRefsAppend(db: Db, n: nat, done: seq<Ancestor>, a: Ancestor)
    requires Searchable(db)
    requires AllBefore(db, n, done + [a]) && Locate(db, a).Some?
    ensures AllBefore(db, n, done)
    ensures ReachRefs(db, n, done + [a]) == ReachRefs(db, n, done) + {a} + Reach(db, Locate(db, a).value)
  {
    hide Chain, Searchable, Reach, Locate;
    assert (done + [a])[..|done|] == done;
    assert forall x :: x in done ==> x in done + [a];
  }

  lemma ChainDistinct(db: Db)
    requires Searchable(db)
    ensures Distinct(Chain(db))
  {
  }

  lemma AllRecorded(db: Db, t: TxId, ancestry: map<TxId, set<Ancestor>>)
    requires t in db.txs && Recorded(db, t, ancestry, Refs(db.txs[t])) && Located(db, t)
    ensures Sound(db, ancestry) && CompleteUpTo(db, ancestry, Position(db, t) + 1)
  {
    assert Reach(db, t) == ReachRefs(db, Position(db, t), Refs(db.txs[t]));
    hide Chain, Searchable, Reach, ReachRefs, MadeEarlier, Refs;
    assert Get(ancestry, t) == Reach(db, t);
    assert Chain(db)[Position(db, t)] == t;
  }
}
