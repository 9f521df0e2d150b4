/**
 * When popping a block undoes adding it: the places in which the outputs of the block are stored
 * against the places in which they are looked for.
 */
module ChainUndo {
  import opened ChainTables
  import opened ChainBlocks
  import opened Basics

  datatype Place = Place(amount: nat, index: nat)

  predicate Has(o: Outputs, x: Place) {
    x.index in OfAmount(o, x.amount)
  }

  function At(o: Outputs, x: Place): OutKey
    requires Has(o, x)
  {
    OfAmount(o, x.amount)[x.index]
  }

  function ToSet(s: seq<Place>): set<Place> {
    set x | x in s
  }

  // ---- Places of a block ----

  /** The places that the first n outputs are given. */
  function StoredAt(o: Outputs, hash: Hash, tx: Tx, height: nat, n: nat): (r: seq<Place>)
    requires n <= |tx.vout|
    ensures |r| == n
  {
    if n == 0 then []
    else
      var before, amount := AddOutputs(o, hash, tx, height, n - 1), StoredAmount(tx, n - 1);
      StoredAt(o, hash, tx, height, n - 1) + [Place(amount, |OfAmount(before, amount)|)]
  }

  /** The places in which they will be looked for. */
  function LookedAt(o: Outputs, hash: Hash, tx: Tx, height: nat, n: nat): (r: seq<Place>)
    requires n <= |tx.vout|
    ensures |r| == n
  {
    if n == 0 then []
    else
      var before, amount := AddOutputs(o, hash, tx, height, n - 1), StoredAmount(tx, n - 1);
      LookedAt(o, hash, tx, height, n - 1) + [Place(RemovedAmount(tx, n - 1), |OfAmount(before, amount)|)]
  }

  function TxStored(t: Tables, hash: Hash, tx: Tx): (r: seq<Place>)
    ensures |r| == |tx.vout|
  {
    StoredAt(t.outs, hash, tx, |t.blocks|, |tx.vout|)
  }

  function TxLooked(t: Tables, hash: Hash, tx: Tx): (r: seq<Place>)
    ensures |r| == |tx.vout|
  {
    LookedAt(t.outs, hash, tx, |t.blocks|, |tx.vout|)
  }

  function TxsStored(t: Tables, hashes: seq<Hash>, txs: seq<Tx>, n: nat): seq<Place>
    requires n <= |hashes| && n <= |txs| && AddTxs(t, hashes, txs, n).Some?
  {
    if n == 0 then []
    else TxsStored(t, hashes, txs, n - 1) + TxStored(AddTxs(t, hashes, txs, n - 1).value, hashes[n - 1], txs[n - 1])
  }

  function TxsLooked(t: Tables, hashes: seq<Hash>, txs: seq<Tx>, n: nat): seq<Place>
    requires n <= |hashes| && n <= |txs| && AddTxs(t, hashes, txs, n).Some?
  {
    if n == 0 then []
    else TxsLooked(t, hashes, txs, n - 1) + TxLooked(AddTxs(t, hashes, txs, n - 1).value, hashes[n - 1], txs[n - 1])
  }

  /** All transactions of the block are accepted. */
  predicate TxsAccepted(t: Tables, b: Block, txs: seq<Tx>) {
    && |b.txHashes| == |txs| && AddTx(t, b.minerHash, b.minerTx).Some?
    && AddTxs(AddTx(t, b.minerHash, b.minerTx).value, b.txHashes, txs, |txs|).Some?
  }

  function BlockStored(t: Tables, b: Block, txs: seq<Tx>): seq<Place>
    requires TxsAccepted(t, b, txs)
  {
    TxStored(t, b.minerHash, b.minerTx) + TxsStored(AddTx(t, b.minerHash, b.minerTx).value, b.txHashes, txs, |txs|)
  }

  function BlockLooked(t: Tables, b: Block, txs: seq<Tx>): seq<Place>
    requires TxsAccepted(t, b, txs)
  {
    TxLooked(t, b.minerHash, b.minerTx) + TxsLooked(AddTx(t, b.minerHash, b.minerTx).value, b.txHashes, txs, |txs|)
  }

  /** The outputs of the block are looked for in exactly the places in which they are stored. */
  predicate Restorable(t: Tables, b: Block, txs: seq<Tx>) {
    TxsAccepted(t, b, txs) && ToSet(BlockStored(t, b, txs)) == ToSet(BlockLooked(t, b, txs))
  }

  // ---- Removing a list of places, the last one first ----

  function RemoveSeq(o: Outputs, s: seq<Place>): Option<Outputs>
    decreases |s|
  {
    if s == [] then Some(o)
    else
      var x := s[|s| - 1];
      var r := RemoveOutput(o, x.amount, x.index);
      if r.None? then None else RemoveSeq(r.value, s[..|s| - 1])
  }

  lemma {:induction false} RemoveSeqJoin(o: Outputs, a: seq<Place>, b: seq<Place>)
    ensures RemoveSeq(o, a + b) == (var r := RemoveSeq(o, b); if r.None? then None else RemoveSeq(r.value, a))
    decreases |b|
  {
    hide RemoveOutput;
    if b == [] {
      assert a + b == a;
    } else {
      var x := b[|b| - 1];
      assert (a + b)[|a + b| - 1] == x && (a + b)[..|a + b| - 1] == a + b[..|b| - 1];
      var r := RemoveOutput(o, x.amount, x.index);
      if r.Some? {
        RemoveSeqJoin(r.value, a, b[..|b| - 1]);
      }
    }
  }

  lemma {:induction false} RemoveOutputsIsSeq(o: Outputs, hash: Hash, tx: Tx, height: nat, n: nat, indices: seq<nat>, o2: Outputs)
    requires n <= |tx.vout| && n <= |indices| && indices[..n] == Indices(o, hash, tx, height, n)
    ensures RemoveOutputs(o2, tx, indices, n) == RemoveSeq(o2, LookedAt(o, hash, tx, height, n))
    decreases n
  {
    hide RemoveOutput, AddOutputs, StoredAmount, RemovedAmount, OfAmount;
    if n > 0 {
      var s := LookedAt(o, hash, tx, height, n);
      assert indices[..n][..n - 1] == indices[..n - 1];
      assert indices[n - 1] == indices[..n][n - 1];
      assert s[..n - 1] == LookedAt(o, hash, tx, height, n - 1);
      assert s[n - 1] == Place(RemovedAmount(tx, n - 1), indices[n - 1]);
      var r := RemoveOutput(o2, RemovedAmount(tx, n - 1), indices[n - 1]);
      if r.Some? {
        RemoveOutputsIsSeq(o, hash, tx, height, n - 1, indices, r.value);
      }
    }
  }

  function WithOuts(t: Tables, r: Option<Outputs>): Option<Tables> {
    if r.None? then None else Some(t.(outs := r.value))
  }

  /** Removing the transaction added last takes its looked-for places off whatever outputs there are. */
  lemma RemoveTxIs(t: Tables, hash: Hash, tx: Tx, o: Outputs)
    requires Valid(t) && AddTx(t, hash, tx).Some?
    ensures var t' := AddTx(t, hash, tx).value.(outs := o);
      GetTx(t', hash) == Some(tx) && RemoveTx(t', hash) == WithOuts(t, RemoveSeq(o, TxLooked(t, hash, tx)))
  {
    hide RemoveTx, AddTx, RemoveSeq, RemoveOutputs, Indices, LookedAt, Valid;
    var n, indices := |tx.vout|, Indices(t.outs, hash, tx, |t.blocks|, |tx.vout|);
    LookupAdded(t, hash, tx, o);
    assert indices[..n] == indices;
    RemoveOutputsIsSeq(t.outs, hash, tx, |t.blocks|, n, indices, o);
  }

  function PoppedWith(t: Tables, r: Option<Outputs>, txs: seq<Tx>): Option<Popped> {
    if r.None? then None else Some(Popped(t.(outs := r.value), txs))
  }

  lemma {:induction false} RemoveTxsIs(t: Tables, hashes: seq<Hash>, txs: seq<Tx>, n: nat, o: Outputs)
    requires Valid(t) && n <= |hashes| && n <= |txs| && AddTxs(t, hashes, txs, n).Some?
    ensures RemoveTxs(AddTxs(t, hashes, txs, n).value.(outs := o), hashes, n)
      == PoppedWith(t, RemoveSeq(o, TxsLooked(t, hashes, txs, n)), Reversed(txs[..n]))
    decreases n
  {
    hide Valid, AddTx, RemoveTx, GetTx, Reversed, RemoveSeq, TxLooked;
    if n == 0 {
      assert txs[..0] == [];
      ReversedEmpty<Tx>();
      RemoveNothing(o);
    } else {
      var before, hash, tx := AddTxs(t, hashes, txs, n - 1).value, hashes[n - 1], txs[n - 1];
      AddTxsValid(t, hashes, txs, n - 1);
      RemoveTxIs(before, hash, tx, o);
      ReversedStep(txs, n);
      var r := RemoveSeq(o, TxLooked(before, hash, tx));
      RemoveSeqJoin(o, TxsLooked(t, hashes, txs, n - 1), TxLooked(before, hash, tx));
      if r.Some? {
        RemoveTxsIs(t, hashes, txs, n - 1, r.value);
      }
    }
  }

  lemma RemoveNothing(o: Outputs)
    ensures RemoveSeq(o, []) == Some(o)
  {
  }

  lemma BlockParts(t: Tables, b: Block, info: BlockInfo, txs: seq<Tx>)
    requires AddBlock(t, b, info, txs).Some?
    ensures TxsAccepted(t, b, txs)
    ensures var t2 := AddTxs(AddTx(t, b.minerHash, b.minerTx).value, b.txHashes, txs, |txs|).value;
      && AddRecord(t2, b, info, RctOuts(b.minerTx, txs, |txs|)) == AddBlock(t, b, info, txs)
      && AddBlock(t, b, info, txs).value.outs == t2.outs
      && AddBlock(t, b, info, txs).value.blocks != []
      && AddBlock(t, b, info, txs).value.blocks[|AddBlock(t, b, info, txs).value.blocks| - 1].block == b
  {
    hide AddTx, AddTxs, RctOuts;
  }

  /** Popping hands out the transactions in reverse and takes the looked-for places off the outputs. */
  lemma PopIs(t: Tables, b: Block, info: BlockInfo, txs: seq<Tx>)
    requires Valid(t) && AddBlock(t, b, info, txs).Some?
    ensures TxsAccepted(t, b, txs)
    ensures PopBlock(AddBlock(t, b, info, txs).value)
      == PoppedWith(t, RemoveSeq(AddBlock(t, b, info, txs).value.outs, BlockLooked(t, b, txs)), Reversed(txs))
  {
    hide Valid, AddTx, AddTxs, AddBlock, AddRecord, RemoveTx, RemoveTxs, RemoveRecord, RctOuts, Reversed, RemoveSeq, TxLooked, TxsLooked;
    BlockParts(t, b, info, txs);
    var t1 := AddTx(t, b.minerHash, b.minerTx).value;
    AddTxValid(t, b.minerHash, b.minerTx);
    var t2 := AddTxs(t1, b.txHashes, txs, |txs|).value;
    RecordUndone(t2, b, info, RctOuts(b.minerTx, txs, |txs|));
    assert t2.(outs := t2.outs) == t2;
    RemoveTxsIs(t1, b.txHashes, txs, |txs|, t2.outs);
    assert txs[..|txs|] == txs;
    var last := TxsLooked(t1, b.txHashes, txs, |txs|);
    var r := RemoveSeq(t2.outs, last);
    RemoveSeqJoin(t2.outs, TxLooked(t, b.minerHash, b.minerTx), last);
    if r.Some? {
      RemoveTxIs(t, b.minerHash, b.minerTx, r.value);
    }
  }

  // ---- What removing places leaves ----

  /** No amount is kept with nothing under it. */
  ghost predicate Normal(o: Outputs) {
    forall a :: a in o.amounts ==> o.amounts[a] != map[]
  }

  lemma RemoveOutputHas(o: Outputs, x: Place, y: Place)
    requires RemoveOutput(o, x.amount, x.index).Some?
    ensures Has(o, x)
    ensures var r := RemoveOutput(o, x.amount, x.index).value;
      && (Has(r, y) <==> Has(o, y) && y != x)
      && (Has(r, y) ==> At(r, y) == At(o, y))
  {
  }

  lemma RemoveOutputOrigins(o: Outputs, x: Place)
    requires RemoveOutput(o, x.amount, x.index).Some?
    ensures Has(o, x)
    ensures RemoveOutput(o, x.amount, x.index).value.origins == o.origins - {At(o, x).outputId}
    ensures Normal(o) ==> Normal(RemoveOutput(o, x.amount, x.index).value)
  {
  }

  lemma RemoveOutputWorks(o: Outputs, x: Place)
    ensures RemoveOutput(o, x.amount, x.index).Some? <==> Has(o, x) && At(o, x).outputId in o.origins
  {
  }

  lemma LastOf(s: seq<Place>, y: Place)
    requires s != []
    ensures y in s <==> y in s[..|s| - 1] || y == s[|s| - 1]
  {
    assert s == s[..|s| - 1] + [s[|s| - 1]];
  }

  /** Exactly the places listed are gone, and each of them was there. */
  lemma {:induction false} RemoveSeqHas(o: Outputs, s: seq<Place>, y: Place)
    requires RemoveSeq(o, s).Some?
    ensures var r := RemoveSeq(o, s).value;
      && (Has(r, y) <==> Has(o, y) && y !in s)
      && (Has(r, y) ==> At(r, y) == At(o, y))
    ensures y in s ==> Has(o, y)
    decreases |s|
  {
    hide RemoveOutput, Has, At;
    if s != [] {
      var x := s[|s| - 1];
      RemoveOutputHas(o, x, y);
      LastOf(s, y);
      RemoveSeqHas(RemoveOutput(o, x.amount, x.index).value, s[..|s| - 1], y);
    }
  }

  /** id is the number of none of the outputs in these places. */
  ghost predicate Spares(o: Outputs, s: seq<Place>, id: nat) {
    forall x :: x in s && Has(o, x) ==> At(o, x).outputId != id
  }

  lemma SparesLast(o: Outputs, s: seq<Place>, r: Outputs, id: nat)
    requires s != [] && RemoveSeq(o, s).Some? && RemoveOutput(o, s[|s| - 1].amount, s[|s| - 1].index) == Some(r)
    ensures Has(o, s[|s| - 1])
    ensures Spares(o, s, id) <==> Spares(r, s[..|s| - 1], id) && At(o, s[|s| - 1]).outputId != id
  {
    hide RemoveOutput, Has, At;
    var last, init := s[|s| - 1], s[..|s| - 1];
    RemoveOutputHas(o, last, last);
    assert last in s;
    forall x | x in init
      ensures x in s && Has(r, x) && Has(o, x) && At(r, x) == At(o, x)
    {
      RemoveSeqHas(r, init, x);
      RemoveOutputHas(o, last, x);
      LastOf(s, x);
    }
    forall x | x in s
      ensures x in init || x == last
    {
      LastOf(s, x);
    }
    if Spares(r, init, id) && At(o, last).outputId != id {
      forall x | x in s && Has(o, x)
        ensures At(o, x).outputId != id
      {
        assert x in init || x == last;
      }
    }
  }

  lemma {:induction false} RemoveSeqOrigin(o: Outputs, s: seq<Place>, id: nat)
    requires RemoveSeq(o, s).Some?
    ensures var r := RemoveSeq(o, s).value;
      && (id in r.origins <==> id in o.origins && Spares(o, s, id))
      && (id in r.origins ==> r.origins[id] == o.origins[id])
    ensures Normal(o) ==> Normal(RemoveSeq(o, s).value)
    decreases |s|
  {
    hide RemoveOutput, Normal;
    if s != [] {
      var x := s[|s| - 1];
      var r := RemoveOutput(o, x.amount, x.index).value;
      RemoveOutputOrigins(o, x);
      SparesLast(o, s, r, id);
      hide Has, At, Spares;
      RemoveSeqOrigin(r, s[..|s| - 1], id);
    }
  }

  /** The outputs in these places have numbers of their own. */
  ghost predicate Traced(o: Outputs, p: set<Place>) {
    && (forall x :: x in p ==> Has(o, x) && At(o, x).outputId in o.origins)
    && forall x, y :: x in p && y in p && x != y ==> Has(o, x) && Has(o, y) ==> At(o, x).outputId != At(o, y).outputId
  }

  ghost predicate Unlike(s: seq<Place>) {
    forall i, j :: 0 <= i < j < |s| ==> s[i] != s[j]
  }

  lemma TracedLess(o: Outputs, p: set<Place>, x: Place, r: Outputs)
    requires Traced(o, p) && x in p && RemoveOutput(o, x.amount, x.index) == Some(r)
    ensures Traced(r, p - {x})
  {
    hide RemoveOutput, Has, At;
    RemoveOutputOrigins(o, x);
    forall y | y in p && y != x
      ensures Has(r, y) && Has(o, y) && At(r, y) == At(o, y) && At(o, y).outputId != At(o, x).outputId
      ensures At(o, y).outputId in o.origins
    {
      RemoveOutputHas(o, x, y);
    }
  }

  lemma ToSetLast(s: seq<Place>)
    requires s != [] && Unlike(s)
    ensures s[|s| - 1] in ToSet(s) && ToSet(s[..|s| - 1]) == ToSet(s) - {s[|s| - 1]} && Unlike(s[..|s| - 1])
  {
    forall y
      ensures y in ToSet(s[..|s| - 1]) <==> y in ToSet(s) && y != s[|s| - 1]
    {
      LastOf(s, y);
    }
  }

  /** Different places whose outputs have numbers of their own can all be removed. */
  lemma {:induction false} RemoveSeqWorks(o: Outputs, s: seq<Place>)
    requires Unlike(s) && Traced(o, ToSet(s))
    ensures RemoveSeq(o, s).Some?
    decreases |s|
  {
    hide RemoveOutput, Has, At;
    if s != [] {
      var x := s[|s| - 1];
      ToSetLast(s);
      RemoveOutputWorks(o, x);
      assert x in ToSet(s);
      var r := RemoveOutput(o, x.amount, x.index).value;
      TracedLess(o, ToSet(s), x, r);
      hide Traced, Unlike, ToSet;
      RemoveSeqWorks(r, s[..|s| - 1]);
    }
  }

  // ---- What adding outputs leaves ----

  /** o' is o with new outputs in the places s, numbered in that order. */
  ghost predicate Added(o: Outputs, o': Outputs, s: seq<Place>) {
    && |o'.origins| == |o.origins| + |s|
    && (forall k :: 0 <= k < |s| ==> Has(o', s[k]) && !Has(o, s[k]) && At(o', s[k]).outputId == |o.origins| + k)
    && (forall x :: Has(o', x) ==> Has(o, x) || x in s)
    && (forall x :: Has(o, x) ==> Has(o', x) && At(o', x) == At(o, x))
    && (forall id :: id in o.origins ==> id in o'.origins && o'.origins[id] == o.origins[id])
  }

  lemma AddOutputHas(o: Outputs, amount: nat, origin: Origin, key: nat, unlockTime: nat, height: nat, y: Place)
    requires ValidOutputs(o)
    ensures var o', x := AddOutput(o, amount, origin, key, unlockTime, height), Place(amount, |OfAmount(o, amount)|);
      && !Has(o, x) && Has(o', x) && At(o', x).outputId == |o.origins|
      && (Has(o', y) <==> Has(o, y) || y == x)
      && (Has(o, y) ==> Has(o', y) && At(o', y) == At(o, y))
  {
    FreshKeys(o, amount);
    hide ValidOutputs;
  }

  lemma AddedOne(o0: Outputs, o: Outputs, s: seq<Place>, amount: nat, origin: Origin, key: nat, unlockTime: nat, height: nat)
    requires ValidOutputs(o) && Added(o0, o, s)
    ensures Added(o0, AddOutput(o, amount, origin, key, unlockTime, height), s + [Place(amount, |OfAmount(o, amount)|)])
  {
    var o', x := AddOutput(o, amount, origin, key, unlockTime, height), Place(amount, |OfAmount(o, amount)|);
    AddOutputValid(o, amount, origin, key, unlockTime, height);
    AddOutputOrigins(o, amount, origin, key, unlockTime, height);
    hide ValidOutputs, AddOutput, Has, At, OfAmount;
    forall y: Place
      ensures !Has(o, x) && Has(o', x) && At(o', x).outputId == |o.origins|
      ensures Has(o', y) <==> Has(o, y) || y == x
      ensures Has(o, y) ==> Has(o', y) && At(o', y) == At(o, y)
    {
      AddOutputHas(o, amount, origin, key, unlockTime, height, y);
    }
    var s' := s + [x];
    assert !Has(o0, x);
    assert forall k :: 0 <= k < |s| ==> s'[k] == s[k];
    forall y | Has(o', y)
      ensures Has(o0, y) || y in s'
    {
      if y == x {
        assert s'[|s|] == x;
      } else if !Has(o0, y) {
        assert y in s;
      }
    }
  }

  lemma AddOutputOrigins(o: Outputs, amount: nat, origin: Origin, key: nat, unlockTime: nat, height: nat)
    requires ValidOutputs(o)
    ensures var o' := AddOutput(o, amount, origin, key, unlockTime, height);
      forall id :: id in o.origins ==> id in o'.origins && o'.origins[id] == o.origins[id]
  {
    FreshKeys(o, amount);
  }

  lemma {:induction false} AddedOutputs(o0: Outputs, o: Outputs, s: seq<Place>, hash: Hash, tx: Tx, height: nat, n: nat)
    requires ValidOutputs(o) && Added(o0, o, s) && n <= |tx.vout|
    ensures Added(o0, AddOutputs(o, hash, tx, height, n), s + StoredAt(o, hash, tx, height, n))
  {
    hide ValidOutputs, Added, AddOutput, StoredAmount, OfAmount;
    if n == 0 {
      assert s + [] == s;
    } else {
      var before, amount := AddOutputs(o, hash, tx, height, n - 1), StoredAmount(tx, n - 1);
      var done, x := StoredAt(o, hash, tx, height, n - 1), Place(amount, |OfAmount(before, amount)|);
      AddedOutputs(o0, o, s, hash, tx, height, n - 1);
      AddOutputsValid(o, hash, tx, height, n - 1);
      AddedOne(o0, before, s + done, amount, Origin(hash, n - 1), tx.vout[n - 1].key, tx.unlockTime, height);
      assert s + done + [x] == s + (done + [x]);
    }
  }

  lemma AddedTx(o0: Outputs, t: Tables, s: seq<Place>, hash: Hash, tx: Tx)
    requires Valid(t) && Added(o0, t.outs, s) && AddTx(t, hash, tx).Some?
    ensures Added(o0, AddTx(t, hash, tx).value.outs, s + TxStored(t, hash, tx))
  {
    hide Added, AddOutputs, Indices, StoredAt, ValidOutputs, Dense, AddKeys, Storable;
    AddedOutputs(o0, t.outs, s, hash, tx, |t.blocks|, |tx.vout|);
  }

  lemma {:induction false} AddedTxs(o0: Outputs, t: Tables, s: seq<Place>, hashes: seq<Hash>, txs: seq<Tx>, n: nat)
    requires Valid(t) && Added(o0, t.outs, s) && n <= |hashes| && n <= |txs| && AddTxs(t, hashes, txs, n).Some?
    ensures Added(o0, AddTxs(t, hashes, txs, n).value.outs, s + TxsStored(t, hashes, txs, n))
    decreases n
  {
    hide Valid, Added, AddTx, TxStored;
    if n == 0 {
      assert s + [] == s;
    } else {
      var before := AddTxs(t, hashes, txs, n - 1).value;
      var done, more := TxsStored(t, hashes, txs, n - 1), TxStored(before, hashes[n - 1], txs[n - 1]);
      AddedTxs(o0, t, s, hashes, txs, n - 1);
      AddTxsValid(t, hashes, txs, n - 1);
      AddedTx(o0, before, s + done, hashes[n - 1], txs[n - 1]);
      assert s + done + more == s + (done + more);
    }
  }

  lemma AddedNothing(o: Outputs)
    ensures Added(o, o, [])
  {
  }

  lemma {:induction false} SameCount(t: Tables, hashes: seq<Hash>, txs: seq<Tx>, n: nat)
    requires n <= |hashes| && n <= |txs| && AddTxs(t, hashes, txs, n).Some?
    ensures |TxsStored(t, hashes, txs, n)| == |TxsLooked(t, hashes, txs, n)|
    decreases n
  {
    hide AddTx, TxStored, TxLooked;
    if n > 0 {
      SameCount(t, hashes, txs, n - 1);
    }
  }

  /** The tables after a block hold its outputs in the places given to them. */
  lemma AddedBlock(t: Tables, b: Block, info: BlockInfo, txs: seq<Tx>)
    requires Valid(t) && AddBlock(t, b, info, txs).Some?
    ensures TxsAccepted(t, b, txs)
    ensures Added(t.outs, AddBlock(t, b, info, txs).value.outs, BlockStored(t, b, txs))
    ensures |BlockStored(t, b, txs)| == |BlockLooked(t, b, txs)|
    ensures Valid(AddBlock(t, b, info, txs).value)
  {
    hide Valid, Added, AddTx, AddTxs, AddBlock, RctOuts, TxStored, TxLooked, TxsStored, TxsLooked, AddRecord;
    BlockParts(t, b, info, txs);
    var t1 := AddTx(t, b.minerHash, b.minerTx).value;
    var s := TxStored(t, b.minerHash, b.minerTx);
    AddedNothing(t.outs);
    AddedTx(t.outs, t, [], b.minerHash, b.minerTx);
    assert [] + s == s;
    AddTxValid(t, b.minerHash, b.minerTx);
    AddedTxs(t.outs, t1, s, b.txHashes, txs, |txs|);
    SameCount(t1, b.txHashes, txs, |txs|);
    AddTxsValid(t1, b.txHashes, txs, |txs|);
    RecordValid(AddTxs(t1, b.txHashes, txs, |txs|).value, b, info, RctOuts(b.minerTx, txs, |txs|));
  }

  lemma RecordValid(t: Tables, b: Block, info: BlockInfo, rctOuts: nat)
    requires Valid(t) && AddRecord(t, b, info, rctOuts).Some?
    ensures Valid(AddRecord(t, b, info, rctOuts).value)
  {
    hide Dense, ValidOutputs;
  }

  // ---- The exact condition ----

  lemma AddedUnlike(o: Outputs, o': Outputs, s: seq<Place>)
    requires Added(o, o', s)
    ensures Unlike(s)
  {
    hide Has, At;
    forall i, j | 0 <= i < j < |s|
      ensures s[i] != s[j]
    {
      assert At(o', s[i]).outputId != At(o', s[j]).outputId;
    }
  }

  lemma AddedTraced(o: Outputs, o': Outputs, s: seq<Place>)
    requires ValidOutputs(o') && Added(o, o', s)
    ensures Traced(o', ToSet(s))
  {
    hide Has, At;
    assert Dense(o'.origins);
    forall x | x in s
      ensures Has(o', x) && At(o', x).outputId in o'.origins
    {
      var k :| 0 <= k < |s| && s[k] == x;
    }
    forall x, y | x in s && y in s && x != y
      ensures Has(o', x) && Has(o', y) && At(o', x).outputId != At(o', y).outputId
    {
      var i :| 0 <= i < |s| && s[i] == x;
      var j :| 0 <= j < |s| && s[j] == y;
    }
  }

  /** A list without repetition is as long as its set is large, and no other is. */
  lemma {:induction false} SizeOfSet(s: seq<Place>)
    ensures |ToSet(s)| <= |s| && (|ToSet(s)| == |s| <==> Unlike(s))
    decreases |s|
  {
    if s != [] {
      var init, x := s[..|s| - 1], s[|s| - 1];
      SizeOfSet(init);
      assert ToSet(s) == ToSet(init) + {x} by {
        forall y
          ensures y in ToSet(s) <==> y in ToSet(init) + {x}
        {
          LastOf(s, y);
        }
      }
      UnlikeLast(s);
      hide Unlike, ToSet;
      if x !in ToSet(init) {
        assert |ToSet(init) + {x}| == |ToSet(init)| + 1;
      } else {
        assert ToSet(init) + {x} == ToSet(init);
      }
    }
  }

  lemma UnlikeLast(s: seq<Place>)
    requires s != []
    ensures Unlike(s) <==> Unlike(s[..|s| - 1]) && s[|s| - 1] !in ToSet(s[..|s| - 1])
  {
  }

  lemma SameOutputs(o: Outputs, r: Outputs)
    requires Normal(o) && Normal(r) && o.origins == r.origins
    requires forall x: Place :: Has(o, x) <==> Has(r, x)
    requires forall x: Place :: Has(o, x) && Has(r, x) ==> At(o, x) == At(r, x)
    ensures o == r
  {
    forall a: nat
      ensures OfAmount(o, a) == OfAmount(r, a)
    {
      SameUnder(o, r, a);
    }
    SameAmounts(o, r);
  }

  lemma SameUnder(o: Outputs, r: Outputs, a: nat)
    requires forall x: Place :: Has(o, x) <==> Has(r, x)
    requires forall x: Place :: Has(o, x) && Has(r, x) ==> At(o, x) == At(r, x)
    ensures OfAmount(o, a) == OfAmount(r, a)
  {
    forall i: nat
      ensures i in OfAmount(o, a) <==> i in OfAmount(r, a)
      ensures i in OfAmount(o, a) && i in OfAmount(r, a) ==> OfAmount(o, a)[i] == OfAmount(r, a)[i]
    {
      assert Has(o, Place(a, i)) <==> Has(r, Place(a, i));
    }
  }

  lemma SameAmounts(o: Outputs, r: Outputs)
    requires Normal(o) && Normal(r) && forall a: nat :: OfAmount(o, a) == OfAmount(r, a)
    ensures o.amounts == r.amounts
  {
    forall a: nat
      ensures a in o.amounts <==> a in r.amounts
      ensures a in o.amounts && a in r.amounts ==> o.amounts[a] == r.amounts[a]
    {
      assert OfAmount(o, a) == OfAmount(r, a);
    }
  }

  /** The old outputs come back only if the places removed are those added. */
  lemma OnlyIfSame(o: Outputs, o': Outputs, s: seq<Place>, l: seq<Place>)
    requires Added(o, o', s) && RemoveSeq(o', l) == Some(o)
    ensures ToSet(s) == ToSet(l)
  {
    hide Has, At, RemoveSeq;
    forall x
      ensures x in s <==> x in l
    {
      RemoveSeqHas(o', l, x);
      if x in s {
        var k :| 0 <= k < |s| && s[k] == x;
      }
    }
  }

  lemma IfSame(o: Outputs, o': Outputs, s: seq<Place>, l: seq<Place>)
    requires ValidOutputs(o) && ValidOutputs(o') && Added(o, o', s) && |s| == |l| && ToSet(s) == ToSet(l)
    ensures RemoveSeq(o', l) == Some(o)
  {
    hide Has, At, RemoveSeq, Added, ValidOutputs, Unlike, Traced, Normal;
    AddedUnlike(o, o', s);
    AddedTraced(o, o', s);
    SizeOfSet(s);
    SizeOfSet(l);
    RemoveSeqWorks(o', l);
    var r := RemoveSeq(o', l).value;
    ValidNormal(o);
    ValidNormal(o');
    RemoveSeqOrigin(o', l, 0);
    forall id: nat
      ensures id in r.origins <==> id in o.origins
      ensures id in r.origins && id in o.origins ==> r.origins[id] == o.origins[id]
    {
      RemoveSeqOrigin(o', l, id);
      SparesOld(o, o', s, l, id);
    }
    assert r.origins == o.origins;
    forall x: Place
      ensures Has(r, x) <==> Has(o, x)
      ensures Has(o, x) && Has(r, x) ==> At(o, x) == At(r, x)
    {
      RemoveSeqHas(o', l, x);
      HasOld(o, o', s, x);
      assert x in ToSet(s) <==> x in ToSet(l);
    }
    SameOutputs(o, r);
  }

  lemma ValidNormal(o: Outputs)
    requires ValidOutputs(o)
    ensures Normal(o)
  {
  }

  lemma HasOld(o: Outputs, o': Outputs, s: seq<Place>, x: Place)
    requires Added(o, o', s)
    ensures Has(o, x) <==> Has(o', x) && x !in s
    ensures Has(o, x) ==> At(o, x) == At(o', x)
  {
    hide Has, At;
    if x in s {
      var k :| 0 <= k < |s| && s[k] == x;
    }
  }

  /** The numbers that the removed places leave are those that were there before. */
  lemma SparesOld(o: Outputs, o': Outputs, s: seq<Place>, l: seq<Place>, id: nat)
    requires ValidOutputs(o) && ValidOutputs(o') && Added(o, o', s) && ToSet(s) == ToSet(l)
    ensures id in o'.origins && Spares(o', l, id) <==> id in o.origins
    ensures id in o.origins ==> id in o'.origins && o'.origins[id] == o.origins[id]
  {
    hide Has, At;
    assert Dense(o.origins) && Dense(o'.origins);
    var n := |o.origins|;
    forall x | x in l
      ensures Has(o', x) && At(o', x).outputId >= n
    {
      assert x in ToSet(s);
      var k :| 0 <= k < |s| && s[k] == x;
    }
    if id in o'.origins && id >= n {
      var x := s[id - n];
      assert x in ToSet(l);
      assert Has(o', x) && At(o', x).outputId == id;
    }
  }

  /**
   * Popping the block added last restores every table, and hands its transactions out in reverse, if and
   * only if its outputs are looked for in exactly the places in which they were stored.
   */
  lemma PopUndoesAddExactly(t: Tables, b: Block, info: BlockInfo, txs: seq<Tx>)
    requires Valid(t) && AddBlock(t, b, info, txs).Some?
    ensures PopBlock(AddBlock(t, b, info, txs).value) == Some(Popped(t, Reversed(txs))) <==> Restorable(t, b, txs)
    ensures var r := PopBlock(AddBlock(t, b, info, txs).value);
      r.Some? ==> r.value.txs == Reversed(txs)
  {
    hide Valid, AddBlock, PopBlock, TxsAccepted, BlockStored, BlockLooked, RemoveSeq, Added, ToSet, Reversed;
    PopIs(t, b, info, txs);
    AddedBlock(t, b, info, txs);
    var o, s, l := AddBlock(t, b, info, txs).value.outs, BlockStored(t, b, txs), BlockLooked(t, b, txs);
    OutsValid(t);
    OutsValid(AddBlock(t, b, info, txs).value);
    if Restorable(t, b, txs) {
      IfSame(t.outs, o, s, l);
      assert t.(outs := t.outs) == t;
    }
    if RemoveSeq(o, l) == Some(t.outs) {
      OnlyIfSame(t.outs, o, s, l);
    }
  }

  lemma OutsValid(t: Tables)
    requires Valid(t)
    ensures ValidOutputs(t.outs)
  {
  }
}
