/** Adding and popping whole blocks (src/blockchain_db/blockchain_db.cpp), on the tables as values. */
module ChainBlocks {
  import opened ChainTables
  import opened Basics

  /** The zero-amount outputs among the first n of tx. */
  function ZeroOuts(tx: Tx, n: nat): nat
    requires n <= |tx.vout|
  {
    if n == 0 then 0 else ZeroOuts(tx, n - 1) + if tx.vout[n - 1].amount == 0 then 1 else 0
  }

  /** num_rct_outs after the first n transactions of the block. */
  function RctOuts(miner: Tx, txs: seq<Tx>, n: nat): nat
    requires n <= |txs|
  {
    if n == 0 then if miner.version == 2 then |miner.vout| else 0
    else RctOuts(miner, txs, n - 1) + ZeroOuts(txs[n - 1], |txs[n - 1].vout|)
  }

  /** The store's own add_block: the block record, and the height of its hash. */
  function AddRecord(t: Tables, b: Block, info: BlockInfo, rctOuts: nat): Option<Tables> {
    var height := |t.blocks|;
    if b.hash in t.heights then None
    else if height > 0 && (b.prevId !in t.heights || t.heights[b.prevId] != height - 1) then None
    else if b.majorVersion >= 4 && height == 0 then None
    else
      var before := if b.majorVersion >= 4 then t.blocks[height - 1].cumRct else 0;
      Some(t.(blocks := t.blocks + [BlockRecord(b, info, rctOuts + before)], heights := t.heights[b.hash := height]))
  }

  /** The store's own remove_block. */
  function RemoveRecord(t: Tables): Option<Tables> {
    var height := |t.blocks|;
    if height == 0 || t.blocks[height - 1].block.hash !in t.heights then None
    else Some(t.(blocks := t.blocks[..height - 1], heights := t.heights - {t.blocks[height - 1].block.hash}))
  }

  /** The first n transactions added, in order. */
  function AddTxs(t: Tables, hashes: seq<Hash>, txs: seq<Tx>, n: nat): Option<Tables>
    requires n <= |hashes| && n <= |txs|
  {
    if n == 0 then Some(t)
    else
      var r := AddTxs(t, hashes, txs, n - 1);
      if r.None? then None else AddTx(r.value, hashes[n - 1], txs[n - 1])
  }

  function AddBlock(t: Tables, b: Block, info: BlockInfo, txs: seq<Tx>): Option<Tables> {
    if |b.txHashes| != |txs| then None
    else
      var t1 := AddTx(t, b.minerHash, b.minerTx);
      if t1.None? then None
      else
        var t2 := AddTxs(t1.value, b.txHashes, txs, |txs|);
        if t2.None? then None else AddRecord(t2.value, b, info, RctOuts(b.minerTx, txs, |txs|))
  }

  /** The stored transaction of that hash. */
  function GetTx(t: Tables, hash: Hash): Option<Tx> {
    if hash !in t.txIndex || t.txIndex[hash].id !in t.txs then None else Some(t.txs[t.txIndex[hash].id])
  }

  datatype Popped = Popped(tables: Tables, txs: seq<Tx>)

  /** The first n transactions removed, the last one first, and handed out in that order. */
  function RemoveTxs(t: Tables, hashes: seq<Hash>, n: nat): Option<Popped>
    requires n <= |hashes|
    decreases n
  {
    if n == 0 then Some(Popped(t, []))
    else
      var tx, r := GetTx(t, hashes[n - 1]), RemoveTx(t, hashes[n - 1]);
      if tx.None? || r.None? then None
      else
        var rest := RemoveTxs(r.value, hashes, n - 1);
        if rest.None? then None else Some(Popped(rest.value.tables, [tx.value] + rest.value.txs))
  }

  function PopBlock(t: Tables): Option<Popped> {
    var t1 := RemoveRecord(t);
    if t1.None? then None
    else
      var b := t.blocks[|t.blocks| - 1].block;
      var t2 := RemoveTxs(t1.value, b.txHashes, |b.txHashes|);
      if t2.None? then None
      else
        var t3 := RemoveTx(t2.value.tables, b.minerHash);
        if t3.None? then None else Some(t2.value.(tables := t3.value))
  }

  lemma ReversedEmpty<T>()
    ensures Reversed<T>([]) == []
  {
  }

  lemma ReversedStep<T>(s: seq<T>, n: nat)
    requires 0 < n <= |s|
    ensures Reversed(s[..n]) == [s[n - 1]] + Reversed(s[..n - 1])
  {
  }

  // ---- Popping undoes adding ----

  ghost predicate ConsistentBlock(b: Block, txs: seq<Tx>) {
    Consistent(b.minerTx) && forall i :: 0 <= i < |txs| ==> Consistent(txs[i])
  }

  lemma {:induction false} AddTxsValid(t: Tables, hashes: seq<Hash>, txs: seq<Tx>, n: nat)
    requires Valid(t) && n <= |hashes| && n <= |txs| && AddTxs(t, hashes, txs, n).Some?
    ensures Valid(AddTxs(t, hashes, txs, n).value)
    ensures AddTxs(t, hashes, txs, n).value.blocks == t.blocks && AddTxs(t, hashes, txs, n).value.heights == t.heights
  {
    hide Valid, AddTx;
    if n > 0 {
      AddTxsValid(t, hashes, txs, n - 1);
      AddTxValid(AddTxs(t, hashes, txs, n - 1).value, hashes[n - 1], txs[n - 1]);
    }
  }

  lemma {:induction false} RemoveAddedTxs(t: Tables, hashes: seq<Hash>, txs: seq<Tx>, n: nat)
    requires Valid(t) && n <= |hashes| && n <= |txs| && AddTxs(t, hashes, txs, n).Some?
    requires forall i :: 0 <= i < n ==> Consistent(txs[i])
    ensures RemoveTxs(AddTxs(t, hashes, txs, n).value, hashes, n) == Some(Popped(t, Reversed(txs[..n])))
  {
    hide Valid, AddTx, RemoveTx, Consistent, Reversed;
    if n == 0 {
      assert txs[..0] == [];
      ReversedEmpty<Tx>();
    } else {
      var before := AddTxs(t, hashes, txs, n - 1).value;
      AddTxsValid(t, hashes, txs, n - 1);
      LookupAdded(before, hashes[n - 1], txs[n - 1], AddTxs(t, hashes, txs, n).value.outs);
      UndoneExactly(before, hashes[n - 1], txs[n - 1]);
      RemoveAddedTxs(t, hashes, txs, n - 1);
      ReversedStep(txs, n);
    }
  }

  lemma RecordUndone(t: Tables, b: Block, info: BlockInfo, rctOuts: nat)
    requires AddRecord(t, b, info, rctOuts).Some?
    ensures RemoveRecord(AddRecord(t, b, info, rctOuts).value) == Some(t)
  {
    var t' := AddRecord(t, b, info, rctOuts).value;
    PutThenRemove(t.heights, b.hash, |t.blocks|);
    assert t'.blocks[..|t.blocks|] == t.blocks;
  }

  /** The parts of adding and popping a block, put together. */
  lemma ThereAndBack(t: Tables, t0: Tables, t2: Tables, b: Block, info: BlockInfo, txs: seq<Tx>, popped: seq<Tx>)
    requires |b.txHashes| == |txs| && AddTx(t, b.minerHash, b.minerTx) == Some(t0)
    requires AddTxs(t0, b.txHashes, txs, |txs|) == Some(t2) && RemoveTxs(t2, b.txHashes, |txs|) == Some(Popped(t0, popped))
    requires RemoveTx(t0, b.minerHash) == Some(t)
    requires AddRecord(t2, b, info, RctOuts(b.minerTx, txs, |txs|)).Some?
    ensures var r := AddBlock(t, b, info, txs);
      r.Some? && PopBlock(r.value) == Some(Popped(t, popped))
  {
    hide AddTx, AddTxs, RemoveTx, RemoveTxs, RctOuts, RemoveRecord;
    RecordUndone(t2, b, info, RctOuts(b.minerTx, txs, |txs|));
  }

  /** Popping the block added last restores every table and hands its transactions out in reverse. */
  lemma PopUndoesAdd(t: Tables, b: Block, info: BlockInfo, txs: seq<Tx>)
    requires Valid(t) && AddBlock(t, b, info, txs).Some? && ConsistentBlock(b, txs)
    ensures PopBlock(AddBlock(t, b, info, txs).value) == Some(Popped(t, Reversed(txs)))
    ensures Valid(AddBlock(t, b, info, txs).value)
  {
    var t1 := AddTx(t, b.minerHash, b.minerTx).value;
    AddTxValid(t, b.minerHash, b.minerTx);
    var t2 := AddTxs(t1, b.txHashes, txs, |txs|).value;
    AddTxsValid(t1, b.txHashes, txs, |txs|);
    RemoveAddedTxs(t1, b.txHashes, txs, |txs|);
    assert txs[..|txs|] == txs;
    UndoneExactly(t, b.minerHash, b.minerTx);
    hide AddTx, AddTxs, RemoveTx, RemoveTxs, RctOuts, Reversed, Consistent, PopBlock;
    ThereAndBack(t, t1, t2, b, info, txs, Reversed(txs));
  }

  // ---- Two transactions that undo each other's damage ----

  /** Stored under amount 5 and looked for under 0. */
  const ONE := Tx(3, [Gen], [TxOut(5, 1)], 0)

  /** Stored under amount 0 and looked for under 5. */
  const OTHER := Tx(2, [Gen, Gen], [TxOut(5, 2)], 0)

  const PLAIN := Tx(1, [Gen], [], 0)

  /** The tables with both transactions: each output sits where the other one is looked for. */
  const BOTH_OUTS := Outputs(map[5 := map[0 := OutKey(0, 1, 0, 0)], 0 := map[0 := OutKey(1, 2, 0, 0)]],
                             map[0 := Origin(11, 0), 1 := Origin(12, 0)])

  lemma BothStored()
    ensures AddOutputs(AddOutputs(EMPTY.outs, 11, ONE, 0, 1), 12, OTHER, 0, 1) == BOTH_OUTS
  {
    assert OTHER.vin[0].Gen?;
    assert !StoredAsRct(ONE) && StoredAsRct(OTHER);
    var o1 := AddOutputs(EMPTY.outs, 11, ONE, 0, 1);
    assert o1 == AddOutput(EMPTY.outs, 5, Origin(11, 0), 1, 0, 0);
    assert o1 == Outputs(map[5 := map[0 := OutKey(0, 1, 0, 0)]], map[0 := Origin(11, 0)]);
    assert AddOutputs(o1, 12, OTHER, 0, 1) == AddOutput(o1, 0, Origin(12, 0), 2, 0, 0);
  }

  lemma BothRemoved()
    ensures RemoveOutputs(BOTH_OUTS, OTHER, [0], 1).Some?
    ensures RemoveOutputs(RemoveOutputs(BOTH_OUTS, OTHER, [0], 1).value, ONE, [0], 1) == Some(EMPTY.outs)
  {
    assert !RemovedAsRct(OTHER) && RemovedAsRct(ONE);
    var o1 := Outputs(map[0 := map[0 := OutKey(1, 2, 0, 0)]], map[1 := Origin(12, 0)]);
    var left: map<nat, OutKey> := map[0 := OutKey(0, 1, 0, 0)] - {0};
    assert left == map[];
    assert BOTH_OUTS.amounts - {5} == o1.amounts && BOTH_OUTS.origins - {0} == o1.origins;
    assert RemoveOutput(BOTH_OUTS, 5, 0) == Some(o1);
    assert RemoveOutputs(BOTH_OUTS, OTHER, [0], 1) == Some(o1);
    var none: map<nat, OutKey> := map[0 := OutKey(1, 2, 0, 0)] - {0};
    assert none == map[];
    assert o1.amounts - {0} == map[] && o1.origins - {1} == map[];
    assert RemoveOutput(o1, 0, 0) == Some(EMPTY.outs);
  }

  lemma CoinbaseAccepted(t: Tables, hash: Hash, tx: Tx)
    requires tx.vin == [Gen] || tx.vin == [Gen, Gen]
    requires Valid(t) && hash !in t.txIndex && Storable(tx)
    ensures AddTx(t, hash, tx).Some? && Valid(AddTx(t, hash, tx).value)
    ensures var t' := AddTx(t, hash, tx).value;
      && t'.outs == AddOutputs(t.outs, hash, tx, |t.blocks|, |tx.vout|)
      && t'.blocks == t.blocks && t'.heights == t.heights
      && forall h :: h in t'.txIndex <==> h in t.txIndex || h == hash
  {
    AddKeysExactly(t.spent, tx.vin);
    hide Valid, AddOutputs, Indices, AddKeys, Storable;
    AddTxValid(t, hash, tx);
  }

  /** One step back: transaction tx is found, and removing it leaves the tables before it but for the outputs. */
  lemma StepBack(t: Tables, hash: Hash, tx: Tx, o: Outputs, o': Outputs)
    requires Valid(t) && AddTx(t, hash, tx).Some? && |tx.vout| == 1 && StoredAmount(tx, 0) !in t.outs.amounts
    requires RemoveOutputs(o, tx, [0], 1) == Some(o')
    ensures var t' := AddTx(t, hash, tx).value.(outs := o);
      GetTx(t', hash) == Some(tx) && RemoveTx(t', hash) == Some(t.(outs := o'))
  {
    assert Indices(t.outs, hash, tx, |t.blocks|, 0) == [];
    assert AddOutputs(t.outs, hash, tx, |t.blocks|, 0) == t.outs;
    assert Indices(t.outs, hash, tx, |t.blocks|, 1) == [0];
    hide Valid, AddTx, RemoveTx, RemoveOutputs, Indices, AddOutputs, StoredAmount;
    LookupAdded(t, hash, tx, o);
  }

  lemma AddTwo(t0: Tables, t1: Tables, t2: Tables, h1: Hash, h2: Hash, x: Tx, y: Tx)
    requires AddTx(t0, h1, x) == Some(t1) && AddTx(t1, h2, y) == Some(t2)
    ensures AddTxs(t0, [h1, h2], [x, y], 2) == Some(t2)
  {
    hide AddTx;
    assert AddTxs(t0, [h1, h2], [x, y], 1) == Some(t1);
  }

  lemma RemoveTwo(t2: Tables, t1: Tables, t0: Tables, h1: Hash, h2: Hash, x: Tx, y: Tx)
    requires GetTx(t2, h2) == Some(y) && RemoveTx(t2, h2) == Some(t1)
    requires GetTx(t1, h1) == Some(x) && RemoveTx(t1, h1) == Some(t0)
    ensures RemoveTxs(t2, [h1, h2], 2) == Some(Popped(t0, [y, x]))
  {
    hide GetTx, RemoveTx;
    assert RemoveTxs(t0, [h1, h2], 0) == Some(Popped(t0, []));
    assert [x] + [] == [x] && [y] + [x] == [y, x];
    assert RemoveTxs(t1, [h1, h2], 1) == Some(Popped(t0, [x]));
  }

  lemma BothInconsistent()
    ensures !Consistent(ONE) && !Consistent(OTHER) && Consistent(PLAIN)
    ensures Storable(ONE) && Storable(OTHER) && Storable(PLAIN) && Valid(EMPTY)
    ensures StoredAmount(ONE, 0) == 5 && StoredAmount(OTHER, 0) == 0
  {
    assert ONE.vout[0].amount == 5 && OTHER.vout[0].amount == 5 && OTHER.vin[0].Gen?;
    EmptyDense<Tx>();
    EmptyDense<seq<nat>>();
    EmptyDense<Origin>();
  }

  /** Both transactions go in, and both come out again. */
  lemma InAndOut(t0: Tables)
    requires Valid(t0) && t0.outs == EMPTY.outs && t0.blocks == [] && 11 !in t0.txIndex && 12 !in t0.txIndex
    ensures var r := AddTxs(t0, [11, 12], [ONE, OTHER], 2);
      && r.Some? && r.value.blocks == [] && r.value.heights == t0.heights
      && RemoveTxs(r.value, [11, 12], 2) == Some(Popped(t0, [OTHER, ONE]))
  {
    hide Valid, AddTx, RemoveTx, AddTxs, RemoveTxs, RemoveOutputs, AddOutputs, GetTx, StoredAmount, Storable, Consistent;
    BothInconsistent();
    CoinbaseAccepted(t0, 11, ONE);
    var t1 := AddTx(t0, 11, ONE).value;
    CoinbaseAccepted(t1, 12, OTHER);
    var t2 := AddTx(t1, 12, OTHER).value;
    BothStored();
    BothRemoved();
    OutsOfOne(t0);
    var o := RemoveOutputs(BOTH_OUTS, OTHER, [0], 1).value;
    StepBack(t1, 12, OTHER, BOTH_OUTS, o);
    StepBack(t0, 11, ONE, o, EMPTY.outs);
    AddTwo(t0, t1, t2, 11, 12, ONE, OTHER);
    RemoveTwo(t2, t1.(outs := o), t0, 11, 12, ONE, OTHER);
  }

  lemma OutsOfOne(t: Tables)
    requires t.outs == EMPTY.outs
    ensures 5 !in t.outs.amounts && 0 !in AddOutputs(t.outs, 11, ONE, 0, 1).amounts
  {
    assert AddOutputs(t.outs, 11, ONE, 0, 0) == t.outs;
  }

  /** Popping restores the tables although neither of the two transactions is consistent. */
  lemma TwoWrongs(b: Block, info: BlockInfo)
    requires b == Block(20, 0, 1, 10, PLAIN, [11, 12])
    ensures !ConsistentBlock(b, [ONE, OTHER])
    ensures var t := AddBlock(EMPTY, b, info, [ONE, OTHER]);
      t.Some? && PopBlock(t.value) == Some(Popped(EMPTY, [OTHER, ONE]))
  {
    hide Valid, AddTx, RemoveTx, AddTxs, RemoveTxs, AddRecord, RemoveRecord, Consistent, Storable, RctOuts, AddBlock, PopBlock;
    BothInconsistent();
    assert [ONE, OTHER][0] == ONE;
    CoinbaseAccepted(EMPTY, 10, PLAIN);
    var t0 := AddTx(EMPTY, 10, PLAIN).value;
    assert t0.outs == EMPTY.outs;
    InAndOut(t0);
    UndoneExactly(EMPTY, 10, PLAIN);
    var t2 := AddTxs(t0, [11, 12], [ONE, OTHER], 2).value;
    FirstRecord(t2, b, info, RctOuts(PLAIN, [ONE, OTHER], 2));
    ThereAndBack(EMPTY, t0, t2, b, info, [ONE, OTHER], [OTHER, ONE]);
  }

  lemma FirstRecord(t: Tables, b: Block, info: BlockInfo, rctOuts: nat)
    requires t.blocks == [] && t.heights == map[] && b.majorVersion < 4
    ensures AddRecord(t, b, info, rctOuts).Some?
  {
  }
}
