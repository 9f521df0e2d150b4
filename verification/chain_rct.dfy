/**
 * The count of outputs of amount 0 that a block record carries (src/blockchain_db/blockchain_db.cpp,
 * src/blockchain_db/lmdb/db_lmdb.cpp), said by the output tables.
 */
module ChainRct {
  import opened ChainTables
  import opened ChainBlocks
  import opened ChainHistory

  ghost predicate AllZero(tx: Tx) {
    forall i :: 0 <= i < |tx.vout| ==> tx.vout[i].amount == 0
  }

  ghost predicate NoZero(tx: Tx) {
    forall i :: 0 <= i < |tx.vout| ==> tx.vout[i].amount != 0
  }

  lemma {:induction false} MadeByCount(e: Stored, n: nat)
    requires n <= |e.tx.vout|
    ensures |MadeBy(e, 0, n)| == if StoredAsRct(e.tx) then n else ZeroOuts(e.tx, n)
  {
    hide StoredAsRct;
    if n > 0 {
      MadeByCount(e, n - 1);
    }
  }

  lemma {:induction false} ZeroOutsBounds(tx: Tx, n: nat)
    requires n <= |tx.vout|
    ensures ZeroOuts(tx, n) <= n
    ensures ZeroOuts(tx, n) == n <==> forall i :: 0 <= i < n ==> tx.vout[i].amount == 0
    ensures ZeroOuts(tx, n) == 0 <==> forall i :: 0 <= i < n ==> tx.vout[i].amount != 0
  {
    if n > 0 {
      ZeroOutsBounds(tx, n - 1);
    }
  }

  /** A transaction whose outputs of amount 0 are those stored under 0. */
  ghost predicate Plain(tx: Tx) {
    !(HasGen(tx.vin) && tx.version == 2) || AllZero(tx)
  }

  lemma OtherCounted(e: Stored)
    ensures ZeroOuts(e.tx, |e.tx.vout|) <= |MadeBy(e, 0, |e.tx.vout|)|
    ensures ZeroOuts(e.tx, |e.tx.vout|) == |MadeBy(e, 0, |e.tx.vout|)| <==> Plain(e.tx)
  {
    hide HasGen, MadeBy, ZeroOuts;
    MadeByCount(e, |e.tx.vout|);
    ZeroOutsBounds(e.tx, |e.tx.vout|);
  }

  /** What a miner transaction is counted for: all its outputs in version 2, and none in any other. */
  lemma MinerCounted(e: Stored)
    requires HasGen(e.tx.vin) && Storable(e.tx)
    ensures var counted := RctOuts(e.tx, [], 0);
      && counted <= |MadeBy(e, 0, |e.tx.vout|)|
      && (counted == |MadeBy(e, 0, |e.tx.vout|)| <==> e.tx.version <= 2 || NoZero(e.tx))
  {
    hide HasGen, MadeBy, ZeroOuts;
    MadeByCount(e, |e.tx.vout|);
    ZeroOutsBounds(e.tx, |e.tx.vout|);
  }

  lemma MadeOneMore(es: seq<Stored>, e: Stored, a: nat)
    ensures Made(es + [e], a) == Made(es, a) + MadeBy(e, a, |e.tx.vout|)
  {
    hide MadeBy;
    assert (es + [e])[..|es|] == es;
  }

  lemma RctOutsStart(miner: Tx, txs: seq<Tx>)
    ensures RctOuts(miner, txs, 0) == RctOuts(miner, [], 0)
  {
  }

  /** The block's own count is at most what it stores under amount 0, and that exactly when nothing is missed. */
  lemma {:induction false} BlockCounted(es: seq<Stored>, b: Block, txs: seq<Tx>, n: nat, height: nat)
    requires n <= |txs| && n <= |b.txHashes| && HasGen(b.minerTx.vin) && Storable(b.minerTx)
    ensures var all := Made(es + BlockTxs(b, txs, n, height), 0);
      && |Made(es, 0)| + RctOuts(b.minerTx, txs, n) <= |all|
      && (|Made(es, 0)| + RctOuts(b.minerTx, txs, n) == |all| <==>
            (b.minerTx.version <= 2 || NoZero(b.minerTx)) && forall i :: 0 <= i < n ==> Plain(txs[i]))
    decreases n
  {
    hide Made, MadeBy, ZeroOuts, HasGen, Storable, NoZero, Plain;
    if n == 0 {
      var e := Stored(b.minerHash, b.minerTx, height);
      MadeOneMore(es, e, 0);
      MinerCounted(e);
      RctOutsStart(b.minerTx, txs);
    } else {
      var done, e := BlockTxs(b, txs, n - 1, height), Stored(b.txHashes[n - 1], txs[n - 1], height);
      BlockCounted(es, b, txs, n - 1, height);
      assert es + (done + [e]) == es + done + [e];
      MadeOneMore(es + done, e, 0);
      OtherCounted(e);
    }
  }

  /** A block whose own count is what it stores under amount 0. */
  ghost predicate Regular(e: Entry) {
    && HasGen(e.block.minerTx.vin) && (e.block.minerTx.version <= 2 || NoZero(e.block.minerTx))
    && forall i :: 0 <= i < |e.txs| ==> Plain(e.txs[i])
  }

  /**
   * What a block adds to the count, for a miner transaction with a coinbase input: the outputs it stores under
   * amount 0, if and only if the miner transaction is of version 2 or less or has no output of amount 0, and no
   * other transaction is of version 2 with a coinbase input and an output of another amount.
   */
  lemma BlockCountExactly(chain: seq<Entry>, i: nat)
    requires Build(chain).Some? && i < |chain| && HasGen(chain[i].block.minerTx.vin)
    ensures SizesMatch(chain)
    ensures var e := chain[i];
      RctOuts(e.block.minerTx, e.txs, |e.txs|) == |Made(ChainTxs(chain[..i + 1]), 0)| - |Made(ChainTxs(chain[..i]), 0)|
      <==> Regular(e)
  {
    hide Made, HasGen, Storable, NoZero, Plain, BlockTxs, Build, ChainTxs, RctOuts, Agrees, Linked;
    TablesDescribeChain(chain);
    var e, init := chain[i], chain[..i];
    BlockStorable(chain, i);
    assert chain[..i + 1] == init + [e];
    ChainTxsStep(init, e);
    BlockCounted(ChainTxs(init), e.block, e.txs, |e.txs|, |init|);
  }

  /** A first block whose miner transaction has version 3 and one output of amount 0, which is stored and not counted. */
  lemma OutputNotCounted(info: BlockInfo)
    ensures var miner := Tx(3, [Gen], [TxOut(0, 7)], 0);
      var chain := [Entry(Block(1, 0, 1, 2, miner, []), info, [])];
      && Build(chain).Some? && RctOuts(miner, [], 0) == 0
      && SizesMatch(chain) && |Made(ChainTxs(chain[..1]), 0)| - |Made(ChainTxs(chain[..0]), 0)| != 0
  {
    hide Made, ChainTxs;
    var miner := Tx(3, [Gen], [TxOut(0, 7)], 0);
    var chain := [Entry(Block(1, 0, 1, 2, miner, []), info, [])];
    assert miner.vin[0].Gen? && miner.vout[0].amount == 0;
    assert chain[..0] == [];
    BlockCountExactly(chain, 0);
  }

  lemma {:induction false} BlockStorable(chain: seq<Entry>, i: nat)
    requires Build(chain).Some? && i < |chain|
    ensures Storable(chain[i].block.minerTx)
    decreases |chain|
  {
    hide AddTxs, AddRecord, RctOuts, AddKeys, AddOutputs, Indices, Storable;
    if i < |chain| - 1 {
      BlockStorable(chain[..|chain| - 1], i);
    }
  }

  /**
   * From version 4 on the record of a block carries the number of outputs that the chain has stored under amount 0
   * since block r, the last one before version 4 or the first of the chain, inclusive.
   */
  lemma CumulativeCount(chain: seq<Entry>, i: nat, r: nat)
    requires Build(chain).Some? && r <= i < |chain|
    requires r == 0 || chain[r].block.majorVersion < 4
    requires forall k :: r < k <= i ==> chain[k].block.majorVersion >= 4
    requires forall k :: r <= k <= i ==> Regular(chain[k])
    ensures SizesMatch(chain) && i < |Build(chain).value.blocks|
    ensures Build(chain).value.blocks[i].cumRct == |Made(ChainTxs(chain[..i + 1]), 0)| - |Made(ChainTxs(chain[..r]), 0)|
  {
    hide Made, Regular, Build, ChainTxs, RctTotal, Agrees;
    TablesDescribeChain(chain);
    TotalCount(chain, i, r);
  }

  lemma {:induction false} TotalCount(chain: seq<Entry>, i: nat, r: nat)
    requires Build(chain).Some? && SizesMatch(chain) && r <= i < |chain|
    requires r == 0 || chain[r].block.majorVersion < 4
    requires forall k :: r < k <= i ==> chain[k].block.majorVersion >= 4
    requires forall k :: r <= k <= i ==> Regular(chain[k])
    ensures RctTotal(chain, i) == |Made(ChainTxs(chain[..i + 1]), 0)| - |Made(ChainTxs(chain[..r]), 0)|
    decreases i
  {
    hide Made, Build, ChainTxs, RctOuts, HasGen, NoZero, Plain;
    BlockCountExactly(chain, i);
    if i > r {
      TotalCount(chain, i - 1, r);
    }
  }
}
