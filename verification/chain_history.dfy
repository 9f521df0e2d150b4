/**
 * What the tables hold after any sequence of accepted blocks, said in terms of the blocks alone:
 * which key images are spent, which output sits at which index of which amount, and where each
 * transaction is found.
 */
module ChainHistory {
  import opened ChainTables
  import opened ChainBlocks
  import opened Basics

  /** A transaction of the chain and the height of its block. */
  datatype Stored = Stored(hash: Hash, tx: Tx, height: nat)

  datatype MadeOut = MadeOut(origin: Origin, key: nat, unlockTime: nat, height: nat)

  datatype Entry = Entry(block: Block, info: BlockInfo, txs: seq<Tx>)

  // ---- The reference: properties of a list of transactions ----

  ghost function SpentBy(es: seq<Stored>): set<KeyImage> {
    if es == [] then {} else SpentBy(es[..|es| - 1]) + Images(es[|es| - 1].tx.vin)
  }

  /** No key image is spent twice, within a transaction or across two. */
  ghost predicate SpentOnce(es: seq<Stored>) {
    && (forall i :: 0 <= i < |es| ==> Distinct(es[i].tx.vin))
    && forall i, j :: 0 <= i < j < |es| ==> Images(es[i].tx.vin) !! Images(es[j].tx.vin)
  }

  /** The outputs of amount a among the first n of one transaction. */
  ghost function MadeBy(e: Stored, a: nat, n: nat): seq<MadeOut>
    requires n <= |e.tx.vout|
  {
    if n == 0 then []
    else MadeBy(e, a, n - 1) + if StoredAmount(e.tx, n - 1) == a then [OutOf(e, n - 1)] else []
  }

  ghost function OutOf(e: Stored, i: nat): MadeOut
    requires i < |e.tx.vout|
  {
    MadeOut(Origin(e.hash, i), e.tx.vout[i].key, e.tx.unlockTime, e.height)
  }

  ghost function Made(es: seq<Stored>, a: nat): seq<MadeOut> {
    if es == [] then []
    else Made(es[..|es| - 1], a) + MadeBy(es[|es| - 1], a, |es[|es| - 1].tx.vout|)
  }

  /** The outputs stored under amount a, in index order, are s. */
  ghost predicate Listed(o: Outputs, a: nat, s: seq<MadeOut>) {
    && |OfAmount(o, a)| == |s|
    && forall k :: 0 <= k < |s| ==>
         && k in OfAmount(o, a)
         && Shows(OfAmount(o, a)[k], s[k])
         && OfAmount(o, a)[k].outputId in o.origins
         && o.origins[OfAmount(o, a)[k].outputId] == s[k].origin
  }

  ghost predicate Shows(v: OutKey, m: MadeOut) {
    v.key == m.key && v.unlockTime == m.unlockTime && v.height == m.height
  }

  ghost predicate FoundAs(t: Tables, e: Stored, i: nat) {
    e.hash in t.txIndex && t.txIndex[e.hash] == TxIndex(i, e.tx.unlockTime, e.height)
  }

  /** The i-th transaction has id i, and the index holds no others. */
  ghost predicate Indexed(t: Tables, es: seq<Stored>) {
    && |t.txs| == |es|
    && (forall i :: 0 <= i < |es| ==> FoundAs(t, es[i], i))
    && (forall i :: 0 <= i < |es| ==> i in t.txs && t.txs[i] == es[i].tx)
    && forall h :: h in t.txIndex ==> t.txIndex[h].id < |es| && es[t.txIndex[h].id].hash == h
  }

  /** The number of outputs that the chain has stored under the amount of output j of transaction i before it. */
  ghost function Before(es: seq<Stored>, i: nat, j: nat): nat
    requires i < |es| && j < |es[i].tx.vout|
  {
    var a := StoredAmount(es[i].tx, j);
    |Made(es[..i], a)| + |MadeBy(es[i], a, j)|
  }

  /** Every transaction is filed with the place of each of its outputs among those of the same amount. */
  ghost predicate Filed(t: Tables, es: seq<Stored>) {
    && |t.txOutputs| == |es|
    && forall i :: 0 <= i < |es| ==> i in t.txOutputs && FiledAs(t.txOutputs[i], es, i)
  }

  ghost predicate FiledAs(indices: seq<nat>, es: seq<Stored>, i: nat)
    requires i < |es|
  {
    && |indices| == |es[i].tx.vout|
    && forall j :: 0 <= j < |indices| ==> indices[j] == Before(es, i, j)
  }

  ghost predicate Agrees(t: Tables, es: seq<Stored>) {
    && Valid(t)
    && t.spent == SpentBy(es)
    && SpentOnce(es)
    && (forall a: nat :: Listed(t.outs, a, Made(es, a)))
    && Indexed(t, es)
    && Filed(t, es)
  }

  // ---- Every step keeps the agreement ----

  lemma AddOutputListed(o: Outputs, amount: nat, m: MadeOut, a: nat, s: seq<MadeOut>)
    requires ValidOutputs(o) && Listed(o, a, s)
    ensures Listed(AddOutput(o, amount, m.origin, m.key, m.unlockTime, m.height), a, s + if amount == a then [m] else [])
  {
    AddOutputCount(o, amount, m.origin, m.key, m.unlockTime, m.height, a);
    FreshKeys(o, amount);
    hide ValidOutputs;
  }

  lemma {:induction false} AddOutputsListed(o: Outputs, e: Stored, n: nat, a: nat, s: seq<MadeOut>)
    requires ValidOutputs(o) && Listed(o, a, s) && n <= |e.tx.vout|
    ensures Listed(AddOutputs(o, e.hash, e.tx, e.height, n), a, s + MadeBy(e, a, n))
  {
    hide ValidOutputs, Listed, AddOutput, StoredAmount;
    if n == 0 {
      assert s + [] == s;
    } else {
      var amount, m := StoredAmount(e.tx, n - 1), OutOf(e, n - 1);
      var made := if amount == a then [m] else [];
      AddOutputsListed(o, e, n - 1, a, s);
      AddOutputsValid(o, e.hash, e.tx, e.height, n - 1);
      AddOutputListed(AddOutputs(o, e.hash, e.tx, e.height, n - 1), amount, m, a, s + MadeBy(e, a, n - 1));
      assert s + MadeBy(e, a, n - 1) + made == s + (MadeBy(e, a, n - 1) + made);
    }
  }

  /** The index given to output j is the number of outputs listed before it. */
  lemma {:induction false} IndexIsCount(o: Outputs, e: Stored, n: nat, j: nat, s: seq<MadeOut>)
    requires ValidOutputs(o) && j < n <= |e.tx.vout| && Listed(o, StoredAmount(e.tx, j), s)
    ensures Indices(o, e.hash, e.tx, e.height, n)[j] == |s| + |MadeBy(e, StoredAmount(e.tx, j), j)|
    decreases n
  {
    hide ValidOutputs, StoredAmount, MadeBy, AddOutputs, OfAmount;
    if j < n - 1 {
      IndexIsCount(o, e, n - 1, j, s);
    } else {
      AddOutputsListed(o, e, j, StoredAmount(e.tx, j), s);
    }
  }

  lemma FiledLast(t: Tables, es: seq<Stored>, e: Stored)
    requires Valid(t) && forall a: nat :: Listed(t.outs, a, Made(es, a))
    ensures FiledAs(Indices(t.outs, e.hash, e.tx, e.height, |e.tx.vout|), es + [e], |es|)
  {
    hide Listed, Indices, MadeBy, Made, StoredAmount, ValidOutputs, Dense;
    var n := |e.tx.vout|;
    assert (es + [e])[..|es|] == es;
    forall j | 0 <= j < n
      ensures Indices(t.outs, e.hash, e.tx, e.height, n)[j] == Before(es + [e], |es|, j)
    {
      IndexIsCount(t.outs, e, n, j, Made(es, StoredAmount(e.tx, j)));
    }
  }

  lemma FiledSame(indices: seq<nat>, es: seq<Stored>, e: Stored, i: nat)
    requires i < |es| && FiledAs(indices, es, i)
    ensures FiledAs(indices, es + [e], i)
  {
    hide Made, MadeBy, StoredAmount;
    assert (es + [e])[..i] == es[..i];
    forall j | 0 <= j < |indices|
      ensures indices[j] == Before(es + [e], i, j)
    {
      assert indices[j] == Before(es, i, j);
    }
  }

  lemma AddTxFiles(t: Tables, es: seq<Stored>, e: Stored)
    requires Valid(t) && AddTx(t, e.hash, e.tx).Some? && e.height == |t.blocks| && Filed(t, es)
    requires forall a: nat :: Listed(t.outs, a, Made(es, a))
    ensures Filed(AddTx(t, e.hash, e.tx).value, es + [e])
  {
    FiledLast(t, es, e);
    DenseGrows(t.txOutputs, Indices(t.outs, e.hash, e.tx, e.height, |e.tx.vout|));
    hide AddKeys, AddOutputs, Indices, Storable, Dense, ValidOutputs, FiledAs, Listed;
    forall i | 0 <= i < |es|
      ensures FiledAs(t.txOutputs[i], es + [e], i)
    {
      FiledSame(t.txOutputs[i], es, e, i);
    }
  }

  lemma AddTxLists(t: Tables, es: seq<Stored>, e: Stored)
    requires Valid(t) && AddTx(t, e.hash, e.tx).Some? && e.height == |t.blocks|
    requires forall a: nat :: Listed(t.outs, a, Made(es, a))
    ensures forall a: nat :: Listed(AddTx(t, e.hash, e.tx).value.outs, a, Made(es + [e], a))
  {
    hide ValidOutputs, Listed, AddOutputs, Indices, AddKeys, Dense, Storable;
    forall a: nat
      ensures Listed(AddTx(t, e.hash, e.tx).value.outs, a, Made(es + [e], a))
    {
      AddOutputsListed(t.outs, e, |e.tx.vout|, a, Made(es, a));
      assert (es + [e])[..|es|] == es;
    }
  }

  lemma {:induction false} SpentEach(es: seq<Stored>, i: nat)
    requires i < |es|
    ensures Images(es[i].tx.vin) <= SpentBy(es)
  {
    hide Images;
    if i < |es| - 1 {
      SpentEach(es[..|es| - 1], i);
    }
  }

  lemma SpentByLast(es: seq<Stored>, e: Stored)
    ensures SpentBy(es + [e]) == SpentBy(es) + Images(e.tx.vin)
  {
    assert (es + [e])[..|es|] == es;
  }

  lemma SpentOnceLast(es: seq<Stored>, e: Stored)
    requires SpentOnce(es) && Distinct(e.tx.vin) && SpentBy(es) !! Images(e.tx.vin)
    ensures SpentOnce(es + [e])
  {
    hide Images, Distinct, SpentBy;
    var es' := es + [e];
    forall i, j | 0 <= i < j < |es'|
      ensures Images(es'[i].tx.vin) !! Images(es'[j].tx.vin)
    {
      SpentEach(es, i);
      if j < |es| {
        assert Images(es[i].tx.vin) !! Images(es[j].tx.vin);
      }
    }
  }

  lemma AddTxSpends(t: Tables, es: seq<Stored>, e: Stored)
    requires AddTx(t, e.hash, e.tx).Some? && t.spent == SpentBy(es) && SpentOnce(es)
    ensures AddTx(t, e.hash, e.tx).value.spent == SpentBy(es + [e]) && SpentOnce(es + [e])
  {
    hide Images, Distinct, AddKeys, AddOutputs, Indices, Storable, SpentBy, SpentOnce;
    AddKeysAdds(t.spent, e.tx.vin);
    AddKeysExactly(t.spent, e.tx.vin);
    SpentByLast(es, e);
    SpentOnceLast(es, e);
  }

  lemma AddTxIndexed(t: Tables, es: seq<Stored>, e: Stored)
    requires Valid(t) && AddTx(t, e.hash, e.tx).Some? && e.height == |t.blocks| && Indexed(t, es)
    ensures Indexed(AddTx(t, e.hash, e.tx).value, es + [e])
  {
    DenseGrows(t.txs, e.tx);
    hide AddKeys, AddOutputs, Indices, Storable, Dense, ValidOutputs;
  }

  lemma AddTxAgrees(t: Tables, es: seq<Stored>, e: Stored)
    requires Agrees(t, es) && AddTx(t, e.hash, e.tx).Some? && e.height == |t.blocks|
    ensures Agrees(AddTx(t, e.hash, e.tx).value, es + [e])
  {
    AddTxValid(t, e.hash, e.tx);
    AddTxLists(t, es, e);
    AddTxSpends(t, es, e);
    AddTxIndexed(t, es, e);
    AddTxFiles(t, es, e);
    hide AddTx, Valid, Listed, Indexed, SpentOnce, SpentBy, Made, Filed;
  }

  // ---- Blocks ----

  ghost function BlockTxs(b: Block, txs: seq<Tx>, n: nat, height: nat): seq<Stored>
    requires n <= |txs| && n <= |b.txHashes|
  {
    if n == 0 then [Stored(b.minerHash, b.minerTx, height)]
    else BlockTxs(b, txs, n - 1, height) + [Stored(b.txHashes[n - 1], txs[n - 1], height)]
  }

  lemma {:induction false} AddTxsAgrees(t: Tables, es: seq<Stored>, b: Block, txs: seq<Tx>, n: nat)
    requires Agrees(t, es) && n <= |txs| && n <= |b.txHashes|
    requires AddTx(t, b.minerHash, b.minerTx).Some?
    requires AddTxs(AddTx(t, b.minerHash, b.minerTx).value, b.txHashes, txs, n).Some?
    ensures Agrees(AddTxs(AddTx(t, b.minerHash, b.minerTx).value, b.txHashes, txs, n).value, es + BlockTxs(b, txs, n, |t.blocks|))
  {
    hide AddTx, Agrees, Valid;
    var t1, height := AddTx(t, b.minerHash, b.minerTx).value, |t.blocks|;
    if n == 0 {
      AddTxAgrees(t, es, Stored(b.minerHash, b.minerTx, height));
    } else {
      var e, done := Stored(b.txHashes[n - 1], txs[n - 1], height), BlockTxs(b, txs, n - 1, height);
      AddTxsAgrees(t, es, b, txs, n - 1);
      AgreesValid(t, es);
      AddTxValid(t, b.minerHash, b.minerTx);
      AddTxsValid(t1, b.txHashes, txs, n - 1);
      AddTxAgrees(AddTxs(t1, b.txHashes, txs, n - 1).value, es + done, e);
      assert es + done + [e] == es + (done + [e]);
    }
  }

  /** The outputs of amount 0 since the last block before version 4, those of block i included. */
  ghost function RctTotal(chain: seq<Entry>, i: nat): nat
    requires i < |chain|
  {
    var e := chain[i];
    RctOuts(e.block.minerTx, e.txs, |e.txs|) + if e.block.majorVersion >= 4 && i > 0 then RctTotal(chain, i - 1) else 0
  }

  lemma {:induction false} RctTotalSame(chain: seq<Entry>, e: Entry, i: nat)
    requires i < |chain|
    ensures RctTotal(chain + [e], i) == RctTotal(chain, i)
  {
    hide RctOuts;
    if i > 0 {
      RctTotalSame(chain, e, i - 1);
    }
  }

  /** The records are the blocks, each the parent of the next, and heights finds exactly them. */
  ghost predicate Linked(t: Tables, chain: seq<Entry>) {
    && |t.blocks| == |chain|
    && (forall i :: 0 <= i < |chain| ==> t.blocks[i] == BlockRecord(chain[i].block, chain[i].info, RctTotal(chain, i)))
    && (forall i :: 0 <= i < |chain| ==> chain[i].block.hash in t.heights && t.heights[chain[i].block.hash] == i)
    && (forall h :: h in t.heights ==> t.heights[h] < |chain| && chain[t.heights[h]].block.hash == h)
    && forall i :: 0 < i < |chain| ==> chain[i].block.prevId == chain[i - 1].block.hash
  }

  lemma AddRecordLinked(t: Tables, chain: seq<Entry>, e: Entry)
    requires Linked(t, chain) && AddRecord(t, e.block, e.info, RctOuts(e.block.minerTx, e.txs, |e.txs|)).Some?
    ensures Linked(AddRecord(t, e.block, e.info, RctOuts(e.block.minerTx, e.txs, |e.txs|)).value, chain + [e])
  {
    hide RctOuts;
    var t', chain' := AddRecord(t, e.block, e.info, RctOuts(e.block.minerTx, e.txs, |e.txs|)).value, chain + [e];
    var n := |chain|;
    assert chain'[n] == e && forall i :: 0 <= i < n ==> chain'[i] == chain[i];
    RecordsKept(t, chain, e);
    forall i | 0 < i < |chain'|
      ensures chain'[i].block.prevId == chain'[i - 1].block.hash
    {
      assert i < n ==> chain[i].block.prevId == chain[i - 1].block.hash;
    }
    hide RctTotal;
    forall h | h in t'.heights
      ensures t'.heights[h] < |chain'| && chain'[t'.heights[h]].block.hash == h
    {
    }
  }

  lemma RecordsKept(t: Tables, chain: seq<Entry>, e: Entry)
    requires Linked(t, chain) && AddRecord(t, e.block, e.info, RctOuts(e.block.minerTx, e.txs, |e.txs|)).Some?
    ensures var t' := AddRecord(t, e.block, e.info, RctOuts(e.block.minerTx, e.txs, |e.txs|)).value;
      && |t'.blocks| == |chain| + 1
      && forall i :: 0 <= i <= |chain| ==>
        t'.blocks[i] == BlockRecord((chain + [e])[i].block, (chain + [e])[i].info, RctTotal(chain + [e], i))
  {
    hide RctOuts;
    var n := |chain|;
    forall i | 0 <= i < n
      ensures RctTotal(chain + [e], i) == RctTotal(chain, i)
    {
      RctTotalSame(chain, e, i);
    }
  }

  /** The tables after the blocks of chain, None when one of them is refused. */
  function Build(chain: seq<Entry>): Option<Tables> {
    if chain == [] then Some(EMPTY)
    else
      var e, before := chain[|chain| - 1], Build(chain[..|chain| - 1]);
      if before.None? then None else AddBlock(before.value, e.block, e.info, e.txs)
  }

  ghost predicate SizesMatch(chain: seq<Entry>) {
    forall i :: 0 <= i < |chain| ==> |chain[i].block.txHashes| == |chain[i].txs|
  }

  ghost function ChainTxs(chain: seq<Entry>): seq<Stored>
    requires SizesMatch(chain)
  {
    if chain == [] then []
    else
      var e := chain[|chain| - 1];
      ChainTxs(chain[..|chain| - 1]) + BlockTxs(e.block, e.txs, |e.txs|, |chain| - 1)
  }

  lemma AgreesValid(t: Tables, es: seq<Stored>)
    requires Agrees(t, es)
    ensures Valid(t)
  {
  }

  lemma AcceptedSizes(t: Tables, e: Entry)
    requires AddBlock(t, e.block, e.info, e.txs).Some?
    ensures |e.block.txHashes| == |e.txs|
  {
  }

  lemma EmptyAgrees()
    ensures Agrees(EMPTY, ChainTxs([])) && Linked(EMPTY, [])
  {
    EmptyDense<Tx>();
    EmptyDense<seq<nat>>();
    EmptyDense<Origin>();
  }

  lemma ChainTxsStep(chain: seq<Entry>, e: Entry)
    requires SizesMatch(chain) && |e.block.txHashes| == |e.txs|
    ensures SizesMatch(chain + [e])
    ensures ChainTxs(chain + [e]) == ChainTxs(chain) + BlockTxs(e.block, e.txs, |e.txs|, |chain|)
  {
    hide BlockTxs;
    var chain' := chain + [e];
    assert chain'[..|chain|] == chain && chain'[|chain|] == e;
  }

  lemma AddBlockLinked(t: Tables, chain: seq<Entry>, e: Entry)
    requires Valid(t) && Linked(t, chain) && AddBlock(t, e.block, e.info, e.txs).Some?
    ensures Linked(AddBlock(t, e.block, e.info, e.txs).value, chain + [e])
  {
    hide Valid, AddTx, AddTxs, AddRecord, RctOuts;
    var b, n := e.block, |e.txs|;
    var t1 := AddTx(t, b.minerHash, b.minerTx).value;
    var t2 := AddTxs(t1, b.txHashes, e.txs, n).value;
    AddTxValid(t, b.minerHash, b.minerTx);
    AddTxsValid(t1, b.txHashes, e.txs, n);
    AddRecordLinked(t2, chain, e);
  }

  lemma AddBlockAgrees(t: Tables, es: seq<Stored>, b: Block, info: BlockInfo, txs: seq<Tx>)
    requires Agrees(t, es) && AddBlock(t, b, info, txs).Some?
    ensures Agrees(AddBlock(t, b, info, txs).value, es + BlockTxs(b, txs, |txs|, |t.blocks|))
  {
    hide Agrees, AddTx, AddTxs, AddRecord, RctOuts, BlockTxs;
    var t1 := AddTx(t, b.minerHash, b.minerTx).value;
    var t2 := AddTxs(t1, b.txHashes, txs, |txs|).value;
    AddTxsAgrees(t, es, b, txs, |txs|);
    RecordAgrees(t2, es + BlockTxs(b, txs, |txs|, |t.blocks|), b, info, RctOuts(b.minerTx, txs, |txs|));
  }

  /** The block record has no part in what the transactions left behind. */
  lemma RecordAgrees(t: Tables, es: seq<Stored>, b: Block, info: BlockInfo, rctOuts: nat)
    requires Agrees(t, es) && AddRecord(t, b, info, rctOuts).Some?
    ensures Agrees(AddRecord(t, b, info, rctOuts).value, es)
  {
    hide Listed, SpentBy, SpentOnce, Made, FiledAs, Indexed, Valid;
    RecordKeeps(t, es, b, info, rctOuts);
  }

  lemma RecordKeeps(t: Tables, es: seq<Stored>, b: Block, info: BlockInfo, rctOuts: nat)
    requires AddRecord(t, b, info, rctOuts).Some?
    ensures Valid(t) ==> Valid(AddRecord(t, b, info, rctOuts).value)
    ensures Indexed(t, es) ==> Indexed(AddRecord(t, b, info, rctOuts).value, es)
  {
    hide Dense, ValidOutputs;
  }

  /**
   * After every accepted sequence of blocks: the chain is linked, no key image has been spent
   * twice and exactly those of the chain are marked spent, the outputs of every amount are
   * listed in chain order with key, unlock time and height, and every transaction is filed with
   * the places of its outputs.
   */
  lemma {:induction false} TablesDescribeChain(chain: seq<Entry>)
    requires Build(chain).Some?
    ensures SizesMatch(chain)
    ensures Agrees(Build(chain).value, ChainTxs(chain)) && Linked(Build(chain).value, chain)
  {
    hide AddBlock, Agrees, Linked, Valid, ChainTxs, BlockTxs;
    if chain == [] {
      EmptyAgrees();
    } else {
      var init, e := chain[..|chain| - 1], chain[|chain| - 1];
      var t := Build(init).value;
      TablesDescribeChain(init);
      AgreesValid(t, ChainTxs(init));
      AcceptedSizes(t, e);
      ChainTxsStep(init, e);
      AddBlockAgrees(t, ChainTxs(init), e.block, e.info, e.txs);
      AddBlockLinked(t, init, e);
      LinkedSize(t, init);
      assert init + [e] == chain;
    }
  }

  lemma LinkedSize(t: Tables, chain: seq<Entry>)
    requires Linked(t, chain)
    ensures |t.blocks| == |chain|
  {
  }

  /** A block that spends a key image of an earlier block, or one image twice, is refused. */
  lemma DoubleSpendRefused(chain: seq<Entry>, b: Block, info: BlockInfo, txs: seq<Tx>)
    requires Build(chain).Some? && |b.txHashes| == |txs|
    requires SizesMatch(chain) && !SpentOnce(ChainTxs(chain) + BlockTxs(b, txs, |txs|, |chain|))
    ensures AddBlock(Build(chain).value, b, info, txs).None?
  {
    TablesDescribeChain(chain);
    LinkedSize(Build(chain).value, chain);
    if AddBlock(Build(chain).value, b, info, txs).Some? {
      AddBlockAgrees(Build(chain).value, ChainTxs(chain), b, info, txs);
    }
    hide AddBlock, Linked, SpentOnce;
  }
}
