/** BlockchainDB (src/blockchain_db/blockchain_db.cpp): the object whose methods change the tables. */
module ChainStore {
  import opened ChainTables
  import opened ChainBlocks
  import opened ChainHistory
  import opened ChainUndo
  import opened Basics

  lemma PrefixStep<T>(s: seq<T>, i: nat)
    requires i < |s|
    ensures s[..i + 1][..i] == s[..i] && |s[..i + 1]| == i + 1 && s[..i + 1][i] == s[i]
  {
  }

  /** One more input: what AddKeys does with it. */
  lemma AddKeysStep(spent: set<KeyImage>, vin: seq<TxIn>, i: nat)
    requires i < |vin| && AddKeys(spent, vin[..i]).Some?
    ensures var before := AddKeys(spent, vin[..i]).value;
      AddKeys(spent, vin[..i + 1]) ==
      match vin[i]
      case Gen => Some(before)
      case ToKey(k) => if k in before then None else Some(before + {k})
      case Unsupported => None
  {
    PrefixStep(vin, i);
  }

  lemma {:induction false} AddKeysPrefix(spent: set<KeyImage>, vin: seq<TxIn>, i: nat)
    requires i <= |vin| && AddKeys(spent, vin[..i]).None?
    ensures AddKeys(spent, vin).None?
    decreases |vin|
  {
    if i < |vin| {
      assert vin[..|vin| - 1][..i] == vin[..i];
      AddKeysPrefix(spent, vin[..|vin| - 1], i);
    } else {
      assert vin[..i] == vin;
    }
  }

  lemma HasGenStep(vin: seq<TxIn>, i: nat)
    requires i < |vin|
    ensures HasGen(vin[..i + 1]) <==> HasGen(vin[..i]) || vin[i].Gen?
  {
    if HasGen(vin[..i]) {
      var k :| 0 <= k < i && vin[..i][k].Gen?;
      assert vin[..i + 1][k].Gen?;
    }
    if vin[i].Gen? {
      assert vin[..i + 1][i].Gen?;
    }
  }

  lemma {:induction false} AddTxsPrefix(t: Tables, hashes: seq<Hash>, txs: seq<Tx>, n: nat, m: nat)
    requires n <= m <= |hashes| && m <= |txs| && AddTxs(t, hashes, txs, n).None?
    ensures AddTxs(t, hashes, txs, m).None?
    decreases m
  {
    hide AddTx;
    if n < m {
      AddTxsPrefix(t, hashes, txs, n, m - 1);
    }
  }

  class BlockchainDB {
    var t: Tables
    ghost var chain: seq<Entry>

    /** The tables are what the blocks of the chain left behind. */
    ghost predicate Built()
      reads this
    {
      Build(chain) == Some(t)
    }

    constructor ()
      ensures Built() && chain == []
    {
      t := EMPTY;
      chain := [];
    }

    method AddSpentKeys(vin: seq<TxIn>) returns (ok: bool, minerTx: bool)
      modifies this`t
      ensures ok == AddKeys(old(t.spent), vin).Some?
      ensures ok ==> minerTx == HasGen(vin) && t == old(t).(spent := AddKeys(old(t.spent), vin).value)
    {
      ok, minerTx := true, false;
      assert vin[..0] == [];
      for i := 0 to |vin|
        invariant AddKeys(old(t.spent), vin[..i]) == Some(t.spent)
        invariant t == old(t).(spent := t.spent)
        invariant ok && minerTx == HasGen(vin[..i])
      {
        AddKeysStep(old(t.spent), vin, i);
        HasGenStep(vin, i);
        match vin[i] {
          case ToKey(k) =>
            if k in t.spent {
              AddKeysPrefix(old(t.spent), vin, i + 1);
              ok := false;
              return;
            }
            t := t.(spent := t.spent + {k});
          case Gen =>
            minerTx := true;
          case Unsupported =>
            AddKeysPrefix(old(t.spent), vin, i + 1);
            ok := false;
            return;
        }
      }
      assert vin[..|vin|] == vin;
    }

    /** The outputs of tx, each stored at the end of the list of its amount. */
    method AddTxOutputs(hash: Hash, tx: Tx, minerTx: bool) returns (ok: bool, indices: seq<nat>)
      requires minerTx == HasGen(tx.vin)
      modifies this`t
      ensures ok == Storable(tx)
      ensures ok ==>
        && t == old(t).(outs := AddOutputs(old(t.outs), hash, tx, |old(t.blocks)|, |tx.vout|))
        && indices == Indices(old(t.outs), hash, tx, |old(t.blocks)|, |tx.vout|)
    {
      ghost var o, height := t.outs, |t.blocks|;
      indices, ok := [], true;
      for i := 0 to |tx.vout|
        invariant t == old(t).(outs := AddOutputs(o, hash, tx, height, i))
        invariant indices == Indices(o, hash, tx, height, i)
        invariant forall j :: 0 <= j < i ==> tx.version > 1 || tx.vout[j].amount != 0
        invariant ok
      {
        var amount := if minerTx && tx.version == 2 then 0 else tx.vout[i].amount;
        if amount == 0 && tx.version <= 1 {
          ok := false;
          return;
        }
        indices := indices + [|OfAmount(t.outs, amount)|];
        t := t.(outs := AddOutput(t.outs, amount, Origin(hash, i), tx.vout[i].key, tx.unlockTime, |t.blocks|));
      }
    }

    method AddTransaction(hash: Hash, tx: Tx) returns (ok: bool)
      modifies this`t
      ensures ok == AddTx(old(t), hash, tx).Some?
      ensures ok ==> t == AddTx(old(t), hash, tx).value
    {
      hide AddKeys, AddOutputs, Indices, Storable;
      var minerTx;
      ok, minerTx := AddSpentKeys(tx.vin);
      if !ok || hash in t.txIndex {
        return false;
      }
      var id := |t.txs|;
      t := t.(txIndex := t.txIndex[hash := TxIndex(id, tx.unlockTime, |t.blocks|)], txs := t.txs[id := tx]);
      var indices;
      ok, indices := AddTxOutputs(hash, tx, minerTx);
      if ok {
        t := t.(txOutputs := t.txOutputs[id := indices]);
      }
    }

    method CountZeroOutputs(tx: Tx) returns (count: nat)
      ensures count == ZeroOuts(tx, |tx.vout|)
    {
      count := 0;
      for i := 0 to |tx.vout|
        invariant count == ZeroOuts(tx, i)
      {
        if tx.vout[i].amount == 0 {
          count := count + 1;
        }
      }
    }

    method AddRecordOf(b: Block, info: BlockInfo, rctOuts: nat) returns (ok: bool)
      modifies this`t
      ensures ok == AddRecord(old(t), b, info, rctOuts).Some?
      ensures ok ==> t == AddRecord(old(t), b, info, rctOuts).value
    {
      var height := |t.blocks|;
      if b.hash in t.heights {
        return false;
      }
      if height > 0 && (b.prevId !in t.heights || t.heights[b.prevId] != height - 1) {
        return false;
      }
      var cumRct := rctOuts;
      if b.majorVersion >= 4 {
        if height == 0 {
          return false;
        }
        cumRct := cumRct + t.blocks[height - 1].cumRct;
      }
      t := t.(blocks := t.blocks + [BlockRecord(b, info, cumRct)], heights := t.heights[b.hash := height]);
      ok := true;
    }

    /** A failed call leaves partial writes behind, for the caller to abort. */
    method AddBlock(b: Block, info: BlockInfo, txs: seq<Tx>) returns (ok: bool)
      requires Built()
      modifies this
      ensures ok == ChainBlocks.AddBlock(old(t), b, info, txs).Some?
      ensures ok ==> Built() && chain == old(chain) + [Entry(b, info, txs)]
      ensures ok ==> t == ChainBlocks.AddBlock(old(t), b, info, txs).value
    {
      hide AddTx, AddRecord;
      if |b.txHashes| != |txs| {
        return false;
      }
      ok := AddTransaction(b.minerHash, b.minerTx);
      if !ok {
        return;
      }
      ghost var t1 := t;
      var rctOuts := if b.minerTx.version == 2 then |b.minerTx.vout| else 0;
      for i := 0 to |txs|
        invariant AddTxs(t1, b.txHashes, txs, i) == Some(t)
        invariant rctOuts == RctOuts(b.minerTx, txs, i)
        invariant Build(chain) == Some(old(t)) && chain == old(chain)
      {
        ok := AddTransaction(b.txHashes[i], txs[i]);
        if !ok {
          AddTxsPrefix(t1, b.txHashes, txs, i + 1, |txs|);
          return;
        }
        var zeros := CountZeroOutputs(txs[i]);
        rctOuts := rctOuts + zeros;
      }
      ok := AddRecordOf(b, info, rctOuts);
      if ok {
        BuildStep(chain, Entry(b, info, txs));
        chain := chain + [Entry(b, info, txs)];
      }
    }

    static lemma BuildStep(chain: seq<Entry>, e: Entry)
      requires Build(chain).Some?
      ensures Build(chain + [e]) == ChainBlocks.AddBlock(Build(chain).value, e.block, e.info, e.txs)
    {
      assert (chain + [e])[..|chain|] == chain;
    }

    /** The images of the inputs are no longer spent, whether or not they were. */
    method RemoveSpentKeys(vin: seq<TxIn>)
      modifies this`t
      ensures t == old(t).(spent := old(t.spent) - Images(vin))
    {
      assert vin[..0] == [];
      for i := 0 to |vin|
        invariant t == old(t).(spent := old(t.spent) - Images(vin[..i]))
      {
        PrefixStep(vin, i);
        ImagesLast(vin[..i + 1]);
        if vin[i].ToKey? {
          t := t.(spent := t.spent - {vin[i].image});
        }
        assert t.spent == old(t.spent) - Images(vin[..i + 1]);
      }
      assert vin[..|vin|] == vin;
    }

    method RemoveTxOutputs(tx: Tx, indices: seq<nat>) returns (ok: bool)
      requires |tx.vout| <= |indices|
      modifies this`t
      ensures ok == RemoveOutputs(old(t.outs), tx, indices, |tx.vout|).Some?
      ensures ok ==> t == old(t).(outs := RemoveOutputs(old(t.outs), tx, indices, |tx.vout|).value)
    {
      hide RemoveOutput;
      var pseudoRct := tx.version >= 2 && |tx.vin| == 1 && tx.vin[0].Gen?;
      assert pseudoRct == RemovedAsRct(tx);
      for i := |tx.vout| downto 0
        invariant RemoveOutputs(t.outs, tx, indices, i) == RemoveOutputs(old(t.outs), tx, indices, |tx.vout|)
        invariant t == old(t).(outs := t.outs)
      {
        var amount := if pseudoRct then 0 else tx.vout[i].amount;
        var r := RemoveOutput(t.outs, amount, indices[i]);
        if r.None? {
          return false;
        }
        t := t.(outs := r.value);
      }
      ok := true;
    }

    method RemoveTransaction(hash: Hash) returns (ok: bool)
      modifies this`t
      ensures ok == RemoveTx(old(t), hash).Some?
      ensures ok ==> t == RemoveTx(old(t), hash).value
    {
      hide RemoveOutputs, Images;
      if hash !in t.txIndex || t.txIndex[hash].id !in t.txs {
        return false;
      }
      var id := t.txIndex[hash].id;
      var tx := t.txs[id];
      RemoveSpentKeys(tx.vin);
      t := t.(txs := t.txs - {id});
      if id !in t.txOutputs || |t.txOutputs[id]| < |tx.vout| {
        return false;
      }
      ok := RemoveTxOutputs(tx, t.txOutputs[id]);
      if ok {
        t := t.(txOutputs := t.txOutputs - {id}, txIndex := t.txIndex - {hash});
      }
    }

    /** What remains to be popped, after the transactions already handed out. */
    static function Prepended(txs: seq<Tx>, r: Option<Popped>): Option<Popped> {
      if r.None? then None else Some(r.value.(txs := txs + r.value.txs))
    }

    static lemma PrependedNone(r: Option<Popped>)
      ensures Prepended([], r) == r
    {
      assert r.Some? ==> [] + r.value.txs == r.value.txs;
    }

    static lemma PrependedOne(txs: seq<Tx>, tx: Tx, r: Option<Popped>)
      ensures Prepended(txs, Prepended([tx], r)) == Prepended(txs + [tx], r)
    {
      assert r.Some? ==> txs + ([tx] + r.value.txs) == txs + [tx] + r.value.txs;
    }

    /** The transactions of a block removed from the last to the first. */
    method RemoveTransactions(hashes: seq<Hash>) returns (ok: bool, txs: seq<Tx>)
      modifies this`t
      ensures ok == RemoveTxs(old(t), hashes, |hashes|).Some?
      ensures ok ==> RemoveTxs(old(t), hashes, |hashes|) == Some(Popped(t, txs))
    {
      hide RemoveTx, GetTx;
      ok, txs := true, [];
      PrependedNone(RemoveTxs(t, hashes, |hashes|));
      for i := |hashes| downto 0
        invariant ok
        invariant Prepended(txs, RemoveTxs(t, hashes, i)) == RemoveTxs(old(t), hashes, |hashes|)
      {
        var tx := GetTx(t, hashes[i]);
        if tx.None? {
          return false, txs;
        }
        ok := RemoveTransaction(hashes[i]);
        if !ok {
          return;
        }
        PrependedOne(txs, tx.value, RemoveTxs(t, hashes, i));
        txs := txs + [tx.value];
      }
      assert txs + [] == txs;
    }

    /**
     * A failed call is aborted, and changes nothing. A call that succeeds hands out the transactions of the
     * last block in reverse, and leaves what the blocks before it left if and only if the block is restorable.
     */
    method PopBlock() returns (ok: bool, txs: seq<Tx>)
      requires Built()
      modifies this
      ensures ok == ChainBlocks.PopBlock(old(t)).Some?
      ensures ok ==> ChainBlocks.PopBlock(old(t)) == Some(Popped(t, txs))
      ensures !ok ==> Built() && t == old(t) && chain == old(chain)
      ensures ok ==> old(chain) != [] && chain == old(chain)[..|old(chain)| - 1]
      ensures old(chain) == [] ==> !ok
      ensures old(chain) != [] ==>
        var init, e := old(chain)[..|old(chain)| - 1], old(chain)[|old(chain)| - 1];
        && Build(init).Some?
        && (Restorable(Build(init).value, e.block, e.txs) ==> ok)
        && (ok ==> txs == Reversed(e.txs) && (Built() <==> Restorable(Build(init).value, e.block, e.txs)))
    {
      hide RemoveTx, RemoveTxs, Reversed, Restorable, Build;
      TopOfBuilt(chain);
      var saved := t;
      txs := [];
      if |t.blocks| == 0 || t.blocks[|t.blocks| - 1].block.hash !in t.heights {
        return false, [];
      }
      var b := t.blocks[|t.blocks| - 1].block;
      t := t.(blocks := t.blocks[..|t.blocks| - 1], heights := t.heights - {b.hash});
      ok, txs := RemoveTransactions(b.txHashes);
      if ok {
        ok := RemoveTransaction(b.minerHash);
      }
      if ok {
        chain := chain[..|chain| - 1];
      } else {
        t := saved;
      }
    }

    /** The last block of a built chain is the top record, and what popping it gives. */
    static lemma TopOfBuilt(chain: seq<Entry>)
      requires Build(chain).Some?
      ensures |Build(chain).value.blocks| == |chain|
      ensures chain != [] ==>
        var init, e := chain[..|chain| - 1], chain[|chain| - 1];
        var r := ChainBlocks.PopBlock(Build(chain).value);
        && Build(init).Some?
        && (r == Some(Popped(Build(init).value, Reversed(e.txs))) <==> Restorable(Build(init).value, e.block, e.txs))
        && (r.Some? ==> r.value.txs == Reversed(e.txs))
    {
      hide ChainBlocks.PopBlock, ChainBlocks.AddBlock, Valid, Reversed, Restorable, SpentOnce, Listed, Indexed, Filed;
      TablesDescribeChain(chain);
      if chain != [] {
        var init, e := chain[..|chain| - 1], chain[|chain| - 1];
        TablesDescribeChain(init);
        PopUndoesAddExactly(Build(init).value, e.block, e.info, e.txs);
      }
    }
  }
}
