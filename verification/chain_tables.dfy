/** The tables behind src/blockchain_db/blockchain_db.cpp and the operations on them, as
    src/blockchain_db/lmdb/db_lmdb.cpp carries them out. None stands for an exception. */
module ChainTables {
  import opened Basics

  type Hash = nat
  type KeyImage = nat

  datatype TxIn = Gen | ToKey(image: KeyImage) | Unsupported

  datatype TxOut = TxOut(amount: nat, key: nat)

  datatype Tx = Tx(version: nat, vin: seq<TxIn>, vout: seq<TxOut>, unlockTime: nat)

  // ---- Spent keys ----

  function Images(vin: seq<TxIn>): set<KeyImage> {
    set i | 0 <= i < |vin| && vin[i].ToKey? :: vin[i].image
  }

  function AddKeys(spent: set<KeyImage>, vin: seq<TxIn>): Option<set<KeyImage>> {
    if vin == [] then Some(spent)
    else
      var r := AddKeys(spent, vin[..|vin| - 1]);
      if r.None? then None
      else match vin[|vin| - 1]
        case Gen => r
        case ToKey(k) => if k in r.value then None else Some(r.value + {k})
        case Unsupported => None
  }

  lemma ImagesLast(vin: seq<TxIn>)
    requires vin != []
    ensures var last := vin[|vin| - 1];
      Images(vin) == Images(vin[..|vin| - 1]) + if last.ToKey? then {last.image} else {}
  {
    var init, last := vin[..|vin| - 1], vin[|vin| - 1];
    forall k
      ensures k in Images(vin) <==> k in Images(init) || (last.ToKey? && k == last.image)
    {
      if k in Images(vin) {
        var i :| 0 <= i < |vin| && vin[i].ToKey? && vin[i].image == k;
        if i < |vin| - 1 { assert init[i] == vin[i]; }
      }
      if k in Images(init) {
        var i :| 0 <= i < |init| && init[i].ToKey? && init[i].image == k;
        assert vin[i] == init[i];
      }
      if last.ToKey? && k == last.image {
        assert vin[|vin| - 1] == last;
      }
    }
  }

  /** Adding keys succeeds only for fresh ones, and then adds exactly the images. */
  lemma {:induction false} AddKeysAdds(spent: set<KeyImage>, vin: seq<TxIn>)
    requires AddKeys(spent, vin).Some?
    ensures AddKeys(spent, vin).value == spent + Images(vin) && spent !! Images(vin)
  {
    if vin != [] {
      AddKeysAdds(spent, vin[..|vin| - 1]);
      ImagesLast(vin);
      hide Images;
    }
  }

  ghost predicate Distinct(vin: seq<TxIn>) {
    forall i, j :: 0 <= i < j < |vin| && vin[i].ToKey? && vin[j].ToKey? ==> vin[i].image != vin[j].image
  }

  /** Exactly the inputs that are of a known type, repeat no key image and spend no spent one are accepted. */
  lemma {:induction false} AddKeysExactly(spent: set<KeyImage>, vin: seq<TxIn>)
    ensures AddKeys(spent, vin).Some? <==> Unsupported !in vin && Distinct(vin) && spent !! Images(vin)
  {
    if vin != [] {
      var init, last := vin[..|vin| - 1], vin[|vin| - 1];
      assert vin == init + [last];
      AddKeysExactly(spent, init);
      ImagesLast(vin);
      if AddKeys(spent, init).Some? {
        AddKeysAdds(spent, init);
      }
      DistinctLast(init, last);
      hide Images, Distinct;
    }
  }

  lemma DistinctLast(init: seq<TxIn>, last: TxIn)
    ensures Distinct(init + [last]) <==> Distinct(init) && (last.ToKey? ==> last.image !in Images(init))
  {
    var vin := init + [last];
    assert forall i :: 0 <= i < |init| ==> vin[i] == init[i];
    assert vin[|init|] == last;
  }

  // ---- Outputs ----

  datatype OutKey = OutKey(outputId: nat, key: nat, unlockTime: nat, height: nat)

  /** Which transaction made an output, and as which of its outputs. */
  datatype Origin = Origin(tx: Hash, index: nat)

  datatype Outputs = Outputs(amounts: map<nat, map<nat, OutKey>>, origins: map<nat, Origin>)

  /** The keys of m are 0, ..., |m| - 1. */
  ghost predicate Dense<T>(m: map<nat, T>) {
    forall k :: k in m <==> 0 <= k < |m|
  }

  ghost predicate ValidOutputs(o: Outputs) {
    && Dense(o.origins)
    && forall a :: a in o.amounts ==> Dense(o.amounts[a]) && |o.amounts[a]| > 0
  }

  function OfAmount(o: Outputs, a: nat): map<nat, OutKey> {
    if a in o.amounts then o.amounts[a] else map[]
  }

  function AddOutput(o: Outputs, amount: nat, origin: Origin, key: nat, unlockTime: nat, height: nat): Outputs {
    var id, index := |o.origins|, |OfAmount(o, amount)|;
    Outputs(o.amounts[amount := OfAmount(o, amount)[index := OutKey(id, key, unlockTime, height)]], o.origins[id := origin])
  }

  function RemoveOutput(o: Outputs, amount: nat, index: nat): Option<Outputs> {
    if index !in OfAmount(o, amount) then None
    else
      var id, left := OfAmount(o, amount)[index].outputId, OfAmount(o, amount) - {index};
      if id !in o.origins then None
      else Some(Outputs(if left == map[] then o.amounts - {amount} else o.amounts[amount := left], o.origins - {id}))
  }

  lemma DenseGrows<T>(m: map<nat, T>, v: T)
    requires Dense(m)
    ensures |m| !in m && Dense(m[|m| := v]) && |m[|m| := v]| == |m| + 1
  {
    var n := |m|;
    assert n !in m;
    MapGrows(m, n, v);
    assert forall k :: k in m[n := v] <==> k in m || k == n;
  }

  lemma MapGrows<K, T>(m: map<K, T>, k: K, v: T)
    requires k !in m
    ensures |m[k := v]| == |m| + 1
  {
    assert m[k := v].Keys == m.Keys + {k};
    assert |m.Keys + {k}| == |m.Keys| + 1;
  }

  lemma PutThenRemove<K, T>(m: map<K, T>, k: K, v: T)
    requires k !in m
    ensures m[k := v] - {k} == m
  {
  }

  lemma AddOutputValid(o: Outputs, amount: nat, origin: Origin, key: nat, unlockTime: nat, height: nat)
    requires ValidOutputs(o)
    ensures var o' := AddOutput(o, amount, origin, key, unlockTime, height);
      && ValidOutputs(o')
      && |OfAmount(o', amount)| == |OfAmount(o, amount)| + 1
      && |o'.origins| == |o.origins| + 1
  {
    EmptyDense<OutKey>();
    DenseGrows(o.origins, origin);
    DenseGrows(OfAmount(o, amount), OutKey(|o.origins|, key, unlockTime, height));
    hide Dense;
  }

  lemma EmptyDense<T>()
    ensures Dense<T>(map[])
  {
  }

  /** Putting an inner map back, or dropping its key when it was not there. */
  lemma PutBack(amounts: map<nat, map<nat, OutKey>>, amount: nat, m': map<nat, OutKey>)
    requires amount in amounts ==> amounts[amount] != map[]
    ensures var m := if amount in amounts then amounts[amount] else map[];
      (if m == map[] then amounts[amount := m'] - {amount} else amounts[amount := m'][amount := m]) == amounts
  {
    if amount in amounts {
      var m := amounts[amount];
      assert amounts[amount := m'][amount := m] == amounts;
    } else {
      PutThenRemove(amounts, amount, m');
    }
  }

  lemma FreshKeys(o: Outputs, amount: nat)
    requires ValidOutputs(o)
    ensures |o.origins| !in o.origins && |OfAmount(o, amount)| !in OfAmount(o, amount)
    ensures amount in o.amounts ==> o.amounts[amount] != map[]
  {
  }

  /** Removing the output that was added last gives back the tables exactly. */
  lemma RemoveAdded(o: Outputs, amount: nat, origin: Origin, key: nat, unlockTime: nat, height: nat)
    requires ValidOutputs(o)
    ensures RemoveOutput(AddOutput(o, amount, origin, key, unlockTime, height), amount, |OfAmount(o, amount)|) == Some(o)
  {
    hide ValidOutputs;
    var id, m := |o.origins|, OfAmount(o, amount);
    var v := OutKey(id, key, unlockTime, height);
    var m' := m[|m| := v];
    FreshKeys(o, amount);
    PutThenRemove(o.origins, id, origin);
    PutThenRemove(m, |m|, v);
    PutBack(o.amounts, amount, m');
  }

  // ---- The outputs of one transaction ----

  predicate HasGen(vin: seq<TxIn>) {
    exists i :: 0 <= i < |vin| && vin[i].Gen?
  }

  /** add_transaction stores the outputs of such a transaction under amount 0. */
  predicate StoredAsRct(tx: Tx) {
    HasGen(tx.vin) && tx.version == 2
  }

  /** remove_tx_outputs looks for the outputs of such a transaction under amount 0. */
  predicate RemovedAsRct(tx: Tx) {
    tx.version >= 2 && tx.vin == [Gen]
  }

  function StoredAmount(tx: Tx, i: nat): nat
    requires i < |tx.vout|
  {
    if StoredAsRct(tx) then 0 else tx.vout[i].amount
  }

  function RemovedAmount(tx: Tx, i: nat): nat
    requires i < |tx.vout|
  {
    if RemovedAsRct(tx) then 0 else tx.vout[i].amount
  }

  /** The two tests agree on tx, or its outputs have amount 0 anyway. */
  predicate Consistent(tx: Tx) {
    StoredAsRct(tx) == RemovedAsRct(tx) || forall i :: 0 <= i < |tx.vout| ==> tx.vout[i].amount == 0
  }

  /** An output of amount 0 needs a commitment, which transactions of version 1 do not have. */
  predicate Storable(tx: Tx) {
    forall i :: 0 <= i < |tx.vout| ==> tx.version > 1 || tx.vout[i].amount != 0
  }

  /** The first n outputs added. */
  function AddOutputs(o: Outputs, hash: Hash, tx: Tx, height: nat, n: nat): Outputs
    requires n <= |tx.vout|
  {
    if n == 0 then o
    else
      AddOutput(AddOutputs(o, hash, tx, height, n - 1), StoredAmount(tx, n - 1), Origin(hash, n - 1),
                tx.vout[n - 1].key, tx.unlockTime, height)
  }

  /** The amount output indices that the first n outputs get. */
  function Indices(o: Outputs, hash: Hash, tx: Tx, height: nat, n: nat): (r: seq<nat>)
    requires n <= |tx.vout|
    ensures |r| == n
  {
    if n == 0 then []
    else Indices(o, hash, tx, height, n - 1) + [|OfAmount(AddOutputs(o, hash, tx, height, n - 1), StoredAmount(tx, n - 1))|]
  }

  /** The first n outputs removed, the last one first. */
  function RemoveOutputs(o: Outputs, tx: Tx, indices: seq<nat>, n: nat): Option<Outputs>
    requires n <= |tx.vout| && n <= |indices|
    decreases n
  {
    if n == 0 then Some(o)
    else
      var r := RemoveOutput(o, RemovedAmount(tx, n - 1), indices[n - 1]);
      if r.None? then None else RemoveOutputs(r.value, tx, indices, n - 1)
  }

  lemma {:induction false} AddOutputsValid(o: Outputs, hash: Hash, tx: Tx, height: nat, n: nat)
    requires ValidOutputs(o) && n <= |tx.vout|
    ensures ValidOutputs(AddOutputs(o, hash, tx, height, n))
  {
    hide ValidOutputs, AddOutput;
    if n > 0 {
      AddOutputsValid(o, hash, tx, height, n - 1);
      AddOutputValid(AddOutputs(o, hash, tx, height, n - 1), StoredAmount(tx, n - 1), Origin(hash, n - 1),
                     tx.vout[n - 1].key, tx.unlockTime, height);
    }
  }

  /** Outputs come off in the reverse of the order in which they were added. */
  lemma {:induction false} RemoveAddedOutputs(o: Outputs, hash: Hash, tx: Tx, height: nat, n: nat, indices: seq<nat>)
    requires ValidOutputs(o) && n <= |tx.vout| && Consistent(tx)
    requires n <= |indices| && indices[..n] == Indices(o, hash, tx, height, n)
    ensures RemoveOutputs(AddOutputs(o, hash, tx, height, n), tx, indices, n) == Some(o)
  {
    hide ValidOutputs, AddOutput, RemoveOutput, OfAmount, StoredAsRct, RemovedAsRct;
    if n > 0 {
      var before := AddOutputs(o, hash, tx, height, n - 1);
      AddOutputsValid(o, hash, tx, height, n - 1);
      assert indices[..n][..n - 1] == indices[..n - 1];
      assert indices[n - 1] == indices[..n][n - 1];
      RemoveAdded(before, StoredAmount(tx, n - 1), Origin(hash, n - 1), tx.vout[n - 1].key, tx.unlockTime, height);
      RemoveAddedOutputs(o, hash, tx, height, n - 1, indices);
    }
  }

  // ---- Transactions ----

  datatype TxIndex = TxIndex(id: nat, unlockTime: nat, height: nat)

  datatype BlockInfo = BlockInfo(weight: nat, longTermWeight: nat, difficulty: nat, coins: nat)

  datatype Block = Block(hash: Hash, prevId: Hash, majorVersion: nat, minerHash: Hash, minerTx: Tx, txHashes: seq<Hash>)

  datatype BlockRecord = BlockRecord(block: Block, info: BlockInfo, cumRct: nat)

  datatype Tables = Tables(
    blocks: seq<BlockRecord>, heights: map<Hash, nat>,
    txIndex: map<Hash, TxIndex>, txs: map<nat, Tx>, txOutputs: map<nat, seq<nat>>,
    spent: set<KeyImage>, outs: Outputs)

  const EMPTY := Tables([], map[], map[], map[], map[], {}, Outputs(map[], map[]))

  ghost predicate Valid(t: Tables) {
    Dense(t.txs) && Dense(t.txOutputs) && |t.txs| == |t.txOutputs| && ValidOutputs(t.outs)
  }

  /** add_transaction and the store operations it calls. */
  function AddTx(t: Tables, hash: Hash, tx: Tx): Option<Tables> {
    var keys := AddKeys(t.spent, tx.vin);
    if keys.None? || hash in t.txIndex || !Storable(tx) then None
    else
      var id := |t.txs|;
      Some(t.(spent := keys.value,
              txIndex := t.txIndex[hash := TxIndex(id, tx.unlockTime, |t.blocks|)],
              txs := t.txs[id := tx],
              outs := AddOutputs(t.outs, hash, tx, |t.blocks|, |tx.vout|),
              txOutputs := t.txOutputs[id := Indices(t.outs, hash, tx, |t.blocks|, |tx.vout|)]))
  }

  /** remove_transaction and the store operations it calls. */
  function RemoveTx(t: Tables, hash: Hash): Option<Tables> {
    if hash !in t.txIndex || t.txIndex[hash].id !in t.txs || t.txIndex[hash].id !in t.txOutputs then None
    else
      var id := t.txIndex[hash].id;
      var tx, indices := t.txs[id], t.txOutputs[id];
      if |indices| < |tx.vout| then None
      else
        var outs := RemoveOutputs(t.outs, tx, indices, |tx.vout|);
        if outs.None? then None
        else Some(t.(spent := t.spent - Images(tx.vin), txIndex := t.txIndex - {hash}, txs := t.txs - {id},
                     outs := outs.value, txOutputs := t.txOutputs - {id}))
  }

  lemma AddTxValid(t: Tables, hash: Hash, tx: Tx)
    requires Valid(t) && AddTx(t, hash, tx).Some?
    ensures var t' := AddTx(t, hash, tx).value;
      Valid(t') && t'.blocks == t.blocks && t'.heights == t.heights
  {
    DenseGrows(t.txs, tx);
    DenseGrows(t.txOutputs, Indices(t.outs, hash, tx, |t.blocks|, |tx.vout|));
    AddOutputsValid(t.outs, hash, tx, |t.blocks|, |tx.vout|);
    hide Dense, ValidOutputs, AddOutputs, Indices;
  }

  /** Removing the transaction that was just added, whatever has become of the outputs since. */
  lemma LookupAdded(t: Tables, hash: Hash, tx: Tx, o: Outputs)
    requires Valid(t) && AddTx(t, hash, tx).Some?
    ensures var t' := AddTx(t, hash, tx).value.(outs := o);
      && RemoveTx(t', hash) == (
           var outs := RemoveOutputs(o, tx, Indices(t.outs, hash, tx, |t.blocks|, |tx.vout|), |tx.vout|);
           if outs.None? then None else Some(t.(outs := outs.value)))
      && hash in t'.txIndex && t'.txIndex[hash].id in t'.txs && t'.txs[t'.txIndex[hash].id] == tx
  {
    var id, indices := |t.txs|, Indices(t.outs, hash, tx, |t.blocks|, |tx.vout|);
    assert id !in t.txs && id !in t.txOutputs by {
      DenseGrows(t.txs, tx);
      DenseGrows(t.txOutputs, indices);
    }
    AddKeysAdds(t.spent, tx.vin);
    hide Dense, ValidOutputs, AddOutputs, Indices, RemoveOutputs, AddKeys, Images;
    PutThenRemove(t.txs, id, tx);
    PutThenRemove(t.txOutputs, id, indices);
    PutThenRemove(t.txIndex, hash, TxIndex(id, tx.unlockTime, |t.blocks|));
    assert t.spent + Images(tx.vin) - Images(tx.vin) == t.spent;
  }

  /** A transaction whose outputs are looked for where they were stored is undone exactly. */
  lemma RemoveUndoesAdd(t: Tables, hash: Hash, tx: Tx)
    requires Valid(t) && AddTx(t, hash, tx).Some? && Consistent(tx)
    ensures RemoveTx(AddTx(t, hash, tx).value, hash) == Some(t)
  {
    var n, indices := |tx.vout|, Indices(t.outs, hash, tx, |t.blocks|, |tx.vout|);
    LookupAdded(t, hash, tx, AddOutputs(t.outs, hash, tx, |t.blocks|, n));
    assert indices[..n] == indices;
    RemoveAddedOutputs(t.outs, hash, tx, |t.blocks|, n, indices);
    hide RemoveTx, Dense, AddOutputs, Indices, RemoveOutputs;
  }

  // ---- A transaction on which the two tests disagree ----

  /** How many of the first n outputs are stored under a, and how many are looked for there. */
  ghost function CountStored(tx: Tx, a: nat, n: nat): nat
    requires n <= |tx.vout|
  {
    if n == 0 then 0 else CountStored(tx, a, n - 1) + if StoredAmount(tx, n - 1) == a then 1 else 0
  }

  ghost function CountRemoved(tx: Tx, a: nat, n: nat): nat
    requires n <= |tx.vout|
  {
    if n == 0 then 0 else CountRemoved(tx, a, n - 1) + if RemovedAmount(tx, n - 1) == a then 1 else 0
  }

  lemma AddOutputCount(o: Outputs, amount: nat, origin: Origin, key: nat, unlockTime: nat, height: nat, a: nat)
    requires ValidOutputs(o)
    ensures |OfAmount(AddOutput(o, amount, origin, key, unlockTime, height), a)|
         == |OfAmount(o, a)| + if amount == a then 1 else 0
  {
    AddOutputValid(o, amount, origin, key, unlockTime, height);
    hide ValidOutputs;
  }

  lemma {:induction false} AddOutputsCount(o: Outputs, hash: Hash, tx: Tx, height: nat, n: nat, a: nat)
    requires ValidOutputs(o) && n <= |tx.vout|
    ensures |OfAmount(AddOutputs(o, hash, tx, height, n), a)| == |OfAmount(o, a)| + CountStored(tx, a, n)
  {
    hide ValidOutputs, StoredAmount, AddOutput, OfAmount;
    if n > 0 {
      var before := AddOutputs(o, hash, tx, height, n - 1);
      AddOutputsCount(o, hash, tx, height, n - 1, a);
      AddOutputsValid(o, hash, tx, height, n - 1);
      AddOutputCount(before, StoredAmount(tx, n - 1), Origin(hash, n - 1), tx.vout[n - 1].key, tx.unlockTime, height, a);
    }
  }

  lemma RemoveOutputCount(o: Outputs, amount: nat, index: nat, a: nat)
    requires RemoveOutput(o, amount, index).Some?
    ensures |OfAmount(RemoveOutput(o, amount, index).value, a)| + (if amount == a then 1 else 0) == |OfAmount(o, a)|
  {
    var m := OfAmount(o, amount);
    assert (m - {index}).Keys == m.Keys - {index};
  }

  lemma {:induction false} RemoveOutputsCount(o: Outputs, tx: Tx, indices: seq<nat>, n: nat, a: nat)
    requires n <= |tx.vout| && n <= |indices|
    requires RemoveOutputs(o, tx, indices, n).Some?
    ensures |OfAmount(RemoveOutputs(o, tx, indices, n).value, a)| + CountRemoved(tx, a, n) == |OfAmount(o, a)|
    decreases n
  {
    if n > 0 {
      var r := RemoveOutput(o, RemovedAmount(tx, n - 1), indices[n - 1]).value;
      RemoveOutputCount(o, RemovedAmount(tx, n - 1), indices[n - 1], a);
      RemoveOutputsCount(r, tx, indices, n - 1, a);
      hide OfAmount, RemoveOutput, RemovedAmount;
    }
  }

  /** Output j is stored under a and looked for elsewhere, and no other output makes up for it. */
  lemma {:induction false} FewerRemoved(tx: Tx, a: nat, n: nat, j: nat)
    requires n <= |tx.vout| && j < |tx.vout| && !Consistent(tx)
    requires a == StoredAmount(tx, j) && tx.vout[j].amount != 0
    ensures CountRemoved(tx, a, n) <= CountStored(tx, a, n)
    ensures j < n ==> CountRemoved(tx, a, n) < CountStored(tx, a, n)
  {
    if n > 0 {
      FewerRemoved(tx, a, n - 1, j);
    }
  }

  /**
   * Removing the transaction added last gives back the tables exactly if and only if the
   * test that chose where its outputs are stored agrees with the one that looks for them.
   */
  lemma UndoneExactly(t: Tables, hash: Hash, tx: Tx)
    requires Valid(t) && AddTx(t, hash, tx).Some?
    ensures RemoveTx(AddTx(t, hash, tx).value, hash) == Some(t) <==> Consistent(tx)
  {
    if Consistent(tx) {
      RemoveUndoesAdd(t, hash, tx);
    } else {
      NotUndone(t, hash, tx);
    }
  }

  lemma NotUndone(t: Tables, hash: Hash, tx: Tx)
    requires Valid(t) && AddTx(t, hash, tx).Some? && !Consistent(tx)
    ensures RemoveTx(AddTx(t, hash, tx).value, hash) != Some(t)
  {
    var n, indices := |tx.vout|, Indices(t.outs, hash, tx, |t.blocks|, |tx.vout|);
    var o := AddOutputs(t.outs, hash, tx, |t.blocks|, n);
    var r := RemoveOutputs(o, tx, indices, n);
    LookupAdded(t, hash, tx, o);
    var j :| 0 <= j < n && tx.vout[j].amount != 0;
    var a := StoredAmount(tx, j);
    FewerRemoved(tx, a, n, j);
    AddOutputsCount(t.outs, hash, tx, |t.blocks|, n, a);
    if r.Some? {
      RemoveOutputsCount(o, tx, indices, n, a);
    }
    hide RemoveTx, Dense, AddOutputs, Indices, RemoveOutputs, StoredAmount, CountStored, CountRemoved, OfAmount;
  }

  /** A coinbase transaction of version 3 with an output of amount 5 is stored, and cannot be removed again. */
  lemma VersionThreeCoinbase(key: nat)
    ensures var tx := Tx(3, [Gen], [TxOut(5, key)], 0);
      var t := AddTx(EMPTY, 0, tx);
      t.Some? && RemoveTx(t.value, 0) == None
  {
    var tx := Tx(3, [Gen], [TxOut(5, key)], 0);
    assert tx.vin[..0] == [];
    assert AddKeys({}, tx.vin[..0]) == Some({});
    var t := AddTx(EMPTY, 0, tx).value;
    assert RemovedAmount(tx, 0) == 0 && StoredAmount(tx, 0) == 5;
    assert OfAmount(t.outs, 0) == map[];
  }
}
