/** Registration removes what validation read, and an accepted block adds at most its subsidy (src/blockchain.c). */
module Conservation {
  import opened Bytes
  import opened Codec
  import opened Ledger

  // ----- side conditions the source does not check -----

  ghost predicate FreshIds(r: Rules, u: Utxo, txs: seq<Tx>) {
    && (forall i, o :: 0 <= i < |txs| && o in u ==> r.txid(txs[i]) != o.txHash)
    && (forall i, j :: 0 <= i < j < |txs| ==> r.txid(txs[i]) != r.txid(txs[j]))
  }

  /** Input j of transaction i spends outpoint o. */
  predicate Spends(txs: seq<Tx>, i: nat, j: nat, o: Outpoint)
    requires i < |txs| && j < |txs[i].inputs|
  {
    !IsCoinbase(txs[i].inputs[j]) && txs[i].inputs[j].previous == o
  }

  predicate Before(i: nat, j: nat, k: nat, l: nat) {
    i < k || (i == k && j < l)
  }

  /** No input before input l of transaction k spends o. */
  ghost predicate Unspent(txs: seq<Tx>, k: nat, l: nat, o: Outpoint) {
    forall i, j :: 0 <= i < |txs| && 0 <= j < |txs[i].inputs| && Before(i, j, k, l) ==> !Spends(txs, i, j, o)
  }

  /** No outpoint is spent twice. */
  ghost predicate DistinctSpends(txs: seq<Tx>) {
    forall k, l :: 0 <= k < |txs| && 0 <= l < |txs[k].inputs| && !IsCoinbase(txs[k].inputs[l]) ==>
      Unspent(txs, k, l, txs[k].inputs[l].previous)
  }

  predicate SmallCounts(txs: seq<Tx>) {
    forall i :: 0 <= i < |txs| ==> |txs[i].outputs| <= 0x1_0000_0000
  }

  // ----- what saving and spending do to one outpoint -----

  lemma {:induction false} SaveAt(u: Utxo, id: Hash, outputs: seq<TxOut>, o: Outpoint)
    requires |outputs| <= 0x1_0000_0000
    ensures var w := SaveOutputs(u, id, outputs);
            if o.txHash == id && o.index < |outputs| then o in w && w[o] == outputs[o.index]
            else (o in w <==> o in u) && (o in u ==> w[o] == u[o])
  {
    if outputs != [] {
      var k := |outputs| - 1;
      SaveAt(u, id, outputs[..k], o);
      assert o == Outpoint(id, k) <==> o.txHash == id && o.index == k;
    }
  }

  /** None of the inputs spends o. */
  predicate Spares(inputs: seq<TxIn>, o: Outpoint) {
    forall j :: 0 <= j < |inputs| ==> IsCoinbase(inputs[j]) || inputs[j].previous != o
  }

  lemma {:induction false} SpendAt(u: Utxo, inputs: seq<TxIn>, o: Outpoint)
    ensures var w := SpendInputs(u, inputs);
            (o in w <==> o in u && Spares(inputs, o)) && (o in w ==> w[o] == u[o])
  {
    if inputs != [] {
      var k := |inputs| - 1;
      SpendAt(u, inputs[..k], o);
      assert Spares(inputs, o) <==> Spares(inputs[..k], o) && (IsCoinbase(inputs[k]) || inputs[k].previous != o);
    }
  }

  lemma {:induction false} FindSnoc(r: Rules, txs: seq<Tx>, from: nat, limit: nat, o: Outpoint)
    requires from < limit <= |txs|
    ensures Find(r, txs, from, limit, o)
         == if Find(r, txs, from, limit - 1, o).Some? then Find(r, txs, from, limit - 1, o)
            else Find(r, txs, limit - 1, limit, o)
    decreases limit - from
  {
    if from < limit - 1 {
      FindSnoc(r, txs, from + 1, limit, o);
    }
  }

  lemma {:induction false} FindNames(r: Rules, txs: seq<Tx>, from: nat, limit: nat, o: Outpoint)
    requires from <= limit <= |txs| && Find(r, txs, from, limit, o).Some?
    ensures exists m :: from <= m < limit && r.txid(txs[m]) == o.txHash
    decreases limit - from
  {
    if r.txid(txs[from]) != o.txHash || o.index >= |txs[from].outputs| {
      FindNames(r, txs, from + 1, limit, o);
    }
  }

  /** Where an outpoint comes from before transaction n: the store, or an earlier transaction. */
  function Origin(r: Rules, u: Utxo, txs: seq<Tx>, n: nat, o: Outpoint): (s: Option<TxOut>)
    requires n <= |txs|
  {
    if o in u then Some(u[o]) else Find(r, txs, 0, n, o)
  }

  /** An outpoint with an origin before transaction n is not an output of n or of a later transaction. */
  lemma OriginIsEarlier(r: Rules, u: Utxo, txs: seq<Tx>, n: nat, m: nat, o: Outpoint)
    requires FreshIds(r, u, txs) && n <= m < |txs| && Origin(r, u, txs, n, o).Some?
    ensures o.txHash != r.txid(txs[m])
  {
    if o !in u {
      FindNames(r, txs, 0, n, o);
    }
  }

  /** What was there or was added, and is not spent, is still in the store. */
  lemma {:induction false} RegisteredKeeps(r: Rules, u: Utxo, txs: seq<Tx>, n: nat, o: Outpoint)
    requires n <= |txs| && FreshIds(r, u, txs) && SmallCounts(txs)
    requires Origin(r, u, txs, n, o).Some? && Unspent(txs, n, 0, o)
    ensures o in Registered(r, u, txs, n) && Registered(r, u, txs, n)[o] == Origin(r, u, txs, n, o).value
  {
    if n > 0 {
      var tx, before := txs[n - 1], Registered(r, u, txs, n - 1);
      FindSnoc(r, txs, 0, n, o);
      if Origin(r, u, txs, n - 1, o).Some? {
        OriginIsEarlier(r, u, txs, n - 1, n - 1, o);
        RegisteredKeeps(r, u, txs, n - 1, o);
      }
      SaveAt(before, r.txid(tx), tx.outputs, o);
      assert Spares(tx.inputs, o) by {
        forall j | 0 <= j < |tx.inputs|
          ensures IsCoinbase(tx.inputs[j]) || tx.inputs[j].previous != o
        {
          assert Before(n - 1, j, n, 0) && !Spends(txs, n - 1, j, o);
        }
      }
      SpendAt(SaveOutputs(before, r.txid(tx), tx.outputs), tx.inputs, o);
    }
  }

  /** Registration adds only outputs of the transactions registered. */
  lemma {:induction false} RegisteredFrom(r: Rules, u: Utxo, txs: seq<Tx>, n: nat, o: Outpoint)
    requires n <= |txs| && SmallCounts(txs) && o in Registered(r, u, txs, n)
    ensures o in u || exists m :: 0 <= m < n && r.txid(txs[m]) == o.txHash
  {
    if n > 0 {
      var tx, before := txs[n - 1], Registered(r, u, txs, n - 1);
      SpendAt(SaveOutputs(before, r.txid(tx), tx.outputs), tx.inputs, o);
      SaveAt(before, r.txid(tx), tx.outputs, o);
      if o in before {
        RegisteredFrom(r, u, txs, n - 1, o);
      }
    }
  }

  // ----- validation and registration agree -----

  /** The store when registration reaches input j of transaction i. */
  function StoreAt(r: Rules, u: Utxo, txs: seq<Tx>, i: nat, j: nat): (w: Utxo)
    requires i < |txs| && j <= |txs[i].inputs|
  {
    SpendInputs(SaveOutputs(Registered(r, u, txs, i), r.txid(txs[i]), txs[i].outputs), txs[i].inputs[..j])
  }

  /** The entry that input j of transaction i removes is the source validation read for it. */
  predicate RemovesItsSource(r: Rules, u: Utxo, txs: seq<Tx>, i: nat, j: nat)
    requires i < |txs| && j < |txs[i].inputs|
  {
    IsCoinbase(txs[i].inputs[j]) ||
      var o := txs[i].inputs[j].previous;
      o in StoreAt(r, u, txs, i, j) && Search(r, u, txs, i, o) == Some(StoreAt(r, u, txs, i, j)[o])
  }

  ghost predicate AllRemoveTheirSource(r: Rules, u: Utxo, txs: seq<Tx>) {
    forall i, j :: 0 <= i < |txs| && 0 <= j < |txs[i].inputs| ==> RemovesItsSource(r, u, txs, i, j)
  }

  lemma SourceRemoved(r: Rules, u: Utxo, txs: seq<Tx>, i: nat, j: nat)
    requires FreshIds(r, u, txs) && SmallCounts(txs)
    requires i < |txs| && j < |txs[i].inputs| && InputSigned(r, u, txs, i, j)
    requires Unspent(txs, i, j, txs[i].inputs[j].previous)
    ensures RemovesItsSource(r, u, txs, i, j)
  {
    var tx := txs[i];
    if !IsCoinbase(tx.inputs[j]) {
      var o := tx.inputs[j].previous;
      var before := Registered(r, u, txs, i);
      assert Unspent(txs, i, 0, o);
      RegisteredKeeps(r, u, txs, i, o);
      OriginIsEarlier(r, u, txs, i, i, o);
      SaveAt(before, r.txid(tx), tx.outputs, o);
      assert Spares(tx.inputs[..j], o) by {
        forall l | 0 <= l < j
          ensures IsCoinbase(tx.inputs[l]) || tx.inputs[l].previous != o
        {
          assert Before(i, l, i, j) && !Spends(txs, i, l, o);
        }
      }
      SpendAt(SaveOutputs(before, r.txid(tx), tx.outputs), tx.inputs[..j], o);
    }
  }

  /** A spent outpoint never comes back in the same block. */
  lemma {:induction false} SpentStaysGone(r: Rules, u: Utxo, txs: seq<Tx>, i: nat, j: nat, k: nat)
    requires FreshIds(r, u, txs) && SmallCounts(txs)
    requires i < k <= |txs| && j < |txs[i].inputs| && !IsCoinbase(txs[i].inputs[j])
    requires Origin(r, u, txs, i, txs[i].inputs[j].previous).Some?
    ensures txs[i].inputs[j].previous !in Registered(r, u, txs, k)
  {
    var o, tx, before := txs[i].inputs[j].previous, txs[k - 1], Registered(r, u, txs, k - 1);
    OriginIsEarlier(r, u, txs, i, k - 1, o);
    SaveAt(before, r.txid(tx), tx.outputs, o);
    SpendAt(SaveOutputs(before, r.txid(tx), tx.outputs), tx.inputs, o);
    if i < k - 1 {
      SpentStaysGone(r, u, txs, i, j, k - 1);
    }
  }

  lemma SecondSpendMisses(r: Rules, u: Utxo, txs: seq<Tx>, i: nat, j: nat, k: nat, l: nat)
    requires FreshIds(r, u, txs) && SmallCounts(txs)
    requires i < |txs| && j < |txs[i].inputs| && k < |txs| && l < |txs[k].inputs| && Before(i, j, k, l)
    requires Spends(txs, i, j, txs[k].inputs[l].previous) && InputSigned(r, u, txs, i, j)
    ensures !RemovesItsSource(r, u, txs, k, l)
  {
    var o, tx, before := txs[k].inputs[l].previous, txs[k], Registered(r, u, txs, k);
    OriginIsEarlier(r, u, txs, i, k, o);
    SaveAt(before, r.txid(tx), tx.outputs, o);
    SpendAt(SaveOutputs(before, r.txid(tx), tx.outputs), tx.inputs[..l], o);
    if i < k {
      SpentStaysGone(r, u, txs, i, j, k);
    } else {
      assert tx.inputs[..l][j] == tx.inputs[j];
    }
  }

  /** Registration removes exactly the sources validation read if and only if no outpoint is spent twice. */
  lemma SourcesRemovedExactly(r: Rules, u: Utxo, txs: seq<Tx>, height: nat)
    requires FreshIds(r, u, txs) && SmallCounts(txs) && AllTxValid(r, u, txs, height)
    ensures AllRemoveTheirSource(r, u, txs) <==> DistinctSpends(txs)
  {
    forall i, j | 0 <= i < |txs| && 0 <= j < |txs[i].inputs|
      ensures InputSigned(r, u, txs, i, j)
      ensures DistinctSpends(txs) ==> RemovesItsSource(r, u, txs, i, j)
    {
      assert TxValid(r, u, txs, i, height);
      if DistinctSpends(txs) && !IsCoinbase(txs[i].inputs[j]) {
        SourceRemoved(r, u, txs, i, j);
      }
    }
    forall i, j, k, l | 0 <= i < |txs| && 0 <= j < |txs[i].inputs| && 0 <= k < |txs| && 0 <= l < |txs[k].inputs|
      && Before(i, j, k, l) && Spends(txs, i, j, txs[k].inputs[l].previous)
      ensures !AllRemoveTheirSource(r, u, txs)
    {
      SecondSpendMisses(r, u, txs, i, j, k, l);
    }
  }

  // ----- the total value -----

  lemma {:induction false} SaveTotal(u: Utxo, id: Hash, outputs: seq<TxOut>)
    requires |outputs| <= 0x1_0000_0000
    requires forall o :: o in u ==> o.txHash != id
    ensures Total(SaveOutputs(u, id, outputs)) == Total(u) + OutputSum(outputs)
  {
    if outputs != [] {
      var k := |outputs| - 1;
      var w, o := SaveOutputs(u, id, outputs[..k]), Outpoint(id, k);
      SaveTotal(u, id, outputs[..k]);
      assert o !in w by {
        SaveAt(u, id, outputs[..k], o);
      }
      assert SaveOutputs(u, id, outputs) == w[o := outputs[k]];
      TotalAdd(w, o, outputs[k]);
    }
  }

  /** Spending the first j inputs takes away exactly what validation counted for them. */
  lemma {:induction false} SpendTotal(r: Rules, u: Utxo, txs: seq<Tx>, i: nat, j: nat)
    requires i < |txs| && j <= |txs[i].inputs| && AllRemoveTheirSource(r, u, txs)
    ensures Total(StoreAt(r, u, txs, i, j)) == Total(StoreAt(r, u, txs, i, 0)) - InputSum(r, u, txs, i, txs[i].inputs[..j])
  {
    if j > 0 {
      var inputs := txs[i].inputs;
      SpendTotal(r, u, txs, i, j - 1);
      assert inputs[..j][..j - 1] == inputs[..j - 1] && inputs[..j][j - 1] == inputs[j - 1];
      assert RemovesItsSource(r, u, txs, i, j - 1);
      if !IsCoinbase(inputs[j - 1]) {
        TotalRemove(StoreAt(r, u, txs, i, j - 1), inputs[j - 1].previous);
      }
    }
  }

  lemma StepTotal(r: Rules, u: Utxo, txs: seq<Tx>, i: nat)
    requires i < |txs| && FreshIds(r, u, txs) && SmallCounts(txs) && AllRemoveTheirSource(r, u, txs)
    ensures Total(StoreAt(r, u, txs, i, 0)) == Total(Registered(r, u, txs, i)) + OutputSum(txs[i].outputs)
    ensures Total(Registered(r, u, txs, i + 1)) == Total(Registered(r, u, txs, i)) - Residue(r, u, txs, i)
  {
    var before, tx := Registered(r, u, txs, i), txs[i];
    forall o | o in before
      ensures o.txHash != r.txid(tx)
    {
      RegisteredFrom(r, u, txs, i, o);
    }
    SaveTotal(before, r.txid(tx), tx.outputs);
    SpendTotal(r, u, txs, i, |tx.inputs|);
    assert tx.inputs[..|tx.inputs|] == tx.inputs && tx.inputs[..0] == [];
  }

  /** The value of the store changes by exactly the residues. */
  lemma {:induction false} RegisteredTotal(r: Rules, u: Utxo, txs: seq<Tx>, n: nat)
    requires n <= |txs| && FreshIds(r, u, txs) && SmallCounts(txs) && AllRemoveTheirSource(r, u, txs)
    ensures Total(Registered(r, u, txs, n)) == Total(u) - Fees(r, u, txs, 0, n)
  {
    if n > 0 {
      StepTotal(r, u, txs, n - 1);
      RegisteredTotal(r, u, txs, n - 1);
    }
  }

  // ----- signs and bounds -----

  function BlockOutputs(txs: seq<Tx>, n: nat): (s: int)
    requires n <= |txs|
  {
    if n == 0 then 0 else BlockOutputs(txs, n - 1) + OutputSum(txs[n - 1].outputs)
  }

  ghost predicate AllLegal(txs: seq<Tx>) {
    forall i :: 0 <= i < |txs| ==> TxLegal(txs[i])
  }

  lemma {:induction false} OutputSumNotNegative(outputs: seq<TxOut>)
    requires forall i :: 0 <= i < |outputs| ==> outputs[i].value >= 0
    ensures OutputSum(outputs) >= 0
  {
    if outputs != [] {
      OutputSumNotNegative(outputs[..|outputs| - 1]);
    }
  }

  lemma {:induction false} BlockOutputsMonotone(txs: seq<Tx>, m: nat, n: nat)
    requires m <= n <= |txs| && AllLegal(txs)
    ensures 0 <= BlockOutputs(txs, m) <= BlockOutputs(txs, n)
    decreases n
  {
    if n > 0 {
      OutputSumNotNegative(txs[n - 1].outputs);
      BlockOutputsMonotone(txs, if m < n then m else m - 1, n - 1);
    }
  }

  lemma {:induction false} FindNotNegative(r: Rules, txs: seq<Tx>, from: nat, limit: nat, o: Outpoint)
    requires from <= limit <= |txs| && AllLegal(txs)
    ensures ValueOf(Find(r, txs, from, limit, o)) >= 0
    decreases limit - from
  {
    if from < limit {
      assert TxLegal(txs[from]);
      FindNotNegative(r, txs, from + 1, limit, o);
    }
  }

  lemma {:induction false} InputSumNotNegative(r: Rules, u: Utxo, txs: seq<Tx>, limit: nat, inputs: seq<TxIn>)
    requires limit <= |txs| && AllLegal(txs) && NoNegative(u)
    ensures InputSum(r, u, txs, limit, inputs) >= 0
  {
    if inputs != [] {
      FindNotNegative(r, txs, 0, limit, inputs[|inputs| - 1].previous);
      InputSumNotNegative(r, u, txs, limit, inputs[..|inputs| - 1]);
    }
  }

  lemma SaveNoNegative(u: Utxo, id: Hash, outputs: seq<TxOut>)
    requires NoNegative(u) && |outputs| <= 0x1_0000_0000
    requires forall i :: 0 <= i < |outputs| ==> outputs[i].value >= 0
    ensures NoNegative(SaveOutputs(u, id, outputs))
  {
    forall o | o in SaveOutputs(u, id, outputs)
      ensures SaveOutputs(u, id, outputs)[o].value >= 0
    {
      SaveAt(u, id, outputs, o);
    }
  }

  lemma StoreAtNoNegative(r: Rules, u: Utxo, txs: seq<Tx>, i: nat, j: nat)
    requires i < |txs| && j <= |txs[i].inputs| && NoNegative(Registered(r, u, txs, i)) && AllLegal(txs) && SmallCounts(txs)
    ensures NoNegative(StoreAt(r, u, txs, i, j))
  {
    var saved := SaveOutputs(Registered(r, u, txs, i), r.txid(txs[i]), txs[i].outputs);
    SaveNoNegative(Registered(r, u, txs, i), r.txid(txs[i]), txs[i].outputs);
    forall o | o in StoreAt(r, u, txs, i, j)
      ensures StoreAt(r, u, txs, i, j)[o].value >= 0
    {
      SpendAt(saved, txs[i].inputs[..j], o);
    }
  }

  lemma {:induction false} RegisteredNoNegative(r: Rules, u: Utxo, txs: seq<Tx>, n: nat)
    requires n <= |txs| && NoNegative(u) && AllLegal(txs) && SmallCounts(txs)
    ensures NoNegative(Registered(r, u, txs, n))
  {
    if n > 0 {
      RegisteredNoNegative(r, u, txs, n - 1);
      var tx := txs[n - 1];
      StoreAtNoNegative(r, u, txs, n - 1, |tx.inputs|);
      assert tx.inputs[..|tx.inputs|] == tx.inputs;
    }
  }

  lemma ResidueBelow(r: Rules, u: Utxo, txs: seq<Tx>, i: nat)
    requires i < |txs| && AllLegal(txs) && NoNegative(u)
    ensures -OutputSum(txs[i].outputs) <= Residue(r, u, txs, i)
  {
    InputSumNotNegative(r, u, txs, i, txs[i].inputs);
  }

  lemma {:induction false} FeesBelow(r: Rules, u: Utxo, txs: seq<Tx>, n: nat)
    requires n <= |txs| && NoNegative(u) && AllLegal(txs)
    ensures -BlockOutputs(txs, n) <= Fees(r, u, txs, 0, n)
  {
    if n > 0 {
      FeesBelow(r, u, txs, n - 1);
      ResidueBelow(r, u, txs, n - 1);
    }
  }

  const WORD := 0x1_0000_0000_0000_0000

  /** No sum of inputs or outputs of the block overflows 64 bits. */
  lemma SumsFit(r: Rules, u: Utxo, txs: seq<Tx>, i: nat)
    requires i < |txs| && FreshIds(r, u, txs) && SmallCounts(txs) && AllRemoveTheirSource(r, u, txs)
    requires NoNegative(u) && AllLegal(txs) && Total(u) + BlockOutputs(txs, |txs|) < WORD
    ensures 0 <= InputSum(r, u, txs, i, txs[i].inputs) < WORD
    ensures 0 <= OutputSum(txs[i].outputs) < WORD
  {
    var tx := txs[i];
    InputSumNotNegative(r, u, txs, i, tx.inputs);
    OutputSumNotNegative(tx.outputs);
    RegisteredTotal(r, u, txs, i);
    FeesBelow(r, u, txs, i);
    BlockOutputsMonotone(txs, i + 1, |txs|);
    BlockOutputsMonotone(txs, i, i);
    StepTotal(r, u, txs, i);
    SpendTotal(r, u, txs, i, |tx.inputs|);
    assert tx.inputs[..|tx.inputs|] == tx.inputs;
    RegisteredNoNegative(r, u, txs, i);
    StoreAtNoNegative(r, u, txs, i, |tx.inputs|);
    TotalNotNegative(StoreAt(r, u, txs, i, |tx.inputs|));
    TotalNotNegative(u);
  }

  lemma {:induction false} FeesSplit(r: Rules, u: Utxo, txs: seq<Tx>, n: nat)
    requires 1 <= n <= |txs|
    ensures Fees(r, u, txs, 0, n) == Residue(r, u, txs, 0) + Fees(r, u, txs, 1, n)
  {
    if n > 1 {
      FeesSplit(r, u, txs, n - 1);
    }
  }

  /** Every transaction after the first pays no more than it takes in. */
  ghost predicate ResiduesCovered(r: Rules, u: Utxo, txs: seq<Tx>) {
    forall i :: 0 < i < |txs| ==> 0 <= Residue(r, u, txs, i)
  }

  lemma {:induction false} FeesNotNegative(r: Rules, u: Utxo, txs: seq<Tx>, n: nat)
    requires 1 <= n <= |txs| && ResiduesCovered(r, u, txs)
    ensures Fees(r, u, txs, 1, n) >= 0
  {
    if n > 1 {
      FeesNotNegative(r, u, txs, n - 1);
      assert Residue(r, u, txs, n - 1) >= 0;
    }
  }

  // ----- conservation -----

  /** No transaction's own outputs overflow a 64-bit word. */
  ghost predicate OutputsFit(txs: seq<Tx>) {
    forall i :: 0 <= i < |txs| ==> OutputSum(txs[i].outputs) < WORD
  }

  /** What the source leaves unchecked: fresh transaction hashes, no outpoint spent twice, output sums that fit a word. */
  ghost predicate Clean(r: Rules, u: Utxo, txs: seq<Tx>) {
    FreshIds(r, u, txs) && DistinctSpends(txs) && SmallCounts(txs) && OutputsFit(txs)
  }

  lemma ValidIsLegal(r: Rules, u: Utxo, txs: seq<Tx>, height: nat)
    requires AllTxValid(r, u, txs, height)
    ensures AllLegal(txs)
  {
    forall i | 0 <= i < |txs|
      ensures TxLegal(txs[i])
    {
      assert TxValid(r, u, txs, i, height);
    }
  }

  /** An accepted block: clean, over a store without negative values. */
  ghost predicate Accepted(r: Rules, u: Utxo, txs: seq<Tx>, height: nat) {
    AllTxValid(r, u, txs, height) && Clean(r, u, txs) && NoNegative(u)
  }

  /** A wrapped sum only understates. */
  lemma WrapBelow(n: nat)
    ensures Wrap(n) <= n
  {
  }

  lemma ResidueCovered(r: Rules, u: Utxo, txs: seq<Tx>, height: nat, i: nat)
    requires AllTxValid(r, u, txs, height) && NoNegative(u) && 0 < i < |txs| && OutputSum(txs[i].outputs) < WORD
    ensures 0 <= Residue(r, u, txs, i)
  {
    assert TxValid(r, u, txs, i, height);
    ValidIsLegal(r, u, txs, height);
    InputSumNotNegative(r, u, txs, i, txs[i].inputs);
    OutputSumNotNegative(txs[i].outputs);
    WrapBelow(InputSum(r, u, txs, i, txs[i].inputs));
  }

  /** What the first transaction may pay out: its inputs, the subsidy and the exact fees of the others. */
  function Reward(r: Rules, u: Utxo, txs: seq<Tx>, height: nat): (n: int)
    requires txs != []
  {
    InputSum(r, u, txs, 0, txs[0].inputs) + Subsidy(height) + Fees(r, u, txs, 1, |txs|)
  }

  lemma RewardParts(r: Rules, u: Utxo, txs: seq<Tx>, height: nat)
    requires AllTxValid(r, u, txs, height) && NoNegative(u) && txs != []
    requires forall i :: 0 < i < |txs| ==> OutputSum(txs[i].outputs) < WORD
    ensures 0 <= InputSum(r, u, txs, 0, txs[0].inputs) && 0 <= Fees(r, u, txs, 1, |txs|)
    ensures Fees(r, u, txs, 0, |txs|) + Subsidy(height) == Reward(r, u, txs, height) - OutputSum(txs[0].outputs)
  {
    ValidIsLegal(r, u, txs, height);
    InputSumNotNegative(r, u, txs, 0, txs[0].inputs);
    forall i | 0 < i < |txs|
      ensures 0 <= Residue(r, u, txs, i)
    {
      ResidueCovered(r, u, txs, height, i);
    }
    FeesNotNegative(r, u, txs, |txs|);
    FeesSplit(r, u, txs, |txs|);
  }

  lemma WrappedReward(a: nat, b: nat, c: nat)
    ensures Wrap(Wrap(a) + b + Wrap(c)) <= a + b + c
  {
    WrapBelow(a);
    WrapBelow(c);
    WrapBelow(Wrap(a) + b + Wrap(c));
  }

  /** The first transaction pays out no more than its reward, although the comparison is one of wrapped words. */
  lemma CoinbasePaid(r: Rules, u: Utxo, txs: seq<Tx>, height: nat)
    requires Accepted(r, u, txs, height) && txs != []
    ensures OutputSum(txs[0].outputs) <= Reward(r, u, txs, height)
    ensures 0 <= Fees(r, u, txs, 0, |txs|) + Subsidy(height)
  {
    RewardParts(r, u, txs, height);
    WrappedReward(InputSum(r, u, txs, 0, txs[0].inputs), Subsidy(height), Fees(r, u, txs, 1, |txs|));
    assert TxValid(r, u, txs, 0, height);
    OutputSumNotNegative(txs[0].outputs);
  }

  /**
   * Block conservation: each source validation read is the entry registration removes, and the value of the store
   * grows by at most the subsidy, although the fees are summed before the later transactions are checked. Sums of
   * inputs, fees and the reward may wrap: they are then understated.
   */
  lemma BlockConserves(r: Rules, u: Utxo, txs: seq<Tx>, height: nat)
    requires Accepted(r, u, txs, height)
    ensures var w := Registered(r, u, txs, |txs|);
            && AllRemoveTheirSource(r, u, txs) && NoNegative(w)
            && Total(w) == Total(u) - Fees(r, u, txs, 0, |txs|)
            && Total(w) <= Total(u) + Subsidy(height)
  {
    SourcesRemovedExactly(r, u, txs, height);
    RegisteredTotal(r, u, txs, |txs|);
    ValidIsLegal(r, u, txs, height);
    RegisteredNoNegative(r, u, txs, |txs|);
    if txs != [] {
      CoinbasePaid(r, u, txs, height);
    }
  }

  /** What the inputs of the first n transactions are worth. */
  function BlockInputs(r: Rules, u: Utxo, txs: seq<Tx>, n: nat): (v: int)
    requires n <= |txs|
  {
    if n == 0 then 0 else BlockInputs(r, u, txs, n - 1) + InputSum(r, u, txs, n - 1, txs[n - 1].inputs)
  }

  lemma {:induction false} FeesAreDifference(r: Rules, u: Utxo, txs: seq<Tx>, n: nat)
    requires n <= |txs|
    ensures Fees(r, u, txs, 0, n) == BlockInputs(r, u, txs, n) - BlockOutputs(txs, n)
  {
    if n > 0 {
      FeesAreDifference(r, u, txs, n - 1);
    }
  }

  /**
   * Exactly when the output sums have to fit: while the inputs and the subsidy of a block are together below 2^64, the
   * store grows by at most the subsidy if and only if every transaction's outputs sum below 2^64.
   */
  lemma ConservedExactly(r: Rules, u: Utxo, txs: seq<Tx>, height: nat)
    requires AllTxValid(r, u, txs, height) && NoNegative(u)
    requires FreshIds(r, u, txs) && DistinctSpends(txs) && SmallCounts(txs)
    requires BlockInputs(r, u, txs, |txs|) + Subsidy(height) < WORD
    ensures Total(Registered(r, u, txs, |txs|)) <= Total(u) + Subsidy(height) <==> OutputsFit(txs)
  {
    SourcesRemovedExactly(r, u, txs, height);
    RegisteredTotal(r, u, txs, |txs|);
    FeesAreDifference(r, u, txs, |txs|);
    ValidIsLegal(r, u, txs, height);
    if OutputsFit(txs) {
      BlockConserves(r, u, txs, height);
    } else {
      var i :| 0 <= i < |txs| && OutputSum(txs[i].outputs) >= WORD;
      BlockOutputsMonotone(txs, 0, i);
      BlockOutputsMonotone(txs, i + 1, |txs|);
    }
  }

  // ----- nothing wraps -----

  /** The store, the block's outputs and its subsidy together fit a word. */
  ghost predicate Bounded(r: Rules, u: Utxo, txs: seq<Tx>, height: nat) {
    Accepted(r, u, txs, height) && Total(u) + BlockOutputs(txs, |txs|) + Subsidy(height) < WORD
  }

  lemma ResidueFits(r: Rules, u: Utxo, txs: seq<Tx>, height: nat, i: nat)
    requires Bounded(r, u, txs, height) && i < |txs|
    ensures 0 <= InputSum(r, u, txs, i, txs[i].inputs) < WORD && 0 <= OutputSum(txs[i].outputs) < WORD
    ensures i > 0 ==> 0 <= Residue(r, u, txs, i) < WORD
  {
    SourcesRemovedExactly(r, u, txs, height);
    ValidIsLegal(r, u, txs, height);
    SumsFit(r, u, txs, i);
    assert TxValid(r, u, txs, i, height);
  }

  lemma RewardFits(r: Rules, u: Utxo, txs: seq<Tx>, height: nat)
    requires Bounded(r, u, txs, height) && txs != []
    ensures 0 <= Fees(r, u, txs, 1, |txs|) <= Reward(r, u, txs, height) < WORD
  {
    SourcesRemovedExactly(r, u, txs, height);
    ValidIsLegal(r, u, txs, height);
    RewardParts(r, u, txs, height);
    RegisteredTotal(r, u, txs, |txs|);
    RegisteredNoNegative(r, u, txs, |txs|);
    TotalNotNegative(Registered(r, u, txs, |txs|));
    BlockOutputsMonotone(txs, 1, |txs|);
    assert BlockOutputs(txs, 1) == BlockOutputs(txs, 0) + OutputSum(txs[0].outputs);
  }

  /** The 64-bit sums and residue of a transaction are the exact ones. */
  ghost predicate ExactSums(r: Rules, u: Utxo, txs: seq<Tx>, i: nat)
    requires i < |txs|
  {
    && Wrap(InputSum(r, u, txs, i, txs[i].inputs)) == InputSum(r, u, txs, i, txs[i].inputs)
    && Wrap(OutputSum(txs[i].outputs)) == OutputSum(txs[i].outputs)
    && (i > 0 ==> Wrap(Residue(r, u, txs, i)) == Residue(r, u, txs, i))
  }

  lemma SumsExact(r: Rules, u: Utxo, txs: seq<Tx>, height: nat, i: nat)
    requires Bounded(r, u, txs, height) && i < |txs|
    ensures ExactSums(r, u, txs, i)
  {
    ResidueFits(r, u, txs, height, i);
  }

  /** For an accepted clean block every 64-bit sum, difference and fee total is the exact one. */
  lemma NothingWraps(r: Rules, u: Utxo, txs: seq<Tx>, height: nat)
    requires Bounded(r, u, txs, height) && txs != []
    ensures forall i :: 0 <= i < |txs| ==> ExactSums(r, u, txs, i)
    ensures Wrap(Fees(r, u, txs, 1, |txs|)) == Fees(r, u, txs, 1, |txs|)
    ensures Wrap(Reward(r, u, txs, height)) == Reward(r, u, txs, height)
  {
    RewardFits(r, u, txs, height);
    forall i | 0 <= i < |txs|
      ensures ExactSums(r, u, txs, i)
    {
      SumsExact(r, u, txs, height, i);
    }
  }

  // ----- the failing blocks -----

  /**
   * A coinbase that pays itself the subsidy, and a transaction that spends o twice and pays out twice its value. Its
   * script has to work for both inputs, as it does for whoever may spend o once.
   */
  ghost predicate SpendsTwice(r: Rules, u: Utxo, coinbase: Tx, tx: Tx, o: Outpoint, height: nat) {
    && o in u && !IsOutpointEmpty(o) && 0 <= 2 * u[o].value < WORD
    && TxLegal(coinbase) && |coinbase.inputs| == 1 && IsCoinbase(coinbase.inputs[0])
    && OutputSum(coinbase.outputs) == Subsidy(height)
    && TxLegal(tx) && |tx.inputs| == 2 && tx.inputs[0].previous == tx.inputs[1].previous == o
    && r.scriptWorks(tx, 0, u[o]) && r.scriptWorks(tx, 1, u[o])
    && OutputSum(tx.outputs) == 2 * u[o].value
  }

  lemma SpendsTwiceAmounts(r: Rules, u: Utxo, coinbase: Tx, tx: Tx, o: Outpoint, height: nat)
    requires SpendsTwice(r, u, coinbase, tx, o, height)
    ensures var txs := [coinbase, tx];
            && InputSum(r, u, txs, 0, coinbase.inputs) == 0 && InputSum(r, u, txs, 1, tx.inputs) == 2 * u[o].value
            && Fees(r, u, txs, 1, 2) == 0
  {
    var txs := [coinbase, tx];
    assert coinbase.inputs[..0] == [] && tx.inputs[..1] == [tx.inputs[0]] && tx.inputs[..1][..0] == [];
    assert Search(r, u, txs, 1, o) == Some(u[o]);
    assert InputSum(r, u, txs, 1, tx.inputs[..1]) == u[o].value;
    assert Fees(r, u, txs, 1, 1) == 0;
  }

  lemma SpendsTwiceValid(r: Rules, u: Utxo, coinbase: Tx, tx: Tx, o: Outpoint, height: nat)
    requires SpendsTwice(r, u, coinbase, tx, o, height)
    ensures AllTxValid(r, u, [coinbase, tx], height)
  {
    var txs := [coinbase, tx];
    SpendsTwiceAmounts(r, u, coinbase, tx, o, height);
    assert InputSigned(r, u, txs, 0, 0) && InputSigned(r, u, txs, 1, 0) && InputSigned(r, u, txs, 1, 1);
    assert TxValid(r, u, txs, 0, height) && TxValid(r, u, txs, 1, height);
  }

  lemma SpendsTwiceTotal(r: Rules, u: Utxo, coinbase: Tx, tx: Tx, o: Outpoint, height: nat)
    requires SpendsTwice(r, u, coinbase, tx, o, height)
    requires FreshIds(r, u, [coinbase, tx]) && SmallCounts([coinbase, tx])
    ensures Total(Registered(r, u, [coinbase, tx], 2)) == Total(u) + Subsidy(height) + u[o].value
  {
    var txs := [coinbase, tx];
    assert txs[0] == coinbase && txs[1] == tx;
    var paid := SaveOutputs(u, r.txid(coinbase), coinbase.outputs);
    SaveTotal(u, r.txid(coinbase), coinbase.outputs);
    assert coinbase.inputs[..0] == [] && SpendInputs(paid, coinbase.inputs) == paid;
    assert Registered(r, u, txs, 0) == u && Registered(r, u, txs, 1) == paid;
    forall p | p in paid
      ensures p.txHash != r.txid(tx)
    {
      SaveAt(u, r.txid(coinbase), coinbase.outputs, p);
    }
    SaveTotal(paid, r.txid(tx), tx.outputs);
    SaveAt(u, r.txid(coinbase), coinbase.outputs, o);
    SaveAt(paid, r.txid(tx), tx.outputs, o);
    TwiceIsOnce(SaveOutputs(paid, r.txid(tx), tx.outputs), tx.inputs, o);
  }

  lemma TwiceIsOnce(w: Utxo, inputs: seq<TxIn>, o: Outpoint)
    requires o in w && !IsOutpointEmpty(o) && |inputs| == 2 && inputs[0].previous == inputs[1].previous == o
    ensures Total(SpendInputs(w, inputs)) == Total(w) - w[o].value
  {
    TotalRemove(w, o);
    assert inputs[..1][..0] == [] && SpendInputs(w, inputs[..1]) == w - {o} && SpendInputs(w, inputs) == w - {o} - {o} == w - {o};
  }

  /** An outpoint spent twice by one transaction is counted twice by validation and removed once by registration. */
  lemma RepeatedSpendCountedTwice(r: Rules, u: Utxo, tx: Tx, o: Outpoint, a: TxIn, b: TxIn)
    requires o in u && !IsOutpointEmpty(o) && a.previous == b.previous == o && tx.inputs == [a, b]
    requires FreshIds(r, u, [tx]) && SmallCounts([tx])
    ensures InputSum(r, u, [tx], 0, tx.inputs) == 2 * u[o].value
    ensures Total(Registered(r, u, [tx], 1)) == Total(u) + OutputSum(tx.outputs) - u[o].value
  {
    var w := SaveOutputs(u, r.txid(tx), tx.outputs);
    assert [tx][0] == tx;
    SaveTotal(u, r.txid(tx), tx.outputs);
    SaveAt(u, r.txid(tx), tx.outputs, o);
    TwiceIsOnce(w, tx.inputs, o);
    assert [a, b][..1] == [a] && [a][..0] == [];
    assert InputSum(r, u, [tx], 0, [a]) == u[o].value;
    assert Registered(r, u, [tx], 0) == u;
  }

  /** The failing input of conservation: the block is valid, and its value grows by the value spent twice beyond the subsidy. */
  lemma RepeatedSpendAccepted(r: Rules, u: Utxo, coinbase: Tx, tx: Tx, o: Outpoint, height: nat)
    requires SpendsTwice(r, u, coinbase, tx, o, height)
    requires FreshIds(r, u, [coinbase, tx]) && SmallCounts([coinbase, tx])
    ensures AllTxValid(r, u, [coinbase, tx], height) && !DistinctSpends([coinbase, tx])
    ensures Total(Registered(r, u, [coinbase, tx], 2)) == Total(u) + Subsidy(height) + u[o].value
  {
    SpendsTwiceValid(r, u, coinbase, tx, o, height);
    SpendsTwiceTotal(r, u, coinbase, tx, o, height);
    var txs := [coinbase, tx];
    assert Before(1, 0, 1, 1) && Spends(txs, 1, 0, o) && !Unspent(txs, 1, 1, o);
  }

  /** A block of one transaction with one coinbase input. */
  ghost predicate LoneCoinbase(r: Rules, u: Utxo, coinbase: Tx) {
    |coinbase.inputs| == 1 && IsCoinbase(coinbase.inputs[0]) && FreshIds(r, u, [coinbase]) && SmallCounts([coinbase])
  }

  lemma LoneCoinbaseAmounts(r: Rules, u: Utxo, coinbase: Tx)
    requires LoneCoinbase(r, u, coinbase)
    ensures InputSum(r, u, [coinbase], 0, coinbase.inputs) == 0 && Fees(r, u, [coinbase], 1, 1) == 0
    ensures Total(Registered(r, u, [coinbase], 1)) == Total(u) + OutputSum(coinbase.outputs)
  {
    var paid := SaveOutputs(u, r.txid(coinbase), coinbase.outputs);
    assert [coinbase][0] == coinbase && coinbase.inputs[..0] == [];
    SaveTotal(u, r.txid(coinbase), coinbase.outputs);
    assert SpendInputs(paid, coinbase.inputs) == paid;
    assert Registered(r, u, [coinbase], 0) == u && Registered(r, u, [coinbase], 1) == paid;
  }

  /** An accepted lone coinbase grows the store by at most the subsidy exactly when its outputs sum below 2^64. */
  lemma LoneCoinbaseExactly(r: Rules, u: Utxo, coinbase: Tx, height: nat)
    requires LoneCoinbase(r, u, coinbase) && AllTxValid(r, u, [coinbase], height)
    ensures Total(Registered(r, u, [coinbase], 1)) <= Total(u) + Subsidy(height) <==> OutputSum(coinbase.outputs) < WORD
  {
    LoneCoinbaseAmounts(r, u, coinbase);
    assert TxValid(r, u, [coinbase], 0, height);
    OutputSumNotNegative(coinbase.outputs);
  }

  /** Outputs that sum to 2^64 exactly are a sum of 0 to the node: the block is valid and grows the store by 2^64. */
  lemma OverflowAccepted(r: Rules, u: Utxo, coinbase: Tx, height: nat)
    requires LoneCoinbase(r, u, coinbase) && TxLegal(coinbase) && OutputSum(coinbase.outputs) == WORD
    ensures AllTxValid(r, u, [coinbase], height)
    ensures Total(Registered(r, u, [coinbase], 1)) == Total(u) + WORD
  {
    LoneCoinbaseAmounts(r, u, coinbase);
    assert InputSigned(r, u, [coinbase], 0, 0);
    assert TxValid(r, u, [coinbase], 0, height);
  }

  /** Three legal values that do so. */
  lemma OverflowingOutputs(script: seq<byte>)
    ensures var outputs := [TxOut(0x7FFF_FFFF_FFFF_FFFF, script), TxOut(0x7FFF_FFFF_FFFF_FFFF, script), TxOut(2, script)];
            OutputSum(outputs) == WORD && forall i :: 0 <= i < |outputs| ==> outputs[i].value >= 0
  {
    var most, two := TxOut(0x7FFF_FFFF_FFFF_FFFF, script), TxOut(2, script);
    assert [most, most, two][..2] == [most, most] && [most, most][..1] == [most] && [most][..0] == [];
    assert OutputSum([most]) == 0x7FFF_FFFF_FFFF_FFFF;
  }
}
