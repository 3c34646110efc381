/** The loops that check and register a block, over the store of unspent outputs (src/blockchain.c, src/messages/tx.c, src/messages/block.c). */
module Validation {
  import opened Bytes
  import opened Codec
  import opened Ledger
  import opened UtxoStore
  import Merkle
  import Target

  /** The chain's rules: the ledger's, the two other uses of the hash, and the checkpoints by height. */
  datatype Consensus = Consensus(rules: Rules, hashOf: Header -> Hash, dsha: seq<byte> -> Hash, checkpoints: seq<(nat, Hash)>)

  /** Words add as the numbers they stand for. */
  lemma WrapAdd(a: int, b: int)
    ensures Wrap(Wrap(a) + b) == Wrap(a + b)
  {
    WrapShift(Wrap(a) + b, a / 0x1_0000_0000_0000_0000);
  }

  lemma WrapBoth(a: int, b: int)
    ensures Wrap(Wrap(a) + Wrap(b)) == Wrap(a + b)
    ensures Wrap(Wrap(a) - Wrap(b)) == Wrap(a - b)
  {
    var p, q := a / 0x1_0000_0000_0000_0000, b / 0x1_0000_0000_0000_0000;
    assert a == Wrap(a) + p * 0x1_0000_0000_0000_0000 && b == Wrap(b) + q * 0x1_0000_0000_0000_0000;
    WrapShift(Wrap(a) + Wrap(b), p + q);
    WrapShift(Wrap(a) - Wrap(b), p - q);
  }

  lemma WrapShift(n: int, k: int)
    ensures Wrap(n + k * 0x1_0000_0000_0000_0000) == Wrap(n)
  {
  }

  /** From 64 halvings on, the shift of the subsidy exceeds the width of its operand. */
  const SHIFT_LIMIT := 64 * HALVING

  // ----- amounts -----

  method IsHashEmptyLoop(h: Hash) returns (empty: bool)
    ensures empty == IsHashEmpty(h)
  {
    for i := 0 to 32
      invariant forall k :: 0 <= k < i ==> h[k] == 0
    {
      if h[i] != 0 { return false; }
    }
    return true;
  }

  /** is_coinbase. */
  method IsCoinbaseInput(input: TxIn) returns (coinbase: bool)
    ensures coinbase == IsCoinbase(input)
  {
    var empty := IsHashEmptyLoop(input.previous.txHash);
    coinbase := input.previous.index == UINT32_MAX && empty;
  }

  /** search_utxo. */
  method SearchUtxo(r: Rules, store: Store, txs: seq<Tx>, limit: nat, o: Outpoint) returns (source: Option<TxOut>)
    requires store.Valid() && limit <= |txs|
    ensures source == Search(r, store.outputs, txs, limit, o)
  {
    var empty := IsHashEmptyLoop(o.txHash);
    if o.index == UINT32_MAX && empty {
      return None;
    }
    source := store.LoadUtxo(o);
    if source.Some? {
      return;
    }
    for i := 0 to limit
      invariant Find(r, txs, 0, limit, o) == Find(r, txs, i, limit, o)
    {
      if r.txid(txs[i]) == o.txHash && |txs[i].outputs| > o.index {
        return Some(txs[i].outputs[o.index]);
      }
    }
    return None;
  }

  method SumOutputs(tx: Tx) returns (sum: uint64)
    ensures sum == Wrap(OutputSum(tx.outputs))
  {
    sum := 0;
    for i := 0 to |tx.outputs|
      invariant sum == Wrap(OutputSum(tx.outputs[..i]))
    {
      var prefix := tx.outputs[..i + 1];
      assert prefix[..i] == tx.outputs[..i];
      WrapAdd(OutputSum(tx.outputs[..i]), tx.outputs[i].value);
      sum := Wrap(sum + tx.outputs[i].value);
    }
    assert tx.outputs[..|tx.outputs|] == tx.outputs;
  }

  /** The value one input adds; a coinbase is passed over and a missing source is only reported. */
  method InputValue(r: Rules, store: Store, input: TxIn, txs: seq<Tx>, limit: nat) returns (value: int)
    requires store.Valid() && limit <= |txs|
    ensures value == if IsCoinbase(input) then 0 else ValueOf(Search(r, store.outputs, txs, limit, input.previous))
  {
    var coinbase := IsCoinbaseInput(input);
    if coinbase {
      return 0;
    }
    var source := SearchUtxo(r, store, txs, limit, input.previous);
    value := if source.Some? then source.value.value else 0;
  }

  lemma InputSumStep(r: Rules, u: Utxo, txs: seq<Tx>, limit: nat, inputs: seq<TxIn>, i: nat)
    requires limit <= |txs| && i < |inputs|
    ensures var value := if IsCoinbase(inputs[i]) then 0 else ValueOf(Search(r, u, txs, limit, inputs[i].previous));
            Wrap(Wrap(InputSum(r, u, txs, limit, inputs[..i])) + value) == Wrap(InputSum(r, u, txs, limit, inputs[..i + 1]))
  {
    assert inputs[..i + 1][..i] == inputs[..i];
    var value := if IsCoinbase(inputs[i]) then 0 else ValueOf(Search(r, u, txs, limit, inputs[i].previous));
    WrapAdd(InputSum(r, u, txs, limit, inputs[..i]), value);
  }

  /** sum_inputs_from_tx. */
  method SumInputs(r: Rules, store: Store, inputs: seq<TxIn>, txs: seq<Tx>, limit: nat) returns (sum: uint64)
    requires store.Valid() && limit <= |txs|
    ensures sum == Wrap(InputSum(r, store.outputs, txs, limit, inputs))
  {
    sum := 0;
    for i := 0 to |inputs|
      invariant sum == Wrap(InputSum(r, store.outputs, txs, limit, inputs[..i]))
    {
      var value := InputValue(r, store, inputs[i], txs, limit);
      InputSumStep(r, store.outputs, txs, limit, inputs, i);
      sum := Wrap(sum + value);
    }
    assert inputs[..|inputs|] == inputs;
  }

  /** compute_tx_residue. */
  method ComputeResidue(r: Rules, store: Store, txs: seq<Tx>, i: nat) returns (residue: uint64)
    requires store.Valid() && i < |txs|
    ensures residue == Wrap(Residue(r, store.outputs, txs, i))
  {
    var input := SumInputs(r, store, txs[i].inputs, txs, i);
    var output := SumOutputs(txs[i]);
    WrapBoth(InputSum(r, store.outputs, txs, i, txs[i].inputs), OutputSum(txs[i].outputs));
    residue := Wrap(input as int - output);
  }

  lemma FeesStep(r: Rules, u: Utxo, txs: seq<Tx>, from: nat, i: nat)
    requires from <= i < |txs|
    ensures Wrap(Wrap(Fees(r, u, txs, from, i)) + Wrap(Residue(r, u, txs, i))) == Wrap(Fees(r, u, txs, from, i + 1))
  {
    WrapBoth(Fees(r, u, txs, from, i), Residue(r, u, txs, i));
  }

  /** agregate_residues. */
  method AggregateResidues(r: Rules, store: Store, txs: seq<Tx>, count: nat, initialOffset: nat) returns (sum: uint64)
    requires store.Valid() && initialOffset <= count <= |txs|
    ensures sum == Wrap(Fees(r, store.outputs, txs, initialOffset, count))
  {
    sum := 0;
    for i := initialOffset to count
      invariant sum == Wrap(Fees(r, store.outputs, txs, initialOffset, i))
    {
      var residue := ComputeResidue(r, store, txs, i);
      FeesStep(r, store.outputs, txs, initialOffset, i);
      sum := Wrap(sum + residue);
    }
  }

  // ----- transactions -----

  /** is_tx_legal. */
  method IsTxLegal(tx: Tx) returns (legal: bool)
    ensures legal == TxLegal(tx)
  {
    var outputLegal := true;
    for i := 0 to |tx.outputs|
      invariant outputLegal && forall k :: 0 <= k < i ==> tx.outputs[k].value >= 0
    {
      if tx.outputs[i].value < 0 {
        outputLegal := false;
        break;
      }
    }
    var inputsLegal := true;
    for i := 0 to |tx.inputs|
      invariant inputsLegal && forall k :: 0 <= k < i ==> InputLegal(tx.inputs[k])
    {
      var coinbase := IsCoinbaseInput(tx.inputs[i]);
      if coinbase && !(2 <= |tx.inputs[i].script| <= 100) {
        assert !InputLegal(tx.inputs[i]);
        inputsLegal := false;
        break;
      }
    }
    legal := |tx.inputs| > 0 && |tx.outputs| > 0 && outputLegal && inputsLegal;
  }

  method IsInputSigned(r: Rules, store: Store, txs: seq<Tx>, i: nat, j: nat) returns (signed: bool)
    requires store.Valid() && i < |txs| && j < |txs[i].inputs|
    ensures signed == InputSigned(r, store.outputs, txs, i, j)
  {
    var coinbase := IsCoinbaseInput(txs[i].inputs[j]);
    if coinbase {
      return true;
    }
    var source := SearchUtxo(r, store, txs, i, txs[i].inputs[j].previous);
    signed := source.Some? && r.scriptWorks(txs[i], j, source.value);
  }

  method AreInputsSigned(r: Rules, store: Store, txs: seq<Tx>, i: nat) returns (signaturesValid: bool)
    requires store.Valid() && i < |txs|
    ensures signaturesValid == AllSigned(r, store.outputs, txs, i)
  {
    for j := 0 to |txs[i].inputs|
      invariant forall k :: 0 <= k < j ==> InputSigned(r, store.outputs, txs, i, k)
    {
      var signed := IsInputSigned(r, store, txs, i, j);
      if !signed {
        return false;
      }
    }
    return true;
  }

  /** is_normal_tx_valid. */
  method IsNormalTxValid(r: Rules, store: Store, txs: seq<Tx>, i: nat) returns (valid: bool)
    requires store.Valid() && i < |txs|
    ensures valid == NormalTxValid(r, store.outputs, txs, i)
  {
    var amountValid := true;
    if i != 0 {
      var input := SumInputs(r, store, txs[i].inputs, txs, i);
      var output := SumOutputs(txs[i]);
      amountValid := input >= output;
    }
    var signaturesValid := AreInputsSigned(r, store, txs, i);
    valid := amountValid && signaturesValid;
  }

  /** is_initial_tx_valid: the fees of all later transactions are summed before those are checked. */
  method IsInitialTxValid(r: Rules, store: Store, txs: seq<Tx>, height: nat) returns (valid: bool)
    requires store.Valid() && txs != [] && height < SHIFT_LIMIT
    ensures valid == (NormalTxValid(r, store.outputs, txs, 0) && InitialAmountValid(r, store.outputs, txs, height))
  {
    var validAsNormalTx := IsNormalTxValid(r, store, txs, 0);
    var input := SumInputs(r, store, txs[0].inputs, txs, 0);
    var output := SumOutputs(txs[0]);
    var fees := AggregateResidues(r, store, txs, |txs|, 1);
    var subsidy := Subsidy(height);
    valid := validAsNormalTx && Wrap(input + subsidy + fees) >= output;
  }

  method IsTxValid(r: Rules, store: Store, txs: seq<Tx>, i: nat, height: nat) returns (valid: bool)
    requires store.Valid() && i < |txs| && height < SHIFT_LIMIT
    ensures valid == TxValid(r, store.outputs, txs, i, height)
  {
    var legal := IsTxLegal(txs[i]);
    if !legal {
      return false;
    }
    if i == 0 {
      valid := IsInitialTxValid(r, store, txs, height);
    } else {
      valid := IsNormalTxValid(r, store, txs, i);
    }
  }

  // ----- blocks -----

  predicate FirstInputIsCoinbase(txs: seq<Tx>) {
    txs != [] && txs[0].inputs != [] && IsCoinbase(txs[0].inputs[0])
  }

  /** No other input than the first of the first transaction is a coinbase. */
  predicate OnlyOneCoinbase(txs: seq<Tx>) {
    forall i, j :: 0 <= i < |txs| && 0 <= j < |txs[i].inputs| && (i, j) != (0, 0) ==> !IsCoinbase(txs[i].inputs[j])
  }

  function Txids(r: Rules, txs: seq<Tx>): (ids: seq<Hash>)
    ensures |ids| == |txs| && forall i :: 0 <= i < |txs| ==> ids[i] == r.txid(txs[i])
  {
    if txs == [] then [] else Txids(r, txs[..|txs| - 1]) + [r.txid(txs[|txs| - 1])]
  }

  predicate HashMeetsTarget(hash: Hash, target: uint32) {
    3 <= Target.SizeOf(target) <= 32 && Target.Satisfies(hash, target)
  }

  /** is_block_legal. */
  predicate BlockLegal(c: Consensus, block: Block, now: int) {
    && FirstInputIsCoinbase(block.txs) && block.header.timestamp - now < 7200
    && OnlyOneCoinbase(block.txs)
    && (forall i :: 0 <= i < |block.txs| ==> TxLegal(block.txs[i]))
    && HashMeetsTarget(c.hashOf(block.header), block.header.target)
    && Merkle.Root(c.dsha, Txids(c.rules, block.txs)) == block.header.merkleRoot
  }

  predicate Compatible(c: Consensus, height: nat, hash: Hash) {
    forall i :: 0 <= i < |c.checkpoints| ==> c.checkpoints[i].0 != 0 && c.checkpoints[i].0 == height ==> c.checkpoints[i].1 == hash
  }

  /** is_block_valid. */
  predicate BlockValid(c: Consensus, u: Utxo, block: Block, height: nat, hash: Hash, now: int) {
    BlockLegal(c, block, now) && Compatible(c, height, hash) && AllTxValid(c.rules, u, block.txs, height)
  }

  method IsOnlyCoinbase(txs: seq<Tx>) returns (onlyOneCoinbase: bool)
    ensures onlyOneCoinbase == OnlyOneCoinbase(txs)
  {
    onlyOneCoinbase := true;
    for i := 0 to |txs|
      invariant onlyOneCoinbase ==> OnlyOneCoinbase(txs[..i])
      invariant OnlyOneCoinbase(txs) ==> onlyOneCoinbase
    {
      for j := 0 to |txs[i].inputs|
        invariant onlyOneCoinbase ==> OnlyOneCoinbase(txs[..i])
        invariant onlyOneCoinbase ==> forall k :: 0 <= k < j && (i, k) != (0, 0) ==> !IsCoinbase(txs[i].inputs[k])
        invariant OnlyOneCoinbase(txs) ==> onlyOneCoinbase
      {
        if i == 0 && j == 0 {
          continue;
        }
        var coinbase := IsCoinbaseInput(txs[i].inputs[j]);
        if coinbase {
          onlyOneCoinbase := false;
          break;
        }
      }
    }
    assert txs[..|txs|] == txs;
  }

  method IsBlockLegal(c: Consensus, block: Block, now: int) returns (legal: bool)
    ensures legal == BlockLegal(c, block, now)
  {
    if block.txs == [] || block.txs[0].inputs == [] {
      return false;
    }
    var timestampLegal := block.header.timestamp - now < 7200;
    var initialInputIsCoinbase := IsCoinbaseInput(block.txs[0].inputs[0]);
    var onlyOneCoinbase := IsOnlyCoinbase(block.txs);
    var allTxLegal := true;
    for i := 0 to |block.txs|
      invariant allTxLegal && forall k :: 0 <= k < i ==> TxLegal(block.txs[k])
    {
      allTxLegal := IsTxLegal(block.txs[i]);
      if !allTxLegal { break; }
    }
    var satisfied := false;
    if 3 <= Target.SizeOf(block.header.target) <= 32 {
      satisfied := Target.HashSatisfiesTarget(c.hashOf(block.header), block.header.target);
    }
    var root := Merkle.ComputeMerkleRoot(c.dsha, Txids(c.rules, block.txs));
    legal := timestampLegal && initialInputIsCoinbase && onlyOneCoinbase && allTxLegal && satisfied
      && root == Some(block.header.merkleRoot);
  }

  /** is_block_checkpoint_compatible. */
  method IsCheckpointCompatible(c: Consensus, height: nat, hash: Hash) returns (compatible: bool)
    ensures compatible == Compatible(c, height, hash)
  {
    for i := 0 to |c.checkpoints|
      invariant forall k :: 0 <= k < i ==> c.checkpoints[k].0 != 0 && c.checkpoints[k].0 == height ==> c.checkpoints[k].1 == hash
    {
      if c.checkpoints[i].0 == 0 { continue; }
      if c.checkpoints[i].0 == height && c.checkpoints[i].1 != hash {
        return false;
      }
    }
    return true;
  }

  method IsBlockValid(c: Consensus, store: Store, block: Block, height: nat, hash: Hash, now: int) returns (valid: bool)
    requires store.Valid() && height < SHIFT_LIMIT
    ensures valid == BlockValid(c, store.outputs, block, height, hash, now)
  {
    var legal := IsBlockLegal(c, block, now);
    var satisfyCheckpoint := IsCheckpointCompatible(c, height, hash);
    var allTxValid := true;
    for i := 0 to |block.txs|
      invariant allTxValid && forall k :: 0 <= k < i ==> TxValid(c.rules, store.outputs, block.txs, k, height)
    {
      allTxValid := IsTxValid(c.rules, store, block.txs, i, height);
      if !allTxValid { break; }
    }
    valid := legal && satisfyCheckpoint && allTxValid;
  }

  // ----- registration -----

  predicate OutputsSafe(txs: seq<Tx>) {
    forall i, k :: 0 <= i < |txs| && 0 <= k < |txs[i].outputs| ==> SafeOut(txs[i].outputs[k])
  }

  method SaveAll(store: Store, id: Hash, outputs: seq<TxOut>)
    requires store.Valid() && forall k :: 0 <= k < |outputs| ==> SafeOut(outputs[k])
    modifies store
    ensures store.Valid() && store.outputs == SaveOutputs(old(store.outputs), id, outputs)
  {
    for k := 0 to |outputs|
      invariant store.Valid() && store.outputs == SaveOutputs(old(store.outputs), id, outputs[..k])
    {
      assert outputs[..k + 1][..k] == outputs[..k];
      store.SaveUtxo(Outpoint(id, k % 0x1_0000_0000), outputs[k]);
    }
    assert outputs[..|outputs|] == outputs;
  }

  method SpendAll(store: Store, inputs: seq<TxIn>)
    requires store.Valid()
    modifies store
    ensures store.Valid() && store.outputs == SpendInputs(old(store.outputs), inputs)
  {
    for j := 0 to |inputs|
      invariant store.Valid() && store.outputs == SpendInputs(old(store.outputs), inputs[..j])
    {
      assert inputs[..j + 1][..j] == inputs[..j];
      var coinbase := IsCoinbaseInput(inputs[j]);
      if !coinbase {
        store.SpendOutput(inputs[j].previous);
      }
    }
    assert inputs[..|inputs|] == inputs;
  }

  /** register_validated_block. */
  method RegisterValidatedBlock(r: Rules, store: Store, txs: seq<Tx>)
    requires store.Valid() && OutputsSafe(txs)
    modifies store
    ensures store.Valid() && store.outputs == Registered(r, old(store.outputs), txs, |txs|)
  {
    for i := 0 to |txs|
      invariant store.Valid() && store.outputs == Registered(r, old(store.outputs), txs, i)
    {
      SaveAll(store, r.txid(txs[i]), txs[i].outputs);
      SpendAll(store, txs[i].inputs);
    }
  }
}
