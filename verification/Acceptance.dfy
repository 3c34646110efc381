/** What a legal and a valid block are, without the steps that decide it (src/blockchain.c, src/messages/block.c). */
module Acceptance {
  import opened Bytes
  import opened Codec
  import opened Ledger
  import opened Conservation
  import opened Validation
  import opened Spending
  import Interpreter
  import Script
  import Merkle
  import SigHash
  import Der
  import Target

  // ----- legal blocks -----

  /** A hash is at most its target, both without the lowest byte; the target is the mantissa shifted, its sign bit a plain one. */
  predicate HasWork(hash: Hash, target: uint32) {
    var size := target / 0x100_0000;
    3 <= size <= 32 && FromLE(hash) / 256 <= Target.Shift(target % 0x100_0000, size - 3) / 256
  }

  predicate NamesNothing(o: Outpoint) {
    o == Outpoint(ZERO_HASH, 0xFFFF_FFFF)
  }

  /** The first input of the first transaction names no output, and no other input does so. */
  predicate OneCoinbase(txs: seq<Tx>) {
    && txs != [] && txs[0].inputs != []
    && forall i, j :: 0 <= i < |txs| && 0 <= j < |txs[i].inputs| ==>
         (NamesNothing(txs[i].inputs[j].previous) <==> i == 0 && j == 0)
  }

  predicate WellShaped(tx: Tx) {
    tx.inputs != [] && tx.outputs != [] && forall i :: 0 <= i < |tx.outputs| ==> tx.outputs[i].value >= 0
  }

  lemma EmptyIsNothing(o: Outpoint)
    ensures IsOutpointEmpty(o) <==> NamesNothing(o)
  {
    if IsHashEmpty(o.txHash) {
      assert forall i :: 0 <= i < 32 ==> o.txHash[i] == ZERO_HASH[i];
      assert o.txHash == ZERO_HASH;
    }
  }

  lemma CoinbaseOnce(txs: seq<Tx>)
    ensures FirstInputIsCoinbase(txs) && OnlyOneCoinbase(txs) <==> OneCoinbase(txs)
  {
    forall i, j | 0 <= i < |txs| && 0 <= j < |txs[i].inputs|
      ensures IsCoinbase(txs[i].inputs[j]) <==> NamesNothing(txs[i].inputs[j].previous)
    {
      EmptyIsNothing(txs[i].inputs[j].previous);
    }
  }

  lemma MeetsIsWork(hash: Hash, target: uint32)
    ensures HashMeetsTarget(hash, target) <==> HasWork(hash, target)
  {
    if 3 <= Target.SizeOf(target) <= 32 {
      Target.ExpandedValue(target);
    }
  }

  lemma ShapesAreLegal(txs: seq<Tx>)
    requires OneCoinbase(txs)
    ensures (forall i :: 0 <= i < |txs| ==> TxLegal(txs[i]))
       <==> (forall i :: 0 <= i < |txs| ==> WellShaped(txs[i])) && 2 <= |txs[0].inputs[0].script| <= 100
  {
    forall i, j | 0 <= i < |txs| && 0 <= j < |txs[i].inputs|
      ensures IsCoinbase(txs[i].inputs[j]) <==> i == 0 && j == 0
    {
      EmptyIsNothing(txs[i].inputs[j].previous);
    }
    if 2 <= |txs[0].inputs[0].script| <= 100 {
      forall i, j | 0 <= i < |txs| && 0 <= j < |txs[i].inputs|
        ensures InputLegal(txs[i].inputs[j])
      {
      }
    }
    if forall i :: 0 <= i < |txs| ==> TxLegal(txs[i]) {
      assert TxLegal(txs[0]) && InputLegal(txs[0].inputs[0]);
    }
  }

  /**
   * A block is legal exactly when it has one coinbase, first, with a script of 2 to 100 bytes, transactions with inputs
   * and outputs and no negative value, a timestamp less than two hours ahead, work, and the tree over its hashes as root.
   */
  lemma LegalExactly(c: Consensus, block: Block, now: int)
    ensures BlockLegal(c, block, now) <==>
            && OneCoinbase(block.txs) && 2 <= |block.txs[0].inputs[0].script| <= 100
            && (forall i :: 0 <= i < |block.txs| ==> WellShaped(block.txs[i]))
            && block.header.timestamp < now + 7200
            && HasWork(c.hashOf(block.header), block.header.target)
            && Merkle.Tree(c.dsha, Txids(c.rules, block.txs), Merkle.Height(|block.txs|)) == block.header.merkleRoot
  {
    CoinbaseOnce(block.txs);
    MeetsIsWork(c.hashOf(block.header), block.header.target);
    if OneCoinbase(block.txs) {
      ShapesAreLegal(block.txs);
      Merkle.RootIsTree(c.dsha, Txids(c.rules, block.txs));
    }
  }

  /** With the sign bit clear, the work is measured against the number the target stands for. */
  lemma WorkInNumbers(hash: Hash, target: uint32)
    requires Target.SignClear(target) && 3 <= Target.SizeOf(target) <= 32
    ensures HasWork(hash, target) <==> FromLE(hash) / 256 <= Target.ToBignum(target) / 256
  {
    Target.ToBignumValue(target);
  }

  lemma LegalHasWork(c: Consensus, block: Block, now: int)
    requires BlockLegal(c, block, now) && Target.SignClear(block.header.target)
    ensures FromLE(c.hashOf(block.header)) / 256 <= Target.ToBignum(block.header.target) / 256
  {
    MeetsIsWork(c.hashOf(block.header), block.header.target);
    WorkInNumbers(c.hashOf(block.header), block.header.target);
  }

  // ----- the scripts of a valid block work -----

  /** Where an outpoint leads before transaction i: the store, or an output of an earlier transaction. */
  ghost predicate Leads(r: Rules, u: Utxo, txs: seq<Tx>, i: nat, o: Outpoint, source: TxOut)
    requires i <= |txs|
  {
    || (o in u && u[o] == source)
    || exists m :: 0 <= m < i && OutputAt(r, txs[m], o, source)
  }

  predicate OutputAt(r: Rules, tx: Tx, o: Outpoint, source: TxOut) {
    r.txid(tx) == o.txHash && o.index < |tx.outputs| && tx.outputs[o.index] == source
  }

  lemma {:induction false} FoundIsOutput(r: Rules, txs: seq<Tx>, from: nat, limit: nat, o: Outpoint)
    requires from <= limit <= |txs| && Find(r, txs, from, limit, o).Some?
    ensures exists m :: from <= m < limit && OutputAt(r, txs[m], o, Find(r, txs, from, limit, o).value)
    decreases limit - from
  {
    if r.txid(txs[from]) == o.txHash && o.index < |txs[from].outputs| {
      assert OutputAt(r, txs[from], o, txs[from].outputs[o.index]);
    } else {
      FoundIsOutput(r, txs, from + 1, limit, o);
    }
  }

  lemma SourceLeads(r: Rules, u: Utxo, txs: seq<Tx>, i: nat, o: Outpoint)
    requires i <= |txs| && Search(r, u, txs, i, o).Some?
    ensures Leads(r, u, txs, i, o, Search(r, u, txs, i, o).value)
  {
    if o !in u {
      FoundIsOutput(r, txs, 0, i, o);
    }
  }

  /** Input j of transaction i names an output that is there, and its script works on it. */
  ghost predicate InputWorks(r: Rules, u: Utxo, txs: seq<Tx>, i: nat, j: nat)
    requires i < |txs| && j < |txs[i].inputs|
  {
    exists source :: Leads(r, u, txs, i, txs[i].inputs[j].previous, source) && r.scriptWorks(txs[i], j, source)
  }

  /** Every input of an accepted block but its coinbase spends an output that is there, with a script that works. */
  lemma AcceptedScriptsWork(c: Consensus, u: Utxo, block: Block, height: nat, hash: Hash, now: int, i: nat, j: nat)
    requires BlockValid(c, u, block, height, hash, now)
    requires i < |block.txs| && j < |block.txs[i].inputs| && (i, j) != (0, 0)
    ensures InputWorks(c.rules, u, block.txs, i, j)
  {
    assert TxValid(c.rules, u, block.txs, i, height) && InputSigned(c.rules, u, block.txs, i, j);
    SourceLeads(c.rules, u, block.txs, i, block.txs[i].inputs[j].previous);
  }

  /** A source that pays to a key hash was met: by a key with that hash and a check that is not 0. */
  ghost predicate HashMet(crypto: Crypto, tx: Tx, j: nat, source: TxOut) {
    HasInput(tx, j) &&
    forall sig, key, hash :: PaysToHash(tx, j, source, sig, key, hash) ==>
      && crypto.hash(Interpreter.OP_HASH160, key.data) == hash.data
      && CheckSignature(crypto, tx, j, key.data, sig.data, source.script) != 0
  }

  /** In an accepted block every pay-to-key-hash input has the wanted key and a signature check that is not 0. */
  lemma AcceptedPaysToHash(crypto: Crypto, c: Consensus, u: Utxo, block: Block, height: nat, hash: Hash, now: int, i: nat, j: nat)
    requires c.rules == RulesOf(crypto, c.rules.txid) && BlockValid(c, u, block, height, hash, now)
    requires i < |block.txs| && j < |block.txs[i].inputs| && (i, j) != (0, 0)
    ensures exists source :: Leads(c.rules, u, block.txs, i, block.txs[i].inputs[j].previous, source)
                             && HashMet(crypto, block.txs[i], j, source)
  {
    AcceptedScriptsWork(c, u, block, height, hash, now, i, j);
    var source :| Leads(c.rules, u, block.txs, i, block.txs[i].inputs[j].previous, source) && c.rules.scriptWorks(block.txs[i], j, source);
    WorksMeetsHash(crypto, block.txs[i], j, source);
  }

  /**
   * For a key of the known prefixes that decodes, the check of a met pay-to-key-hash source is that ECDSA_verify does not
   * call the signature invalid for the digest of the spending transaction under its hashtype, the last byte.
   */
  lemma MetIsVerified(crypto: Crypto, tx: Tx, j: nat, source: TxOut, sig: Script.Frame, key: Script.Frame, hash: Script.Frame)
    requires HashMet(crypto, tx, j, source) && PaysToHash(tx, j, source, sig, key, hash)
    requires key.data[0] in {2, 3, 4, 6, 7} && crypto.decodesKey(key.data)
    ensures crypto.ecdsa(key.data, SigHash.SignatureDigest(crypto.dsha, tx, source.script, sig.data[|sig.data| - 1], j),
                         Der.FixFrame(sig.data)) != Invalid
  {
    assert CheckSignature(crypto, tx, j, key.data, sig.data, source.script) != 0;
    NotZeroIsVerified(crypto, tx, j, key.data, sig.data, source.script);
  }

  lemma NotZeroIsVerified(crypto: Crypto, tx: Tx, j: nat, key: seq<byte>, sig: seq<byte>, subscript: seq<byte>)
    requires HasInput(tx, j) && CheckSignature(crypto, tx, j, key, sig, subscript) != 0
    requires key != [] && key[0] in {2, 3, 4, 6, 7} && crypto.decodesKey(key) && sig != []
    ensures crypto.ecdsa(key, SigHash.SignatureDigest(crypto.dsha, tx, subscript, sig[|sig| - 1], j), Der.FixFrame(sig)) != Invalid
  {
  }

  lemma WorksMeetsHash(crypto: Crypto, tx: Tx, j: nat, source: TxOut)
    requires ScriptWorks(crypto, tx, j, source)
    ensures HashMet(crypto, tx, j, source)
  {
    forall sig, key, hash | PaysToHash(tx, j, source, sig, key, hash)
      ensures crypto.hash(Interpreter.OP_HASH160, key.data) == hash.data
      ensures CheckSignature(crypto, tx, j, key.data, sig.data, source.script) != 0
    {
      Interpreter.PayToHashAccepts(EnvFor(crypto, tx, j), sig, key, hash);
    }
  }

  /** The first transaction naming an output is the only one, when no hash is shared. */
  lemma {:induction false} OutputIsFound(r: Rules, txs: seq<Tx>, from: nat, limit: nat, m: nat, o: Outpoint, source: TxOut)
    requires from <= m < limit <= |txs| && OutputAt(r, txs[m], o, source)
    requires forall i, j :: 0 <= i < j < |txs| ==> r.txid(txs[i]) != r.txid(txs[j])
    ensures Find(r, txs, from, limit, o) == Some(source)
    decreases limit - from
  {
    if from < m {
      OutputIsFound(r, txs, from + 1, limit, m, o, source);
    }
  }

  lemma LeadsIsFound(r: Rules, u: Utxo, txs: seq<Tx>, i: nat, o: Outpoint, source: TxOut)
    requires FreshIds(r, u, txs) && i <= |txs| && Leads(r, u, txs, i, o, source) && !IsOutpointEmpty(o)
    ensures Search(r, u, txs, i, o) == Some(source)
  {
    if o !in u {
      var m :| 0 <= m < i && OutputAt(r, txs[m], o, source);
      OutputIsFound(r, txs, 0, i, m, o, source);
    }
  }

  lemma SignedIsWorking(r: Rules, u: Utxo, txs: seq<Tx>, i: nat, j: nat)
    requires FreshIds(r, u, txs) && i < |txs| && j < |txs[i].inputs| && !IsCoinbase(txs[i].inputs[j])
    ensures InputSigned(r, u, txs, i, j) <==> InputWorks(r, u, txs, i, j)
  {
    var o := txs[i].inputs[j].previous;
    if InputSigned(r, u, txs, i, j) {
      SourceLeads(r, u, txs, i, o);
    }
    if InputWorks(r, u, txs, i, j) {
      var source :| Leads(r, u, txs, i, o, source) && r.scriptWorks(txs[i], j, source);
      LeadsIsFound(r, u, txs, i, o, source);
    }
  }

  ghost predicate AllWork(r: Rules, u: Utxo, txs: seq<Tx>) {
    forall i, j :: 0 <= i < |txs| && 0 <= j < |txs[i].inputs| && (i, j) != (0, 0) ==> InputWorks(r, u, txs, i, j)
  }

  lemma AllSignedIsWorking(r: Rules, u: Utxo, txs: seq<Tx>)
    requires FreshIds(r, u, txs) && OneCoinbase(txs)
    ensures (forall i :: 0 <= i < |txs| ==> AllSigned(r, u, txs, i)) <==> AllWork(r, u, txs)
  {
    forall i, j | 0 <= i < |txs| && 0 <= j < |txs[i].inputs|
      ensures InputSigned(r, u, txs, i, j) <==> (i, j) == (0, 0) || InputWorks(r, u, txs, i, j)
    {
      EmptyIsNothing(txs[i].inputs[j].previous);
      if (i, j) != (0, 0) {
        SignedIsWorking(r, u, txs, i, j);
      }
    }
    if AllWork(r, u, txs) {
      forall i | 0 <= i < |txs|
        ensures AllSigned(r, u, txs, i)
      {
      }
    }
    if forall i :: 0 <= i < |txs| ==> AllSigned(r, u, txs, i) {
      forall i, j | 0 <= i < |txs| && 0 <= j < |txs[i].inputs| && (i, j) != (0, 0)
        ensures InputWorks(r, u, txs, i, j)
      {
        assert AllSigned(r, u, txs, i) && InputSigned(r, u, txs, i, j);
      }
    }
  }

  // ----- when a legal block is valid -----

  /** No transaction but the first pays out more than it takes in, and the first no more than its inputs, the subsidy and all fees. */
  predicate Balanced(r: Rules, u: Utxo, txs: seq<Tx>, height: nat) {
    && txs != []
    && (forall i :: 0 < i < |txs| ==> OutputSum(txs[i].outputs) <= InputSum(r, u, txs, i, txs[i].inputs))
    && OutputSum(txs[0].outputs) <= InputSum(r, u, txs, 0, txs[0].inputs) + Subsidy(height) + Fees(r, u, txs, 1, |txs|)
  }

  lemma {:induction false} InputsBound(r: Rules, u: Utxo, txs: seq<Tx>, n: nat)
    requires n <= |txs| && AllLegal(txs) && NoNegative(u)
    ensures forall i :: 0 <= i < n ==> 0 <= InputSum(r, u, txs, i, txs[i].inputs) <= BlockInputs(r, u, txs, n)
    ensures 0 <= BlockInputs(r, u, txs, n)
    ensures n > 0 ==> Fees(r, u, txs, 1, n) <= BlockInputs(r, u, txs, n) - InputSum(r, u, txs, 0, txs[0].inputs)
  {
    if n > 0 {
      InputsBound(r, u, txs, n - 1);
      InputSumNotNegative(r, u, txs, n - 1, txs[n - 1].inputs);
      OutputSumNotNegative(txs[n - 1].outputs);
    }
  }

  lemma SumsFitWords(r: Rules, u: Utxo, txs: seq<Tx>, height: nat)
    requires AllLegal(txs) && NoNegative(u) && OutputsFit(txs) && txs != []
    requires BlockInputs(r, u, txs, |txs|) + Subsidy(height) < WORD
    ensures forall i :: 0 <= i < |txs| ==>
              Wrap(InputSum(r, u, txs, i, txs[i].inputs)) == InputSum(r, u, txs, i, txs[i].inputs)
              && Wrap(OutputSum(txs[i].outputs)) == OutputSum(txs[i].outputs)
  {
    InputsBound(r, u, txs, |txs|);
    forall i | 0 <= i < |txs|
      ensures Wrap(InputSum(r, u, txs, i, txs[i].inputs)) == InputSum(r, u, txs, i, txs[i].inputs)
      ensures Wrap(OutputSum(txs[i].outputs)) == OutputSum(txs[i].outputs)
    {
      OutputSumNotNegative(txs[i].outputs);
    }
  }

  /** Words that fit compare as the numbers they are. */
  lemma AmountsExactly(r: Rules, u: Utxo, txs: seq<Tx>, height: nat)
    requires AllLegal(txs) && NoNegative(u) && OutputsFit(txs) && txs != []
    requires BlockInputs(r, u, txs, |txs|) + Subsidy(height) < WORD
    ensures InitialAmountValid(r, u, txs, height)
            && (forall i :: 0 < i < |txs| ==> Wrap(InputSum(r, u, txs, i, txs[i].inputs)) >= Wrap(OutputSum(txs[i].outputs)))
       <==> Balanced(r, u, txs, height)
  {
    SumsFitWords(r, u, txs, height);
    InputsBound(r, u, txs, |txs|);
    if forall i :: 0 < i < |txs| ==> OutputSum(txs[i].outputs) <= InputSum(r, u, txs, i, txs[i].inputs) {
      FeesFrom1(r, u, txs, |txs|);
    }
  }

  lemma {:induction false} FeesFrom1(r: Rules, u: Utxo, txs: seq<Tx>, n: nat)
    requires 1 <= n <= |txs|
    requires forall i :: 0 < i < |txs| ==> OutputSum(txs[i].outputs) <= InputSum(r, u, txs, i, txs[i].inputs)
    ensures Fees(r, u, txs, 1, n) >= 0
  {
    if n > 1 {
      FeesFrom1(r, u, txs, n - 1);
    }
  }

  /**
   * While output sums, and inputs with the subsidy, are below 2^64, and the hashes are fresh, a legal block is valid
   * exactly when the checkpoints at its height have its hash, every input works and the exact amounts balance.
   */
  lemma ValidExactly(c: Consensus, u: Utxo, block: Block, height: nat, hash: Hash, now: int)
    requires BlockLegal(c, block, now) && NoNegative(u) && FreshIds(c.rules, u, block.txs) && OutputsFit(block.txs)
    requires BlockInputs(c.rules, u, block.txs, |block.txs|) + Subsidy(height) < WORD
    ensures BlockValid(c, u, block, height, hash, now) <==>
            && (forall point :: point in c.checkpoints && point.0 == height && height != 0 ==> point.1 == hash)
            && AllWork(c.rules, u, block.txs)
            && Balanced(c.rules, u, block.txs, height)
  {
    var r, txs := c.rules, block.txs;
    CoinbaseOnce(txs);
    AllSignedIsWorking(r, u, txs);
    AmountsExactly(r, u, txs, height);
    CheckpointsMet(c, height, hash);
    ValidParts(r, u, txs, height);
  }

  lemma CheckpointsMet(c: Consensus, height: nat, hash: Hash)
    ensures Compatible(c, height, hash)
       <==> forall point :: point in c.checkpoints && point.0 == height && height != 0 ==> point.1 == hash
  {
  }

  lemma ValidParts(r: Rules, u: Utxo, txs: seq<Tx>, height: nat)
    requires AllLegal(txs) && txs != []
    ensures AllTxValid(r, u, txs, height) <==>
            && (forall i :: 0 <= i < |txs| ==> AllSigned(r, u, txs, i))
            && (forall i :: 0 < i < |txs| ==> Wrap(InputSum(r, u, txs, i, txs[i].inputs)) >= Wrap(OutputSum(txs[i].outputs)))
            && InitialAmountValid(r, u, txs, height)
  {
    if AllTxValid(r, u, txs, height) {
      assert TxValid(r, u, txs, 0, height);
      forall i | 0 <= i < |txs|
        ensures AllSigned(r, u, txs, i)
        ensures i > 0 ==> Wrap(InputSum(r, u, txs, i, txs[i].inputs)) >= Wrap(OutputSum(txs[i].outputs))
      {
        assert TxValid(r, u, txs, i, height);
      }
    }
  }

  // ----- what registration leaves -----

  /** Whatever is in the store came from the store before or from an output registered. */
  lemma {:induction false} RegisteredLeads(r: Rules, u: Utxo, txs: seq<Tx>, n: nat, o: Outpoint)
    requires n <= |txs| && SmallCounts(txs) && o in Registered(r, u, txs, n)
    ensures Leads(r, u, txs, n, o, Registered(r, u, txs, n)[o])
  {
    if n > 0 {
      var tx, before := txs[n - 1], Registered(r, u, txs, n - 1);
      SpendAt(SaveOutputs(before, r.txid(tx), tx.outputs), tx.inputs, o);
      SaveAt(before, r.txid(tx), tx.outputs, o);
      if o.txHash == r.txid(tx) && o.index < |tx.outputs| {
        assert OutputAt(r, txs[n - 1], o, tx.outputs[o.index]);
      } else {
        RegisteredLeads(r, u, txs, n - 1, o);
      }
    }
  }

  lemma LeadsIsOrigin(r: Rules, u: Utxo, txs: seq<Tx>, n: nat, o: Outpoint, source: TxOut)
    requires FreshIds(r, u, txs) && n <= |txs| && Leads(r, u, txs, n, o, source)
    ensures Origin(r, u, txs, n, o) == Some(source)
  {
    if o !in u {
      var m :| 0 <= m < n && OutputAt(r, txs[m], o, source);
      OutputIsFound(r, txs, 0, n, m, o, source);
    }
  }

  lemma SpentIsGone(r: Rules, u: Utxo, txs: seq<Tx>, height: nat, i: nat, j: nat, o: Outpoint)
    requires AllTxValid(r, u, txs, height) && FreshIds(r, u, txs) && SmallCounts(txs)
    requires i < |txs| && j < |txs[i].inputs| && Spends(txs, i, j, o)
    ensures o !in Registered(r, u, txs, |txs|)
  {
    assert TxValid(r, u, txs, i, height) && InputSigned(r, u, txs, i, j);
    SpentStaysGone(r, u, txs, i, j, |txs|);
  }

  /**
   * After the registration of a valid block with fresh hashes the store holds exactly the outputs that were there or
   * are the block's, and that no input of the block spends.
   */
  lemma RegisteredExactly(r: Rules, u: Utxo, txs: seq<Tx>, height: nat, o: Outpoint, source: TxOut)
    requires AllTxValid(r, u, txs, height) && FreshIds(r, u, txs) && SmallCounts(txs)
    ensures var w := Registered(r, u, txs, |txs|);
            o in w && w[o] == source <==>
            Leads(r, u, txs, |txs|, o, source)
            && forall i, j :: 0 <= i < |txs| && 0 <= j < |txs[i].inputs| ==> !Spends(txs, i, j, o)
  {
    var w := Registered(r, u, txs, |txs|);
    if o in w {
      RegisteredLeads(r, u, txs, |txs|, o);
      forall i, j | 0 <= i < |txs| && 0 <= j < |txs[i].inputs|
        ensures !Spends(txs, i, j, o)
      {
        if Spends(txs, i, j, o) {
          SpentIsGone(r, u, txs, height, i, j, o);
        }
      }
    }
    if Leads(r, u, txs, |txs|, o, source) && forall i, j :: 0 <= i < |txs| && 0 <= j < |txs[i].inputs| ==> !Spends(txs, i, j, o) {
      LeadsIsOrigin(r, u, txs, |txs|, o, source);
      RegisteredKeeps(r, u, txs, |txs|, o);
    }
  }
}
