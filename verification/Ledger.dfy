/** What validating and registering a block means for the unspent outputs (src/blockchain.c, src/messages/tx.c). */
module Ledger {
  import opened Bytes
  import opened Codec

  type Utxo = map<Outpoint, TxOut>

  /** The foreign calls: hash_tx, and run_program on an input of a transaction with its source output. */
  datatype Rules = Rules(txid: Tx -> Hash, scriptWorks: (Tx, nat, TxOut) -> bool)

  predicate IsHashEmpty(h: Hash) {
    forall i :: 0 <= i < 32 ==> h[i] == 0
  }

  predicate IsOutpointEmpty(o: Outpoint) {
    o.index == UINT32_MAX && IsHashEmpty(o.txHash)
  }

  predicate IsCoinbase(i: TxIn) {
    IsOutpointEmpty(i.previous)
  }

  // ----- reading sources -----

  /** The output an outpoint names among transactions `from` to `limit`: the first with the right hash and enough outputs. */
  function Find(r: Rules, txs: seq<Tx>, from: nat, limit: nat, o: Outpoint): (s: Option<TxOut>)
    requires from <= limit <= |txs|
    decreases limit - from
  {
    if from == limit then None
    else if r.txid(txs[from]) == o.txHash && o.index < |txs[from].outputs| then Some(txs[from].outputs[o.index])
    else Find(r, txs, from + 1, limit, o)
  }

  /** search_utxo: the store first, then the earlier transactions of the block. */
  function Search(r: Rules, u: Utxo, txs: seq<Tx>, limit: nat, o: Outpoint): (s: Option<TxOut>)
    requires limit <= |txs|
  {
    if IsOutpointEmpty(o) then None
    else if o in u then Some(u[o])
    else Find(r, txs, 0, limit, o)
  }

  function ValueOf(s: Option<TxOut>): (v: int) {
    if s.Some? then s.value.value else 0
  }

  // ----- amounts, exact and as 64-bit words -----

  function Wrap(n: int): (w: uint64)
    ensures 0 <= n < 0x1_0000_0000_0000_0000 ==> w == n
  {
    n % 0x1_0000_0000_0000_0000
  }

  function OutputSum(outputs: seq<TxOut>): (n: int) {
    if outputs == [] then 0 else OutputSum(outputs[..|outputs| - 1]) + outputs[|outputs| - 1].value
  }

  /** What the sources of the first inputs are worth; a source that is not found adds nothing. */
  function InputSum(r: Rules, u: Utxo, txs: seq<Tx>, limit: nat, inputs: seq<TxIn>): (n: int)
    requires limit <= |txs|
  {
    if inputs == [] then 0
    else
      var last := inputs[|inputs| - 1];
      InputSum(r, u, txs, limit, inputs[..|inputs| - 1])
      + if IsCoinbase(last) then 0 else ValueOf(Search(r, u, txs, limit, last.previous))
  }

  /** What transaction i takes in and does not pay out, before any wrapping. */
  function Residue(r: Rules, u: Utxo, txs: seq<Tx>, i: nat): (n: int)
    requires i < |txs|
  {
    InputSum(r, u, txs, i, txs[i].inputs) - OutputSum(txs[i].outputs)
  }

  /** The exact fees of transactions `from` to `count`. */
  function Fees(r: Rules, u: Utxo, txs: seq<Tx>, from: nat, count: nat): (n: int)
    requires from <= count <= |txs|
    decreases count
  {
    if from == count then 0 else Fees(r, u, txs, from, count - 1) + Residue(r, u, txs, count - 1)
  }

  const HALVING := 210000

  function Halved(n: nat, times: nat): (h: nat)
    ensures h <= n
  {
    if times == 0 then n else Halved(n / 2, times - 1)
  }

  /** COIN(50) >> (height / 210000). */
  function Subsidy(height: nat): (n: nat)
    ensures n <= 5_000_000_000
  {
    Halved(5_000_000_000, height / HALVING)
  }

  // ----- the checks -----

  /** is_tx_legal. */
  predicate TxLegal(tx: Tx) {
    && tx.inputs != [] && tx.outputs != []
    && (forall i :: 0 <= i < |tx.outputs| ==> tx.outputs[i].value >= 0)
    && (forall i :: 0 <= i < |tx.inputs| ==> InputLegal(tx.inputs[i]))
  }

  predicate InputLegal(i: TxIn) {
    IsCoinbase(i) ==> 2 <= |i.script| <= 100
  }

  /** The source of an input is found and its script accepts. */
  predicate InputSigned(r: Rules, u: Utxo, txs: seq<Tx>, i: nat, j: nat)
    requires i < |txs| && j < |txs[i].inputs|
  {
    var input := txs[i].inputs[j];
    IsCoinbase(input) ||
      var source := Search(r, u, txs, i, input.previous);
      source.Some? && r.scriptWorks(txs[i], j, source.value)
  }

  predicate AllSigned(r: Rules, u: Utxo, txs: seq<Tx>, i: nat)
    requires i < |txs|
  {
    forall j :: 0 <= j < |txs[i].inputs| ==> InputSigned(r, u, txs, i, j)
  }

  predicate NormalTxValid(r: Rules, u: Utxo, txs: seq<Tx>, i: nat)
    requires i < |txs|
  {
    && (i == 0 || Wrap(InputSum(r, u, txs, i, txs[i].inputs)) >= Wrap(OutputSum(txs[i].outputs)))
    && AllSigned(r, u, txs, i)
  }

  /** The 64-bit comparison of is_initial_tx_valid, with the fees of transactions not checked yet. */
  predicate InitialAmountValid(r: Rules, u: Utxo, txs: seq<Tx>, height: nat)
    requires txs != []
  {
    Wrap(Wrap(InputSum(r, u, txs, 0, txs[0].inputs)) + Subsidy(height) + Wrap(Fees(r, u, txs, 1, |txs|)))
      >= Wrap(OutputSum(txs[0].outputs))
  }

  predicate TxValid(r: Rules, u: Utxo, txs: seq<Tx>, i: nat, height: nat)
    requires i < |txs|
  {
    TxLegal(txs[i]) && NormalTxValid(r, u, txs, i) && (i == 0 ==> InitialAmountValid(r, u, txs, height))
  }

  predicate AllTxValid(r: Rules, u: Utxo, txs: seq<Tx>, height: nat) {
    forall i :: 0 <= i < |txs| ==> TxValid(r, u, txs, i, height)
  }

  // ----- registration -----

  function SaveOutputs(u: Utxo, id: Hash, outputs: seq<TxOut>): (w: Utxo) {
    if outputs == [] then u
    else
      var k := |outputs| - 1;
      SaveOutputs(u, id, outputs[..k])[Outpoint(id, k % 0x1_0000_0000) := outputs[k]]
  }

  function SpendInputs(u: Utxo, inputs: seq<TxIn>): (w: Utxo) {
    if inputs == [] then u
    else
      var last := inputs[|inputs| - 1];
      var before := SpendInputs(u, inputs[..|inputs| - 1]);
      if IsCoinbase(last) then before else before - {last.previous}
  }

  /** The store after the first n transactions are registered. */
  function Registered(r: Rules, u: Utxo, txs: seq<Tx>, n: nat): (w: Utxo)
    requires n <= |txs|
  {
    if n == 0 then u
    else
      var tx := txs[n - 1];
      SpendInputs(SaveOutputs(Registered(r, u, txs, n - 1), r.txid(tx), tx.outputs), tx.inputs)
  }

  // ----- the value of a store -----

  ghost function Pick(u: Utxo): (o: Outpoint)
    requires u != map[]
    ensures o in u
  {
    var o :| o in u;
    o
  }

  ghost function Total(u: Utxo): (n: int)
    decreases |u|
  {
    if u == map[] then 0
    else
      var o := Pick(u);
      SmallerWithout(u, o);
      u[o].value + Total(u - {o})
  }

  lemma SmallerWithout(u: Utxo, o: Outpoint)
    requires o in u
    ensures |u - {o}| < |u|
  {
    assert (u - {o}).Keys == u.Keys - {o};
  }

  lemma {:induction false} TotalRemove(u: Utxo, o: Outpoint)
    requires o in u
    ensures Total(u) == u[o].value + Total(u - {o})
    decreases |u|
  {
    var p := Pick(u);
    if p != o {
      SmallerWithout(u, p);
      SmallerWithout(u, o);
      TotalRemove(u - {p}, o);
      TotalRemove(u - {o}, p);
      assert u - {p} - {o} == u - {o} - {p};
    }
  }

  lemma TotalAdd(u: Utxo, o: Outpoint, out: TxOut)
    requires o !in u
    ensures Total(u[o := out]) == Total(u) + out.value
  {
    TotalRemove(u[o := out], o);
    assert u[o := out] - {o} == u;
  }

  ghost predicate NoNegative(u: Utxo) {
    forall o :: o in u ==> u[o].value >= 0
  }

  lemma {:induction false} TotalNotNegative(u: Utxo)
    requires NoNegative(u)
    ensures Total(u) >= 0
    decreases |u|
  {
    if u != map[] {
      SmallerWithout(u, Pick(u));
      TotalNotNegative(u - {Pick(u)});
    }
  }
}
