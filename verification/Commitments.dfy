/** What hashes commit to: an id to its transaction, a header to its block's body (src/messages/tx.c, src/blockchain.c). */
module Commitments {
  import opened Bytes
  import opened Codec
  import opened Ledger
  import opened Conservation
  import opened Validation
  import Merkle

  /** hash_tx: the double hash of the serialized transaction, its witnesses included. */
  ghost predicate HashesBytes(c: Consensus) {
    forall tx :: c.rules.txid(tx) == c.dsha(TxItemBytes(tx))
  }

  /** Two different serializations with the same double hash. */
  predicate Collide(dsha: seq<byte> -> Hash, a: Tx, b: Tx) {
    TxItemBytes(a) != TxItemBytes(b) && dsha(TxItemBytes(a)) == dsha(TxItemBytes(b))
  }

  /** What reads back as it was written. */
  ghost predicate ReadsBack(tx: Tx) {
    WellFormedTx(tx) && !SpellsMarker(tx)
  }

  lemma BytesDiffer(a: Tx, b: Tx)
    requires ReadsBack(a) && ReadsBack(b)
    ensures TxItemBytes(a) == TxItemBytes(b) <==> a == b
  {
    if TxItemBytes(a) == TxItemBytes(b) {
      TxPrefixFree(a, b, [], []);
    }
  }

  /** Two transactions share an id exactly when they are one transaction or their bytes collide. */
  lemma IdsShared(c: Consensus, a: Tx, b: Tx)
    requires HashesBytes(c) && ReadsBack(a) && ReadsBack(b)
    ensures c.rules.txid(a) == c.rules.txid(b) <==> a == b || Collide(c.dsha, a, b)
  {
    BytesDiffer(a, b);
  }

  predicate Distinct(txs: seq<Tx>) {
    forall i, j :: 0 <= i < j < |txs| ==> txs[i] != txs[j]
  }

  predicate SomeCollide(dsha: seq<byte> -> Hash, txs: seq<Tx>) {
    exists i, j :: 0 <= i < j < |txs| && Collide(dsha, txs[i], txs[j])
  }

  ghost predicate NoneStored(r: Rules, u: Utxo, txs: seq<Tx>) {
    forall i, o :: 0 <= i < |txs| && o in u ==> r.txid(txs[i]) != o.txHash
  }

  /**
   * The ids of a block are fresh exactly when the store has none of them, no transaction is repeated, and no two
   * collide.
   */
  lemma FreshExactly(c: Consensus, u: Utxo, txs: seq<Tx>)
    requires HashesBytes(c) && forall tx :: tx in txs ==> ReadsBack(tx)
    ensures FreshIds(c.rules, u, txs) <==> NoneStored(c.rules, u, txs) && Distinct(txs) && !SomeCollide(c.dsha, txs)
  {
    forall i, j | 0 <= i < j < |txs|
      ensures c.rules.txid(txs[i]) == c.rules.txid(txs[j]) <==> txs[i] == txs[j] || Collide(c.dsha, txs[i], txs[j])
    {
      IdsShared(c, txs[i], txs[j]);
    }
  }

  // ----- what a header commits to -----

  /** Legal blocks of one tree height under one header have the same ids once padded, or their roots exhibit a collision. */
  lemma HeaderCommitsToIds(c: Consensus, a: Block, b: Block, nowA: int, nowB: int)
    requires BlockLegal(c, a, nowA) && BlockLegal(c, b, nowB) && a.header == b.header
    requires Merkle.Height(|a.txs|) == Merkle.Height(|b.txs|)
    ensures var p, q := Merkle.Padded(Txids(c.rules, a.txs), Merkle.Height(|a.txs|)), Merkle.Padded(Txids(c.rules, b.txs), Merkle.Height(|b.txs|));
            p == q || Merkle.CollisionBetween(c.dsha, Merkle.Inputs(c.dsha, p), Merkle.Inputs(c.dsha, q))
  {
    Merkle.RootCommitsToPadded(c.dsha, Txids(c.rules, a.txs), Txids(c.rules, b.txs));
  }

  /** Legal blocks with as many transactions under one header are the same block, or a collision is exhibited. */
  lemma HeaderCommits(c: Consensus, a: Block, b: Block, nowA: int, nowB: int)
    requires HashesBytes(c) && WellFormedBlock(a) && WellFormedBlock(b)
    requires BlockLegal(c, a, nowA) && BlockLegal(c, b, nowB) && a.header == b.header && |a.txs| == |b.txs|
    ensures || a == b
            || (exists i :: 0 <= i < |a.txs| && Collide(c.dsha, a.txs[i], b.txs[i]))
            || Merkle.CollisionBetween(c.dsha, Merkle.Inputs(c.dsha, Txids(c.rules, a.txs)), Merkle.Inputs(c.dsha, Txids(c.rules, b.txs)))
  {
    var p, q := Txids(c.rules, a.txs), Txids(c.rules, b.txs);
    Merkle.RootCommits(c.dsha, p, q);
    if p == q && a != b {
      var i :| 0 <= i < |a.txs| && a.txs[i] != b.txs[i];
      assert p[i] == q[i];
      IdsShared(c, a.txs[i], b.txs[i]);
    }
  }

  /** The number of transactions is not committed to: a legal block of odd length from three on stays legal with its last one repeated. */
  lemma RepeatedTailLegal(c: Consensus, block: Block, now: int)
    requires BlockLegal(c, block, now) && |block.txs| % 2 == 1 && |block.txs| >= 3
    ensures BlockLegal(c, block.(txs := block.txs + [block.txs[|block.txs| - 1]]), now)
  {
    var last := block.txs[|block.txs| - 1];
    var longer := block.txs + [last];
    assert longer[..|longer| - 1] == block.txs;
    assert Txids(c.rules, longer) == Txids(c.rules, block.txs) + [c.rules.txid(last)];
    Merkle.RepeatedLeafKeepsRoot(c.dsha, Txids(c.rules, block.txs));
  }
}
