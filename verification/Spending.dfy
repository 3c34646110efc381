/** Script, signature hash and ledger together: what spending an output takes (src/script.c, src/blockchain.c). */
module Spending {
  import opened Bytes
  import opened Codec
  import opened Script
  import opened SigHash
  import opened Interpreter
  import opened Ledger
  import Conditionals
  import Der

  /** The answers of ECDSA_verify: -1, 0 and 1. */
  datatype Verification = Failed | Invalid | Valid

  /** OpenSSL's part: the double hash, the opcode hashes, key decoding and ECDSA_verify; and the abstract opcodes. */
  datatype Crypto = Crypto(
    dsha: seq<byte> -> Hash,
    hash: (byte, seq<byte>) -> seq<byte>,
    decodesKey: seq<byte> -> bool,
    ecdsa: (seq<byte>, Hash, seq<byte>) -> Verification,
    other: (byte, Conditionals.Machine) -> Option<Conditionals.Machine>)

  predicate IsPubkeyPrefixValid(key: seq<byte>) {
    key != [] && key[0] in {2, 3, 4, 6, 7}
  }

  predicate HasInput(tx: Tx, index: nat) {
    index < |tx.inputs| && (tx.HasWitness() ==> |tx.inputs| == |tx.witnesses|)
  }

  /** What ECDSA_verify answers for the digest check_signature forms; the last byte of the signature is its hashtype. */
  function Verdict(c: Crypto, tx: Tx, index: nat, key: seq<byte>, sig: seq<byte>, subscript: seq<byte>): (v: Verification)
    requires HasInput(tx, index) && sig != []
  {
    c.ecdsa(key, SignatureDigest(c.dsha, tx, subscript, sig[|sig| - 1], index), Der.FixFrame(sig))
  }

  /** check_signature: 1 valid, 0 invalid, below 0 an error. */
  function CheckSignature(c: Crypto, tx: Tx, index: nat, key: seq<byte>, sig: seq<byte>, subscript: seq<byte>): (r: int)
    requires HasInput(tx, index)
  {
    if !IsPubkeyPrefixValid(key) || !c.decodesKey(key) then -1
    else if sig == [] then 0
    else
      match Verdict(c, tx, index, key, sig, subscript)
      case Failed => -100
      case Invalid => 0
      case Valid => 1
  }

  function EnvFor(c: Crypto, tx: Tx, index: nat): (env: Env)
    requires HasInput(tx, index)
  {
    Env(c.hash,
        (key, sig, subscript) => CheckSignature(c, tx, index, Conditionals.FrameData(key), Conditionals.FrameData(sig), subscript),
        c.other)
  }

  /** run_program on the signature script, a separator and the script of the source. */
  predicate ScriptWorks(c: Crypto, tx: Tx, index: nat, source: TxOut) {
    HasInput(tx, index) && RunProgram(EnvFor(c, tx, index), Program(tx.inputs[index].script, source.script))
  }

  function RulesOf(c: Crypto, txid: Tx -> Hash): (r: Rules) {
    Rules(txid, (tx: Tx, index: nat, source: TxOut) => ScriptWorks(c, tx, index, source))
  }

  predicate PushFrame(f: Frame) {
    f.DataFrame? && WellFormedFrame(f)
  }

  /** An input that carries a signature and a key, and a source that pays to a key hash. */
  predicate PaysToHash(tx: Tx, index: nat, source: TxOut, sig: Frame, key: Frame, hash: Frame)
    requires HasInput(tx, index)
  {
    && PushFrame(sig) && PushFrame(key) && PushFrame(hash)
    && tx.inputs[index].script == Encode([sig, key]) && source.script == Encode(PayToHashScript(hash))
  }

  /**
   * A pay-to-key-hash input passes validation exactly when its source is found, its key has the wanted hash, and the
   * check of its signature over the whole source script does not answer 0.
   */
  lemma PayToHashInputSigned(c: Crypto, txid: Tx -> Hash, u: Utxo, txs: seq<Tx>, i: nat, j: nat,
                             source: TxOut, sig: Frame, key: Frame, hash: Frame)
    requires i < |txs| && HasInput(txs[i], j) && !IsCoinbase(txs[i].inputs[j])
    requires PaysToHash(txs[i], j, source, sig, key, hash)
    requires Search(RulesOf(c, txid), u, txs, i, txs[i].inputs[j].previous) == Some(source)
    ensures InputSigned(RulesOf(c, txid), u, txs, i, j)
       <==> c.hash(OP_HASH160, key.data) == hash.data
            && CheckSignature(c, txs[i], j, key.data, sig.data, source.script) != 0
  {
    PayToHashAccepts(EnvFor(c, txs[i], j), sig, key, hash);
  }

  /** A signature in the intended sense: valid under a key that decodes. */
  predicate Genuine(c: Crypto, tx: Tx, index: nat, key: seq<byte>, sig: seq<byte>, subscript: seq<byte>)
    requires HasInput(tx, index) && sig != []
  {
    IsPubkeyPrefixValid(key) && c.decodesKey(key) && Verdict(c, tx, index, key, sig, subscript) == Valid
  }

  /**
   * For an input that pays to the right key hash, validation asks for a genuine signature exactly when the key has a
   * known prefix and decodes and ECDSA_verify does not fail: every error on the way counts as acceptance.
   */
  lemma GenuineExactly(c: Crypto, txid: Tx -> Hash, u: Utxo, txs: seq<Tx>, i: nat, j: nat,
                       source: TxOut, sig: Frame, key: Frame, hash: Frame)
    requires i < |txs| && HasInput(txs[i], j) && !IsCoinbase(txs[i].inputs[j])
    requires PaysToHash(txs[i], j, source, sig, key, hash) && c.hash(OP_HASH160, key.data) == hash.data
    requires Search(RulesOf(c, txid), u, txs, i, txs[i].inputs[j].previous) == Some(source)
    ensures (InputSigned(RulesOf(c, txid), u, txs, i, j) <==> Genuine(c, txs[i], j, key.data, sig.data, source.script))
       <==> IsPubkeyPrefixValid(key.data) && c.decodesKey(key.data)
            && Verdict(c, txs[i], j, key.data, sig.data, source.script) != Failed
  {
    PayToHashInputSigned(c, txid, u, txs, i, j, source, sig, key, hash);
  }

  /** A key with an unknown prefix, where its hash is the wanted one, is accepted with any signature push. */
  lemma UnknownPrefixAccepted(c: Crypto, txid: Tx -> Hash, u: Utxo, txs: seq<Tx>, i: nat, j: nat,
                              source: TxOut, sig: Frame, key: Frame, hash: Frame)
    requires i < |txs| && HasInput(txs[i], j) && !IsCoinbase(txs[i].inputs[j])
    requires PaysToHash(txs[i], j, source, sig, key, hash) && c.hash(OP_HASH160, key.data) == hash.data
    requires Search(RulesOf(c, txid), u, txs, i, txs[i].inputs[j].previous) == Some(source)
    requires !IsPubkeyPrefixValid(key.data)
    ensures InputSigned(RulesOf(c, txid), u, txs, i, j)
    ensures !Genuine(c, txs[i], j, key.data, sig.data, source.script)
  {
    PayToHashInputSigned(c, txid, u, txs, i, j, source, sig, key, hash);
  }

  /** The signature verifies for two digests. */
  ghost predicate VerifiesTwice(c: Crypto, key: seq<byte>, der: seq<byte>, d: Hash, e: Hash) {
    d != e && c.ecdsa(key, d, der) == Valid == c.ecdsa(key, e, der)
  }

  /**
   * A signature that is valid for an input of two transactions fixes everything its hashtype keeps: the two agree on
   * it, or the digest is the constant of the out-of-range case, or the double hash collides, or the two digests are
   * a pair the one signature verifies for.
   */
  lemma SignatureNotPortable(c: Crypto, a: Tx, b: Tx, index: nat, key: seq<byte>, sig: seq<byte>, subA: seq<byte>, subB: seq<byte>)
    requires Sized(a) && Sized(b) && |subA| < 0x1_0000_0000 && |subB| < 0x1_0000_0000
    requires index < |a.inputs| && index < |b.inputs| && sig != []
    requires CheckSignature(c, a, index, key, sig, subA) == 1 && CheckSignature(c, b, index, key, sig, subB) == 1
    ensures var hashtype := sig[|sig| - 1];
            || SingleOutOfRange(a, hashtype, index) || SingleOutOfRange(b, hashtype, index)
            || (subA == subB && Agree(a, b, hashtype, index))
            || Collision(c.dsha, Preimage(a, subA, hashtype, index), Preimage(b, subB, hashtype, index))
            || VerifiesTwice(c, key, Der.FixFrame(sig), SignatureDigest(c.dsha, a, subA, hashtype, index),
                             SignatureDigest(c.dsha, b, subB, hashtype, index))
  {
    var hashtype := sig[|sig| - 1];
    DigestCommitment(c.dsha, a, b, subA, subB, hashtype, hashtype, index);
  }
}
