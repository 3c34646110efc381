/** What a signature commits to (make_tx_copy, polish_tx_copy and hash_tx_with_hashtype in src/script.c). */
module SigHash {
  import opened Bytes
  import opened Varint
  import opened Codec
  import opened CodecBuffer

  const SIGHASH_NONE := 2
  const SIGHASH_SINGLE := 3

  /** MASK_HASHTYPE keeps the low five bits. */
  function Mode(hashtype: uint32): (m: nat) {
    hashtype % 32
  }

  /** Bit 0x80: only the signed input is kept. */
  predicate AnyoneCanPay(hashtype: uint32) {
    hashtype / 128 % 2 == 1
  }

  /** SIGHASH_SINGLE without a matching output: the digest is then a constant. */
  predicate SingleOutOfRange(tx: Tx, hashtype: uint32, index: nat) {
    Mode(hashtype) == SIGHASH_SINGLE && |tx.inputs| > |tx.outputs| && index >= |tx.outputs|
  }

  /** A transaction whose counts and lengths fit in 32 bits, with a witness for each input if any. */
  ghost predicate Sized(tx: Tx)
  {
    && |tx.inputs| < 0x1_0000_0000 && |tx.outputs| < 0x1_0000_0000
    && (forall i :: i in tx.inputs ==> |i.script| < 0x1_0000_0000)
    && (forall o :: o in tx.outputs ==> |o.script| < 0x1_0000_0000)
    && (forall w :: w in tx.witnesses ==> |w| < 0x1_0000_0000)
    && (tx.HasWitness() ==> |tx.inputs| == |tx.witnesses|)
  }

  // ----- the copy that is hashed -----

  function BlankInputs(inputs: seq<TxIn>, index: nat, subscript: seq<byte>): (r: seq<TxIn>)
  {
    seq(|inputs|, i requires 0 <= i < |inputs| => inputs[i].(script := if i == index then subscript else []))
  }

  function ZeroSequences(inputs: seq<TxIn>, index: nat): (r: seq<TxIn>)
  {
    seq(|inputs|, i requires 0 <= i < |inputs| => if i == index then inputs[i] else inputs[i].(sequence := 0))
  }

  const BLANK_OUTPUT := TxOut(-1, [])

  function PolishedInputs(inputs: seq<TxIn>, hashtype: uint32, index: nat): (r: seq<TxIn>)
    requires index < |inputs|
  {
    var zeroed := if Mode(hashtype) == SIGHASH_NONE || Mode(hashtype) == SIGHASH_SINGLE
                  then ZeroSequences(inputs, index) else inputs;
    if AnyoneCanPay(hashtype) then [zeroed[index]] else zeroed
  }

  function PolishedOutputs(outputs: seq<TxOut>, hashtype: uint32, index: nat): (r: seq<TxOut>)
    requires Mode(hashtype) == SIGHASH_SINGLE ==> index < |outputs|
  {
    if Mode(hashtype) == SIGHASH_NONE then []
    else if Mode(hashtype) == SIGHASH_SINGLE then seq(index, _ => BLANK_OUTPUT) + [outputs[index]]
    else outputs
  }

  /** polish_tx_copy as a function of the copy. */
  function Polished(tx: Tx, hashtype: uint32, index: nat): (r: Tx)
    requires index < |tx.inputs| && !SingleOutOfRange(tx, hashtype, index)
  {
    tx.(inputs := PolishedInputs(tx.inputs, hashtype, index), outputs := PolishedOutputs(tx.outputs, hashtype, index))
  }

  /** The bytes hashed for a signature over input `index`. */
  function Preimage(tx: Tx, subscript: seq<byte>, hashtype: uint32, index: nat): (r: seq<byte>)
    requires index < |tx.inputs| && !SingleOutOfRange(tx, hashtype, index)
    requires tx.HasWitness() ==> |tx.inputs| == |tx.witnesses|
  {
    TxBytes(Polished(tx.(inputs := BlankInputs(tx.inputs, index, subscript)), hashtype, index)) + LE(hashtype, 4)
  }

  const DIGEST_ONE: Hash := seq(32, i => if i == 0 then 1 else 0)

  function SignatureDigest(dsha: seq<byte> -> Hash, tx: Tx, subscript: seq<byte>, hashtype: uint32, index: nat): (r: Hash)
    requires index < |tx.inputs|
    requires tx.HasWitness() ==> |tx.inputs| == |tx.witnesses|
  {
    if SingleOutOfRange(tx, hashtype, index) then DIGEST_ONE else dsha(Preimage(tx, subscript, hashtype, index))
  }

  // ----- what is kept -----

  ghost predicate SameInput(a: TxIn, b: TxIn, withSequence: bool)
  {
    a.previous == b.previous && (withSequence ==> a.sequence == b.sequence)
  }

  /** The inputs a hashtype keeps agree; old signature scripts play no part. */
  ghost predicate AgreeOnInputs(a: seq<TxIn>, b: seq<TxIn>, hashtype: uint32, index: nat)
    requires index < |a| && index < |b|
  {
    if AnyoneCanPay(hashtype) then SameInput(a[index], b[index], true)
    else
      && |a| == |b|
      && forall i :: 0 <= i < |a| ==>
           SameInput(a[i], b[i], i == index || (Mode(hashtype) != SIGHASH_NONE && Mode(hashtype) != SIGHASH_SINGLE))
  }

  ghost predicate AgreeOnOutputs(a: seq<TxOut>, b: seq<TxOut>, hashtype: uint32, index: nat)
  {
    if Mode(hashtype) == SIGHASH_NONE then true
    else if Mode(hashtype) == SIGHASH_SINGLE then index < |a| && index < |b| && a[index] == b[index]
    else a == b
  }

  /** Under ANYONECANPAY one witness is still written: the first, whichever input is signed. */
  ghost predicate AgreeOnWitnesses(a: Tx, b: Tx, hashtype: uint32)
  {
    && a.HasWitness() == b.HasWitness()
    && (a.HasWitness() ==>
          if AnyoneCanPay(hashtype)
          then |a.witnesses| > 0 && |b.witnesses| > 0 && a.witnesses[0] == b.witnesses[0]
          else a.witnesses == b.witnesses)
  }

  ghost predicate Agree(a: Tx, b: Tx, hashtype: uint32, index: nat)
    requires index < |a.inputs| && index < |b.inputs|
  {
    && a.version == b.version && a.lockTime == b.lockTime
    && AgreeOnInputs(a.inputs, b.inputs, hashtype, index)
    && AgreeOnOutputs(a.outputs, b.outputs, hashtype, index)
    && AgreeOnWitnesses(a, b, hashtype)
  }

  // ----- commitment -----

  /** The same bytes, from a transaction as the parser would leave it. */
  ghost function Canonical(tx: Tx): Tx
    requires tx.HasWitness() ==> |tx.inputs| <= |tx.witnesses|
  {
    if tx.HasWitness() then tx.(witnesses := tx.witnesses[..|tx.inputs|])
    else tx.(marker := 0, flag := 0, witnesses := [])
  }

  lemma CanonicalBytes(tx: Tx)
    requires tx.HasWitness() ==> |tx.inputs| <= |tx.witnesses|
    ensures TxBytes(Canonical(tx)) == TxBytes(tx)
  {
    if tx.HasWitness() {
      assert tx.witnesses[..|tx.inputs|][..|tx.inputs|] == tx.witnesses[..|tx.inputs|];
    }
  }

  /** The copy that is hashed, in canonical form. */
  ghost function Hashed(tx: Tx, subscript: seq<byte>, hashtype: uint32, index: nat): Tx
    requires index < |tx.inputs| && !SingleOutOfRange(tx, hashtype, index)
    requires tx.HasWitness() ==> |tx.inputs| == |tx.witnesses|
  {
    Canonical(Polished(tx.(inputs := BlankInputs(tx.inputs, index, subscript)), hashtype, index))
  }

  lemma HashedIsWellFormed(tx: Tx, subscript: seq<byte>, hashtype: uint32, index: nat)
    requires Sized(tx) && |subscript| < 0x1_0000_0000
    requires index < |tx.inputs| && !SingleOutOfRange(tx, hashtype, index)
    ensures WellFormedTx(Hashed(tx, subscript, hashtype, index)) && !SpellsMarker(Hashed(tx, subscript, hashtype, index))
  {
    var h := Hashed(tx, subscript, hashtype, index);
    var blank := BlankInputs(tx.inputs, index, subscript);
    assert forall i :: i in blank ==> SafeIn(i);
    assert forall i :: i in h.inputs ==> SafeIn(i);
    assert forall o :: o in h.outputs ==> o in tx.outputs || o == BLANK_OUTPUT;
  }

  lemma SameInputs(a: seq<TxIn>, b: seq<TxIn>, subA: seq<byte>, subB: seq<byte>, hashtype: uint32, index: nat)
    requires index < |a| && index < |b|
    ensures PolishedInputs(BlankInputs(a, index, subA), hashtype, index) == PolishedInputs(BlankInputs(b, index, subB), hashtype, index)
       <==> subA == subB && AgreeOnInputs(a, b, hashtype, index)
  {
    var x, y := BlankInputs(a, index, subA), BlankInputs(b, index, subB);
    var p, q := PolishedInputs(x, hashtype, index), PolishedInputs(y, hashtype, index);
    if AnyoneCanPay(hashtype) {
      assert p[0] == a[index].(script := subA) && q[0] == b[index].(script := subB);
    } else if |a| == |b| {
      forall i | 0 <= i < |a|
        ensures p[i] == q[i] <==>
                (i == index ==> subA == subB)
                && SameInput(a[i], b[i], i == index || (Mode(hashtype) != SIGHASH_NONE && Mode(hashtype) != SIGHASH_SINGLE))
      {
      }
      assert |p| == |q| == |a|;
      if p == q {
        assert p[index] == q[index];
      }
    } else {
      assert |p| == |a| && |q| == |b|;
    }
  }

  lemma SameOutputs(a: seq<TxOut>, b: seq<TxOut>, hashtype: uint32, index: nat)
    requires Mode(hashtype) == SIGHASH_SINGLE ==> index < |a| && index < |b|
    ensures PolishedOutputs(a, hashtype, index) == PolishedOutputs(b, hashtype, index) <==> AgreeOnOutputs(a, b, hashtype, index)
  {
    if Mode(hashtype) == SIGHASH_SINGLE {
      assert PolishedOutputs(a, hashtype, index)[index] == a[index];
      assert PolishedOutputs(b, hashtype, index)[index] == b[index];
    }
  }

  lemma SameHashed(a: Tx, b: Tx, subA: seq<byte>, subB: seq<byte>, hashtype: uint32, index: nat)
    requires Sized(a) && Sized(b)
    requires index < |a.inputs| && index < |b.inputs|
    requires !SingleOutOfRange(a, hashtype, index) && !SingleOutOfRange(b, hashtype, index)
    ensures Hashed(a, subA, hashtype, index) == Hashed(b, subB, hashtype, index)
       <==> subA == subB && Agree(a, b, hashtype, index)
  {
    SameInputs(a.inputs, b.inputs, subA, subB, hashtype, index);
    SameOutputs(a.outputs, b.outputs, hashtype, index);
    var p, q := Hashed(a, subA, hashtype, index), Hashed(b, subB, hashtype, index);
    if a.HasWitness() && b.HasWitness() {
      if AnyoneCanPay(hashtype) {
        assert p.witnesses == [a.witnesses[0]] && q.witnesses == [b.witnesses[0]];
      } else {
        assert p.witnesses == a.witnesses && q.witnesses == b.witnesses;
      }
    }
  }

  /**
   * Two signature preimages for the same input index are equal exactly when the hashtypes are equal, the
   * subscripts are equal, and the transactions agree on what that hashtype keeps.
   */
  lemma SignatureCommitment(a: Tx, b: Tx, subA: seq<byte>, subB: seq<byte>, typeA: uint32, typeB: uint32, index: nat)
    requires Sized(a) && Sized(b) && |subA| < 0x1_0000_0000 && |subB| < 0x1_0000_0000
    requires index < |a.inputs| && index < |b.inputs|
    requires !SingleOutOfRange(a, typeA, index) && !SingleOutOfRange(b, typeB, index)
    ensures Preimage(a, subA, typeA, index) == Preimage(b, subB, typeB, index)
       <==> typeA == typeB && subA == subB && Agree(a, b, typeA, index)
  {
    var p, q := Hashed(a, subA, typeA, index), Hashed(b, subB, typeB, index);
    CanonicalBytes(Polished(a.(inputs := BlankInputs(a.inputs, index, subA)), typeA, index));
    CanonicalBytes(Polished(b.(inputs := BlankInputs(b.inputs, index, subB)), typeB, index));
    assert Preimage(a, subA, typeA, index) == TxBytes(p) + LE(typeA, 4);
    assert Preimage(b, subB, typeB, index) == TxBytes(q) + LE(typeB, 4);
    HashedIsWellFormed(a, subA, typeA, index);
    HashedIsWellFormed(b, subB, typeB, index);
    if TxBytes(p) + LE(typeA, 4) == TxBytes(q) + LE(typeB, 4) {
      TxPrefixFree(p, q, LE(typeA, 4), LE(typeB, 4));
      Combine32Inverse(typeA);
      Combine32Inverse(typeB);
    }
    if typeA == typeB {
      SameHashed(a, b, subA, subB, typeA, index);
    }
  }

  // ----- the preimage, read back -----

  /** What is kept of an input: its outpoint, the subscript in place of its script, its sequence. */
  predicate InputCopied(from: TxIn, copy: TxIn, signed: bool, zeroed: bool, subscript: seq<byte>) {
    && copy.previous == from.previous
    && copy.script == (if signed then subscript else [])
    && copy.sequence == (if zeroed && !signed then 0 else from.sequence)
  }

  /** The copy for a signature over input `index`, hashtype by hashtype: 2 is NONE, 3 is SINGLE, 128 is ANYONECANPAY. */
  predicate CopyFor(tx: Tx, copy: Tx, subscript: seq<byte>, hashtype: uint32, index: nat)
    requires index < |tx.inputs|
  {
    var mode, alone := hashtype % 32, hashtype / 128 % 2 == 1;
    && copy.version == tx.version && copy.lockTime == tx.lockTime && copy.HasWitness() == tx.HasWitness()
    && (if alone then |copy.inputs| == 1 && InputCopied(tx.inputs[index], copy.inputs[0], true, false, subscript)
        else && |copy.inputs| == |tx.inputs|
             && forall i :: 0 <= i < |tx.inputs| ==>
                  InputCopied(tx.inputs[i], copy.inputs[i], i == index, mode == 2 || mode == 3, subscript))
    && (if mode == 2 then copy.outputs == []
        else if mode == 3 then
          && |copy.outputs| == index + 1 && index < |tx.outputs| && copy.outputs[index] == tx.outputs[index]
          && forall i :: 0 <= i < index ==> copy.outputs[i] == TxOut(-1, [])
        else copy.outputs == tx.outputs)
    && (if !tx.HasWitness() then copy.witnesses == []
        else if alone then |tx.witnesses| > 0 && copy.witnesses == [tx.witnesses[0]]
        else copy.witnesses == tx.witnesses)
  }

  /** The preimage is the serialized copy and the hashtype in four bytes: the parser reads exactly those back. */
  lemma PreimageReadsBack(tx: Tx, subscript: seq<byte>, hashtype: uint32, index: nat)
    requires Sized(tx) && |subscript| < 0x1_0000_0000
    requires index < |tx.inputs| && !SingleOutOfRange(tx, hashtype, index)
    ensures ReadsAsCopy(Preimage(tx, subscript, hashtype, index), tx, subscript, hashtype, index)
  {
    var copy := Hashed(tx, subscript, hashtype, index);
    CanonicalBytes(Polished(tx.(inputs := BlankInputs(tx.inputs, index, subscript)), hashtype, index));
    HashedIsWellFormed(tx, subscript, hashtype, index);
    TxRoundTrip(copy, LE(hashtype, 4));
    TakeUint32Exact(hashtype, []);
    assert LE(hashtype, 4) + [] == LE(hashtype, 4);
    HashedIsCopy(tx, subscript, hashtype, index);
  }

  /**
   * The digest, for every hashtype: without an output beside the signed input SINGLE gives the number one; everything
   * else the hash of bytes that read back as the copy and the hashtype.
   */
  lemma DigestExactly(dsha: seq<byte> -> Hash, tx: Tx, subscript: seq<byte>, hashtype: uint32, index: nat)
    requires Sized(tx) && |subscript| < 0x1_0000_0000 && index < |tx.inputs|
    ensures var d := SignatureDigest(dsha, tx, subscript, hashtype, index);
            if hashtype % 32 == 3 && index >= |tx.outputs| then FromLE(d) == 1
            else exists x :: d == dsha(x) && ReadsAsCopy(x, tx, subscript, hashtype, index)
  {
    if hashtype % 32 == 3 && index >= |tx.outputs| {
      FromLEOfZeros(31);
      assert DIGEST_ONE == [1] + seq(31, _ => 0) && DIGEST_ONE[1..] == seq(31, _ => 0);
    } else {
      PreimageReadsBack(tx, subscript, hashtype, index);
      assert ReadsAsCopy(Preimage(tx, subscript, hashtype, index), tx, subscript, hashtype, index);
    }
  }

  predicate ReadsAsCopy(x: seq<byte>, tx: Tx, subscript: seq<byte>, hashtype: uint32, index: nat)
    requires index < |tx.inputs|
  {
    var r := ParseTx(x);
    r.Done? && CopyFor(tx, r.parsed.value, subscript, hashtype, index) && TakeUint32(r.parsed.rest) == Done(Parsed(hashtype, []))
  }

  lemma HashedIsCopy(tx: Tx, subscript: seq<byte>, hashtype: uint32, index: nat)
    requires Sized(tx) && index < |tx.inputs| && !SingleOutOfRange(tx, hashtype, index)
    ensures CopyFor(tx, Hashed(tx, subscript, hashtype, index), subscript, hashtype, index)
  {
  }

  ghost predicate Collision(dsha: seq<byte> -> Hash, x: seq<byte>, y: seq<byte>) {
    x != y && dsha(x) == dsha(y)
  }

  /** Digests agree exactly when the commitments do, or the hash collides; out of range they are constant. */
  lemma DigestCommitment(dsha: seq<byte> -> Hash, a: Tx, b: Tx, subA: seq<byte>, subB: seq<byte>,
                         typeA: uint32, typeB: uint32, index: nat)
    requires Sized(a) && Sized(b) && |subA| < 0x1_0000_0000 && |subB| < 0x1_0000_0000
    requires index < |a.inputs| && index < |b.inputs|
    ensures SingleOutOfRange(a, typeA, index) && SingleOutOfRange(b, typeB, index)
        ==> SignatureDigest(dsha, a, subA, typeA, index) == SignatureDigest(dsha, b, subB, typeB, index)
    ensures !SingleOutOfRange(a, typeA, index) && !SingleOutOfRange(b, typeB, index)
        ==> (SignatureDigest(dsha, a, subA, typeA, index) == SignatureDigest(dsha, b, subB, typeB, index)
             <==> (typeA == typeB && subA == subB && Agree(a, b, typeA, index))
                  || Collision(dsha, Preimage(a, subA, typeA, index), Preimage(b, subB, typeB, index)))
  {
    if !SingleOutOfRange(a, typeA, index) && !SingleOutOfRange(b, typeB, index) {
      SignatureCommitment(a, b, subA, subB, typeA, typeB, index);
    }
  }

  // ----- the copy, changed in place -----

  /** The TxPayload copy: arrays with counts, blanked and polished in place. */
  class TxCopy {
    var version: uint32
    var marker: byte
    var flag: byte
    var inputs: array<TxIn>
    var inputCount: nat
    var outputs: array<TxOut>
    var outputCount: nat
    var witnesses: seq<seq<byte>>
    var lockTime: uint32

    ghost predicate Valid()
      reads this
    {
      inputCount <= inputs.Length && outputCount <= outputs.Length
    }

    ghost function View(): (tx: Tx)
      requires Valid()
      reads this, inputs, outputs
    {
      Tx(version, marker, flag, inputs[..inputCount], outputs[..outputCount], witnesses, lockTime)
    }

    /** clone_tx. */
    constructor Clone(tx: Tx)
      ensures Valid() && View() == tx && fresh(inputs) && fresh(outputs)
    {
      version, marker, flag := tx.version, tx.marker, tx.flag;
      inputs := new TxIn[|tx.inputs|](i requires 0 <= i < |tx.inputs| => tx.inputs[i]);
      outputs := new TxOut[|tx.outputs|](i requires 0 <= i < |tx.outputs| => tx.outputs[i]);
      inputCount, outputCount := |tx.inputs|, |tx.outputs|;
      witnesses, lockTime := tx.witnesses, tx.lockTime;
    }

    /** make_tx_copy after cloning: every signature script goes, and the subscript takes one place. */
    method Blank(index: nat, subscript: seq<byte>)
      requires Valid() && index < inputCount
      modifies inputs
      ensures Valid() && View() == old(View()).(inputs := BlankInputs(old(View().inputs), index, subscript))
    {
      ghost var was := inputs[..];
      for i := 0 to inputCount
        invariant forall k :: 0 <= k < inputs.Length ==> inputs[k] == if k < i then was[k].(script := []) else was[k]
      {
        inputs[i] := inputs[i].(script := []);
      }
      inputs[index] := inputs[index].(script := subscript);
    }

    method ZeroOtherSequences(index: nat)
      requires Valid() && index < inputCount
      modifies inputs
      ensures Valid() && View() == old(View()).(inputs := ZeroSequences(old(View().inputs), index))
    {
      ghost var was := inputs[..];
      for i := 0 to inputCount
        invariant forall k :: 0 <= k < inputs.Length ==>
                    inputs[k] == if k < i && k != index then was[k].(sequence := 0) else was[k]
      {
        if i != index {
          inputs[i] := inputs[i].(sequence := 0);
        }
      }
    }

    /** The realloc of SIGHASH_SINGLE, then every other output turned into (-1, empty). */
    method KeepSingleOutput(index: nat)
      requires Valid() && index < outputCount
      modifies this`outputs, this`outputCount
      ensures Valid() && fresh(outputs) && inputs == old(inputs)
      ensures View() == old(View()).(outputs := seq(index, _ => BLANK_OUTPUT) + [old(View().outputs)[index]])
    {
      var was := outputs;
      outputs := new TxOut[index + 1](i requires 0 <= i <= index < was.Length reads was => was[i]);
      outputCount := index + 1;
      for i := 0 to outputCount
        invariant outputCount == outputs.Length == index + 1 && fresh(outputs)
        invariant forall k :: 0 <= k < outputs.Length ==> outputs[k] == if k < i && k != index then BLANK_OUTPUT else was[k]
        invariant forall k :: 0 <= k < was.Length ==> was[k] == old(was[k])
        modifies outputs
      {
        if i != index {
          outputs[i] := BLANK_OUTPUT;
        }
      }
    }

    /** polish_tx_copy. */
    method Polish(hashtype: uint32, index: nat)
      requires Valid() && index < inputCount && !SingleOutOfRange(View(), hashtype, index)
      modifies this, inputs
      ensures Valid() && View() == Polished(old(View()), hashtype, index)
    {
      if Mode(hashtype) == SIGHASH_NONE {
        outputCount := 0;
        ZeroOtherSequences(index);
      } else if Mode(hashtype) == SIGHASH_SINGLE {
        KeepSingleOutput(index);
        ZeroOtherSequences(index);
      }
      if AnyoneCanPay(hashtype) {
        inputs[0] := inputs[index];
        inputCount := 1;
      }
    }
  }

  /** Blanking and polishing lengthens nothing but the signed input's script. */
  lemma PolishedSerializable(tx: Tx, subscript: seq<byte>, hashtype: uint32, index: nat)
    requires Serializable(tx) && |subscript| < 0x1_0000_0000_0000_0000
    requires index < |tx.inputs| && !SingleOutOfRange(tx, hashtype, index)
    ensures Serializable(Polished(tx.(inputs := BlankInputs(tx.inputs, index, subscript)), hashtype, index))
  {
  }

  /** hash_tx_with_hashtype after polishing: the transaction, then the hashtype in four bytes. */
  method SerializeForSignature(polished: Tx, hashtype: uint32, buffer: array<byte>) returns (width: nat)
    requires Serializable(polished) && |TxBytes(polished)| + 4 <= buffer.Length
    modifies buffer
    ensures width <= buffer.Length && buffer[..width] == TxBytes(polished) + LE(hashtype, 4)
  {
    width := SerializeTx(polished, buffer, 0);
    assert buffer[..width] == TxBytes(polished);
    width := Put(buffer, width, LE(hashtype, 4));
  }

  /** check_signature up to ECDSA: clone, blank, polish, serialize into a buffer, append the hashtype, hash. */
  method HashTxWithHashtype(dsha: seq<byte> -> Hash, tx: Tx, subscript: seq<byte>, hashtype: uint32, index: nat, buffer: array<byte>)
    returns (digest: Hash)
    requires index < |tx.inputs| && Serializable(tx) && |subscript| < 0x1_0000_0000_0000_0000
    requires tx.HasWitness() ==> |tx.inputs| == |tx.witnesses|
    requires SingleOutOfRange(tx, hashtype, index) || |Preimage(tx, subscript, hashtype, index)| <= buffer.Length
    modifies buffer
    ensures digest == SignatureDigest(dsha, tx, subscript, hashtype, index)
  {
    var copy := new TxCopy.Clone(tx);
    copy.Blank(index, subscript);
    if Mode(hashtype) == SIGHASH_SINGLE && copy.inputCount > copy.outputCount && index >= copy.outputCount {
      return DIGEST_ONE;
    }
    copy.Polish(hashtype, index);
    var polished := Tx(copy.version, copy.marker, copy.flag, copy.inputs[..copy.inputCount],
                       copy.outputs[..copy.outputCount], copy.witnesses, copy.lockTime);
    PolishedSerializable(tx, subscript, hashtype, index);
    var width := SerializeForSignature(polished, hashtype, buffer);
    digest := dsha(buffer[..width]);
  }
}
