/** What the opcodes of evaluate do to a run, each in the terms of the script language (src/script.c). */
module Opcodes {
  import opened Bytes
  import opened Script
  import opened Conditionals
  import opened Multisig
  import opened Interpreter

  /** The run from frame i on with the given stack, its top last. */
  ghost function On(env: Env, frames: seq<Frame>, i: nat, stack: seq<Frame>, alt: seq<Frame>): (r: Option<Machine>)
    requires i <= |frames|
  {
    RunAt(env, frames, i, Machine(stack, alt))
  }

  predicate At(frames: seq<Frame>, i: nat, op: byte) {
    i < |frames| && frames[i] == OpFrame(op)
  }

  // ----- moving frames -----

  /** OP_DUP: x -> x x. */
  lemma Dup(env: Env, frames: seq<Frame>, i: nat, s: seq<Frame>, x: Frame, alt: seq<Frame>)
    requires At(frames, i, 0x76)
    ensures On(env, frames, i, s + [x], alt) == On(env, frames, i + 1, s + [x, x], alt)
  {
    PopLast(Machine(s + [x], alt), s, x);
    assert s + [x] + [x] == s + [x, x];
    AdvanceOp(env, frames, i, 0x76, Machine(s + [x], alt));
  }

  /** OP_2DUP: x y -> x y x y. */
  lemma Dup2(env: Env, frames: seq<Frame>, i: nat, s: seq<Frame>, x: Frame, y: Frame, alt: seq<Frame>)
    requires At(frames, i, 0x6e)
    ensures On(env, frames, i, s + [x, y], alt) == On(env, frames, i + 1, s + [x, y, x, y], alt)
  {
    TopTwo(s, x, y, alt);
    assert s + [x, y] + [x] + [y] == s + [x, y, x, y];
    AdvanceOp(env, frames, i, 0x6e, Machine(s + [x, y], alt));
  }

  lemma TopTwo(s: seq<Frame>, x: Frame, y: Frame, alt: seq<Frame>)
    ensures var m := Machine(s + [x, y], alt);
            && Top(m.stack) == y && Popped(m) == Machine(s + [x], alt)
            && Top(Popped(m).stack) == x && Popped(Popped(m)) == Machine(s, alt)
  {
    assert s + [x, y] == s + [x] + [y];
    PopLast(Machine(s + [x, y], alt), s + [x], y);
    PopLast(Machine(s + [x], alt), s, x);
  }

  /** OP_DROP: x -> nothing. */
  lemma Drop(env: Env, frames: seq<Frame>, i: nat, s: seq<Frame>, x: Frame, alt: seq<Frame>)
    requires At(frames, i, 0x75)
    ensures On(env, frames, i, s + [x], alt) == On(env, frames, i + 1, s, alt)
  {
    PopLast(Machine(s + [x], alt), s, x);
    AdvanceOp(env, frames, i, 0x75, Machine(s + [x], alt));
  }

  /** OP_NIP: x y -> y. */
  lemma Nip(env: Env, frames: seq<Frame>, i: nat, s: seq<Frame>, x: Frame, y: Frame, alt: seq<Frame>)
    requires At(frames, i, 0x77)
    ensures On(env, frames, i, s + [x, y], alt) == On(env, frames, i + 1, s + [y], alt)
  {
    TopTwo(s, x, y, alt);
    AdvanceOp(env, frames, i, 0x77, Machine(s + [x, y], alt));
  }

  /** OP_SWAP: x y -> y x. */
  lemma Swap(env: Env, frames: seq<Frame>, i: nat, s: seq<Frame>, x: Frame, y: Frame, alt: seq<Frame>)
    requires At(frames, i, 0x7c)
    ensures On(env, frames, i, s + [x, y], alt) == On(env, frames, i + 1, s + [y, x], alt)
  {
    TopTwo(s, x, y, alt);
    assert s + [y] + [x] == s + [y, x];
    AdvanceOp(env, frames, i, 0x7c, Machine(s + [x, y], alt));
  }

  /** OP_TUCK: x y -> y x y. */
  lemma Tuck(env: Env, frames: seq<Frame>, i: nat, s: seq<Frame>, x: Frame, y: Frame, alt: seq<Frame>)
    requires At(frames, i, 0x7d)
    ensures On(env, frames, i, s + [x, y], alt) == On(env, frames, i + 1, s + [y, x, y], alt)
  {
    TopTwo(s, x, y, alt);
    assert s + [y] + [x] + [y] == s + [y, x, y];
    AdvanceOp(env, frames, i, 0x7d, Machine(s + [x, y], alt));
  }

  /** OP_ROT: x y z -> y z x. */
  lemma Rot(env: Env, frames: seq<Frame>, i: nat, s: seq<Frame>, x: Frame, y: Frame, z: Frame, alt: seq<Frame>)
    requires At(frames, i, 0x7b)
    ensures On(env, frames, i, s + [x, y, z], alt) == On(env, frames, i + 1, s + [y, z, x], alt)
  {
    assert s + [x, y, z] == s + [x] + [y, z];
    TopTwo(s + [x], y, z, alt);
    PopLast(Machine(s + [x], alt), s, x);
    assert s + [y] + [z] + [x] == s + [y, z, x];
    AdvanceOp(env, frames, i, 0x7b, Machine(s + [x, y, z], alt));
  }

  /** OP_TOALTSTACK and OP_FROMALTSTACK: the top goes to the other stack and back. */
  lemma ToAndFromAlt(env: Env, frames: seq<Frame>, i: nat, s: seq<Frame>, x: Frame, alt: seq<Frame>)
    requires i < |frames|
    ensures At(frames, i, 0x6b) ==> On(env, frames, i, s + [x], alt) == On(env, frames, i + 1, s, alt + [x])
    ensures At(frames, i, 0x6c) ==> On(env, frames, i, s, alt + [x]) == On(env, frames, i + 1, s + [x], alt)
  {
    PopLast(Machine(s + [x], alt), s, x);
    assert (alt + [x])[..|alt|] == alt;
    if At(frames, i, 0x6b) {
      AdvanceOp(env, frames, i, 0x6b, Machine(s + [x], alt));
    }
    if At(frames, i, 0x6c) {
      AdvanceOp(env, frames, i, 0x6c, Machine(s, alt + [x]));
    }
  }

  // ----- deciding -----

  /** OP_VERIFY: the run goes on without the top when that is true, and fails otherwise, whatever follows. */
  lemma VerifyDecides(env: Env, frames: seq<Frame>, i: nat, s: seq<Frame>, x: Frame, alt: seq<Frame>)
    requires At(frames, i, 0x69)
    ensures On(env, frames, i, s + [x], alt) == if Truthy(x) then On(env, frames, i + 1, s, alt) else None
    ensures On(env, frames, i, [], alt) == None
  {
    PopLast(Machine(s + [x], alt), s, x);
    AdvanceOp(env, frames, i, 0x69, Machine(s + [x], alt));
    AdvanceOp(env, frames, i, 0x69, Machine([], alt));
  }

  /** OP_RETURN and the reserved opcodes fail the run, whatever follows. */
  lemma ReturnRejects(env: Env, frames: seq<Frame>, i: nat, s: seq<Frame>, alt: seq<Frame>)
    requires i < |frames| && exists op: byte :: op in {0x6a, 0x50, 0x62, 0x65, 0x66, 0x89, 0x8a} && frames[i] == OpFrame(op)
    ensures On(env, frames, i, s, alt) == None
  {
    var op: byte :| op in {0x6a, 0x50, 0x62, 0x65, 0x66, 0x89, 0x8a} && frames[i] == OpFrame(op);
    AdvanceOp(env, frames, i, op, Machine(s, alt));
  }

  /** OP_EQUAL: one true or false frame for two that carry the same bytes or do not. */
  lemma EqualDecides(env: Env, frames: seq<Frame>, i: nat, s: seq<Frame>, x: Frame, y: Frame, alt: seq<Frame>)
    requires At(frames, i, 0x87) && x.DataFrame? && y.DataFrame?
    ensures exists f :: On(env, frames, i, s + [x, y], alt) == On(env, frames, i + 1, s + [f], alt)
                        && (Truthy(f) <==> x.data == y.data)
  {
    TopTwo(s, x, y, alt);
    AdvanceOp(env, frames, i, 0x87, Machine(s + [x, y], alt));
    var f := BooleanFrame(SameFrame(y, x));
    BooleanIsTruthy(SameFrame(y, x));
    assert On(env, frames, i, s + [x, y], alt) == On(env, frames, i + 1, s + [f], alt);
  }

  lemma BooleanIsTruthy(b: bool)
    ensures Truthy(BooleanFrame(b)) <==> b
  {
    if b {
      assert FrameData(BooleanFrame(b))[0] == 1;
    }
  }

  /** OP_CHECKSIGVERIFY: the run goes on without key and signature when the verdict is not 0, and fails otherwise. */
  lemma CheckSigVerifyDecides(env: Env, frames: seq<Frame>, i: nat, s: seq<Frame>, sig: Frame, key: Frame, alt: seq<Frame>)
    requires At(frames, i, 0xad)
    ensures On(env, frames, i, s + [sig, key], alt)
         == if env.verdict(key, sig, Subscript(frames, i, true)) != 0 then On(env, frames, i + 1, s, alt) else None
  {
    var valid := env.verdict(key, sig, Subscript(frames, i, true)) != 0;
    TopTwo(s, sig, key, alt);
    BooleanIsTruthy(valid);
    PopLast(Machine(s + [BooleanFrame(valid)], alt), s, BooleanFrame(valid));
    AdvanceOp(env, frames, i, 0xad, Machine(s + [sig, key], alt));
  }

  /** OP_NOP, OP_CODESEPARATOR and the codes 0xb0 to 0xb9 do nothing. */
  lemma NopOn(env: Env, frames: seq<Frame>, i: nat, op: byte, s: seq<Frame>, alt: seq<Frame>)
    requires At(frames, i, op) && (op == 0x61 || op == 0xab || 0xb0 <= op <= 0xb9)
    ensures On(env, frames, i, s, alt) == On(env, frames, i + 1, s, alt)
  {
    AdvanceOp(env, frames, i, op, Machine(s, alt));
  }

  /** On a stack too short, OP_DUP, OP_2DUP, the comparisons and the signature checks fail; a hash opcode does nothing. */
  lemma ShortStack(env: Env, frames: seq<Frame>, i: nat, s: seq<Frame>, alt: seq<Frame>)
    requires i < |frames|
    ensures |s| < 1 && At(frames, i, 0x76) ==> On(env, frames, i, s, alt) == None
    ensures |s| < 2 && (exists op: byte :: op in {0x6e, 0x87, 0x88, 0xac, 0xad} && frames[i] == OpFrame(op)) ==> On(env, frames, i, s, alt) == None
    ensures |s| < 1 && (exists op: byte :: 0xa6 <= op <= 0xaa && frames[i] == OpFrame(op)) ==>
              On(env, frames, i, s, alt) == On(env, frames, i + 1, s, alt)
  {
    if frames[i].OpFrame? && !IsBranch(frames[i]) {
      AdvanceOp(env, frames, i, frames[i].op, Machine(s, alt));
    }
  }

  // ----- whole programs -----

  /** At the end of the frames, what counts is the top of the stack. */
  lemma EndAccepts(env: Env, frames: seq<Frame>, s: seq<Frame>, x: Frame, alt: seq<Frame>)
    ensures Accepts(On(env, frames, |frames|, s + [x], alt)) <==> Truthy(x)
  {
    assert frames[|frames|..] == [];
  }

  /** `<key> OP_CHECKSIGVERIFY OP_1`. */
  function CheckedScript(key: Frame): (frames: seq<Frame>) {
    [key, OpFrame(0xad), OpFrame(0x51)]
  }

  lemma PushOn(env: Env, frames: seq<Frame>, i: nat, s: seq<Frame>, x: Frame, alt: seq<Frame>)
    requires i < |frames| && frames[i] == x && x.DataFrame?
    ensures On(env, frames, i, s, alt) == On(env, frames, i + 1, s + [x], alt)
  {
    AdvancePush(env, frames, i, Machine(s, alt));
  }

  lemma SeparatorOn(env: Env, frames: seq<Frame>, i: nat, s: seq<Frame>, alt: seq<Frame>)
    requires At(frames, i, 0xab)
    ensures On(env, frames, i, s, alt) == On(env, frames, i + 1, s, alt)
  {
    AdvanceOp(env, frames, i, 0xab, Machine(s, alt));
  }

  /** OP_1 to OP_16 push a frame that is true. */
  lemma NumberOn(env: Env, frames: seq<Frame>, i: nat, n: byte, s: seq<Frame>, alt: seq<Frame>)
    requires 1 <= n <= 16 && At(frames, i, 0x50 + n)
    ensures On(env, frames, i, s, alt) == On(env, frames, i + 1, s + [NumberFrame(n)], alt) && Truthy(NumberFrame(n))
  {
    AdvanceOp(env, frames, i, 0x50 + n, Machine(s, alt));
    assert FrameData(NumberFrame(n))[0] == n;
  }

  lemma RunChecked(env: Env, frames: seq<Frame>, sig: Frame, key: Frame)
    requires frames == [sig, OpFrame(OP_CODESEPARATOR), key, OpFrame(0xad), OpFrame(0x51)] && sig.DataFrame? && key.DataFrame?
    ensures Accepts(RunAt(env, frames, 0, START)) <==> env.verdict(key, sig, Subscript(frames, 3, true)) != 0
  {
    PushOn(env, frames, 0, [], sig, []);
    SeparatorOn(env, frames, 1, [] + [sig], []);
    PushOn(env, frames, 2, [] + [sig], key, []);
    RunCheckedTail(env, frames, sig, key, [] + [sig] + [key]);
  }

  lemma RunCheckedTail(env: Env, frames: seq<Frame>, sig: Frame, key: Frame, s: seq<Frame>)
    requires |frames| == 5 && At(frames, 3, 0xad) && At(frames, 4, 0x51) && s == [sig, key]
    ensures Accepts(On(env, frames, 3, s, [])) <==> env.verdict(key, sig, Subscript(frames, 3, true)) != 0
  {
    assert s == [] + [sig, key];
    CheckSigVerifyDecides(env, frames, 3, [], sig, key, []);
    NumberOn(env, frames, 4, 1, [], []);
    EndAccepts(env, frames, [], NumberFrame(1), []);
  }

  /** A signature for `<key> OP_CHECKSIGVERIFY OP_1` is accepted exactly when its check over the whole script is not 0. */
  lemma CheckedAccepts(env: Env, sig: Frame, key: Frame)
    requires sig.DataFrame? && key.DataFrame? && WellFormedFrame(sig) && WellFormedFrame(key)
    ensures var pk := Encode(CheckedScript(key)); RunProgram(env, Program(Encode([sig]), pk)) <==> env.verdict(key, sig, pk) != 0
  {
    var pk := CheckedScript(key);
    var frames := [sig] + [OpFrame(OP_CODESEPARATOR)] + pk;
    CheckedSubscript(sig, key);
    DecodeProgram([sig], pk);
    RunAtStart(env, frames);
    RunChecked(env, frames, sig, key);
  }

  lemma CheckedSubscript(sig: Frame, key: Frame)
    requires key.DataFrame? && WellFormedFrame(key)
    ensures var pk := CheckedScript(key);
            WellFormed(pk) && Subscript([sig] + [OpFrame(OP_CODESEPARATOR)] + pk, 3, true) == Encode(pk)
  {
    var pk := CheckedScript(key);
    WholeScriptOfFrames([sig], pk, 1);
    SignedWhole(pk, 1, true);
  }

  /** OP_RIPEMD160, OP_SHA1, OP_SHA256, OP_HASH160 and OP_HASH256: the top is replaced by its hash. */
  lemma HashOn(env: Env, frames: seq<Frame>, i: nat, op: byte, s: seq<Frame>, x: Frame, alt: seq<Frame>)
    requires 0xa6 <= op <= 0xaa && At(frames, i, op) && x.DataFrame?
    ensures On(env, frames, i, s + [x], alt) == On(env, frames, i + 1, s + [DataFrame([], env.hash(op, x.data))], alt)
  {
    PopLast(Machine(s + [x], alt), s, x);
    AdvanceOp(env, frames, i, op, Machine(s + [x], alt));
  }

  /** A hash opcode, a hash and OP_EQUAL. */
  function LockScript(op: byte, hash: Frame): (frames: seq<Frame>) {
    [OpFrame(op), hash, OpFrame(0x87)]
  }

  lemma RunLock(env: Env, frames: seq<Frame>, op: byte, preimage: Frame, hash: Frame)
    requires 0xa6 <= op <= 0xaa && preimage.DataFrame? && hash.DataFrame?
    requires frames == [preimage, OpFrame(OP_CODESEPARATOR), OpFrame(op), hash, OpFrame(0x87)]
    ensures Accepts(RunAt(env, frames, 0, START)) <==> env.hash(op, preimage.data) == hash.data
  {
    var digest := DataFrame([], env.hash(op, preimage.data));
    PushOn(env, frames, 0, [], preimage, []);
    SeparatorOn(env, frames, 1, [] + [preimage], []);
    HashOn(env, frames, 2, op, [], preimage, []);
    PushOn(env, frames, 3, [] + [digest], hash, []);
    assert [] + [digest] + [hash] == [] + [digest, hash];
    EqualDecides(env, frames, 4, [], digest, hash, []);
    var f :| On(env, frames, 4, [] + [digest, hash], []) == On(env, frames, 5, [] + [f], [])
             && (Truthy(f) <==> digest.data == hash.data);
    EndAccepts(env, frames, [], f, []);
  }

  /** A hash lock, for each of the five hash opcodes, opens exactly to a preimage of its hash. */
  lemma LockAccepts(env: Env, op: byte, preimage: Frame, hash: Frame)
    requires 0xa6 <= op <= 0xaa && preimage.DataFrame? && hash.DataFrame? && WellFormedFrame(preimage) && WellFormedFrame(hash)
    ensures RunProgram(env, Program(Encode([preimage]), Encode(LockScript(op, hash)))) <==> env.hash(op, preimage.data) == hash.data
  {
    var pk := LockScript(op, hash);
    var frames := [preimage] + [OpFrame(OP_CODESEPARATOR)] + pk;
    DecodeProgram([preimage], pk);
    RunAtStart(env, frames);
    RunLock(env, frames, op, preimage, hash);
  }

  /** An output script that starts with OP_RETURN cannot be spent, whatever pushes it is given and whatever follows. */
  lemma ReturnUnspendable(env: Env, pushes: seq<Frame>, rest: seq<Frame>)
    requires WellFormed(pushes) && WellFormed(rest) && forall k :: 0 <= k < |pushes| ==> pushes[k].DataFrame?
    ensures !RunProgram(env, Program(Encode(pushes), Encode([OpFrame(0x6a)] + rest)))
  {
    var pk := [OpFrame(0x6a)] + rest;
    DecodeProgram(pushes, pk);
    RunAtStart(env, pushes + [OpFrame(OP_CODESEPARATOR)] + pk);
    RunReturn(env, pushes + [OpFrame(OP_CODESEPARATOR)] + pk, pushes);
  }

  lemma RunReturn(env: Env, frames: seq<Frame>, pushes: seq<Frame>)
    requires forall k :: 0 <= k < |pushes| ==> pushes[k].DataFrame?
    requires At(frames, |pushes|, 0xab) && At(frames, |pushes| + 1, 0x6a)
    requires forall k :: 0 <= k < |pushes| ==> frames[0 + k] == pushes[k]
    ensures RunAt(env, frames, 0, START) == None
  {
    AdvancePushes(env, frames, 0, pushes, START);
    assert START.stack + pushes == pushes;
    SeparatorOn(env, frames, |pushes|, pushes, []);
    ReturnRejects(env, frames, |pushes| + 1, pushes, []);
  }

  /** The bytes of a pay-to-public-key-hash script: DUP, HASH160, the pushed hash, EQUALVERIFY, CHECKSIG. */
  lemma PayToHashBytes(hash: Frame)
    requires hash.DataFrame? && WellFormedFrame(hash)
    ensures Encode(PayToHashScript(hash)) == [0x76, 0xa9] + hash.header + hash.data + [0x88, 0xac]
  {
    var s := PayToHashScript(hash);
    var d := FrameBytes(hash);
    assert s[1..][1..][1..][1..] == [OpFrame(0xac)] && [OpFrame(0xac)][1..] == [];
    assert Encode([OpFrame(0xac)]) == [0xac];
    assert Encode(s[1..][1..][1..]) == [0x88] + [0xac];
    assert Encode(s[1..][1..]) == d + ([0x88] + [0xac]);
    assert Encode(s[1..]) == [0xa9] + (d + ([0x88] + [0xac]));
  }

  /** The bytes of an m-of-n script of one key: OP_1, the pushed key, OP_1, CHECKMULTISIG. */
  lemma OneOfOneBytes(key: Frame)
    requires key.DataFrame? && WellFormedFrame(key)
    ensures Encode(MultisigScript(1, [key])) == [0x51] + key.header + key.data + [0x51, 0xae]
  {
    var s := MultisigScript(1, [key]);
    var d := FrameBytes(key);
    assert s[1..][1..][1..] == [OpFrame(0xae)] && [OpFrame(0xae)][1..] == [];
    assert Encode([OpFrame(0xae)]) == [0xae];
    assert Encode(s[1..][1..]) == [0x51] + [0xae];
    assert Encode(s[1..]) == d + ([0x51] + [0xae]);
  }

  /** One signature for one key: unlike OP_CHECKSIG, OP_CHECKMULTISIG takes the verdict 1 only. */
  lemma OneOfOneAccepts(env: Env, sig: Frame, key: Frame)
    requires sig.DataFrame? && key.DataFrame? && WellFormedFrame(sig) && WellFormedFrame(key)
    ensures var pk := Encode(MultisigScript(1, [key]));
            RunProgram(env, Program(Encode([OpFrame(0), sig]), pk)) <==> env.verdict(key, sig, pk) == 1
  {
    var pk := Encode(MultisigScript(1, [key]));
    assert [OpFrame(0)] + [sig] == [OpFrame(0), sig];
    MultisigAccepts(env, [sig], [key]);
    OneMatch(sig, key, MultisigChecks(env, pk));
  }

  lemma OneMatch(sig: Frame, key: Frame, checks: Checks)
    ensures Matchable([key], [sig], checks) <==> checks(key, sig)
  {
    if checks(key, sig) {
      assert Assigns([key], 0, [sig], 0, checks, [0]);
    }
    if Matchable([key], [sig], checks) {
      var choice :| Assigns([key], 0, [sig], 0, checks, choice);
      assert choice[0] == 0;
    }
  }
}
