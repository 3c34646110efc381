/** evaluate and run_program of src/script.c: opcodes over frames, and what whole standard programs decide. */
module Interpreter {
  import opened Bytes
  import opened Script
  import opened Conditionals
  import opened Multisig

  /**
   * Foreign parts: hash functions, signature verdicts (1 valid, 0 invalid, negative error), and the numeric
   * and remaining opcodes, which stay abstract.
   */
  datatype Env = Env(
    hash: (byte, seq<byte>) -> seq<byte>,
    verdict: (Frame, Frame, seq<byte>) -> int,
    other: (byte, Machine) -> Option<Machine>)

  const OP_RETURN: byte := 0x6a
  const OP_VERIFY: byte := 0x69
  const OP_TOALTSTACK: byte := 0x6b
  const OP_FROMALTSTACK: byte := 0x6c
  const OP_2DUP: byte := 0x6e
  const OP_DROP: byte := 0x75
  const OP_DUP: byte := 0x76
  const OP_NIP: byte := 0x77
  const OP_ROT: byte := 0x7b
  const OP_SWAP: byte := 0x7c
  const OP_TUCK: byte := 0x7d
  const OP_EQUAL: byte := 0x87
  const OP_EQUALVERIFY: byte := 0x88
  const OP_HASH160: byte := 0xa9
  const OP_CHECKSIG: byte := 0xac
  const OP_CHECKSIGVERIFY: byte := 0xad
  const OP_CHECKMULTISIG: byte := 0xae

  predicate IsHashOp(op: byte) {
    0xa6 <= op <= 0xaa
  }

  predicate IsNop(op: byte) {
    op == 0x61 || op == OP_CODESEPARATOR || 0xb0 <= op <= 0xb9
  }

  /** OP_RESERVED, OP_VER, OP_VERIF, OP_VERNOTIF, OP_RESERVED1 and OP_RESERVED2. */
  predicate IsReserved(op: byte) {
    op == 0x50 || op == 0x62 || op == 0x65 || op == 0x66 || op == 0x89 || op == 0x8a
  }

  /** get_numerical_frame for one small number: the number, then the width the encoding leaves behind it. */
  function NumberFrame(n: byte): (f: Frame)
    requires n < 128
  {
    DataFrame([], if n == 0 then [] else [n, 1])
  }

  function BooleanFrame(b: bool): (f: Frame) {
    NumberFrame(if b then 1 else 0)
  }

  /** are_frames_equal: same kind of frame, same bytes; push headers play no part. */
  predicate SameFrame(a: Frame, b: Frame) {
    a.DataFrame? == b.DataFrame? && FrameData(a) == FrameData(b)
  }

  function Push(m: Machine, f: Frame): (r: Machine) {
    m.(stack := m.stack + [f])
  }

  function CheckSig(env: Env, frames: seq<Frame>, i: nat, m: Machine): (r: Option<Machine>)
    requires i < |frames|
  {
    if |m.stack| < 2 then None
    else
      var key, sig := Top(m.stack), Top(Popped(m).stack);
      Some(Push(Popped(Popped(m)), BooleanFrame(env.verdict(key, sig, Subscript(frames, i, true)) != 0)))
  }

  function Verify(m: Machine): (r: Option<Machine>) {
    if m.stack == [] || !Truthy(Top(m.stack)) then None else Some(Popped(m))
  }

  function MultisigChecks(env: Env, subscript: seq<byte>): Checks {
    (key, sig) => env.verdict(key, sig, subscript) == 1
  }

  /** Counts above 127 overflow the counters; they are treated as failure. */
  function CheckMulti(env: Env, frames: seq<Frame>, i: nat, m: Machine): (r: Option<Machine>)
    requires i < |frames|
  {
    var keys, sigs := PoppedKeys(m), PoppedSignatures(m);
    if |keys| > 127 || |sigs| > 127 then None
    else Some(Push(AfterMultisig(m), BooleanFrame(Greedy(keys, 0, sigs, 0, MultisigChecks(env, Subscript(frames, i, false))))))
  }

  /** One opcode that is not a branch. */
  function ExecOp(env: Env, frames: seq<Frame>, i: nat, op: byte, m: Machine): (r: Option<Machine>)
    requires i < |frames|
  {
    var a, b, c := Top(m.stack), Top(Popped(m).stack), Top(Popped(Popped(m)).stack);
    if IsNop(op) then Some(m)
    else if IsReserved(op) || op == OP_RETURN then None
    else if op == 0 then Some(Push(m, DataFrame([], [])))
    else if 0x51 <= op <= 0x60 then Some(Push(m, NumberFrame(op - 0x50)))
    else if IsHashOp(op) then
      if m.stack == [] then Some(m) else Some(Push(Popped(m), DataFrame([], env.hash(op, FrameData(a)))))
    else if op == OP_DUP then (if m.stack == [] then None else Some(Push(m, a)))
    else if op == OP_2DUP then (if |m.stack| < 2 then None else Some(Push(Push(m, b), a)))
    else if op == OP_DROP then Some(Popped(m))
    else if op == OP_NIP then Some(Push(Popped(Popped(m)), a))
    else if op == OP_SWAP then Some(Push(Push(Popped(Popped(m)), a), b))
    else if op == OP_TUCK then Some(Push(Push(Push(Popped(Popped(m)), a), b), a))
    else if op == OP_ROT then Some(Push(Push(Push(Popped(Popped(Popped(m))), b), a), c))
    else if op == OP_EQUAL then
      if |m.stack| < 2 then None else Some(Push(Popped(Popped(m)), BooleanFrame(SameFrame(a, b))))
    else if op == OP_EQUALVERIFY then
      if |m.stack| < 2 || !SameFrame(a, b) then None else Some(Popped(Popped(m)))
    else if op == OP_VERIFY then Verify(m)
    else if op == OP_TOALTSTACK then Some(Popped(m).(alt := m.alt + [a]))
    else if op == OP_FROMALTSTACK then
      Some(Push(m.(alt := if m.alt == [] then [] else m.alt[..|m.alt| - 1]), Top(m.alt)))
    else if op == OP_CHECKSIG then CheckSig(env, frames, i, m)
    else if op == OP_CHECKSIGVERIFY then
      (match CheckSig(env, frames, i, m) case None => None case Some(next) => Verify(next))
    else if op == OP_CHECKMULTISIG then CheckMulti(env, frames, i, m)
    else env.other(op, m)
  }

  /** The index OP_PICK and OP_ROLL compute: 32 bits without sign, widened only afterwards. */
  function FrameIndex(size: uint32, count: byte): (index: uint32) {
    (size - 1 - count) % 0x1_0000_0000
  }

  /** So their test for a negative index never holds; the index is inside the stack exactly when the stack is deep enough. */
  lemma FrameIndexExactly(size: uint32, count: byte)
    ensures FrameIndex(size, count) < size <==> count < size
  {
  }

  function ExecFrame(env: Env, frames: seq<Frame>, i: nat, m: Machine): (r: Option<Machine>) {
    if i >= |frames| then None
    else match frames[i]
      case DataFrame(_, _) => Some(Push(m, frames[i]))
      case OpFrame(op) => ExecOp(env, frames, i, op, m)
      case EmptyFrame => ExecOp(env, frames, i, 0, m)
  }

  function StepOf(env: Env, frames: seq<Frame>): (step: Step) {
    (i: nat, m: Machine) => ExecFrame(env, frames, i, m)
  }

  const START := Machine([], [])

  /** The verdict of a finished run: something is left, and the top frame has a byte that is not zero. */
  predicate Accepts(r: Option<Machine>) {
    r.Some? && r.value.stack != [] && Truthy(Top(r.value.stack))
  }

  predicate RunFrames(env: Env, frames: seq<Frame>) {
    Accepts(Run(frames, StepOf(env, frames), 0, START, []))
  }

  predicate RunProgram(env: Env, program: seq<byte>) {
    RunFrames(env, Decode(program))
  }

  // ----- the loop -----

  /** The branch stack never outgrows its 64 slots. */
  predicate DepthFits(frames: seq<Frame>, depth: nat)
    decreases |frames|
  {
    frames == [] ||
    if frames[0] == OpFrame(OP_IF) || frames[0] == OpFrame(OP_NOTIF) then depth < 64 && DepthFits(frames[1..], depth + 1)
    else if frames[0] == OpFrame(OP_ENDIF) then depth == 0 || DepthFits(frames[1..], depth - 1)
    else DepthFits(frames[1..], depth)
  }

  method NextEndif(frames: seq<Frame>, i: nat) returns (found: bool)
    requires i < |frames|
    ensures found <==> EndifIn(frames[i + 1..])
  {
    var k := i + 1;
    while k < |frames|
      invariant i < k <= |frames|
      invariant OpFrame(OP_ENDIF) !in frames[i + 1..k]
    {
      if frames[k] == OpFrame(OP_ENDIF) {
        assert frames[k] == frames[i + 1..][k - i - 1];
        return true;
      }
      assert frames[i + 1..k + 1] == frames[i + 1..k] + [frames[k]];
      k := k + 1;
    }
    assert frames[i + 1..k] == frames[i + 1..];
    return false;
  }

  /** evaluate: the frame loop with its array of branch states. */
  method Evaluate(env: Env, frames: seq<Frame>) returns (result: bool)
    requires DepthFits(frames, 0)
    ensures result == RunFrames(env, frames)
  {
    var states := new bool[64];
    var stackIndex: int := -1;
    var m := START;
    ghost var step := StepOf(env, frames);
    assert frames[0..] == frames;
    for i := 0 to |frames|
      invariant -1 <= stackIndex < 64
      invariant DepthFits(frames[i..], stackIndex + 1)
      invariant Run(frames[i..], step, i, m, states[..stackIndex + 1]) == Run(frames, step, 0, START, [])
    {
      var f := frames[i];
      assert frames[i..][1..] == frames[i + 1..];
      if !IsBranch(f) {
        if stackIndex >= 0 && !states[stackIndex] {
          continue;
        }
        var next := ExecFrame(env, frames, i, m);
        if next.None? { return false; }
        m := next.value;
      } else if f.op == OP_IF || f.op == OP_NOTIF {
        var found := NextEndif(frames, i);
        if !found { return false; }
        ghost var before := states[..stackIndex + 1];
        stackIndex := stackIndex + 1;
        states[stackIndex] := Truthy(Top(m.stack)) == (f.op == OP_IF);
        assert states[..stackIndex + 1] == before + [states[stackIndex]];
        m := Popped(m);
      } else if stackIndex < 0 {
        return false;
      } else if f.op == OP_ELSE {
        ghost var before := states[..stackIndex + 1];
        states[stackIndex] := !states[stackIndex];
        assert states[..stackIndex + 1] == Flip(before);
      } else {
        ghost var before := states[..stackIndex + 1];
        stackIndex := stackIndex - 1;
        assert states[..stackIndex + 1] == before[..stackIndex + 1];
      }
    }
    result := m.stack != [] && Truthy(Top(m.stack));
  }

  /** A flattened program fits the branch states exactly when its conditionals nest at most 64 deep. */
  lemma DepthFitsExactly(c: Code)
    requires WellFormedCode(c)
    ensures DepthFits(Flatten(c), 0) <==> Depth(c) <= 64
  {
    assert Flatten(c) + [] == Flatten(c);
    CodeDepth(c, [], 0);
  }

  lemma {:induction false} CodeDepth(c: Code, later: seq<Frame>, d: nat)
    requires WellFormedCode(c) && d <= 64
    ensures DepthFits(Flatten(c) + later, d) <==> d + Depth(c) <= 64 && DepthFits(later, d)
    decreases c
  {
    match c
    case End => assert [] + later == later;
    case Do(f, rest) =>
      assert Flatten(c) + later == [f] + (Flatten(rest) + later);
      CodeDepth(rest, later, d);
    case If(negated, body, rest) =>
      var opener, tail := OpFrame(if negated then OP_NOTIF else OP_IF), Flatten(rest) + later;
      ConditionalThen(negated, body, rest, later);
      assert [opener] + FlattenArms(body) + [OpFrame(OP_ENDIF)] + tail == [opener] + (FlattenArms(body) + ([OpFrame(OP_ENDIF)] + tail));
      if d < 64 {
        ArmsFit(body, [OpFrame(OP_ENDIF)] + tail, d + 1);
        DepthStep(OpFrame(OP_ENDIF), tail, d + 1);
      }
      DepthStep(opener, FlattenArms(body) + ([OpFrame(OP_ENDIF)] + tail), d);
      CodeDepth(rest, later, d);
  }

  lemma {:induction false} ArmsFit(a: Arms, later: seq<Frame>, d: nat)
    requires WellFormedArms(a) && d <= 64
    ensures DepthFits(FlattenArms(a) + later, d) <==> d + ArmsDepth(a) <= 64 && DepthFits(later, d)
    decreases a
  {
    match a
    case Last(arm) => CodeDepth(arm, later, d);
    case Else(arm, others) =>
      var tail := FlattenArms(others) + later;
      assert FlattenArms(a) + later == Flatten(arm) + ([OpFrame(OP_ELSE)] + tail);
      CodeDepth(arm, [OpFrame(OP_ELSE)] + tail, d);
      DepthStep(OpFrame(OP_ELSE), tail, d);
      ArmsFit(others, later, d);
  }

  lemma DepthStep(f: Frame, later: seq<Frame>, d: nat)
    ensures DepthFits([f] + later, d) ==
      if f == OpFrame(OP_IF) || f == OpFrame(OP_NOTIF) then d < 64 && DepthFits(later, d + 1)
      else if f == OpFrame(OP_ENDIF) then d == 0 || DepthFits(later, d - 1)
      else DepthFits(later, d)
  {
    assert ([f] + later)[1..] == later;
  }

  /**
   * What evaluate decides on a structured program: nested at most 64 deep, with no conditional in the arms the run
   * skips, it has room and its ordinary meaning.
   */
  lemma StructuredProgramRuns(env: Env, c: Code)
    requires WellFormedCode(c) && Depth(c) <= 64
    requires SkipsOnlyPlain(c, StepOf(env, Flatten(c)), 0, START)
    ensures DepthFits(Flatten(c), 0)
    ensures RunFrames(env, Flatten(c)) == Accepts(Eval(c, StepOf(env, Flatten(c)), 0, START))
  {
    DepthFitsExactly(c);
    ConditionalsKeepMeaning(c, StepOf(env, Flatten(c)), START);
  }

  /** Without nested conditionals this needs no look at the run. */
  lemma FlatProgramRuns(env: Env, c: Code)
    requires WellFormedCode(c) && FlatCode(c)
    ensures DepthFits(Flatten(c), 0)
    ensures RunFrames(env, Flatten(c)) == Accepts(Eval(c, StepOf(env, Flatten(c)), 0, START))
  {
    FlatIsShallow(c);
    FlatSkipsOnlyPlain(c, StepOf(env, Flatten(c)), 0, START);
    StructuredProgramRuns(env, c);
  }

  lemma {:induction false} FlatIsShallow(c: Code)
    requires FlatCode(c)
    ensures Depth(c) <= 1
  {
    match c
    case End =>
    case Do(_, rest) => FlatIsShallow(rest);
    case If(_, body, rest) =>
      PlainArmsAreDepthless(body);
      FlatIsShallow(rest);
  }

  lemma {:induction false} PlainArmsAreDepthless(a: Arms)
    requires ArmIfs(a) == 0
    ensures ArmsDepth(a) == 0
  {
    PlainIsDepthless(a.arm);
    if a.Else? {
      PlainArmsAreDepthless(a.others);
    }
  }

  lemma {:induction false} PlainIsDepthless(c: Code)
    requires !HasConditional(c)
    ensures Depth(c) == 0
  {
    if c.Do? {
      PlainIsDepthless(c.rest);
    }
  }

  // ----- whole programs -----

  /** What the loop computes from frame `i` on, outside any conditional. */
  ghost function RunAt(env: Env, frames: seq<Frame>, i: nat, m: Machine): (r: Option<Machine>)
    requires i <= |frames|
  {
    Run(frames[i..], StepOf(env, frames), i, m, [])
  }

  lemma RunAtStart(env: Env, frames: seq<Frame>)
    ensures RunFrames(env, frames) == Accepts(RunAt(env, frames, 0, START))
  {
    assert frames[0..] == frames;
  }

  lemma AdvancePush(env: Env, frames: seq<Frame>, i: nat, m: Machine)
    requires i < |frames| && frames[i].DataFrame?
    ensures RunAt(env, frames, i, m) == RunAt(env, frames, i + 1, Push(m, frames[i]))
  {
    assert frames[i..] == [frames[i]] + frames[i + 1..];
    RunPlain(frames[i], frames[i + 1..], StepOf(env, frames), i, m, []);
  }

  lemma AdvanceOp(env: Env, frames: seq<Frame>, i: nat, op: byte, m: Machine)
    requires i < |frames| && frames[i] == OpFrame(op) && !IsBranch(OpFrame(op))
    ensures RunAt(env, frames, i, m)
         == match ExecOp(env, frames, i, op, m) case None => None case Some(next) => RunAt(env, frames, i + 1, next)
  {
    assert frames[i..] == [frames[i]] + frames[i + 1..];
    RunPlain(frames[i], frames[i + 1..], StepOf(env, frames), i, m, []);
  }

  /** Data frames are pushed in order. */
  lemma {:induction false} AdvancePushes(env: Env, frames: seq<Frame>, i: nat, pushes: seq<Frame>, m: Machine)
    requires i + |pushes| <= |frames| && forall k :: 0 <= k < |pushes| ==> frames[i + k] == pushes[k]
    requires forall k :: 0 <= k < |pushes| ==> pushes[k].DataFrame?
    ensures RunAt(env, frames, i, m) == RunAt(env, frames, i + |pushes|, m.(stack := m.stack + pushes))
    decreases |pushes|
  {
    if pushes == [] {
      assert m.stack + pushes == m.stack;
    } else {
      assert frames[i + 0] == pushes[0];
      AdvancePush(env, frames, i, m);
      forall k | 0 <= k < |pushes| - 1 ensures frames[i + 1 + k] == pushes[1..][k] {
        assert frames[i + (k + 1)] == pushes[k + 1];
      }
      AdvancePushes(env, frames, i + 1, pushes[1..], Push(m, pushes[0]));
      assert m.stack + [pushes[0]] + pushes[1..] == m.stack + pushes;
    }
  }

  /** The frames of a pay-to-public-key-hash script. */
  function PayToHashScript(hash: Frame): (frames: seq<Frame>) {
    [OpFrame(OP_DUP), OpFrame(OP_HASH160), hash, OpFrame(OP_EQUALVERIFY), OpFrame(OP_CHECKSIG)]
  }

  /** DUP, HASH160 and the hash: the key stays, with its hash and the wanted hash on top. */
  lemma RunDupHash(env: Env, frames: seq<Frame>, i: nat, m: Machine, hash: Frame)
    requires i + 3 <= |frames| && hash.DataFrame? && m.stack != []
    requires frames[i] == OpFrame(OP_DUP) && frames[i + 1] == OpFrame(OP_HASH160) && frames[i + 2] == hash
    ensures var digest := DataFrame([], env.hash(OP_HASH160, FrameData(Top(m.stack))));
            RunAt(env, frames, i, m) == RunAt(env, frames, i + 3, Push(Push(m, digest), hash))
  {
    var m1 := Push(m, Top(m.stack));
    var digest := DataFrame([], env.hash(OP_HASH160, FrameData(Top(m.stack))));
    AdvanceOp(env, frames, i, OP_DUP, m);
    PopLast(m1, m.stack, Top(m.stack));
    AdvanceOp(env, frames, i + 1, OP_HASH160, m1);
    AdvancePush(env, frames, i + 2, Push(m, digest));
  }

  /** EQUALVERIFY fails the run unless the two top frames carry the same bytes. */
  lemma RunEqualVerify(env: Env, frames: seq<Frame>, i: nat, m: Machine, a: Frame, b: Frame)
    requires i < |frames| && frames[i] == OpFrame(OP_EQUALVERIFY)
    ensures RunAt(env, frames, i, Push(Push(m, a), b)) == if SameFrame(b, a) then RunAt(env, frames, i + 1, m) else None
  {
    var m1 := Push(m, a);
    PopLast(Push(m1, b), m1.stack, b);
    PopLast(m1, m.stack, a);
    AdvanceOp(env, frames, i, OP_EQUALVERIFY, Push(m1, b));
  }

  /** A final CHECKSIG over a signature and a key. */
  lemma RunFinalCheckSig(env: Env, frames: seq<Frame>, i: nat, m: Machine, key: Frame, sig: Frame)
    requires |frames| == i + 1 && frames[i] == OpFrame(OP_CHECKSIG) && m.stack == [sig, key]
    ensures Accepts(RunAt(env, frames, i, m)) <==> env.verdict(key, sig, Subscript(frames, i, true)) != 0
  {
    var valid := env.verdict(key, sig, Subscript(frames, i, true)) != 0;
    assert Popped(m).stack == [sig] && Popped(Popped(m)).stack == [];
    AdvanceOp(env, frames, i, OP_CHECKSIG, m);
    AcceptsBoolean(Machine([BooleanFrame(valid)], m.alt), valid);
  }

  lemma AcceptsBoolean(m: Machine, b: bool)
    requires m.stack != [] && Top(m.stack) == BooleanFrame(b)
    ensures Accepts(Some(m)) == b
  {
    if b {
      assert FrameData(Top(m.stack))[0] == 1;
    }
  }

  lemma RunPayToHash(env: Env, frames: seq<Frame>, sig: Frame, key: Frame, hash: Frame)
    requires sig.DataFrame? && key.DataFrame? && hash.DataFrame? && |frames| == 8
    requires frames[0] == sig && frames[1] == key && frames[2] == OpFrame(OP_CODESEPARATOR)
    requires frames[3] == OpFrame(OP_DUP) && frames[4] == OpFrame(OP_HASH160) && frames[5] == hash
    requires frames[6] == OpFrame(OP_EQUALVERIFY) && frames[7] == OpFrame(OP_CHECKSIG)
    ensures Accepts(RunAt(env, frames, 0, START))
       <==> env.hash(OP_HASH160, key.data) == hash.data && env.verdict(key, sig, Subscript(frames, 7, true)) != 0
  {
    var m := Machine([sig, key], []);
    assert Push(START, sig) == Machine([sig], []) && Push(Machine([sig], []), key) == m;
    AdvancePush(env, frames, 0, START);
    AdvancePush(env, frames, 1, Machine([sig], []));
    AdvanceOp(env, frames, 2, OP_CODESEPARATOR, m);
    RunDupHash(env, frames, 3, m, hash);
    RunEqualVerify(env, frames, 6, m, DataFrame([], env.hash(OP_HASH160, key.data)), hash);
    if SameFrame(hash, DataFrame([], env.hash(OP_HASH160, key.data))) {
      RunFinalCheckSig(env, frames, 7, m, key, sig);
    }
  }

  lemma PayToHashSubscript(sig: Frame, key: Frame, hash: Frame)
    requires hash.DataFrame? && WellFormedFrame(hash)
    ensures var pk := PayToHashScript(hash);
            WellFormed(pk) && Subscript([sig, key] + [OpFrame(OP_CODESEPARATOR)] + pk, 7, true) == Encode(pk)
  {
    var pk := PayToHashScript(hash);
    WholeScriptOfFrames([sig, key], pk, 4);
    SignedWhole(pk, 4, true);
  }

  /**
   * A pay-to-public-key-hash input is accepted exactly when the key hashes to the script's hash and the
   * signature check over the whole public-key script does not answer zero. An error verdict accepts too.
   */
  lemma PayToHashAccepts(env: Env, sig: Frame, key: Frame, hash: Frame)
    requires sig.DataFrame? && key.DataFrame? && hash.DataFrame?
    requires WellFormedFrame(sig) && WellFormedFrame(key) && WellFormedFrame(hash)
    ensures var pk := Encode(PayToHashScript(hash));
            RunProgram(env, Program(Encode([sig, key]), pk))
            <==> env.hash(OP_HASH160, key.data) == hash.data && env.verdict(key, sig, pk) != 0
  {
    var pk := PayToHashScript(hash);
    var frames := [sig, key] + [OpFrame(OP_CODESEPARATOR)] + pk;
    PayToHashSubscript(sig, key, hash);
    DecodeProgram([sig, key], pk);
    RunAtStart(env, frames);
    RunPayToHash(env, frames, sig, key, hash);
  }

  // ----- bare multisignature scripts -----

  /** OP_1 to OP_16. */
  function SmallNumber(n: nat): (f: Frame)
    requires 1 <= n <= 16
  {
    OpFrame(0x50 + n)
  }

  function MultisigScript(m: nat, keys: seq<Frame>): (frames: seq<Frame>)
    requires 1 <= m <= 16 && 1 <= |keys| <= 16
  {
    [SmallNumber(m)] + keys + [SmallNumber(|keys|)] + [OpFrame(OP_CHECKMULTISIG)]
  }

  /** The machine after the numbers and the keys of a multisignature script. */
  ghost function WithScript(m: Machine, n: nat, keys: seq<Frame>): (r: Machine)
    requires n <= 16 && |keys| <= 16
  {
    m.(stack := m.stack + [NumberFrame(n)] + keys + [NumberFrame(|keys|)])
  }

  lemma AdvanceScript(env: Env, frames: seq<Frame>, i: nat, m: Machine, n: nat, keys: seq<Frame>)
    requires 1 <= n <= 16 && 1 <= |keys| <= 16 && i + |keys| + 2 <= |frames|
    requires forall k :: 0 <= k < |keys| ==> keys[k].DataFrame?
    requires frames[i] == SmallNumber(n) && frames[i + 1 + |keys|] == SmallNumber(|keys|)
    requires forall k :: 0 <= k < |keys| ==> frames[i + 1 + k] == keys[k]
    ensures RunAt(env, frames, i, m) == RunAt(env, frames, i + 2 + |keys|, WithScript(m, n, keys))
  {
    var m1 := Push(m, NumberFrame(n));
    var m2 := m1.(stack := m1.stack + keys);
    AdvanceNumber(env, frames, i, n, m);
    AdvancePushes(env, frames, i + 1, keys, m1);
    AdvanceNumber(env, frames, i + 1 + |keys|, |keys|, m2);
  }

  lemma AdvanceNumber(env: Env, frames: seq<Frame>, i: nat, n: nat, m: Machine)
    requires 1 <= n <= 16 && i < |frames| && frames[i] == SmallNumber(n)
    ensures RunAt(env, frames, i, m) == RunAt(env, frames, i + 1, Push(m, NumberFrame(n)))
  {
    AdvanceOp(env, frames, i, 0x50 + n, m);
  }

  lemma RunFinalMultisig(env: Env, frames: seq<Frame>, i: nat, m: Machine, extra: Frame, sigs: seq<Frame>, keys: seq<Frame>)
    requires |frames| == i + 1 && frames[i] == OpFrame(OP_CHECKMULTISIG)
    requires 1 <= |sigs| <= 16 && 1 <= |keys| <= 16
    requires m.stack == [extra] + sigs + [NumberFrame(|sigs|)] + keys + [NumberFrame(|keys|)]
    ensures Accepts(RunAt(env, frames, i, m)) <==> Matchable(keys, sigs, MultisigChecks(env, Subscript(frames, i, false)))
  {
    var checks := MultisigChecks(env, Subscript(frames, i, false));
    assert m.stack == [] + [extra] + sigs + [NumberFrame(|sigs|)] + keys + [NumberFrame(|keys|)];
    MultisigMeaning(m, [], extra, sigs, NumberFrame(|sigs|), keys, NumberFrame(|keys|), checks);
    PoppedCounts(m, extra, sigs, keys);
    var matched := Greedy(PoppedKeys(m), 0, PoppedSignatures(m), 0, checks);
    AdvanceOp(env, frames, i, OP_CHECKMULTISIG, m);
    AcceptsBoolean(Push(AfterMultisig(m), BooleanFrame(matched)), matched);
  }

  lemma PoppedCounts(m: Machine, extra: Frame, sigs: seq<Frame>, keys: seq<Frame>)
    requires |sigs| <= 16 && |keys| <= 16
    requires m.stack == [extra] + sigs + [NumberFrame(|sigs|)] + keys + [NumberFrame(|keys|)]
    ensures |PoppedKeys(m)| == |keys| && |PoppedSignatures(m)| == |sigs|
  {
    var below := [extra] + sigs + [NumberFrame(|sigs|)];
    PopLast(m, below + keys, NumberFrame(|keys|));
    PopManyOfConcat(Popped(m), below, keys);
    PopLast(AfterKeys(m), [extra] + sigs, NumberFrame(|sigs|));
  }

  lemma RunMultisig(env: Env, frames: seq<Frame>, sigs: seq<Frame>, keys: seq<Frame>)
    requires 1 <= |sigs| <= 16 && 1 <= |keys| <= 16 && frames == MultisigProgram(sigs, keys)
    requires forall k :: 0 <= k < |sigs| ==> sigs[k].DataFrame?
    requires forall k :: 0 <= k < |keys| ==> keys[k].DataFrame?
    ensures Accepts(RunAt(env, frames, 0, START))
       <==> Matchable(keys, sigs, MultisigChecks(env, Encode(MultisigScript(|sigs|, keys))))
  {
    var last := Machine([DataFrame([], [])] + sigs + [NumberFrame(|sigs|)] + keys + [NumberFrame(|keys|)], []);
    MultisigSubscript(frames, sigs, keys);
    ProgramLayout(frames, sigs, keys);
    RunMultisigFrames(env, frames, sigs, keys);
    RunFinalMultisig(env, frames, |frames| - 1, last, DataFrame([], []), sigs, keys);
  }

  lemma MultisigSubscript(frames: seq<Frame>, sigs: seq<Frame>, keys: seq<Frame>)
    requires 1 <= |sigs| <= 16 && 1 <= |keys| <= 16 && frames == MultisigProgram(sigs, keys)
    requires forall k :: 0 <= k < |keys| ==> keys[k].DataFrame?
    ensures Subscript(frames, |frames| - 1, false) == Encode(MultisigScript(|sigs|, keys))
  {
    var separator := 1 + |sigs|;
    assert frames[separator + 1..] == MultisigScript(|sigs|, keys);
    forall j | separator < j < |frames| ensures !IsSeparator(frames[j]) {
      assert frames[j] == frames[separator + 1..][j - separator - 1];
    }
    LastFrameSigns(frames, separator);
  }

  /** Where the frames of a multisignature program stand. */
  ghost predicate LaidOut(frames: seq<Frame>, sigs: seq<Frame>, keys: seq<Frame>)
    requires 1 <= |sigs| <= 16 && 1 <= |keys| <= 16
  {
    && |frames| == |sigs| + |keys| + 5 && frames[0] == OpFrame(0) && frames[1 + |sigs|] == OpFrame(OP_CODESEPARATOR)
    && (forall k :: 0 <= k < |sigs| ==> frames[1 + k] == sigs[k])
    && frames[2 + |sigs|] == SmallNumber(|sigs|)
    && (forall k :: 0 <= k < |keys| ==> frames[3 + |sigs| + k] == keys[k])
    && frames[3 + |sigs| + |keys|] == SmallNumber(|keys|) && frames[4 + |sigs| + |keys|] == OpFrame(OP_CHECKMULTISIG)
  }

  lemma ProgramLayout(frames: seq<Frame>, sigs: seq<Frame>, keys: seq<Frame>)
    requires 1 <= |sigs| <= 16 && 1 <= |keys| <= 16 && frames == MultisigProgram(sigs, keys)
    ensures LaidOut(frames, sigs, keys)
  {
  }

  lemma RunMultisigFrames(env: Env, frames: seq<Frame>, sigs: seq<Frame>, keys: seq<Frame>)
    requires 1 <= |sigs| <= 16 && 1 <= |keys| <= 16 && LaidOut(frames, sigs, keys)
    requires forall k :: 0 <= k < |sigs| ==> sigs[k].DataFrame?
    requires forall k :: 0 <= k < |keys| ==> keys[k].DataFrame?
    ensures RunAt(env, frames, 0, START)
         == RunAt(env, frames, |frames| - 1,
                  Machine([DataFrame([], [])] + sigs + [NumberFrame(|sigs|)] + keys + [NumberFrame(|keys|)], []))
  {
    RunSignatures(env, frames, sigs);
    AdvanceScript(env, frames, 2 + |sigs|, Machine([DataFrame([], [])] + sigs, []), |sigs|, keys);
  }

  lemma RunSignatures(env: Env, frames: seq<Frame>, sigs: seq<Frame>)
    requires forall k :: 0 <= k < |sigs| ==> sigs[k].DataFrame?
    requires |frames| > |sigs| + 1 && frames[0] == OpFrame(0) && frames[1 + |sigs|] == OpFrame(OP_CODESEPARATOR)
    requires forall k :: 0 <= k < |sigs| ==> frames[1 + k] == sigs[k]
    ensures RunAt(env, frames, 0, START) == RunAt(env, frames, 2 + |sigs|, Machine([DataFrame([], [])] + sigs, []))
  {
    var m1 := Machine([DataFrame([], [])], []);
    AdvanceOp(env, frames, 0, 0, START);
    assert Push(START, DataFrame([], [])) == m1;
    AdvancePushes(env, frames, 1, sigs, m1);
    AdvanceOp(env, frames, 1 + |sigs|, OP_CODESEPARATOR, Machine([DataFrame([], [])] + sigs, []));
  }

  /**
   * An m-of-n bare multisignature input is accepted exactly when its signatures can be given keys in order,
   * each verdict being 1 over the whole public-key script.
   */
  lemma MultisigAccepts(env: Env, sigs: seq<Frame>, keys: seq<Frame>)
    requires 1 <= |sigs| <= 16 && 1 <= |keys| <= 16
    requires forall k :: 0 <= k < |sigs| ==> sigs[k].DataFrame? && WellFormedFrame(sigs[k])
    requires forall k :: 0 <= k < |keys| ==> keys[k].DataFrame? && WellFormedFrame(keys[k])
    ensures var pk := Encode(MultisigScript(|sigs|, keys));
            RunProgram(env, Program(Encode([OpFrame(0)] + sigs), pk)) <==> Matchable(keys, sigs, MultisigChecks(env, pk))
  {
    MultisigFrames(sigs, keys);
    DecodeProgram([OpFrame(0)] + sigs, MultisigScript(|sigs|, keys));
    RunAtStart(env, MultisigProgram(sigs, keys));
    RunMultisig(env, MultisigProgram(sigs, keys), sigs, keys);
  }

  ghost function MultisigProgram(sigs: seq<Frame>, keys: seq<Frame>): seq<Frame>
    requires 1 <= |sigs| <= 16 && 1 <= |keys| <= 16
  {
    [OpFrame(0)] + sigs + [OpFrame(OP_CODESEPARATOR)] + MultisigScript(|sigs|, keys)
  }

  lemma MultisigFrames(sigs: seq<Frame>, keys: seq<Frame>)
    requires 1 <= |sigs| <= 16 && 1 <= |keys| <= 16
    requires forall k :: 0 <= k < |sigs| ==> sigs[k].DataFrame? && WellFormedFrame(sigs[k])
    requires forall k :: 0 <= k < |keys| ==> keys[k].DataFrame? && WellFormedFrame(keys[k])
    ensures WellFormed([OpFrame(0)] + sigs) && WellFormed(MultisigScript(|sigs|, keys))
    ensures forall j :: 0 <= j < |keys| + 3 ==> !IsSeparator(MultisigScript(|sigs|, keys)[j])
  {
    var pk := MultisigScript(|sigs|, keys);
    forall j | 0 <= j < |pk| ensures WellFormedFrame(pk[j]) && !IsSeparator(pk[j]) {
      if 1 <= j <= |keys| {
        assert pk[j] == keys[j - 1];
      }
    }
  }
}
