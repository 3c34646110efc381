/** Conditionals: the flat branch-state loop of evaluate (src/script.c) against structured programs. */
module Conditionals {
  import opened Bytes
  import opened Script

  const OP_IF: byte := 0x63
  const OP_NOTIF: byte := 0x64
  const OP_ELSE: byte := 0x67
  const OP_ENDIF: byte := 0x68

  /** The runtime stack and the alternative stack. */
  datatype Machine = Machine(stack: seq<Frame>, alt: seq<Frame>)

  /** What the frame at a position does to the machine when it is no branch opcode; None is immediate failure. */
  type Step = (nat, Machine) -> Option<Machine>

  predicate IsBranch(f: Frame) {
    f.OpFrame? && (f.op == OP_IF || f.op == OP_NOTIF || f.op == OP_ELSE || f.op == OP_ENDIF)
  }

  function FrameData(f: Frame): (d: seq<byte>) {
    match f case OpFrame(op) => [op] case DataFrame(_, data) => data case EmptyFrame => []
  }

  /** is_frame_truthy: some byte is not zero. */
  predicate Truthy(f: Frame) {
    exists i :: 0 <= i < |FrameData(f)| && FrameData(f)[i] != 0
  }

  function Top(stack: seq<Frame>): (f: Frame) {
    if stack == [] then EmptyFrame else stack[|stack| - 1]
  }

  function Popped(m: Machine): (r: Machine) {
    if m.stack == [] then m else m.(stack := m.stack[..|m.stack| - 1])
  }

  // ----- the flat loop -----

  /** next_op for OP_ENDIF finds something among the later frames. */
  predicate EndifIn(later: seq<Frame>) {
    OpFrame(OP_ENDIF) in later
  }

  /** `branches` holds, for each open conditional, whether its current arm executes. */
  predicate Executing(branches: seq<bool>) {
    branches == [] || branches[|branches| - 1]
  }

  function Flip(branches: seq<bool>): (r: seq<bool>)
    requires branches != []
  {
    branches[..|branches| - 1] + [!branches[|branches| - 1]]
  }

  /** The loop of evaluate over the frames from position `i` on. Branch opcodes are obeyed even in a skipped arm. */
  function Run(frames: seq<Frame>, step: Step, i: nat, m: Machine, branches: seq<bool>): (r: Option<Machine>)
    decreases |frames|, 0
  {
    if frames == [] then Some(m)
    else if !IsBranch(frames[0]) then
      Continue(frames[1..], step, i + 1, if Executing(branches) then step(i, m) else Some(m), branches)
    else if frames[0].op == OP_IF || frames[0].op == OP_NOTIF then
      if !EndifIn(frames[1..]) then None
      else Run(frames[1..], step, i + 1, Popped(m), branches + [Truthy(Top(m.stack)) == (frames[0].op == OP_IF)])
    else if branches == [] then None
    else if frames[0].op == OP_ELSE then Run(frames[1..], step, i + 1, m, Flip(branches))
    else Run(frames[1..], step, i + 1, m, branches[..|branches| - 1])
  }

  function Continue(frames: seq<Frame>, step: Step, i: nat, m: Option<Machine>, branches: seq<bool>): (r: Option<Machine>)
    decreases |frames|, 1
  {
    match m case None => None case Some(next) => Run(frames, step, i, next, branches)
  }

  // ----- structured programs -----

  /** IF or NOTIF, any number of arms separated by ELSE, ENDIF. */
  datatype Code = End | Do(frame: Frame, rest: Code) | If(negated: bool, body: Arms, rest: Code)
  datatype Arms = Last(arm: Code) | Else(arm: Code, others: Arms)

  predicate WellFormedCode(c: Code) {
    match c
    case End => true
    case Do(f, rest) => !IsBranch(f) && WellFormedCode(rest)
    case If(_, body, rest) => WellFormedArms(body) && WellFormedCode(rest)
  }

  predicate WellFormedArms(a: Arms) {
    match a
    case Last(arm) => WellFormedCode(arm)
    case Else(arm, others) => WellFormedCode(arm) && WellFormedArms(others)
  }

  function Flatten(c: Code): (frames: seq<Frame>) {
    match c
    case End => []
    case Do(f, rest) => [f] + Flatten(rest)
    case If(negated, body, rest) =>
      [OpFrame(if negated then OP_NOTIF else OP_IF)] + FlattenArms(body) + [OpFrame(OP_ENDIF)] + Flatten(rest)
  }

  function FlattenArms(a: Arms): (frames: seq<Frame>) {
    match a
    case Last(arm) => Flatten(arm)
    case Else(arm, others) => Flatten(arm) + [OpFrame(OP_ELSE)] + FlattenArms(others)
  }

  // ----- big-step meaning -----

  /** The usual meaning: the arms of a conditional alternate, and an arm that is not taken does nothing. */
  function Eval(c: Code, step: Step, i: nat, m: Machine): (r: Option<Machine>)
    decreases c
  {
    match c
    case End => Some(m)
    case Do(_, rest) =>
      (match step(i, m) case None => None case Some(next) => Eval(rest, step, i + 1, next))
    case If(negated, body, rest) =>
      match EvalArms(body, step, i + 1, Popped(m), Truthy(Top(m.stack)) != negated)
      case None => None
      case Some(next) => Eval(rest, step, i + 2 + |FlattenArms(body)|, next)
  }

  function EvalArms(a: Arms, step: Step, i: nat, m: Machine, taken: bool): (r: Option<Machine>)
    decreases a
  {
    match a
    case Last(arm) => if taken then Eval(arm, step, i, m) else Some(m)
    case Else(arm, others) =>
      match if taken then Eval(arm, step, i, m) else Some(m)
      case None => None
      case Some(next) => EvalArms(others, step, i + |Flatten(arm)| + 1, next, !taken)
  }

  /** What the code does: with `live` false plain frames are skipped, but conditionals are still entered. */
  function Obeyed(c: Code, step: Step, i: nat, m: Machine, live: bool): (r: Option<Machine>)
    decreases c
  {
    match c
    case End => Some(m)
    case Do(_, rest) =>
      if !live then Obeyed(rest, step, i + 1, m, live)
      else (match step(i, m) case None => None case Some(next) => Obeyed(rest, step, i + 1, next, live))
    case If(negated, body, rest) =>
      match ObeyedArms(body, step, i + 1, Popped(m), Truthy(Top(m.stack)) != negated)
      case None => None
      case Some(next) => Obeyed(rest, step, i + 2 + |FlattenArms(body)|, next, live)
  }

  function ObeyedArms(a: Arms, step: Step, i: nat, m: Machine, taken: bool): (r: Option<Machine>)
    decreases a
  {
    match a
    case Last(arm) => Obeyed(arm, step, i, m, taken)
    case Else(arm, others) =>
      match Obeyed(arm, step, i, m, taken)
      case None => None
      case Some(next) => ObeyedArms(others, step, i + |Flatten(arm)| + 1, next, !taken)
  }

  // ----- the loop computes the obeyed meaning -----

  lemma RunPlain(f: Frame, later: seq<Frame>, step: Step, i: nat, m: Machine, branches: seq<bool>)
    requires !IsBranch(f)
    ensures Run([f] + later, step, i, m, branches)
         == Continue(later, step, i + 1, if Executing(branches) then step(i, m) else Some(m), branches)
  {
    assert ([f] + later)[1..] == later;
  }

  lemma RunIf(negated: bool, later: seq<Frame>, step: Step, i: nat, m: Machine, branches: seq<bool>)
    requires EndifIn(later)
    ensures Run([OpFrame(if negated then OP_NOTIF else OP_IF)] + later, step, i, m, branches)
         == Run(later, step, i + 1, Popped(m), branches + [Truthy(Top(m.stack)) != negated])
  {
    assert ([OpFrame(if negated then OP_NOTIF else OP_IF)] + later)[1..] == later;
  }

  lemma RunElse(later: seq<Frame>, step: Step, i: nat, m: Machine, branches: seq<bool>, taken: bool)
    ensures Run([OpFrame(OP_ELSE)] + later, step, i, m, branches + [taken]) == Run(later, step, i + 1, m, branches + [!taken])
  {
    assert ([OpFrame(OP_ELSE)] + later)[1..] == later;
    assert (branches + [taken])[..|branches|] == branches;
  }

  lemma RunEndif(later: seq<Frame>, step: Step, i: nat, m: Machine, branches: seq<bool>, last: bool)
    ensures Run([OpFrame(OP_ENDIF)] + later, step, i, m, branches + [last]) == Run(later, step, i + 1, m, branches)
  {
    assert ([OpFrame(OP_ENDIF)] + later)[1..] == later;
    assert (branches + [last])[..|branches|] == branches;
  }

  lemma RightNested(a: seq<Frame>, b: seq<Frame>, c: seq<Frame>, d: seq<Frame>)
    ensures a + b + c + d == a + (b + (c + d))
  {
  }

  /** Running a piece of code, then what follows it. */
  lemma {:induction false} RunCode(c: Code, later: seq<Frame>, step: Step, i: nat, m: Machine, branches: seq<bool>)
    requires WellFormedCode(c)
    ensures Run(Flatten(c) + later, step, i, m, branches)
         == Continue(later, step, i + |Flatten(c)|, Obeyed(c, step, i, m, Executing(branches)), branches)
    decreases c, 0
  {
    match c
    case End =>
      assert Flatten(c) + later == later;
    case Do(f, rest) =>
      assert Flatten(c) + later == [f] + (Flatten(rest) + later);
      RunPlain(f, Flatten(rest) + later, step, i, m, branches);
      var next := if Executing(branches) then step(i, m) else Some(m);
      if next.Some? {
        RunCode(rest, later, step, i + 1, next.value, branches);
      }
    case If(negated, body, rest) =>
      RunConditional(negated, body, Flatten(rest) + later, step, i, m, branches);
      ConditionalThen(negated, body, rest, later);
      var done := ObeyedArms(body, step, i + 1, Popped(m), Truthy(Top(m.stack)) != negated);
      if done.Some? {
        RunCode(rest, later, step, i + 2 + |FlattenArms(body)|, done.value, branches);
      }
  }

  lemma ConditionalThen(negated: bool, body: Arms, rest: Code, later: seq<Frame>)
    ensures Flatten(If(negated, body, rest)) + later
         == [OpFrame(if negated then OP_NOTIF else OP_IF)] + FlattenArms(body) + [OpFrame(OP_ENDIF)] + (Flatten(rest) + later)
  {
  }

  /** From the IF to just after its ENDIF. */
  lemma {:induction false} RunConditional(negated: bool, body: Arms, later: seq<Frame>, step: Step, i: nat, m: Machine, branches: seq<bool>)
    requires WellFormedArms(body)
    ensures Run([OpFrame(if negated then OP_NOTIF else OP_IF)] + FlattenArms(body) + [OpFrame(OP_ENDIF)] + later, step, i, m, branches)
         == Continue(later, step, i + 2 + |FlattenArms(body)|,
                     ObeyedArms(body, step, i + 1, Popped(m), Truthy(Top(m.stack)) != negated), branches)
    decreases body, 1
  {
    var taken := Truthy(Top(m.stack)) != negated;
    var afterArms := [OpFrame(OP_ENDIF)] + later;
    RightNested([OpFrame(if negated then OP_NOTIF else OP_IF)], FlattenArms(body), [OpFrame(OP_ENDIF)], later);
    RunIf(negated, FlattenArms(body) + afterArms, step, i, m, branches);
    RunArms(body, afterArms, step, i + 1, Popped(m), branches, taken);
    var done := ObeyedArms(body, step, i + 1, Popped(m), taken);
    if done.Some? {
      RunEndif(later, step, i + 1 + |FlattenArms(body)|, done.value, branches, LastTaken(body, taken));
    }
  }

  /** The arms of a conditional, up to its ENDIF; the state of the last arm is whatever the parity makes it. */
  lemma {:induction false} RunArms(a: Arms, later: seq<Frame>, step: Step, i: nat, m: Machine, branches: seq<bool>, taken: bool)
    requires WellFormedArms(a)
    ensures Run(FlattenArms(a) + later, step, i, m, branches + [taken])
         == Continue(later, step, i + |FlattenArms(a)|, ObeyedArms(a, step, i, m, taken), branches + [LastTaken(a, taken)])
    decreases a, 0
  {
    assert Executing(branches + [taken]) == taken;
    match a
    case Last(arm) =>
      RunCode(arm, later, step, i, m, branches + [taken]);
    case Else(arm, others) =>
      var afterElse := FlattenArms(others) + later;
      RightNested(Flatten(arm), [OpFrame(OP_ELSE)], FlattenArms(others), later);
      RunCode(arm, [OpFrame(OP_ELSE)] + afterElse, step, i, m, branches + [taken]);
      var done := Obeyed(arm, step, i, m, taken);
      if done.Some? {
        RunElse(afterElse, step, i + |Flatten(arm)|, done.value, branches, taken);
        RunArms(others, later, step, i + |Flatten(arm)| + 1, done.value, branches, !taken);
      }
  }

  function LastTaken(a: Arms, taken: bool): (b: bool) {
    match a case Last(_) => taken case Else(_, others) => LastTaken(others, !taken)
  }

  /** Running a flattened program is obeying its structure, for every program and every nesting. */
  lemma FlatRunObeysStructure(c: Code, step: Step, m: Machine)
    requires WellFormedCode(c)
    ensures Run(Flatten(c), step, 0, m, []) == Obeyed(c, step, 0, m, true)
  {
    assert Flatten(c) + [] == Flatten(c);
    RunCode(c, [], step, 0, m, []);
  }

  // ----- when obeying is the usual meaning -----

  predicate HasConditional(c: Code) {
    match c case End => false case Do(_, rest) => HasConditional(rest) case If(_, _, _) => true
  }

  /** No arm this run skips contains a conditional. */
  predicate SkipsOnlyPlain(c: Code, step: Step, i: nat, m: Machine)
    decreases c
  {
    match c
    case End => true
    case Do(_, rest) => (match step(i, m) case None => true case Some(next) => SkipsOnlyPlain(rest, step, i + 1, next))
    case If(negated, body, rest) =>
      var taken := Truthy(Top(m.stack)) != negated;
      && ArmsSkipOnlyPlain(body, step, i + 1, Popped(m), taken)
      && match EvalArms(body, step, i + 1, Popped(m), taken)
         case None => true
         case Some(next) => SkipsOnlyPlain(rest, step, i + 2 + |FlattenArms(body)|, next)
  }

  predicate ArmsSkipOnlyPlain(a: Arms, step: Step, i: nat, m: Machine, taken: bool)
    decreases a
  {
    && (if taken then SkipsOnlyPlain(a.arm, step, i, m) else !HasConditional(a.arm))
    && (a.Else? ==>
          match if taken then Eval(a.arm, step, i, m) else Some(m)
          case None => true
          case Some(next) => ArmsSkipOnlyPlain(a.others, step, i + |Flatten(a.arm)| + 1, next, !taken))
  }

  lemma {:induction false} SkippedPlain(c: Code, step: Step, i: nat, m: Machine)
    requires !HasConditional(c)
    ensures Obeyed(c, step, i, m, false) == Some(m)
  {
    if c.Do? {
      SkippedPlain(c.rest, step, i + 1, m);
    }
  }

  lemma {:induction false} ObeyedIsEval(c: Code, step: Step, i: nat, m: Machine)
    requires SkipsOnlyPlain(c, step, i, m)
    ensures Obeyed(c, step, i, m, true) == Eval(c, step, i, m)
    decreases c
  {
    match c
    case End =>
    case Do(_, rest) =>
      if step(i, m).Some? {
        ObeyedIsEval(rest, step, i + 1, step(i, m).value);
      }
    case If(negated, body, rest) =>
      var taken := Truthy(Top(m.stack)) != negated;
      ObeyedArmsIsEval(body, step, i + 1, Popped(m), taken);
      var done := EvalArms(body, step, i + 1, Popped(m), taken);
      if done.Some? {
        ObeyedIsEval(rest, step, i + 2 + |FlattenArms(body)|, done.value);
      }
  }

  lemma {:induction false} ObeyedArmsIsEval(a: Arms, step: Step, i: nat, m: Machine, taken: bool)
    requires ArmsSkipOnlyPlain(a, step, i, m, taken)
    ensures ObeyedArms(a, step, i, m, taken) == EvalArms(a, step, i, m, taken)
    decreases a
  {
    if taken {
      ObeyedIsEval(a.arm, step, i, m);
    } else {
      SkippedPlain(a.arm, step, i, m);
    }
    if a.Else? {
      var done := if taken then Eval(a.arm, step, i, m) else Some(m);
      if done.Some? {
        ObeyedArmsIsEval(a.others, step, i + |Flatten(a.arm)| + 1, done.value, !taken);
      }
    }
  }

  /** Conditionals keep their meaning: same stacks, same failure, when no skipped arm holds a conditional. */
  lemma ConditionalsKeepMeaning(c: Code, step: Step, m: Machine)
    requires WellFormedCode(c) && SkipsOnlyPlain(c, step, 0, m)
    ensures Run(Flatten(c), step, 0, m, []) == Eval(c, step, 0, m)
  {
    FlatRunObeysStructure(c, step, m);
    ObeyedIsEval(c, step, 0, m);
  }

  // ----- exactly when a skipped arm does nothing -----

  function Idle(i: nat, m: Machine): Option<Machine> {
    Some(m)
  }

  lemma {:induction false} IdleShrinks(c: Code, i: nat, m: Machine, live: bool)
    ensures var r := Obeyed(c, Idle, i, m, live);
            r.Some? && |r.value.stack| <= |m.stack| && (HasConditional(c) && m.stack != [] ==> |r.value.stack| < |m.stack|)
    decreases c
  {
    match c
    case End =>
    case Do(_, rest) => IdleShrinks(rest, i + 1, m, live);
    case If(negated, body, rest) =>
      var taken := Truthy(Top(m.stack)) != negated;
      IdleShrinksArms(body, i + 1, Popped(m), taken);
      IdleShrinks(rest, i + 2 + |FlattenArms(body)|, ObeyedArms(body, Idle, i + 1, Popped(m), taken).value, live);
  }

  lemma {:induction false} IdleShrinksArms(a: Arms, i: nat, m: Machine, taken: bool)
    ensures var r := ObeyedArms(a, Idle, i, m, taken); r.Some? && |r.value.stack| <= |m.stack|
    decreases a
  {
    IdleShrinks(a.arm, i, m, taken);
    if a.Else? {
      IdleShrinksArms(a.others, i + |Flatten(a.arm)| + 1, Obeyed(a.arm, Idle, i, m, taken).value, !taken);
    }
  }

  /** A skipped arm leaves every machine alone, whatever its frames would do, exactly when it holds no conditional. */
  lemma SkippedArmIsInert(c: Code, i: nat)
    ensures (forall step: Step, m: Machine :: Obeyed(c, step, i, m, false) == Some(m)) <==> !HasConditional(c)
  {
    if HasConditional(c) {
      var m := Machine([EmptyFrame], []);
      IdleShrinks(c, i, m, false);
      assert Obeyed(c, Idle, i, m, false) != Some(m);
    } else {
      forall step: Step, m: Machine ensures Obeyed(c, step, i, m, false) == Some(m) {
        SkippedPlain(c, step, i, m);
      }
    }
  }

  /** IF IF ENDIF ENDIF over two false values: the usual meaning pops one, the loop pops both. */
  lemma NestedSkipDiffers()
    ensures var c := If(false, Last(If(false, Last(End), End)), End);
            var no := DataFrame([], []);
            Run(Flatten(c), Idle, 0, Machine([no, no], []), []) == Some(Machine([], []))
            && Eval(c, Idle, 0, Machine([no, no], [])) == Some(Machine([no], []))
  {
    var no := DataFrame([], []);
    var inner := If(false, Last(End), End);
    var c := If(false, Last(inner), End);
    var m2, m1 := Machine([no, no], []), Machine([no], []);
    FlatRunObeysStructure(c, Idle, m2);
    assert !Truthy(no);
    assert Popped(m2) == m1 && Popped(m1) == Machine([], []);
    assert Obeyed(inner, Idle, 1, m1, false) == Some(Machine([], []));
    assert ObeyedArms(Last(inner), Idle, 1, m1, false) == Some(Machine([], []));
    assert EvalArms(Last(inner), Idle, 1, m1, false) == Some(m1);
  }

  // ----- exactly which programs keep their meaning -----

  /** No arm of a conditional holds a conditional. */
  predicate FlatCode(c: Code) {
    match c
    case End => true
    case Do(_, rest) => FlatCode(rest)
    case If(_, body, rest) => ArmIfs(body) == 0 && FlatCode(rest)
  }

  function CountIfs(c: Code): (n: nat)
    ensures n == 0 <==> !HasConditional(c)
  {
    match c case End => 0 case Do(_, rest) => CountIfs(rest) case If(_, body, rest) => 1 + ArmIfs(body) + CountIfs(rest)
  }

  /** The number of conditionals in the arms. */
  function ArmIfs(a: Arms): (n: nat) {
    match a case Last(arm) => CountIfs(arm) case Else(arm, others) => CountIfs(arm) + ArmIfs(others)
  }

  /** The conditionals ordinary evaluation reaches when every condition has the value t. */
  function Reached(c: Code, t: bool): (n: nat) {
    match c
    case End => 0
    case Do(_, rest) => Reached(rest, t)
    case If(negated, body, rest) => 1 + ReachedArms(body, t != negated, t) + Reached(rest, t)
  }

  function ReachedArms(a: Arms, taken: bool, t: bool): (n: nat) {
    match a
    case Last(arm) => if taken then Reached(arm, t) else 0
    case Else(arm, others) => (if taken then Reached(arm, t) else 0) + ReachedArms(others, !taken, t)
  }

  /** A stack of n frames, all true or all false. */
  function Uniform(n: nat, t: bool): (m: Machine) {
    Machine(seq(n, _ => DataFrame([], if t then [1] else [])), [])
  }

  lemma UniformTop(n: nat, t: bool)
    requires n > 0
    ensures Truthy(Top(Uniform(n, t).stack)) == t && Popped(Uniform(n, t)) == Uniform(n - 1, t)
  {
    if t {
      assert FrameData(Top(Uniform(n, t).stack))[0] == 1;
    }
  }

  /** With idle steps the loop pops once for every conditional, skipped ones included. */
  lemma {:induction false} ObeyedPops(c: Code, i: nat, n: nat, t: bool, live: bool)
    requires CountIfs(c) <= n
    ensures Obeyed(c, Idle, i, Uniform(n, t), live) == Some(Uniform(n - CountIfs(c), t))
    decreases c
  {
    match c
    case End =>
    case Do(_, rest) => ObeyedPops(rest, i + 1, n, t, live);
    case If(negated, body, rest) =>
      UniformTop(n, t);
      ObeyedArmsPops(body, i + 1, n - 1, t, t != negated);
      ObeyedPops(rest, i + 2 + |FlattenArms(body)|, n - 1 - ArmIfs(body), t, live);
  }

  lemma {:induction false} ObeyedArmsPops(a: Arms, i: nat, n: nat, t: bool, taken: bool)
    requires ArmIfs(a) <= n
    ensures ObeyedArms(a, Idle, i, Uniform(n, t), taken) == Some(Uniform(n - ArmIfs(a), t))
    decreases a
  {
    ObeyedPops(a.arm, i, n, t, taken);
    if a.Else? {
      ObeyedArmsPops(a.others, i + |Flatten(a.arm)| + 1, n - CountIfs(a.arm), t, !taken);
    }
  }

  lemma {:induction false} ReachedAtMost(c: Code, t: bool)
    ensures Reached(c, t) <= CountIfs(c)
    decreases c
  {
    match c
    case End =>
    case Do(_, rest) => ReachedAtMost(rest, t);
    case If(negated, body, rest) =>
      ReachedArmsAtMost(body, t != negated, t);
      ReachedAtMost(rest, t);
  }

  lemma {:induction false} ReachedArmsAtMost(a: Arms, taken: bool, t: bool)
    ensures ReachedArms(a, taken, t) <= ArmIfs(a)
    decreases a
  {
    ReachedAtMost(a.arm, t);
    if a.Else? {
      ReachedArmsAtMost(a.others, !taken, t);
    }
  }

  /** With idle steps ordinary evaluation pops once for every conditional it reaches. */
  lemma {:induction false} EvalPops(c: Code, i: nat, n: nat, t: bool)
    requires CountIfs(c) <= n
    ensures Reached(c, t) <= n && Eval(c, Idle, i, Uniform(n, t)) == Some(Uniform(n - Reached(c, t), t))
    decreases c
  {
    match c
    case End =>
    case Do(_, rest) => EvalPops(rest, i + 1, n, t);
    case If(negated, body, rest) =>
      var reached := ReachedArms(body, t != negated, t);
      UniformTop(n, t);
      ReachedArmsAtMost(body, t != negated, t);
      EvalArmsPops(body, i + 1, n - 1, t, t != negated);
      EvalPops(rest, i + 2 + |FlattenArms(body)|, n - 1 - reached, t);
      EvalIf(negated, body, rest, i, Uniform(n, t), Uniform(n - 1 - reached, t));
  }

  lemma EvalIf(negated: bool, body: Arms, rest: Code, i: nat, m: Machine, next: Machine)
    requires EvalArms(body, Idle, i + 1, Popped(m), Truthy(Top(m.stack)) != negated) == Some(next)
    ensures Eval(If(negated, body, rest), Idle, i, m) == Eval(rest, Idle, i + 2 + |FlattenArms(body)|, next)
  {
  }

  lemma {:induction false} EvalArmsPops(a: Arms, i: nat, n: nat, t: bool, taken: bool)
    requires ArmIfs(a) <= n
    ensures ReachedArms(a, taken, t) <= n && EvalArms(a, Idle, i, Uniform(n, t), taken) == Some(Uniform(n - ReachedArms(a, taken, t), t))
    decreases a
  {
    if taken {
      EvalPops(a.arm, i, n, t);
      ReachedAtMost(a.arm, t);
    }
    if a.Else? {
      EvalArmsPops(a.others, i + |Flatten(a.arm)| + 1, n - (if taken then Reached(a.arm, t) else 0), t, !taken);
    }
  }

  /** An arm is taken for one of the two values only, so each value's run together reach a nested conditional at most once. */
  lemma {:induction false} ArmsReachedOnce(a: Arms, taken: bool)
    ensures ReachedArms(a, taken, true) + ReachedArms(a, !taken, false) <= ArmIfs(a)
    decreases a
  {
    ReachedAtMost(a.arm, taken);
    if a.Else? {
      ArmsReachedOnce(a.others, !taken);
    }
  }

  lemma {:induction false} NestedMissed(c: Code)
    ensures Reached(c, true) + Reached(c, false) <= 2 * CountIfs(c)
    ensures !FlatCode(c) ==> Reached(c, true) + Reached(c, false) < 2 * CountIfs(c)
    decreases c
  {
    match c
    case End =>
    case Do(_, rest) => NestedMissed(rest);
    case If(negated, body, rest) =>
      ArmsReachedOnce(body, true != negated);
      NestedMissed(rest);
  }

  lemma {:induction false} FlatSkipsOnlyPlain(c: Code, step: Step, i: nat, m: Machine)
    requires FlatCode(c)
    ensures SkipsOnlyPlain(c, step, i, m)
    decreases c
  {
    match c
    case End =>
    case Do(_, rest) =>
      if step(i, m).Some? {
        FlatSkipsOnlyPlain(rest, step, i + 1, step(i, m).value);
      }
    case If(negated, body, rest) =>
      var taken := Truthy(Top(m.stack)) != negated;
      FlatArmsSkipOnlyPlain(body, step, i + 1, Popped(m), taken);
      var done := EvalArms(body, step, i + 1, Popped(m), taken);
      if done.Some? {
        FlatSkipsOnlyPlain(rest, step, i + 2 + |FlattenArms(body)|, done.value);
      }
  }

  lemma {:induction false} FlatArmsSkipOnlyPlain(a: Arms, step: Step, i: nat, m: Machine, taken: bool)
    requires ArmIfs(a) == 0
    ensures ArmsSkipOnlyPlain(a, step, i, m, taken)
    decreases a
  {
    PlainIsFlat(a.arm);
    if taken {
      FlatSkipsOnlyPlain(a.arm, step, i, m);
    }
    if a.Else? {
      var done := if taken then Eval(a.arm, step, i, m) else Some(m);
      if done.Some? {
        FlatArmsSkipOnlyPlain(a.others, step, i + |Flatten(a.arm)| + 1, done.value, !taken);
      }
    }
  }

  lemma {:induction false} PlainIsFlat(c: Code)
    requires !HasConditional(c)
    ensures FlatCode(c)
  {
    if c.Do? {
      PlainIsFlat(c.rest);
    }
  }

  /** The flat loop has the ordinary meaning, for every meaning of the frames and every machine, exactly on flat programs. */
  lemma MeaningKeptExactly(c: Code)
    requires WellFormedCode(c)
    ensures (forall step: Step, m: Machine :: Run(Flatten(c), step, 0, m, []) == Eval(c, step, 0, m)) <==> FlatCode(c)
  {
    if FlatCode(c) {
      forall step: Step, m: Machine
        ensures Run(Flatten(c), step, 0, m, []) == Eval(c, step, 0, m)
      {
        FlatSkipsOnlyPlain(c, step, 0, m);
        ConditionalsKeepMeaning(c, step, m);
      }
    } else {
      var n := CountIfs(c);
      NestedMissed(c);
      var t := Reached(c, true) < n;
      FlatRunObeysStructure(c, Idle, Uniform(n, t));
      ObeyedPops(c, 0, n, t, true);
      ReachedAtMost(c, t);
      EvalPops(c, 0, n, t);
      assert |Uniform(0, t).stack| == 0 < |Uniform(n - Reached(c, t), t).stack|;
    }
  }

  // ----- nesting -----

  function Depth(c: Code): (d: nat) {
    match c
    case End => 0
    case Do(_, rest) => Depth(rest)
    case If(_, body, rest) => Max(1 + ArmsDepth(body), Depth(rest))
  }

  function ArmsDepth(a: Arms): (d: nat) {
    match a case Last(arm) => Depth(arm) case Else(arm, others) => Max(Depth(arm), ArmsDepth(others))
  }

  function Max(a: nat, b: nat): (m: nat) {
    if a < b then b else a
  }
}
