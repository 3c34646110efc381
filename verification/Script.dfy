/** Script bytes to frames and back (load_program, find_op_frame and form_subscript in src/script.c). */
module Script {
  import opened Bytes

  const OP_PUSHDATA1: byte := 0x4c
  const OP_PUSHDATA2: byte := 0x4d
  const OP_PUSHDATA4: byte := 0x4e
  const OP_CODESEPARATOR: byte := 0xab
  const MAX_STACK_FRAME_WIDTH := 1024

  /**
   * A StackFrame: an opcode, pushed data with the push header it came with, or the all-zero frame that
   * popping an empty stack yields (an opcode frame of width zero).
   */
  datatype Frame = OpFrame(op: byte) | DataFrame(header: seq<byte>, data: seq<byte>) | EmptyFrame

  predicate IsAnonymousPush(b: byte) {
    0 < b < OP_PUSHDATA1
  }

  predicate IsPush(b: byte) {
    IsAnonymousPush(b) || b == OP_PUSHDATA1 || b == OP_PUSHDATA2 || b == OP_PUSHDATA4
  }

  predicate IsSeparator(f: Frame) {
    f == OpFrame(OP_CODESEPARATOR)
  }

  // ----- decoding -----

  /** Bytes past the end of a program read as zero. */
  function Peek(s: seq<byte>, i: nat): (b: byte) {
    if i < |s| then s[i] else 0
  }

  function PeekSlice(s: seq<byte>, from: nat, width: nat): (r: seq<byte>)
    ensures |r| == width
    ensures from + width <= |s| ==> r == s[from..from + width]
    decreases width
  {
    if width == 0 then [] else [Peek(s, from)] + PeekSlice(s, from + 1, width - 1)
  }

  /** Width of the push header at the front of `s`: PUSHDATA4 is unimplemented and has none. */
  function HeaderWidth(s: seq<byte>): (w: nat)
    requires s != [] && IsPush(s[0])
  {
    if IsAnonymousPush(s[0]) then 1 else if s[0] == OP_PUSHDATA1 then 2 else if s[0] == OP_PUSHDATA2 then 3 else 0
  }

  function DataWidth(s: seq<byte>): (w: nat)
    requires s != [] && IsPush(s[0])
  {
    if IsAnonymousPush(s[0]) then s[0]
    else if s[0] == OP_PUSHDATA1 then Peek(s, 1)
    else if s[0] == OP_PUSHDATA2 then Peek(s, 1) + 256 * Peek(s, 2)
    else 0
  }

  function FirstFrame(s: seq<byte>): (f: Frame)
    requires s != []
  {
    if IsPush(s[0]) then DataFrame(PeekSlice(s, 0, HeaderWidth(s)), PeekSlice(s, HeaderWidth(s), DataWidth(s)))
    else OpFrame(s[0])
  }

  /** How far the cursor moves: dataWidth - 1 is computed in 32 bits, so an empty push jumps 2^32 - 1 bytes. */
  function FrameAdvance(s: seq<byte>): (n: nat)
    requires s != []
    ensures n > 0
  {
    if IsPush(s[0]) then HeaderWidth(s) + (DataWidth(s) - 1) % 0x1_0000_0000 + 1 else 1
  }

  /** What remains after the first frame: nothing, when the cursor moved past the end. */
  function AfterFrame(s: seq<byte>): (r: seq<byte>)
    requires s != []
    ensures |r| < |s|
  {
    if FrameAdvance(s) < |s| then s[FrameAdvance(s)..] else []
  }

  /** load_program. */
  function Decode(s: seq<byte>): (frames: seq<Frame>)
    decreases |s|
  {
    if s == [] then []
    else [FirstFrame(s)] + Decode(AfterFrame(s))
  }

  function FrameBytes(f: Frame): (r: seq<byte>) {
    match f case OpFrame(op) => [op] case DataFrame(header, data) => header + data case EmptyFrame => []
  }

  function Encode(frames: seq<Frame>): (r: seq<byte>) {
    if frames == [] then [] else FrameBytes(frames[0]) + Encode(frames[1..])
  }

  /** A frame some script spells: an opcode that is no push, or a non-empty push under a matching header. */
  predicate WellFormedFrame(f: Frame) {
    match f
    case EmptyFrame => false
    case OpFrame(op) => !IsPush(op)
    case DataFrame(header, data) =>
      && 0 < |data| <= MAX_STACK_FRAME_WIDTH
      && (|| (|header| == 1 && IsAnonymousPush(header[0]) && |data| == header[0])
          || (|header| == 2 && header[0] == OP_PUSHDATA1 && |data| == header[1])
          || (|header| == 3 && header[0] == OP_PUSHDATA2 && |data| == header[1] + 256 * (header[2] as int)))
  }

  ghost predicate WellFormed(frames: seq<Frame>) {
    forall f :: f in frames ==> WellFormedFrame(f)
  }

  /** A well-formed frame at the front of a script is read whole. */
  lemma FrameRoundTrip(f: Frame, rest: seq<byte>)
    requires WellFormedFrame(f)
    ensures var s := FrameBytes(f) + rest;
            FirstFrame(s) == f && FrameAdvance(s) == |FrameBytes(f)|
  {
    var s := FrameBytes(f) + rest;
    if f.DataFrame? {
      assert s[0] == f.header[0];
      assert HeaderWidth(s) == |f.header| && DataWidth(s) == |f.data|;
      assert s[0..|f.header|] == f.header;
      assert s[|f.header|..|f.header| + |f.data|] == f.data;
    }
  }

  lemma {:induction false} DecodeEncode(frames: seq<Frame>)
    requires WellFormed(frames)
    ensures Decode(Encode(frames)) == frames
  {
    if frames != [] {
      DecodeEncode(frames[1..]);
      DecodeFrame(frames[0], Encode(frames[1..]));
      assert frames == [frames[0]] + frames[1..];
    }
  }

  lemma DecodeFrame(f: Frame, rest: seq<byte>)
    requires WellFormedFrame(f)
    ensures Decode(FrameBytes(f) + rest) == [f] + Decode(rest)
  {
    FrameRoundTrip(f, rest);
    assert AfterFrame(FrameBytes(f) + rest) == rest;
  }

  /** A push of no bytes, and any PUSHDATA4, ends decoding: whatever follows is dropped. */
  lemma EmptyPushEndsDecoding(s: seq<byte>)
    requires 0 < |s| < 0x1_0000_0000 && IsPush(s[0]) && DataWidth(s) == 0
    ensures |Decode(s)| == 1 && Decode(s)[0].DataFrame? && Decode(s)[0].data == []
  {
    assert AfterFrame(s) == [];
  }

  lemma {:induction false} EncodeConcat(a: seq<Frame>, b: seq<Frame>)
    ensures Encode(a + b) == Encode(a) + Encode(b)
  {
    if a == [] {
      assert a + b == b;
    } else {
      assert (a + b)[1..] == a[1..] + b;
      EncodeConcat(a[1..], b);
    }
  }

  /** A program run for an input: the signature script, a separator, the source's script. */
  function Program(signature: seq<byte>, pubkey: seq<byte>): (r: seq<byte>) {
    signature + [OP_CODESEPARATOR] + pubkey
  }

  /** Decoding the joined program splits at the join. */
  lemma DecodeProgram(sig: seq<Frame>, pk: seq<Frame>)
    requires WellFormed(sig) && WellFormed(pk)
    ensures Decode(Program(Encode(sig), Encode(pk))) == sig + [OpFrame(OP_CODESEPARATOR)] + pk
  {
    var join := [OpFrame(OP_CODESEPARATOR)];
    EncodeConcat(sig, join);
    EncodeConcat(sig + join, pk);
    assert Encode(join) == [OP_CODESEPARATOR] by { assert join[1..] == []; }
    DecodeEncode(sig + join + pk);
  }

  // ----- subscripts -----

  /** find_op_frame for OP_CODESEPARATOR: searches down from `end` and stops before frame 0. */
  function FindSeparator(frames: seq<Frame>, end: nat): (i: int)
    requires end < |frames|
    ensures -1 <= i <= end && i != 0
    ensures i > 0 ==> IsSeparator(frames[i])
    ensures forall k :: (if i > 0 then i else 0) < k <= end ==> !IsSeparator(frames[k])
  {
    if end == 0 then -1 else if IsSeparator(frames[end]) then end else FindSeparator(frames, end - 1)
  }

  function WithoutSeparators(frames: seq<Frame>): (r: seq<Frame>) {
    if frames == [] then []
    else if IsSeparator(frames[0]) then WithoutSeparators(frames[1..])
    else [frames[0]] + WithoutSeparators(frames[1..])
  }

  /** form_subscript for the signature check at frame `index`. */
  function Subscript(frames: seq<Frame>, index: nat, useAllScript: bool): (r: seq<byte>)
    requires index < |frames|
  {
    var separator := FindSeparator(frames, index);
    if separator < 0 then []
    else Encode(WithoutSeparators(frames[separator + 1..(if useAllScript then |frames| else index + 1)]))
  }

  lemma {:induction false} FindsLast(frames: seq<Frame>, end: nat, at: nat)
    requires 0 < at <= end < |frames| && IsSeparator(frames[at])
    requires forall k :: at < k <= end ==> !IsSeparator(frames[k])
    ensures FindSeparator(frames, end) == at
  {
    if end > at {
      FindsLast(frames, end - 1, at);
    }
  }

  lemma {:induction false} FindsNothing(frames: seq<Frame>, end: nat)
    requires end < |frames| && forall k :: 0 < k <= end ==> !IsSeparator(frames[k])
    ensures FindSeparator(frames, end) == -1
  {
    if end > 0 {
      FindsNothing(frames, end - 1);
    }
  }

  lemma {:induction false} KeepsFrame(frames: seq<Frame>, k: nat)
    requires k < |frames| && !IsSeparator(frames[k])
    ensures frames[k] in WithoutSeparators(frames)
  {
    if k > 0 {
      KeepsFrame(frames[1..], k - 1);
    }
  }

  lemma {:induction false} NothingToRemove(frames: seq<Frame>)
    requires forall f :: f in frames ==> !IsSeparator(f)
    ensures WithoutSeparators(frames) == frames
  {
    if frames != [] {
      NothingToRemove(frames[1..]);
    }
  }

  lemma EncodeNonEmpty(frames: seq<Frame>)
    requires frames != [] && WellFormed(frames)
    ensures Encode(frames) != []
  {
    assert WellFormedFrame(frames[0]);
  }

  lemma {:induction false} WithoutSeparatorsWellFormed(frames: seq<Frame>)
    requires WellFormed(frames)
    ensures WellFormed(WithoutSeparators(frames))
  {
    if frames != [] {
      WithoutSeparatorsWellFormed(frames[1..]);
    }
  }

  /** What a signature check at `after[k]` should sign: the script after the last separator, to its end or to the check. */
  function Signed(after: seq<Frame>, k: nat, useAllScript: bool): (r: seq<byte>)
    requires k < |after|
  {
    Encode(WithoutSeparators(if useAllScript then after else after[..k + 1]))
  }

  /** With a frame before the separator, the script after it is signed. */
  lemma SubscriptAfter(head: seq<Frame>, after: seq<Frame>, k: nat, useAllScript: bool)
    requires k < |after| && |head| > 1 && IsSeparator(head[|head| - 1])
    requires forall j :: 0 <= j <= k ==> !IsSeparator(after[j])
    ensures Subscript(head + after, |head| + k, useAllScript) == Signed(after, k, useAllScript)
  {
    var frames := head + after;
    assert forall j :: |head| <= j <= |head| + k ==> frames[j] == after[j - |head|];
    assert frames[|head| - 1] == head[|head| - 1];
    FindsLast(frames, |head| + k, |head| - 1);
    if useAllScript {
      assert frames[|head|..|frames|] == after;
    } else {
      assert frames[|head|..|head| + k + 1] == after[..k + 1];
    }
  }

  /** A separator in frame 0 is not found: the subscript is empty, and differs from what should be signed. */
  lemma SubscriptMissed(separator: Frame, after: seq<Frame>, k: nat, useAllScript: bool)
    requires k < |after| && WellFormed(after)
    requires forall j :: 0 <= j <= k ==> !IsSeparator(after[j])
    ensures Subscript([separator] + after, 1 + k, useAllScript) == [] != Signed(after, k, useAllScript)
  {
    FindsNothing([separator] + after, 1 + k);
    var kept := if useAllScript then after else after[..k + 1];
    KeepsFrame(kept, k);
    WithoutSeparatorsWellFormed(kept);
    EncodeNonEmpty(WithoutSeparators(kept));
  }

  /**
   * The public-key script is `before + after`, where `before` ends with its last separator preceding the
   * check at `after[k]`. The subscript formed over the decoded program is the script after that separator
   * exactly when a frame precedes the separator that was found: frame 0 is never looked at.
   */
  lemma SubscriptRecovery(sig: seq<Frame>, before: seq<Frame>, after: seq<Frame>, k: nat, useAllScript: bool)
    requires WellFormed(sig) && WellFormed(before) && WellFormed(after) && k < |after|
    requires before == [] || IsSeparator(before[|before| - 1])
    requires forall j :: 0 <= j <= k ==> !IsSeparator(after[j])
    ensures var frames := Decode(Program(Encode(sig), Encode(before + after)));
            var index := |sig| + 1 + |before| + k;
            index < |frames| && frames[index] == after[k]
            && (Subscript(frames, index, useAllScript) == Signed(after, k, useAllScript) <==> sig != [] || before != [])
  {
    DecodeJoined(sig, before, after);
    SubscriptOfProgram(Decode(Program(Encode(sig), Encode(before + after))), sig, before, after, k, useAllScript);
  }

  lemma SubscriptOfProgram(frames: seq<Frame>, sig: seq<Frame>, before: seq<Frame>, after: seq<Frame>, k: nat, useAllScript: bool)
    requires frames == (sig + [OpFrame(OP_CODESEPARATOR)] + before) + after
    requires WellFormed(after) && k < |after|
    requires before == [] || IsSeparator(before[|before| - 1])
    requires forall j :: 0 <= j <= k ==> !IsSeparator(after[j])
    ensures var index := |sig| + 1 + |before| + k;
            index < |frames| && frames[index] == after[k]
            && (Subscript(frames, index, useAllScript) == Signed(after, k, useAllScript) <==> sig != [] || before != [])
  {
    LastOfHead(sig, before);
    CheckedFrame(frames, sig + [OpFrame(OP_CODESEPARATOR)] + before, after, k, useAllScript);
  }

  lemma CheckedFrame(frames: seq<Frame>, head: seq<Frame>, after: seq<Frame>, k: nat, useAllScript: bool)
    requires frames == head + after
    requires k < |after| && WellFormed(after) && head != [] && IsSeparator(head[|head| - 1])
    requires forall j :: 0 <= j <= k ==> !IsSeparator(after[j])
    ensures var index := |head| + k;
            index < |frames| && frames[index] == after[k]
            && (Subscript(frames, index, useAllScript) == Signed(after, k, useAllScript) <==> |head| > 1)
  {
    SubscriptOfFrames(head, after, k, useAllScript);
  }

  lemma LastOfHead(sig: seq<Frame>, before: seq<Frame>)
    requires before == [] || IsSeparator(before[|before| - 1])
    ensures var head := sig + [OpFrame(OP_CODESEPARATOR)] + before; IsSeparator(head[|head| - 1])
  {
  }

  lemma SubscriptOfFrames(head: seq<Frame>, after: seq<Frame>, k: nat, useAllScript: bool)
    requires k < |after| && WellFormed(after) && head != [] && IsSeparator(head[|head| - 1])
    requires forall j :: 0 <= j <= k ==> !IsSeparator(after[j])
    ensures Subscript(head + after, |head| + k, useAllScript) == Signed(after, k, useAllScript) <==> |head| > 1
  {
    if |head| == 1 {
      assert head == [head[0]];
      SubscriptMissed(head[0], after, k, useAllScript);
    } else {
      SubscriptAfter(head, after, k, useAllScript);
    }
  }

  lemma DecodeJoined(sig: seq<Frame>, before: seq<Frame>, after: seq<Frame>)
    requires WellFormed(sig) && WellFormed(before) && WellFormed(after)
    ensures Decode(Program(Encode(sig), Encode(before + after))) == (sig + [OpFrame(OP_CODESEPARATOR)] + before) + after
  {
    DecodeProgram(sig, before + after);
    Assoc(sig + [OpFrame(OP_CODESEPARATOR)], before, after);
  }

  /** Without separators, the whole public-key script is signed, provided the signature script pushes something. */
  lemma WholeScriptSigned(sig: seq<Frame>, pk: seq<Frame>, k: nat)
    requires WellFormed(sig) && WellFormed(pk) && k < |pk|
    requires forall f :: f in pk ==> !IsSeparator(f)
    ensures var frames := Decode(Program(Encode(sig), Encode(pk)));
            |sig| + 1 + k < |frames|
            && (Subscript(frames, |sig| + 1 + k, true) == Encode(pk) <==> sig != [])
  {
    DecodeProgram(sig, pk);
    NothingToRemove(pk);
    WholeScriptOfFrames(sig, pk, k);
  }

  lemma WholeScriptOfFrames(sig: seq<Frame>, pk: seq<Frame>, k: nat)
    requires WellFormed(pk) && k < |pk|
    requires forall j :: 0 <= j < |pk| ==> !IsSeparator(pk[j])
    ensures Subscript(sig + [OpFrame(OP_CODESEPARATOR)] + pk, |sig| + 1 + k, true) == Signed(pk, k, true) <==> sig != []
  {
    SubscriptOfFrames(sig + [OpFrame(OP_CODESEPARATOR)], pk, k, true);
  }

  lemma SignedWhole(pk: seq<Frame>, k: nat, useAllScript: bool)
    requires k < |pk| && (useAllScript || k == |pk| - 1)
    requires forall j :: 0 <= j < |pk| ==> !IsSeparator(pk[j])
    ensures Signed(pk, k, useAllScript) == Encode(pk)
  {
    assert pk[..|pk|] == pk;
    NothingToRemove(pk);
  }

  /** A check in the last frame, after a separator that some frame precedes and nothing follows. */
  lemma LastFrameSigns(frames: seq<Frame>, separator: nat)
    requires 0 < separator < |frames| - 1 && IsSeparator(frames[separator])
    requires forall j :: separator < j < |frames| ==> !IsSeparator(frames[j])
    ensures Subscript(frames, |frames| - 1, false) == Encode(frames[separator + 1..])
  {
    FindsLast(frames, |frames| - 1, separator);
    assert frames[separator + 1..|frames| - 1 + 1] == frames[separator + 1..];
    NothingAfter(frames, separator + 1);
  }

  lemma NothingAfter(frames: seq<Frame>, from: nat)
    requires from <= |frames| && forall j :: from <= j < |frames| ==> !IsSeparator(frames[j])
    ensures WithoutSeparators(frames[from..]) == frames[from..]
  {
    NothingToRemove(frames[from..]);
  }

  // ----- the growable stack -----

  class Stack {
    var frames: array<Frame>
    var size: nat

    ghost predicate Valid()
      reads this
    {
      0 < frames.Length && size <= frames.Length
    }

    ghost function View(): (s: seq<Frame>)
      requires Valid()
      reads this, frames
    {
      frames[..size]
    }

    constructor (capacity: nat)
      requires capacity > 0
      ensures Valid() && View() == [] && fresh(frames)
    {
      frames := new Frame[capacity](_ => EmptyFrame);
      size := 0;
    }

    /** push, doubling the capacity of a full stack. */
    method Push(f: Frame)
      requires Valid()
      modifies this, frames
      ensures Valid() && View() == old(View()) + [f]
      ensures frames == old(frames) || fresh(frames)
    {
      if size >= frames.Length {
        var was := frames;
        frames := new Frame[2 * was.Length](i requires 0 <= i reads was => if i < was.Length then was[i] else EmptyFrame);
      }
      frames[size] := f;
      size := size + 1;
    }

    /** pop: an empty stack yields the empty frame and stays empty. */
    method Pop() returns (f: Frame)
      requires Valid()
      modifies this`size
      ensures Valid()
      ensures if old(View()) == [] then f == EmptyFrame && View() == []
              else View() + [f] == old(View())
    {
      if size == 0 {
        return EmptyFrame;
      }
      f := frames[size - 1];
      size := size - 1;
    }
  }

  /** load_program pushes the frames of a program onto the stack. */
  method LoadProgram(stack: Stack, program: seq<byte>)
    requires stack.Valid()
    modifies stack, stack.frames
    ensures stack.Valid() && stack.View() == old(stack.View()) + Decode(program)
  {
    ghost var whole := stack.View() + Decode(program);
    var i := 0;
    ghost var rest := program;
    while i < |program|
      invariant stack.Valid() && stack.View() + Decode(rest) == whole
      invariant stack.frames == old(stack.frames) || fresh(stack.frames)
      invariant if i < |program| then rest == program[i..] else rest == []
      decreases |program| - i
    {
      var f, advance := FirstFrame(program[i..]), FrameAdvance(program[i..]);
      Assoc(stack.View(), [f], Decode(AfterFrame(rest)));
      stack.Push(f);
      rest := AfterFrame(rest);
      i := i + advance;
    }
  }

  /** find_op_frame for OP_CODESEPARATOR. */
  method FindOpFrame(frames: seq<Frame>, end: nat) returns (i: int)
    requires end < |frames|
    ensures i == FindSeparator(frames, end)
  {
    i := end;
    while i > 0
      invariant 0 <= i <= end
      invariant FindSeparator(frames, end) == FindSeparator(frames, i)
    {
      if IsSeparator(frames[i]) {
        return;
      }
      i := i - 1;
    }
    i := -1;
  }

  /** form_subscript. */
  method FormSubscript(frames: seq<Frame>, index: nat, useAllScript: bool) returns (subscript: seq<byte>)
    requires index < |frames|
    ensures subscript == Subscript(frames, index, useAllScript)
  {
    subscript := [];
    var separator := FindOpFrame(frames, index);
    if separator >= 0 {
      subscript := CopyFrames(frames, separator + 1, if useAllScript then |frames| else index + 1);
    }
  }

  method CopyFrames(frames: seq<Frame>, start: nat, end: nat) returns (subscript: seq<byte>)
    requires start <= end <= |frames|
    ensures subscript == Encode(WithoutSeparators(frames[start..end]))
  {
    subscript := [];
    for i := start to end
      invariant subscript + Encode(WithoutSeparators(frames[i..end])) == Encode(WithoutSeparators(frames[start..end]))
    {
      SubscriptTurn(frames, i, end, subscript);
      if !IsSeparator(frames[i]) {
        subscript := subscript + FrameBytes(frames[i]);
      }
    }
    assert frames[end..end] == [];
  }

  lemma SubscriptTurn(frames: seq<Frame>, i: nat, end: nat, done: seq<byte>)
    requires i < end <= |frames|
    ensures done + Encode(WithoutSeparators(frames[i..end]))
         == (if IsSeparator(frames[i]) then done else done + FrameBytes(frames[i])) + Encode(WithoutSeparators(frames[i + 1..end]))
  {
    assert frames[i..end][1..] == frames[i + 1..end];
    var rest := WithoutSeparators(frames[i + 1..end]);
    if !IsSeparator(frames[i]) {
      assert ([frames[i]] + rest)[1..] == rest;
      Assoc(done, FrameBytes(frames[i]), Encode(rest));
    }
  }
}
