/** OP_CHECKMULTISIG: the greedy two-pointer matching of evaluate (src/script.c). */
module Multisig {
  import opened Bytes
  import opened Script
  import opened Conditionals

  /** Whether a signature checks against a key, for the transaction and subscript at hand: check_signature == 1. */
  type Checks = (Frame, Frame) -> bool

  /** Signatures from `s` on are given keys from `p` on: strictly increasing, every pair of which checks. */
  ghost predicate Assigns(keys: seq<Frame>, p: nat, sigs: seq<Frame>, s: nat, checks: Checks, choice: seq<nat>)
    requires s <= |sigs|
  {
    && |choice| == |sigs| - s
    && (forall j :: 0 <= j < |choice| ==> p <= choice[j] < |keys| && checks(keys[choice[j]], sigs[s + j]))
    && (forall j, k :: 0 <= j < k < |choice| ==> choice[j] < choice[k])
  }

  ghost predicate MatchableFrom(keys: seq<Frame>, p: nat, sigs: seq<Frame>, s: nat, checks: Checks)
    requires s <= |sigs|
  {
    exists choice :: Assigns(keys, p, sigs, s, checks, choice)
  }

  /** Every signature can be given its own key, keys and signatures in the same order. */
  ghost predicate Matchable(keys: seq<Frame>, sigs: seq<Frame>, checks: Checks) {
    MatchableFrom(keys, 0, sigs, 0, checks)
  }

  lemma NothingToMatch(keys: seq<Frame>, p: nat, sigs: seq<Frame>, checks: Checks)
    ensures MatchableFrom(keys, p, sigs, |sigs|, checks)
  {
    assert Assigns(keys, p, sigs, |sigs|, checks, []);
  }

  lemma NoKeyLeft(keys: seq<Frame>, sigs: seq<Frame>, s: nat, checks: Checks)
    requires s < |sigs|
    ensures !MatchableFrom(keys, |keys|, sigs, s, checks)
  {
    forall choice: seq<nat> ensures !Assigns(keys, |keys|, sigs, s, checks, choice) {
      assert |choice| > 0 ==> !(|keys| <= choice[0] < |keys|);
    }
  }

  /** Taking the next key for the next signature whenever it checks loses nothing. */
  lemma GreedyStep(keys: seq<Frame>, p: nat, sigs: seq<Frame>, s: nat, checks: Checks)
    requires p < |keys| && s < |sigs|
    ensures MatchableFrom(keys, p, sigs, s, checks)
       <==> MatchableFrom(keys, p + 1, sigs, if checks(keys[p], sigs[s]) then s + 1 else s, checks)
  {
    if MatchableFrom(keys, p, sigs, s, checks) {
      var choice :| Assigns(keys, p, sigs, s, checks, choice);
      if checks(keys[p], sigs[s]) {
        var rest := choice[1..];
        forall j | 0 <= j < |rest| ensures p + 1 <= rest[j] < |keys| && checks(keys[rest[j]], sigs[s + 1 + j]) {
          assert rest[j] == choice[j + 1] && choice[0] < choice[j + 1];
          assert sigs[s + (j + 1)] == sigs[s + 1 + j];
        }
        assert Assigns(keys, p + 1, sigs, s + 1, checks, rest);
      } else {
        assert choice[0] != p;
        assert Assigns(keys, p + 1, sigs, s, checks, choice);
      }
    }
    if checks(keys[p], sigs[s]) {
      if MatchableFrom(keys, p + 1, sigs, s + 1, checks) {
        var rest :| Assigns(keys, p + 1, sigs, s + 1, checks, rest);
        var choice := [p] + rest;
        forall j | 0 <= j < |choice| ensures p <= choice[j] < |keys| && checks(keys[choice[j]], sigs[s + j]) {
          if j > 0 {
            assert sigs[s + 1 + (j - 1)] == sigs[s + j];
          }
        }
        assert Assigns(keys, p, sigs, s, checks, choice);
      }
    } else if MatchableFrom(keys, p + 1, sigs, s, checks) {
      var rest :| Assigns(keys, p + 1, sigs, s, checks, rest);
      assert Assigns(keys, p, sigs, s, checks, rest);
    }
  }

  /** The two-pointer matching as a function; zero signatures match anything. */
  function Greedy(keys: seq<Frame>, p: nat, sigs: seq<Frame>, s: nat, checks: Checks): (matched: bool)
    requires p <= |keys| && s <= |sigs|
    ensures matched <==> MatchableFrom(keys, p, sigs, s, checks)
    decreases |keys| - p
  {
    if s == |sigs| then
      NothingToMatch(keys, p, sigs, checks);
      true
    else if p == |keys| then
      NoKeyLeft(keys, sigs, s, checks);
      false
    else
      GreedyStep(keys, p, sigs, s, checks);
      Greedy(keys, p + 1, sigs, if checks(keys[p], sigs[s]) then s + 1 else s, checks)
  }

  /**
   * The matching loop: true exactly when every signature can be given its own key, in order. The counters
   * are signed bytes, so at most 127 keys and signatures can be counted.
   */
  method MatchSignatures(keys: seq<Frame>, sigs: seq<Frame>, checks: Checks) returns (result: bool)
    requires |keys| <= 127 && 0 < |sigs| <= 127
    ensures result <==> Matchable(keys, sigs, checks)
  {
    var pki, si := 0, 0;
    while true
      invariant 0 <= pki <= |keys| && 0 <= si < |sigs|
      invariant MatchableFrom(keys, pki, sigs, si, checks) <==> Matchable(keys, sigs, checks)
      decreases |keys| - pki
    {
      if pki >= |keys| || si >= |sigs| {
        NoKeyLeft(keys, sigs, si, checks);
        return false;
      }
      GreedyStep(keys, pki, sigs, si, checks);
      if checks(keys[pki], sigs[si]) {
        if si + 1 == |sigs| {
          NothingToMatch(keys, pki + 1, sigs, checks);
          return true;
        }
        pki := pki + 1;
        si := si + 1;
      } else {
        pki := pki + 1;
      }
    }
  }

  // ----- the whole opcode -----

  /** Popping `n` frames, topmost first; past the bottom come empty frames. */
  function PopMany(m: Machine, n: nat): (r: seq<Frame>)
    ensures |r| == n
    decreases n
  {
    if n == 0 then [] else [Top(m.stack)] + PopMany(Popped(m), n - 1)
  }

  function DropMany(m: Machine, n: nat): (r: Machine)
    decreases n
  {
    if n == 0 then m else DropMany(Popped(m), n - 1)
  }

  /** The count a frame gives: its first byte, zero for an empty frame. */
  function CountOf(f: Frame): (n: byte) {
    if FrameData(f) == [] then 0 else FrameData(f)[0]
  }

  lemma {:induction false} PopManyOfConcat(m: Machine, below: seq<Frame>, items: seq<Frame>)
    requires m.stack == below + items
    ensures PopMany(m, |items|) == Reversed(items)
    ensures DropMany(m, |items|) == m.(stack := below)
    decreases |items|
  {
    if items == [] {
      assert m.stack == below;
    } else {
      var last := |items| - 1;
      assert items == items[..last] + [items[last]];
      ReversedSnoc(items[..last], items[last]);
      assert Popped(m).stack == below + items[..last];
      PopManyOfConcat(Popped(m), below, items[..last]);
    }
  }

  lemma {:induction false} ReversedSnoc(s: seq<Frame>, f: Frame)
    ensures Reversed(s + [f]) == [f] + Reversed(s)
  {
    assert |s + [f]| == |s| + 1;
  }

  lemma ReversedTwice(s: seq<Frame>)
    ensures Reversed(Reversed(s)) == s
  {
  }

  lemma ReversedMatch(keys: seq<Frame>, sigs: seq<Frame>, checks: Checks)
    requires Matchable(Reversed(keys), Reversed(sigs), checks)
    ensures Matchable(keys, sigs, checks)
  {
    var keys', sigs' := Reversed(keys), Reversed(sigs);
    var choice :| Assigns(keys', 0, sigs', 0, checks, choice);
    var mirrored := seq(|choice|, j requires 0 <= j < |choice| => |keys| - 1 - choice[j]);
    var back := Reversed(mirrored);
    forall j | 0 <= j < |sigs| ensures 0 <= back[j] < |keys| && checks(keys[back[j]], sigs[j]) {
      var k := |sigs| - 1 - j;
      assert back[j] == mirrored[k];
      assert checks(keys'[choice[k]], sigs'[0 + k]);
    }
    assert Assigns(keys, 0, sigs, 0, checks, back);
  }

  /** Reading keys and signatures from the top of the stack instead of the bottom changes nothing. */
  lemma MatchableReversed(keys: seq<Frame>, sigs: seq<Frame>, checks: Checks)
    ensures Matchable(Reversed(keys), Reversed(sigs), checks) <==> Matchable(keys, sigs, checks)
  {
    ReversedTwice(keys);
    ReversedTwice(sigs);
    if Matchable(keys, sigs, checks) {
      ReversedMatch(Reversed(keys), Reversed(sigs), checks);
    }
    if Matchable(Reversed(keys), Reversed(sigs), checks) {
      ReversedMatch(keys, sigs, checks);
    }
  }

  method PopFrames(m: Machine, n: nat) returns (frames: seq<Frame>, rest: Machine)
    ensures frames == PopMany(m, n) && rest == DropMany(m, n)
  {
    frames, rest := [], m;
    for i := 0 to n
      invariant frames + PopMany(rest, n - i) == PopMany(m, n)
      invariant DropMany(rest, n - i) == DropMany(m, n)
    {
      assert frames + ([Top(rest.stack)] + PopMany(Popped(rest), n - i - 1)) == frames + [Top(rest.stack)] + PopMany(Popped(rest), n - i - 1);
      frames := frames + [Top(rest.stack)];
      rest := Popped(rest);
    }
  }

  /** The machine once the keys and their count are popped. */
  function AfterKeys(m: Machine): Machine {
    DropMany(Popped(m), CountOf(Top(m.stack)))
  }

  function PoppedKeys(m: Machine): seq<Frame> {
    PopMany(Popped(m), CountOf(Top(m.stack)))
  }

  function PoppedSignatures(m: Machine): seq<Frame> {
    PopMany(Popped(AfterKeys(m)), CountOf(Top(AfterKeys(m).stack)))
  }

  function AfterMultisig(m: Machine): Machine {
    Popped(DropMany(Popped(AfterKeys(m)), CountOf(Top(AfterKeys(m).stack))))
  }

  /** The opcode on a machine: pops the counts, keys, signatures and one extra frame, and answers. */
  method CheckMultisig(m: Machine, checks: Checks) returns (result: bool, rest: Machine)
    requires |PoppedKeys(m)| <= 127 && |PoppedSignatures(m)| <= 127
    ensures rest == AfterMultisig(m)
    ensures result <==> Matchable(PoppedKeys(m), PoppedSignatures(m), checks)
  {
    var keys, sigs;
    keys, rest := PopFrames(Popped(m), CountOf(Top(m.stack)));
    sigs, rest := PopFrames(Popped(rest), CountOf(Top(rest.stack)));
    rest := Popped(rest);
    if |sigs| == 0 {
      NothingToMatch(keys, 0, sigs, checks);
      return true, rest;
    }
    result := MatchSignatures(keys, sigs, checks);
  }

  /**
   * The script-level statement: with one extra frame, the signatures, their count, the keys and their count on
   * the stack in script order, the opcode consumes exactly those frames, and its answer is about that order.
   */
  lemma MultisigMeaning(m: Machine, below: seq<Frame>, extra: Frame, sigs: seq<Frame>, sigCount: Frame,
                        keys: seq<Frame>, keyCount: Frame, checks: Checks)
    requires m.stack == below + [extra] + sigs + [sigCount] + keys + [keyCount]
    requires CountOf(keyCount) == |keys| && CountOf(sigCount) == |sigs|
    ensures AfterMultisig(m) == m.(stack := below)
    ensures Matchable(PoppedKeys(m), PoppedSignatures(m), checks) <==> Matchable(keys, sigs, checks)
  {
    var atExtra := below + [extra];
    var atSigCount := atExtra + sigs + [sigCount];
    PopLast(m, atSigCount + keys, keyCount);
    PopManyOfConcat(Popped(m), atSigCount, keys);
    PopLast(AfterKeys(m), atExtra + sigs, sigCount);
    PopManyOfConcat(Popped(AfterKeys(m)), atExtra, sigs);
    PopLast(m.(stack := atExtra), below, extra);
    MatchableReversed(keys, sigs, checks);
  }

  lemma PopLast(m: Machine, below: seq<Frame>, f: Frame)
    requires m.stack == below + [f]
    ensures Top(m.stack) == f && Popped(m) == m.(stack := below)
  {
  }
}
