/** What every block registered in a run has been through, and the store it was registered on (src/blockchain.c). */
module Admission {
  import opened Bytes
  import opened Codec
  import opened HeaderIndex
  import opened Ledger
  import opened Validation
  import opened Chain
  import opened Acceptance
  import opened Spending

  /** Block i of those added was valid, at the height of its header, over the store that the blocks before it left. */
  ghost predicate AddedValid(c: Consensus, u: Utxo, added: seq<Block>, i: nat, index: Index)
    requires i < |added|
  {
    var k := c.hashOf(added[i].header);
    k in index && ValidSometime(c, Replay(c.rules, u, added[..i]), added[i], index[k].height, k)
  }

  ghost predicate ValidSometime(c: Consensus, u: Utxo, block: Block, height: nat, k: Hash) {
    exists now :: BlockValid(c, u, block, height, k, now)
  }

  ghost predicate AllAddedValid(c: Consensus, u: Utxo, added: seq<Block>, index: Index) {
    forall i :: 0 <= i < |added| ==> AddedValid(c, u, added, i, index)
  }

  /** From s to r blocks are only added, each valid when it was, and the store is their replay. */
  ghost predicate Grows(c: Consensus, s: State, r: State) {
    && s.registered <= r.registered
    && r.utxo == Replay(c.rules, s.utxo, r.registered[|s.registered|..])
    && AllAddedValid(c, s.utxo, r.registered[|s.registered|..], r.headers.index)
  }

  // ----- composing steps -----

  ghost predicate HeightsKept(index: Index, later: Index) {
    forall k :: k in index ==> k in later && later[k].height == index[k].height
  }

  lemma {:induction false} ReplayConcat(r: Rules, u: Utxo, a: seq<Block>, b: seq<Block>)
    ensures Replay(r, u, a + b) == Replay(r, Replay(r, u, a), b)
    decreases |b|
  {
    if b == [] {
      assert a + b == a;
    } else {
      var last := |b| - 1;
      ReplayConcat(r, u, a, b[..last]);
      assert a + b == a + b[..last] + [b[last]] && b == b[..last] + [b[last]];
      ReplaySnoc(r, u, a + b[..last], b[last]);
      ReplaySnoc(r, Replay(r, u, a), b[..last], b[last]);
    }
  }

  lemma AddedLater(c: Consensus, u: Utxo, a: seq<Block>, b: seq<Block>, i: nat, index: Index, later: Index)
    requires i < |a + b| && HeightsKept(index, later)
    requires i < |a| ==> AddedValid(c, u, a, i, index)
    requires i >= |a| ==> AddedValid(c, Replay(c.rules, u, a), b, i - |a|, later)
    ensures AddedValid(c, u, a + b, i, later)
  {
    if i < |a| {
      assert (a + b)[..i] == a[..i];
    } else {
      assert (a + b)[..i] == a + b[..i - |a|];
      ReplayConcat(c.rules, u, a, b[..i - |a|]);
    }
  }

  lemma GrowsOn(c: Consensus, s: State, s1: State, r: State)
    requires Grows(c, s, s1) && Grows(c, s1, r) && HeightsKept(s1.headers.index, r.headers.index)
    ensures Grows(c, s, r)
  {
    var a, b := s1.registered[|s.registered|..], r.registered[|s1.registered|..];
    assert r.registered[|s.registered|..] == a + b;
    ReplayConcat(c.rules, s.utxo, a, b);
    forall i | 0 <= i < |a + b|
      ensures AddedValid(c, s.utxo, a + b, i, r.headers.index)
    {
      AddedLater(c, s.utxo, a, b, i, s1.headers.index, r.headers.index);
    }
  }

  lemma GrowsByNone(c: Consensus, s: State, r: State)
    requires r.registered == s.registered && r.utxo == s.utxo
    ensures Grows(c, s, r)
  {
    assert r.registered[|s.registered|..] == [];
  }

  lemma GrowsByOne(c: Consensus, s: State, r: State, block: Block, height: nat, now: int)
    requires r.registered == s.registered + [block] && r.utxo == Registered(c.rules, s.utxo, block.txs, |block.txs|)
    requires c.hashOf(block.header) in r.headers.index && r.headers.index[c.hashOf(block.header)].height == height
    requires BlockValid(c, s.utxo, block, height, c.hashOf(block.header), now)
    ensures Grows(c, s, r)
  {
    assert r.registered[|s.registered|..] == [block] == [] + [block];
    ReplaySnoc(c.rules, s.utxo, [], block);
    assert [block][..0] == [];
    assert ValidSometime(c, s.utxo, block, height, c.hashOf(block.header));
    assert AddedValid(c, s.utxo, [block], 0, r.headers.index);
  }

  // ----- every step -----

  lemma ArriveKeepsHeights(hashOf: Header -> Hash, s: Headers, header: Header, now: int)
    ensures HeightsKept(s.index, Arrive(hashOf, s, header, now).index)
  {
  }

  lemma MetaKeepsHeights(index: Index, r: Index)
    requires SameButMeta(index, r)
    ensures HeightsKept(index, r)
  {
    forall k | k in index
      ensures k in r && r[k].height == index[k].height
    {
      assert r[k].(meta := index[k].meta) == index[k];
    }
  }

  lemma ValidateGrows(c: Consensus, s: State, k: Hash, now: int)
    requires Forest(c.hashOf, s.headers.index)
    ensures Grows(c, s, ValidateBlock(c, s, k, now).state)
  {
    var v := ValidateBlock(c, s, k, now);
    if v.code > 0 {
      assert Consistent(c.hashOf, s.headers.index, k);
      GrowsByOne(c, s, v.state, s.files[k], s.headers.index[k].height, now);
    } else {
      GrowsByNone(c, s, v.state);
    }
  }

  lemma {:induction false} ValidateFromGrows(c: Consensus, s: State, k: Hash, clocks: seq<int>)
    requires Forest(c.hashOf, s.headers.index)
    ensures var r := ValidateFrom(c, s, k, clocks); Grows(c, s, r) && SameButMeta(s.headers.index, r.headers.index)
    decreases |clocks|
  {
    if clocks == [] {
      GrowsByNone(c, s, s);
    } else {
      var v := ValidateBlock(c, s, k, clocks[0]);
      ValidateGrows(c, s, k, clocks[0]);
      ValidateChangesMeta(c, s, k, clocks[0]);
      if v.code == 2 {
        MetaKeepsForest(c.hashOf, s.headers.index, v.state.headers.index);
        ValidateFromGrows(c, v.state, v.next, clocks[1..]);
        var r := ValidateFrom(c, v.state, v.next, clocks[1..]);
        MetaKeepsHeights(v.state.headers.index, r.headers.index);
        GrowsOn(c, s, v.state, r);
        SameTwice(s.headers.index, v.state.headers.index, r.headers.index);
      }
    }
  }

  lemma SameTwice(index: Index, i1: Index, r: Index)
    requires SameButMeta(index, i1) && SameButMeta(i1, r)
    ensures SameButMeta(index, r)
  {
    forall k | k in index
      ensures r[k].(meta := index[k].meta) == index[k]
    {
      assert i1[k].(meta := index[k].meta) == index[k] && r[k].(meta := i1[k].meta) == i1[k];
    }
  }

  lemma PersistGrows(c: Consensus, s: State, block: Block, now: int)
    requires Forest(c.hashOf, s.headers.index) && c.hashOf(block.header) in s.headers.index
    ensures Grows(c, s, Persist(c, s, c.hashOf(block.header), block, now))
  {
    var k := c.hashOf(block.header);
    var e, r := s.headers.index[k], Persist(c, s, k, block, now);
    assert Consistent(c.hashOf, s.headers.index, k);
    if BlockValid(c, s.utxo, block, e.height, e.hash, now) && !e.meta.registered {
      GrowsByOne(c, s, r, block, e.height, now);
    } else {
      GrowsByNone(c, s, r);
    }
  }

  lemma BlockGrows(c: Consensus, s: State, block: Block, now: int, persistent: bool, saved: bool)
    requires Forest(c.hashOf, s.headers.index)
    ensures Grows(c, s, AfterBlock(c, s, block, now, persistent, saved))
  {
    var k, s1 := c.hashOf(block.header), WithHeader(c, s, block.header, now);
    GrowsByNone(c, s, s);
    if BlockLegal(c, block, now) && k in s1.headers.index {
      ArriveKeepsForest(c.hashOf, s.headers, block.header, now);
      GrowsByNone(c, s, s1);
      var s2 := if persistent then Persist(c, s1, k, block, now) else s1;
      GrowsByNone(c, s1, s1);
      PersistGrows(c, s1, block, now);
      PersistChangesMeta(c, s1, k, block, now);
      MetaKeepsHeights(s1.headers.index, s2.headers.index);
      GrowsOn(c, s, s1, s2);
      if saved {
        FileGrows(c, s, s2, k, block);
      }
    }
  }

  lemma FileGrows(c: Consensus, s: State, s2: State, k: Hash, block: Block)
    requires Grows(c, s, s2) && k in s2.headers.index
    ensures Grows(c, s, WithFile(s2, k, block))
  {
    var r := WithFile(s2, k, block);
    GrowsByNone(c, s2, r);
    FileChangesMeta(s2, k, block);
    MetaKeepsHeights(s2.headers.index, r.headers.index);
    GrowsOn(c, s, s2, r);
  }

  /** A step keeps the forest, so the entries it reads carry their own hash. */
  lemma StepGrows(c: Consensus, s: State, event: Event)
    requires Forest(c.hashOf, s.headers.index)
    ensures var r := Step(c, s, event);
            Grows(c, s, r) && Forest(c.hashOf, r.headers.index) && HeightsKept(s.headers.index, r.headers.index)
  {
    match event
    case HeaderArrives(header, now) =>
      GrowsByNone(c, s, WithHeader(c, s, header, now));
      ArriveKeepsForest(c.hashOf, s.headers, header, now);
      ArriveKeepsHeights(c.hashOf, s.headers, header, now);
    case BlockArrives(block, now, persistent, saved) =>
      BlockGrows(c, s, block, now, persistent, saved);
      BlockKeepsHeights(c, s, block, now, persistent, saved);
    case Validates(clocks) =>
      GrowsByNone(c, s, s);
      MetaKeepsHeights(s.headers.index, s.headers.index);
      if StartOf(s).Some? {
        ValidateFromGrows(c, s, StartOf(s).value, clocks);
        var r := ValidateFrom(c, s, StartOf(s).value, clocks);
        MetaKeepsForest(c.hashOf, s.headers.index, r.headers.index);
        MetaKeepsHeights(s.headers.index, r.headers.index);
      }
    case FilesChange(_) =>
      GrowsByNone(c, s, Step(c, s, event));
  }

  lemma BlockKeepsHeights(c: Consensus, s: State, block: Block, now: int, persistent: bool, saved: bool)
    requires Forest(c.hashOf, s.headers.index)
    ensures var r := AfterBlock(c, s, block, now, persistent, saved);
            Forest(c.hashOf, r.headers.index) && HeightsKept(s.headers.index, r.headers.index)
  {
    var s1, r := WithHeader(c, s, block.header, now), AfterBlock(c, s, block, now, persistent, saved);
    if BlockLegal(c, block, now) && c.hashOf(block.header) in s1.headers.index {
      ArriveKeepsForest(c.hashOf, s.headers, block.header, now);
      ArriveKeepsHeights(c.hashOf, s.headers, block.header, now);
      BlockChangesMeta(c, s, block, now, persistent, saved);
      MetaKeepsForest(c.hashOf, s1.headers.index, r.headers.index);
      MetaKeepsHeights(s1.headers.index, r.headers.index);
    }
  }

  lemma {:induction false} RunGrowsFrom(c: Consensus, s: State, events: seq<Event>)
    requires Forest(c.hashOf, s.headers.index)
    ensures var r := Run(c, s, events);
            Grows(c, s, r) && Forest(c.hashOf, r.headers.index) && HeightsKept(s.headers.index, r.headers.index)
    decreases |events|
  {
    if events == [] {
      GrowsByNone(c, s, s);
    } else {
      var s1 := Step(c, s, events[0]);
      StepGrows(c, s, events[0]);
      RunGrowsFrom(c, s1, events[1..]);
      GrowsOn(c, s, s1, Run(c, s1, events[1..]));
    }
  }

  /**
   * Over every run, in path order or not, with clean blocks or not, the store is the replay of the blocks added, and
   * each was valid over the store the ones before it left, at the height its header has in the index.
   */
  lemma RunGrows(c: Consensus, s: State, events: seq<Event>)
    requires Reachable(c.hashOf, s.headers)
    ensures Grows(c, s, Run(c, s, events))
  {
    RunGrowsFrom(c, s, events);
  }

  // ----- what that says of each block -----

  /** One coinbase, work, the checkpoints of its height, and scripts that work over the store u. */
  ghost predicate Vetted(c: Consensus, u: Utxo, block: Block, height: nat) {
    && OneCoinbase(block.txs)
    && HasWork(c.hashOf(block.header), block.header.target)
    && (forall point :: point in c.checkpoints && point.0 == height && height != 0 ==> point.1 == c.hashOf(block.header))
    && Acceptance.AllWork(c.rules, u, block.txs)
  }

  lemma ValidIsVetted(c: Consensus, u: Utxo, block: Block, height: nat, now: int)
    requires BlockValid(c, u, block, height, c.hashOf(block.header), now)
    ensures Vetted(c, u, block, height)
  {
    CoinbaseOnce(block.txs);
    MeetsIsWork(c.hashOf(block.header), block.header.target);
    CheckpointsMet(c, height, c.hashOf(block.header));
    forall i, j | 0 <= i < |block.txs| && 0 <= j < |block.txs[i].inputs| && (i, j) != (0, 0)
      ensures InputWorks(c.rules, u, block.txs, i, j)
    {
      AcceptedScriptsWork(c, u, block, height, c.hashOf(block.header), now, i, j);
    }
  }

  /** Every block registered in a run has one coinbase, work, the checkpoint of its height, and scripts that work. */
  lemma RegisteredAreVetted(c: Consensus, s: State, events: seq<Event>, i: nat)
    requires Reachable(c.hashOf, s.headers) && |s.registered| <= i < |Run(c, s, events).registered|
    ensures var r := Run(c, s, events);
            var block, before := r.registered[i], r.registered[|s.registered|..i];
            && c.hashOf(block.header) in r.headers.index
            && Vetted(c, Replay(c.rules, s.utxo, before), block, r.headers.index[c.hashOf(block.header)].height)
  {
    RunGrows(c, s, events);
    var r, n := Run(c, s, events), |s.registered|;
    var added := r.registered[n..];
    assert AddedValid(c, s.utxo, added, i - n, r.headers.index);
    assert added[i - n] == r.registered[i] && added[..i - n] == r.registered[n..i];
    AddedIsVetted(c, Replay(c.rules, s.utxo, added[..i - n]), added[i - n], r.headers.index[c.hashOf(added[i - n].header)].height);
  }

  lemma AddedIsVetted(c: Consensus, u: Utxo, block: Block, height: nat)
    requires ValidSometime(c, u, block, height, c.hashOf(block.header))
    ensures Vetted(c, u, block, height)
  {
    var now :| BlockValid(c, u, block, height, c.hashOf(block.header), now);
    ValidIsVetted(c, u, block, height, now);
  }

  /** With the interpreter in place, so does each pay-to-key-hash input: the wanted key, and a check that is not 0. */
  lemma RegisteredPayToHash(crypto: Crypto, c: Consensus, s: State, events: seq<Event>, i: nat, t: nat, j: nat)
    requires Reachable(c.hashOf, s.headers) && c.rules == RulesOf(crypto, c.rules.txid)
    requires |s.registered| <= i < |Run(c, s, events).registered|
    requires var txs := Run(c, s, events).registered[i].txs; t < |txs| && j < |txs[t].inputs| && (t, j) != (0, 0)
    ensures var r := Run(c, s, events);
            var u, txs := Replay(c.rules, s.utxo, r.registered[|s.registered|..i]), r.registered[i].txs;
            exists source :: Leads(c.rules, u, txs, t, txs[t].inputs[j].previous, source) && HashMet(crypto, txs[t], j, source)
  {
    RegisteredAreVetted(c, s, events, i);
    var r := Run(c, s, events);
    WorkingMeetsHash(crypto, c.rules, Replay(c.rules, s.utxo, r.registered[|s.registered|..i]), r.registered[i].txs, t, j);
  }

  lemma WorkingMeetsHash(crypto: Crypto, rules: Rules, u: Utxo, txs: seq<Tx>, t: nat, j: nat)
    requires rules == RulesOf(crypto, rules.txid) && t < |txs| && j < |txs[t].inputs| && InputWorks(rules, u, txs, t, j)
    ensures exists source :: Leads(rules, u, txs, t, txs[t].inputs[j].previous, source) && HashMet(crypto, txs[t], j, source)
  {
    var source :| Leads(rules, u, txs, t, txs[t].inputs[j].previous, source) && rules.scriptWorks(txs[t], j, source);
    WorksMeetsHash(crypto, txs[t], j, source);
  }
}
