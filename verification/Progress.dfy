/** What a validation round does, told from the path above the validated tip and the files (src/blockchain.c, src/persistent.c). */
module Progress {
  import opened Bytes
  import opened Codec
  import opened HeaderIndex
  import opened Ledger
  import opened Validation
  import opened Chain

  /** The files of up to m blocks of the path above height h, until one is missing. */
  ghost function PathFiles(index: Index, genesis: Hash, files: map<Hash, Block>, h: nat, m: nat): (blocks: seq<Block>)
    decreases m
  {
    var k := NthBlock(index, genesis, h + 1);
    if m == 0 || k.None? || k.value !in files then []
    else [files[k.value]] + PathFiles(index, genesis, files, h + 1, m - 1)
  }

  /** The path block at height n is available, its file holds a block of that hash, and the block is valid over u. */
  ghost predicate ReadyBlock(c: Consensus, genesis: Hash, index: Index, files: map<Hash, Block>, u: Utxo, n: nat, now: int) {
    var k := NthBlock(index, genesis, n);
    && k.Some? && k.value in index && index[k.value].meta.available
    && k.value in files && c.hashOf(files[k.value].header) == k.value
    && BlockValid(c, u, files[k.value], n, k.value, now)
  }

  /** So is the j-th path block above the validated tip, counted from 0, once those below it are registered. */
  ghost predicate Ready(c: Consensus, genesis: Hash, s: State, j: nat, now: int) {
    var index, h := s.headers.index, s.validatedTip.height;
    ReadyBlock(c, genesis, index, s.files, Replay(c.rules, s.utxo, PathFiles(index, genesis, s.files, h, j)), h + j + 1, now)
  }

  /** The round validates the first m path blocks and no more: the clocks are used up, or the next block is not ready. */
  ghost predicate Reaches(c: Consensus, genesis: Hash, s: State, clocks: seq<int>, m: nat) {
    && m <= |clocks|
    && (forall j :: 0 <= j < m ==> Ready(c, genesis, s, j, clocks[j]))
    && (m < |clocks| ==> !Ready(c, genesis, s, m, clocks[m]))
  }

  /** The path block at height n is available, and its file is there but holds no legal block of that hash. */
  ghost predicate Spoilt(c: Consensus, genesis: Hash, s: State, n: nat, now: int) {
    var index, k := s.headers.index, NthBlock(s.headers.index, genesis, n);
    && k.Some? && k.value in index && index[k.value].meta.available && k.value in s.files
    && !(c.hashOf(s.files[k.value].header) == k.value && BlockLegal(c, s.files[k.value], now))
  }

  /** k is one of the m path blocks above height h. */
  predicate Passed(index: Index, genesis: Hash, h: nat, m: nat, k: Hash)
    requires k in index
  {
    h < index[k].height <= h + m && NthBlock(index, genesis, index[k].height) == Some(k)
  }

  /** The flags of an entry after a round that validated m blocks and failed to load the next, if `spoilt`. */
  function FlagsAfter(index: Index, genesis: Hash, h: nat, m: nat, spoilt: bool, k: Hash): (meta: Meta)
    requires k in index
  {
    if Passed(index, genesis, h, m, k) then index[k].meta.(validated := true, registered := true)
    else if spoilt && NthBlock(index, genesis, h + m + 1) == Some(k) then index[k].meta.(available := false, validated := false)
    else index[k].meta
  }

  ghost predicate Flagged(index: Index, r: Index, genesis: Hash, h: nat, m: nat, spoilt: bool) {
    SameButMeta(index, r) && forall k :: k in index ==> r[k].meta == FlagsAfter(index, genesis, h, m, spoilt, k)
  }

  /** The m path blocks above the validated tip are registered, in order, and nothing else is. */
  ghost predicate Recorded(c: Consensus, genesis: Hash, s: State, m: nat, r: State) {
    var blocks := PathFiles(s.headers.index, genesis, s.files, s.validatedTip.height, m);
    && |blocks| == m && r.registered == s.registered + blocks && r.utxo == Replay(c.rules, s.utxo, blocks)
    && r.files == s.files && r.headers.tip == s.headers.tip
  }

  /** Their flags are set, the next one's may be cleared, and the validated tip is the last of them. */
  ghost predicate Marked(index: Index, genesis: Hash, h: nat, tip: Entry, m: nat, spoilt: bool, r: State) {
    Flagged(index, r.headers.index, genesis, h, m, spoilt) && TipAfter(genesis, h, tip, m, r)
  }

  ghost predicate TipAfter(genesis: Hash, h: nat, tip: Entry, m: nat, r: State) {
    if m == 0 then r.validatedTip == tip else TipAt(r, genesis, h + m)
  }

  /** The validated tip is the path block at height n, flags included. */
  ghost predicate TipAt(r: State, genesis: Hash, n: nat) {
    var k := NthBlock(r.headers.index, genesis, n);
    k.Some? && k.value in r.headers.index && r.validatedTip == r.headers.index[k.value]
  }

  // ----- one block more -----

  lemma {:induction false} MetaKeepsFiles(index: Index, r: Index, genesis: Hash, files: map<Hash, Block>, h: nat, m: nat)
    requires SameButMeta(index, r)
    ensures PathFiles(r, genesis, files, h, m) == PathFiles(index, genesis, files, h, m)
    decreases m
  {
    MetaKeepsNth(index, r, genesis, h + 1);
    if m > 0 {
      MetaKeepsFiles(index, r, genesis, files, h + 1, m - 1);
    }
  }

  lemma {:induction false} ReplayCons(r: Rules, u: Utxo, block: Block, blocks: seq<Block>)
    ensures Replay(r, u, [block] + blocks) == Replay(r, Registered(r, u, block.txs, |block.txs|), blocks)
    decreases |blocks|
  {
    if blocks == [] {
      assert [block] + [] == [] + [block];
      ReplaySnoc(r, u, [], block);
    } else {
      var last := |blocks| - 1;
      ReplayCons(r, u, block, blocks[..last]);
      assert [block] + blocks == [block] + blocks[..last] + [blocks[last]];
      ReplaySnoc(r, u, [block] + blocks[..last], blocks[last]);
    }
  }

  /** The state once the next path block k is registered. */
  ghost predicate OneMore(c: Consensus, genesis: Hash, s: State, k: Hash, s1: State) {
    && NthBlock(s.headers.index, genesis, s.validatedTip.height + 1) == Some(k)
    && k in s.headers.index && k in s.files && s.headers.index[k].height == s.validatedTip.height + 1
    && s1 == Extended(c, s, k, s.files[k], s.headers.index[k].meta.(validated := true, registered := true),
                      s.headers.index[k].(meta := s.headers.index[k].meta.(validated := true, registered := true)))
  }

  lemma AcceptIsOneMore(c: Consensus, genesis: Hash, s: State, k: Hash)
    requires Headed(c, genesis, s) && NthBlock(s.headers.index, genesis, s.validatedTip.height + 1) == Some(k) && k in s.files
    ensures k in s.headers.index && OneMore(c, genesis, s, k, Accept(c, s, k)) && Headed(c, genesis, Accept(c, s, k))
  {
    NextOnPath(c, genesis, s, k);
    var meta := s.headers.index[k].meta.(validated := true, registered := true);
    AcceptExtends(c, genesis, s, k);
    ExtendKeepsHeaded(c, genesis, s, k, s.files[k], meta, s.headers.index[k].(meta := meta));
  }

  /** Every path block is stored at the height of its place. */
  ghost predicate Placed(index: Index, genesis: Hash) {
    forall n: nat {:trigger NthBlock(index, genesis, n)} :: PlacedAt(index, NthBlock(index, genesis, n), n)
  }

  predicate PlacedAt(index: Index, k: Option<Hash>, n: nat) {
    k.Some? ==> k.value in index && index[k.value].height == n
  }

  lemma HeadedIsPlaced(c: Consensus, genesis: Hash, s: State)
    requires Headed(c, genesis, s)
    ensures Placed(s.headers.index, genesis)
  {
    forall n: nat
      ensures PlacedAt(s.headers.index, NthBlock(s.headers.index, genesis, n), n)
    {
      if NthBlock(s.headers.index, genesis, n).Some? {
        NthStored(c.hashOf, s.headers.index, genesis, n);
      }
    }
  }

  lemma FilesShift(c: Consensus, genesis: Hash, s: State, k: Hash, s1: State, m: nat)
    requires OneMore(c, genesis, s, k, s1)
    ensures PathFiles(s.headers.index, genesis, s.files, s.validatedTip.height, m + 1)
         == [s.files[k]] + PathFiles(s1.headers.index, genesis, s1.files, s1.validatedTip.height, m)
  {
    MetaKeepsFiles(s.headers.index, s1.headers.index, genesis, s.files, s.validatedTip.height + 1, m);
  }

  lemma StoreShift(c: Consensus, genesis: Hash, s: State, k: Hash, s1: State, m: nat)
    requires OneMore(c, genesis, s, k, s1)
    ensures Replay(c.rules, s.utxo, PathFiles(s.headers.index, genesis, s.files, s.validatedTip.height, m + 1))
         == Replay(c.rules, s1.utxo, PathFiles(s1.headers.index, genesis, s1.files, s1.validatedTip.height, m))
  {
    FilesShift(c, genesis, s, k, s1, m);
    ReplayCons(c.rules, s.utxo, s.files[k], PathFiles(s1.headers.index, genesis, s1.files, s1.validatedTip.height, m));
  }

  /** Higher path blocks have their entries as before. */
  lemma EntriesAbove(c: Consensus, genesis: Hash, s: State, k: Hash, s1: State, n: nat)
    requires Placed(s.headers.index, genesis) && OneMore(c, genesis, s, k, s1) && n > s.validatedTip.height + 1
    ensures SameEntry(s.headers.index, s1.headers.index, genesis, n)
  {
    MetaKeepsNth(s.headers.index, s1.headers.index, genesis, n);
    assert PlacedAt(s.headers.index, NthBlock(s.headers.index, genesis, n), n);
  }

  predicate SameEntry(index: Index, r: Index, genesis: Hash, n: nat) {
    var k := NthBlock(index, genesis, n);
    && NthBlock(r, genesis, n) == k
    && (k.Some? ==> (k.value in index <==> k.value in r) && (k.value in index ==> r[k.value] == index[k.value]))
  }

  lemma SameEntryReady(c: Consensus, genesis: Hash, index: Index, r: Index, files: map<Hash, Block>, u: Utxo, n: nat, now: int)
    requires SameEntry(index, r, genesis, n)
    ensures ReadyBlock(c, genesis, r, files, u, n, now) <==> ReadyBlock(c, genesis, index, files, u, n, now)
  {
  }

  lemma ReadyShift(c: Consensus, genesis: Hash, s: State, k: Hash, s1: State, j: nat, now: int)
    requires Placed(s.headers.index, genesis) && OneMore(c, genesis, s, k, s1)
    ensures Ready(c, genesis, s1, j, now) <==> Ready(c, genesis, s, j + 1, now)
  {
    var u := Replay(c.rules, s1.utxo, PathFiles(s1.headers.index, genesis, s1.files, s1.validatedTip.height, j));
    EntriesAbove(c, genesis, s, k, s1, s.validatedTip.height + j + 2);
    StoreShift(c, genesis, s, k, s1, j);
    SameEntryReady(c, genesis, s.headers.index, s1.headers.index, s.files, u, s.validatedTip.height + j + 2, now);
  }

  lemma SpoiltShift(c: Consensus, genesis: Hash, s: State, k: Hash, s1: State, n: nat, now: int)
    requires Placed(s.headers.index, genesis) && OneMore(c, genesis, s, k, s1) && n > s.validatedTip.height + 1
    ensures Spoilt(c, genesis, s1, n, now) <==> Spoilt(c, genesis, s, n, now)
  {
    EntriesAbove(c, genesis, s, k, s1, n);
  }

  lemma ReadyOneLater(c: Consensus, genesis: Hash, s: State, k: Hash, s1: State, clocks: seq<int>, m: nat, j: nat)
    requires Placed(s.headers.index, genesis) && OneMore(c, genesis, s, k, s1) && clocks != []
    requires Reaches(c, genesis, s1, clocks[1..], m) && j < m
    ensures Ready(c, genesis, s, j + 1, clocks[j + 1])
  {
    assert Ready(c, genesis, s1, j, clocks[1..][j]);
    ReadyShift(c, genesis, s, k, s1, j, clocks[j + 1]);
  }

  lemma NotReadyOneLater(c: Consensus, genesis: Hash, s: State, k: Hash, s1: State, clocks: seq<int>, m: nat)
    requires Placed(s.headers.index, genesis) && OneMore(c, genesis, s, k, s1)
    requires m + 1 < |clocks| && Reaches(c, genesis, s1, clocks[1..], m)
    ensures !Ready(c, genesis, s, m + 1, clocks[m + 1])
  {
    ReadyShift(c, genesis, s, k, s1, m, clocks[m + 1]);
  }

  lemma ValidatesShift(c: Consensus, genesis: Hash, s: State, k: Hash, s1: State, clocks: seq<int>, m: nat)
    requires Placed(s.headers.index, genesis) && OneMore(c, genesis, s, k, s1) && clocks != []
    requires Ready(c, genesis, s, 0, clocks[0]) && Reaches(c, genesis, s1, clocks[1..], m)
    ensures Reaches(c, genesis, s, clocks, m + 1)
  {
    assert m <= |clocks[1..]|;
    forall j | 0 < j < m + 1
      ensures Ready(c, genesis, s, j, clocks[j])
    {
      ReadyOneLater(c, genesis, s, k, s1, clocks, m, j - 1);
    }
    if m + 1 < |clocks| {
      NotReadyOneLater(c, genesis, s, k, s1, clocks, m);
    }
  }

  lemma PassedShift(index: Index, i1: Index, genesis: Hash, h: nat, k: Hash, m: nat, q: Hash)
    requires Placed(index, genesis) && NthBlock(index, genesis, h + 1) == Some(k) && q in index && SameButMeta(index, i1)
    ensures q in i1 && (Passed(index, genesis, h, m + 1, q) <==> q == k || Passed(i1, genesis, h + 1, m, q))
    ensures q == k ==> !Passed(i1, genesis, h + 1, m, q)
  {
    MetaKeepsNth(index, i1, genesis, index[q].height);
    assert i1[q].(meta := index[q].meta) == index[q];
    assert PlacedAt(index, NthBlock(index, genesis, h + 1), h + 1);
  }

  lemma NextShift(index: Index, i1: Index, genesis: Hash, h: nat, k: Hash, n: nat)
    requires Placed(index, genesis) && NthBlock(index, genesis, h + 1) == Some(k) && SameButMeta(index, i1) && n > h + 1
    ensures NthBlock(i1, genesis, n) == NthBlock(index, genesis, n) != Some(k)
  {
    MetaKeepsNth(index, i1, genesis, n);
    assert PlacedAt(index, NthBlock(index, genesis, n), n);
    assert PlacedAt(index, NthBlock(index, genesis, h + 1), h + 1);
  }

  lemma FlagsShift(index: Index, i1: Index, genesis: Hash, h: nat, k: Hash, m: nat, spoilt: bool, q: Hash)
    requires Placed(index, genesis) && NthBlock(index, genesis, h + 1) == Some(k) && q in index
    requires k in index && i1 == SetMeta(index, k, index[k].meta.(validated := true, registered := true))
    ensures q in i1 && FlagsAfter(i1, genesis, h + 1, m, spoilt, q) == FlagsAfter(index, genesis, h, m + 1, spoilt, q)
  {
    PassedShift(index, i1, genesis, h, k, m, q);
    NextShift(index, i1, genesis, h, k, h + m + 2);
  }

  lemma FlaggedShift(index: Index, i1: Index, r: Index, genesis: Hash, h: nat, k: Hash, m: nat, spoilt: bool)
    requires Placed(index, genesis) && NthBlock(index, genesis, h + 1) == Some(k)
    requires k in index && i1 == SetMeta(index, k, index[k].meta.(validated := true, registered := true))
    requires Flagged(i1, r, genesis, h + 1, m, spoilt)
    ensures Flagged(index, r, genesis, h, m + 1, spoilt)
  {
    forall q | q in index
      ensures r[q].meta == FlagsAfter(index, genesis, h, m + 1, spoilt, q)
    {
      FlagsShift(index, i1, genesis, h, k, m, spoilt, q);
      assert r[q].meta == FlagsAfter(i1, genesis, h + 1, m, spoilt, q);
    }
  }

  lemma Untouched(index: Index, r: Index, genesis: Hash, h: nat, spoilt: bool, k: Hash)
    requires Flagged(index, r, genesis, h, 0, spoilt) && k in index && index[k].height <= h
    requires NthBlock(index, genesis, h + 1) != Some(k)
    ensures k in r && r[k] == index[k]
  {
    assert r[k].meta == FlagsAfter(index, genesis, h, 0, spoilt, k);
    assert r[k].(meta := index[k].meta) == index[k];
  }

  /** When nothing more is validated, the tip stays on the block just registered. */
  lemma TipAfterOne(index: Index, i1: Index, r: Index, genesis: Hash, h: nat, k: Hash, spoilt: bool)
    requires Placed(index, genesis) && SameButMeta(index, i1) && NthBlock(index, genesis, h + 1) == Some(k)
    requires k in index && index[k].height == h + 1 && Flagged(i1, r, genesis, h + 1, 0, spoilt)
    ensures k in r && k in i1 && r[k] == i1[k] && NthBlock(r, genesis, h + 1) == Some(k)
  {
    MetaKeepsNth(index, i1, genesis, h + 1);
    MetaKeepsNth(i1, r, genesis, h + 1);
    MetaKeepsNth(index, i1, genesis, h + 2);
    assert PlacedAt(index, NthBlock(index, genesis, h + 2), h + 2);
    Untouched(i1, r, genesis, h + 1, spoilt, k);
  }

  lemma TipShift(index: Index, i1: Index, genesis: Hash, h: nat, tip: Entry, k: Hash, m: nat, spoilt: bool, r: State)
    requires Placed(index, genesis) && SameButMeta(index, i1) && NthBlock(index, genesis, h + 1) == Some(k)
    requires k in index && k in i1 && index[k].height == h + 1 && Flagged(i1, r.headers.index, genesis, h + 1, m, spoilt)
    requires TipAfter(genesis, h + 1, i1[k], m, r)
    ensures TipAfter(genesis, h, tip, m + 1, r)
  {
    if m == 0 {
      TipAfterOne(index, i1, r.headers.index, genesis, h, k, spoilt);
    }
  }

  lemma MarkedShift(index: Index, i1: Index, genesis: Hash, h: nat, tip: Entry, k: Hash, m: nat, spoilt: bool, r: State)
    requires Placed(index, genesis) && NthBlock(index, genesis, h + 1) == Some(k)
    requires k in index && index[k].height == h + 1
    requires i1 == SetMeta(index, k, index[k].meta.(validated := true, registered := true))
    requires Marked(i1, genesis, h + 1, i1[k], m, spoilt, r)
    ensures Marked(index, genesis, h, tip, m + 1, spoilt, r)
  {
    FlaggedShift(index, i1, r.headers.index, genesis, h, k, m, spoilt);
    TipShift(index, i1, genesis, h, tip, k, m, spoilt, r);
  }

  lemma RecordedShift(c: Consensus, genesis: Hash, s: State, k: Hash, s1: State, m: nat, r: State)
    requires OneMore(c, genesis, s, k, s1) && Recorded(c, genesis, s1, m, r)
    ensures Recorded(c, genesis, s, m + 1, r)
  {
    FilesShift(c, genesis, s, k, s1, m);
    StoreShift(c, genesis, s, k, s1, m);
    var blocks := PathFiles(s1.headers.index, genesis, s1.files, s1.validatedTip.height, m);
    assert s.registered + [s.files[k]] + blocks == s.registered + ([s.files[k]] + blocks);
  }

  // ----- a whole round -----

  /** The round r from s: how many blocks it validated, and the state it leaves. */
  ghost predicate Round(c: Consensus, genesis: Hash, s: State, clocks: seq<int>, r: State) {
    exists m: nat :: RoundOf(c, genesis, s, clocks, m, r)
  }

  ghost predicate RoundOf(c: Consensus, genesis: Hash, s: State, clocks: seq<int>, m: nat, r: State) {
    && Reaches(c, genesis, s, clocks, m) && Recorded(c, genesis, s, m, r)
    && Marked(s.headers.index, genesis, s.validatedTip.height, s.validatedTip, m, SpoiltNext(c, genesis, s, clocks, m), r)
  }

  /** The round ended at a block whose file failed to load. */
  ghost predicate SpoiltNext(c: Consensus, genesis: Hash, s: State, clocks: seq<int>, m: nat) {
    m < |clocks| && Spoilt(c, genesis, s, s.validatedTip.height + m + 1, clocks[m])
  }

  lemma SpoiltNextShift(c: Consensus, genesis: Hash, s: State, k: Hash, s1: State, clocks: seq<int>, m: nat)
    requires Placed(s.headers.index, genesis) && OneMore(c, genesis, s, k, s1) && clocks != []
    ensures SpoiltNext(c, genesis, s1, clocks[1..], m) == SpoiltNext(c, genesis, s, clocks, m + 1)
  {
    if m + 1 < |clocks| {
      SpoiltShift(c, genesis, s, k, s1, s1.validatedTip.height + m + 1, clocks[m + 1]);
    }
  }

  lemma MarksShift(c: Consensus, genesis: Hash, s: State, k: Hash, s1: State, clocks: seq<int>, m: nat, r: State)
    requires Placed(s.headers.index, genesis) && OneMore(c, genesis, s, k, s1) && clocks != []
    requires Marked(s1.headers.index, genesis, s1.validatedTip.height, s1.validatedTip, m, SpoiltNext(c, genesis, s1, clocks[1..], m), r)
    ensures Marked(s.headers.index, genesis, s.validatedTip.height, s.validatedTip, m + 1, SpoiltNext(c, genesis, s, clocks, m + 1), r)
  {
    SpoiltNextShift(c, genesis, s, k, s1, clocks, m);
    MarkedShift(s.headers.index, s1.headers.index, genesis, s.validatedTip.height, s.validatedTip, k, m,
                SpoiltNext(c, genesis, s, clocks, m + 1), r);
  }

  lemma RoundShift(c: Consensus, genesis: Hash, s: State, k: Hash, s1: State, clocks: seq<int>, m: nat, r: State)
    requires Placed(s.headers.index, genesis) && OneMore(c, genesis, s, k, s1) && clocks != []
    requires Ready(c, genesis, s, 0, clocks[0]) && RoundOf(c, genesis, s1, clocks[1..], m, r)
    ensures RoundOf(c, genesis, s, clocks, m + 1, r)
  {
    ValidatesShift(c, genesis, s, k, s1, clocks, m);
    RecordedShift(c, genesis, s, k, s1, m, r);
    MarksShift(c, genesis, s, k, s1, clocks, m, r);
  }

  /** A round that validates nothing. */
  lemma NothingMore(c: Consensus, genesis: Hash, s: State, clocks: seq<int>)
    requires clocks == [] || (!Ready(c, genesis, s, 0, clocks[0]) && !Spoilt(c, genesis, s, s.validatedTip.height + 1, clocks[0]))
    ensures RoundOf(c, genesis, s, clocks, 0, s)
  {
    assert Recorded(c, genesis, s, 0, s);
    assert Marked(s.headers.index, genesis, s.validatedTip.height, s.validatedTip, 0, false, s);
  }

  lemma OnlySpoilt(c: Consensus, genesis: Hash, s: State, clocks: seq<int>, k: Hash)
    requires clocks != [] && Spoilt(c, genesis, s, s.validatedTip.height + 1, clocks[0])
    requires NthBlock(s.headers.index, genesis, s.validatedTip.height + 1) == Some(k) && Placed(s.headers.index, genesis)
    ensures k in s.headers.index
    ensures RoundOf(c, genesis, s, clocks, 0, WithMeta(s, k, s.headers.index[k].meta.(available := false, validated := false)))
  {
    assert PlacedAt(s.headers.index, NthBlock(s.headers.index, genesis, s.validatedTip.height + 1), s.validatedTip.height + 1);
    var r := WithMeta(s, k, s.headers.index[k].meta.(available := false, validated := false));
    assert Recorded(c, genesis, s, 0, r);
    assert Marked(s.headers.index, genesis, s.validatedTip.height, s.validatedTip, 0, true, r);
    assert !Ready(c, genesis, s, 0, clocks[0]);
  }

  /** The next path block: its entry carries its hash and height. */
  predicate NextEntry(genesis: Hash, s: State, k: Hash) {
    && NthBlock(s.headers.index, genesis, s.validatedTip.height + 1) == Some(k)
    && k in s.headers.index && s.headers.index[k].hash == k && s.headers.index[k].height == s.validatedTip.height + 1
  }

  /** One step of the loop: the next path block is registered exactly when it is ready. */
  lemma StepAccepts(c: Consensus, genesis: Hash, s: State, k: Hash, now: int)
    requires NextEntry(genesis, s, k) && Ready(c, genesis, s, 0, now)
    ensures var v, e := ValidateBlock(c, s, k, now), s.headers.index[k];
            && k in s.files && v.state == Accept(c, s, k) && v.code == (if e.children == [] then 1 else 2)
            && (e.children != [] ==> v.next == e.children[0])
  {
    assert PathFiles(s.headers.index, genesis, s.files, s.validatedTip.height, 0) == [];
  }

  lemma StepStops(c: Consensus, genesis: Hash, s: State, k: Hash, now: int)
    requires NextEntry(genesis, s, k) && !Ready(c, genesis, s, 0, now)
    ensures var v := ValidateBlock(c, s, k, now);
            && v.code != 2
            && v.state == if Spoilt(c, genesis, s, s.validatedTip.height + 1, now)
                          then WithMeta(s, k, s.headers.index[k].meta.(available := false, validated := false)) else s
  {
    assert PathFiles(s.headers.index, genesis, s.files, s.validatedTip.height, 0) == [];
  }

  lemma NoneReady(c: Consensus, genesis: Hash, s: State, clocks: seq<int>, k: Hash)
    requires clocks != [] && !Ready(c, genesis, s, 0, clocks[0]) && Placed(s.headers.index, genesis) && NextEntry(genesis, s, k)
    ensures Round(c, genesis, s, clocks,
                  if Spoilt(c, genesis, s, s.validatedTip.height + 1, clocks[0])
                  then WithMeta(s, k, s.headers.index[k].meta.(available := false, validated := false)) else s)
  {
    if Spoilt(c, genesis, s, s.validatedTip.height + 1, clocks[0]) {
      OnlySpoilt(c, genesis, s, clocks, k);
    } else {
      NothingMore(c, genesis, s, clocks);
    }
  }

  lemma EndOfPath(c: Consensus, genesis: Hash, s: State, clocks: seq<int>)
    requires NthBlock(s.headers.index, genesis, s.validatedTip.height + 1) == None
    ensures RoundOf(c, genesis, s, clocks, 0, s)
  {
    NothingMore(c, genesis, s, clocks);
  }

  lemma {:induction false} FromExactly(c: Consensus, genesis: Hash, s: State, k: Hash, clocks: seq<int>)
    requires Headed(c, genesis, s) && NthBlock(s.headers.index, genesis, s.validatedTip.height + 1) == Some(k)
    ensures Round(c, genesis, s, clocks, ValidateFrom(c, s, k, clocks))
    decreases |clocks|
  {
    HeadedIsPlaced(c, genesis, s);
    NextOnPath(c, genesis, s, k);
    if clocks == [] {
      NothingMore(c, genesis, s, clocks);
      assert RoundOf(c, genesis, s, clocks, 0, s);
    } else {
      if Ready(c, genesis, s, 0, clocks[0]) {
        StepAccepts(c, genesis, s, k, clocks[0]);
        AcceptIsOneMore(c, genesis, s, k);
        FromNext(c, genesis, s, k, clocks);
      } else {
        StepStops(c, genesis, s, k, clocks[0]);
        NoneReady(c, genesis, s, clocks, k);
      }
    }
  }

  /** The rest of the round, from the state with one more block. */
  lemma {:induction false} FromNext(c: Consensus, genesis: Hash, s: State, k: Hash, clocks: seq<int>)
    requires Headed(c, genesis, s) && Placed(s.headers.index, genesis) && clocks != [] && Ready(c, genesis, s, 0, clocks[0])
    requires k in s.headers.index && k in s.files && OneMore(c, genesis, s, k, Accept(c, s, k)) && Headed(c, genesis, Accept(c, s, k))
    ensures var children := s.headers.index[k].children;
            Round(c, genesis, s, clocks,
                  if children == [] then Accept(c, s, k) else ValidateFrom(c, Accept(c, s, k), children[0], clocks[1..]))
    decreases |clocks|, 0
  {
    var s1 := Accept(c, s, k);
    MetaKeepsNth(s.headers.index, s1.headers.index, genesis, s.validatedTip.height + 2);
    if s.headers.index[k].children == [] {
      EndOfPath(c, genesis, s1, clocks[1..]);
      RoundShift(c, genesis, s, k, s1, clocks, 0, s1);
    } else {
      var r := ValidateFrom(c, s1, s.headers.index[k].children[0], clocks[1..]);
      FromExactly(c, genesis, s1, s.headers.index[k].children[0], clocks[1..]);
      var m: nat :| RoundOf(c, genesis, s1, clocks[1..], m, r);
      RoundShift(c, genesis, s, k, s1, clocks, m, r);
    }
  }

  /**
   * A validation round, whatever it meets: it registers the path blocks above the validated tip as long as the clock
   * lasts and each is available, loads and is valid over those before it; it flags them and moves the tip to the last.
   * A block whose file does not load is marked unavailable; nothing else changes.
   */
  lemma RoundExactly(c: Consensus, genesis: Hash, s: State, clocks: seq<int>)
    requires Headed(c, genesis, s)
    ensures Round(c, genesis, s, clocks, Step(c, s, Event.Validates(clocks)))
  {
    var h := s.validatedTip.height;
    assert NthBlock(s.headers.index, genesis, h) == Some(s.validatedTip.hash);
    var k := NthBlock(s.headers.index, genesis, h + 1);
    if k.Some? {
      FromExactly(c, genesis, s, k.value, clocks);
    } else {
      EndOfPath(c, genesis, s, clocks);
      assert RoundOf(c, genesis, s, clocks, 0, s);
    }
  }

  /** The path block at height n is flagged as validated and registered. */
  predicate FlaggedAt(index: Index, genesis: Hash, n: nat) {
    var k := NthBlock(index, genesis, n);
    k.Some? && k.value in index && index[k.value].meta.validated && index[k.value].meta.registered
  }

  lemma PassedIsFlagged(index: Index, r: Index, genesis: Hash, h: nat, m: nat, spoilt: bool, n: nat)
    requires Placed(index, genesis) && Flagged(index, r, genesis, h, m, spoilt) && h < n <= h + m
    requires NthBlock(index, genesis, n).Some?
    ensures FlaggedAt(r, genesis, n)
  {
    MetaKeepsNth(index, r, genesis, n);
    var k := NthBlock(index, genesis, n).value;
    assert PlacedAt(index, NthBlock(index, genesis, n), n);
    assert r[k].meta == FlagsAfter(index, genesis, h, m, spoilt, k);
  }

  lemma TipOfRound(c: Consensus, genesis: Hash, s: State, m: nat, spoilt: bool, r: State)
    requires Headed(c, genesis, s) && Marked(s.headers.index, genesis, s.validatedTip.height, s.validatedTip, m, spoilt, r)
    ensures r.validatedTip.height == s.validatedTip.height + m
    ensures NthBlock(r.headers.index, genesis, r.validatedTip.height) == Some(r.validatedTip.hash)
  {
    var index, n := s.headers.index, s.validatedTip.height + m;
    MetaKeepsNth(index, r.headers.index, genesis, n);
    if m > 0 {
      NthStored(c.hashOf, index, genesis, n);
      var k := NthBlock(index, genesis, n).value;
      assert Consistent(c.hashOf, index, k) && r.headers.index[k].(meta := index[k].meta) == index[k];
    }
  }

  lemma ReadyToTheEnd(c: Consensus, genesis: Hash, s: State, clocks: seq<int>, m: nat)
    requires Reaches(c, genesis, s, clocks, m) && forall j :: 0 <= j < |clocks| ==> Ready(c, genesis, s, j, clocks[j])
    ensures m == |clocks|
  {
  }

  lemma ReadyIsOnPath(c: Consensus, genesis: Hash, s: State, j: nat, now: int)
    requires Ready(c, genesis, s, j, now)
    ensures NthBlock(s.headers.index, genesis, s.validatedTip.height + j + 1).Some?
  {
  }

  /** All blocks on the way are flagged. */
  lemma RoundFlags(index: Index, r: Index, genesis: Hash, h: nat, m: nat, spoilt: bool)
    requires Placed(index, genesis) && Flagged(index, r, genesis, h, m, spoilt)
    requires forall n :: h < n <= h + m ==> NthBlock(index, genesis, n).Some?
    ensures forall n :: h < n <= h + m ==> FlaggedAt(r, genesis, n)
  {
    forall n | h < n <= h + m
      ensures FlaggedAt(r, genesis, n)
    {
      PassedIsFlagged(index, r, genesis, h, m, spoilt, n);
    }
  }

  /** The n path blocks above the tip of s are registered in r, flagged, and end at its tip. */
  ghost predicate Advanced(c: Consensus, genesis: Hash, s: State, n: nat, r: State) {
    var h := s.validatedTip.height;
    && Recorded(c, genesis, s, n, r) && SameButMeta(s.headers.index, r.headers.index)
    && r.validatedTip.height == h + n && NthBlock(r.headers.index, genesis, h + n) == Some(r.validatedTip.hash)
    && forall place :: h < place <= h + n ==> FlaggedAt(r.headers.index, genesis, place)
  }

  lemma RoundAdvances(c: Consensus, genesis: Hash, s: State, clocks: seq<int>, m: nat, r: State)
    requires Headed(c, genesis, s) && RoundOf(c, genesis, s, clocks, m, r)
    ensures Advanced(c, genesis, s, m, r)
  {
    ReachedOnPath(c, genesis, s, clocks, m);
    MarksOfRound(c, genesis, s, m, SpoiltNext(c, genesis, s, clocks, m), r);
  }

  /** Progress: when the next n path blocks are ready at the n clock readings, the round registers exactly these. */
  lemma ReadyBlocksValidated(c: Consensus, genesis: Hash, s: State, clocks: seq<int>)
    requires Headed(c, genesis, s) && forall j :: 0 <= j < |clocks| ==> Ready(c, genesis, s, j, clocks[j])
    ensures Advanced(c, genesis, s, |clocks|, Step(c, s, Event.Validates(clocks)))
  {
    RoundExactly(c, genesis, s, clocks);
    AllAdvance(c, genesis, s, clocks, Step(c, s, Event.Validates(clocks)));
  }

  lemma AllAdvance(c: Consensus, genesis: Hash, s: State, clocks: seq<int>, r: State)
    requires Headed(c, genesis, s) && Round(c, genesis, s, clocks, r)
    requires forall j :: 0 <= j < |clocks| ==> Ready(c, genesis, s, j, clocks[j])
    ensures Advanced(c, genesis, s, |clocks|, r)
  {
    var m: nat :| RoundOf(c, genesis, s, clocks, m, r);
    ReadyToTheEnd(c, genesis, s, clocks, m);
    RoundAdvances(c, genesis, s, clocks, m, r);
  }

  lemma ReachedOnPath(c: Consensus, genesis: Hash, s: State, clocks: seq<int>, m: nat)
    requires Reaches(c, genesis, s, clocks, m)
    ensures var h := s.validatedTip.height; forall n :: h < n <= h + m ==> NthBlock(s.headers.index, genesis, n).Some?
  {
    var h := s.validatedTip.height;
    forall n | h < n <= h + m
      ensures NthBlock(s.headers.index, genesis, n).Some?
    {
      ReadyIsOnPath(c, genesis, s, n - h - 1, clocks[n - h - 1]);
    }
  }

  lemma MarksOfRound(c: Consensus, genesis: Hash, s: State, m: nat, spoilt: bool, r: State)
    requires Headed(c, genesis, s) && Marked(s.headers.index, genesis, s.validatedTip.height, s.validatedTip, m, spoilt, r)
    requires forall n :: s.validatedTip.height < n <= s.validatedTip.height + m ==> NthBlock(s.headers.index, genesis, n).Some?
    ensures r.validatedTip.height == s.validatedTip.height + m
    ensures NthBlock(r.headers.index, genesis, r.validatedTip.height) == Some(r.validatedTip.hash)
    ensures forall n :: s.validatedTip.height < n <= s.validatedTip.height + m ==> FlaggedAt(r.headers.index, genesis, n)
  {
    HeadedIsPlaced(c, genesis, s);
    TipOfRound(c, genesis, s, m, spoilt, r);
    RoundFlags(s.headers.index, r.headers.index, genesis, s.validatedTip.height, m, spoilt);
  }

  // ----- a block that arrives and is validated later -----

  /** A legal block of the path that is saved, not registered, on arrival is ready from then on as long as it is valid. */
  lemma SavedIsReady(c: Consensus, genesis: Hash, s: State, block: Block, now: int, later: int)
    requires Headed(c, genesis, s) && BlockLegal(c, block, now)
    requires NthBlock(s.headers.index, genesis, s.validatedTip.height + 1) == Some(c.hashOf(block.header))
    ensures var r, k := Step(c, s, BlockArrives(block, now, false, true)), c.hashOf(block.header);
            && Headed(c, genesis, r) && r.validatedTip == s.validatedTip && r.registered == s.registered && r.utxo == s.utxo
            && NthBlock(r.headers.index, genesis, r.validatedTip.height + 1) == Some(k)
            && k in r.files && r.files[k] == block
            && (Ready(c, genesis, r, 0, later) <==> BlockValid(c, s.utxo, block, s.validatedTip.height + 1, k, later))
  {
    var k := c.hashOf(block.header);
    NextOnPath(c, genesis, s, k);
    SavedState(c, s, block, now);
    SavedKeepsPath(c, genesis, s, k, block);
    SavedReady(c, genesis, WithFile(s, k, block), k, block, later);
  }

  lemma SavedKeepsPath(c: Consensus, genesis: Hash, s: State, k: Hash, block: Block)
    requires Headed(c, genesis, s) && k in s.headers.index
    ensures Headed(c, genesis, WithFile(s, k, block))
    ensures var n := s.validatedTip.height + 1; NthBlock(WithFile(s, k, block).headers.index, genesis, n) == NthBlock(s.headers.index, genesis, n)
  {
    var meta := s.headers.index[k].meta.(available := true);
    SetMetaSame(s.headers.index, k, meta);
    MetaKeepsHeaded(c, genesis, s, SetMeta(s.headers.index, k, meta));
    MetaKeepsNth(s.headers.index, SetMeta(s.headers.index, k, meta), genesis, s.validatedTip.height + 1);
  }

  lemma SavedState(c: Consensus, s: State, block: Block, now: int)
    requires BlockLegal(c, block, now) && c.hashOf(block.header) in s.headers.index
    ensures Step(c, s, BlockArrives(block, now, false, true)) == WithFile(s, c.hashOf(block.header), block)
  {
    assert WithHeader(c, s, block.header, now) == s;
  }

  lemma SavedReady(c: Consensus, genesis: Hash, r: State, k: Hash, block: Block, later: int)
    requires NthBlock(r.headers.index, genesis, r.validatedTip.height + 1) == Some(k) && c.hashOf(block.header) == k
    requires k in r.headers.index && r.headers.index[k].meta.available && k in r.files && r.files[k] == block
    ensures Ready(c, genesis, r, 0, later) <==> BlockValid(c, r.utxo, block, r.validatedTip.height + 1, k, later)
  {
    assert PathFiles(r.headers.index, genesis, r.files, r.validatedTip.height, 0) == [];
  }

  /** A path block that arrives and is saved, and is valid when a round begins, is registered by that round. */
  lemma SavedIsValidated(c: Consensus, genesis: Hash, s: State, block: Block, now: int, later: int)
    requires Headed(c, genesis, s) && BlockLegal(c, block, now)
    requires NthBlock(s.headers.index, genesis, s.validatedTip.height + 1) == Some(c.hashOf(block.header))
    requires BlockValid(c, s.utxo, block, s.validatedTip.height + 1, c.hashOf(block.header), later)
    ensures var r := Run(c, s, [BlockArrives(block, now, false, true), Event.Validates([later])]);
            && r.registered == s.registered + [block] && r.utxo == Registered(c.rules, s.utxo, block.txs, |block.txs|)
            && r.validatedTip.height == s.validatedTip.height + 1 && r.validatedTip.hash == c.hashOf(block.header)
            && FlaggedAt(r.headers.index, genesis, s.validatedTip.height + 1)
  {
    var s1 := Step(c, s, BlockArrives(block, now, false, true));
    SavedIsReady(c, genesis, s, block, now, later);
    TwoSteps(c, s, BlockArrives(block, now, false, true), Event.Validates([later]));
    OneReadyBlock(c, genesis, s1, c.hashOf(block.header), later);
  }

  lemma TwoSteps(c: Consensus, s: State, a: Event, b: Event)
    ensures Run(c, s, [a, b]) == Step(c, Step(c, s, a), b)
  {
    assert [a, b][1..] == [b] && [b][1..] == [];
    assert Run(c, Step(c, Step(c, s, a), b), []) == Step(c, Step(c, s, a), b);
  }

  lemma OneReadyBlock(c: Consensus, genesis: Hash, s: State, k: Hash, now: int)
    requires Headed(c, genesis, s) && NthBlock(s.headers.index, genesis, s.validatedTip.height + 1) == Some(k)
    requires k in s.files && Ready(c, genesis, s, 0, now)
    ensures var r, block := Step(c, s, Event.Validates([now])), s.files[k];
            && r.registered == s.registered + [block] && r.utxo == Registered(c.rules, s.utxo, block.txs, |block.txs|)
            && r.validatedTip.height == s.validatedTip.height + 1 && r.validatedTip.hash == k
            && FlaggedAt(r.headers.index, genesis, s.validatedTip.height + 1)
  {
    ReadyBlocksValidated(c, genesis, s, [now]);
    OneAdvanced(c, genesis, s, k, Step(c, s, Event.Validates([now])));
  }

  lemma OneFile(c: Consensus, genesis: Hash, s: State, k: Hash)
    requires NthBlock(s.headers.index, genesis, s.validatedTip.height + 1) == Some(k) && k in s.files
    ensures var blocks, block := PathFiles(s.headers.index, genesis, s.files, s.validatedTip.height, 1), s.files[k];
            blocks == [block] && Replay(c.rules, s.utxo, blocks) == Registered(c.rules, s.utxo, block.txs, |block.txs|)
  {
    var block := s.files[k];
    assert PathFiles(s.headers.index, genesis, s.files, s.validatedTip.height + 1, 0) == [];
    ReplaySnoc(c.rules, s.utxo, [], block);
    assert [] + [block] == [block];
  }

  lemma OneAdvanced(c: Consensus, genesis: Hash, s: State, k: Hash, r: State)
    requires NthBlock(s.headers.index, genesis, s.validatedTip.height + 1) == Some(k) && k in s.files
    requires Advanced(c, genesis, s, 1, r)
    ensures var block := s.files[k];
            && r.registered == s.registered + [block] && r.utxo == Registered(c.rules, s.utxo, block.txs, |block.txs|)
            && r.validatedTip.height == s.validatedTip.height + 1 && r.validatedTip.hash == k
            && FlaggedAt(r.headers.index, genesis, s.validatedTip.height + 1)
  {
    OneFile(c, genesis, s, k);
    MetaKeepsNth(s.headers.index, r.headers.index, genesis, s.validatedTip.height + 1);
  }

  // ----- a block that arrives persistently -----

  /** The entry of a new header whose parent ends the path at the validated tip. */
  lemma NewPathEntry(c: Consensus, genesis: Hash, s: State, header: Header, now: int)
    requires Headed(c, genesis, s) && TimestampLegal(header, now) && AddsWork(header.target) && c.hashOf(header) !in s.headers.index
    requires header.prevBlock == s.validatedTip.hash && s.headers.index[s.validatedTip.hash].children == []
    ensures var index, k := WithHeader(c, s, header, now).headers.index, c.hashOf(header);
            && k in index && index[k].hash == k && index[k].height == s.validatedTip.height + 1 && index[k].status == Mainchain
            && index[k].pow > s.validatedTip.pow && !index[k].meta.registered
  {
    NthStored(c.hashOf, s.headers.index, genesis, s.validatedTip.height);
  }

  /** What registration on arrival leaves of the state before. */
  ghost predicate RegisteredOnArrival(c: Consensus, s: State, block: Block, saved: bool, r: State) {
    var k := c.hashOf(block.header);
    && r.registered == s.registered + [block] && r.utxo == Registered(c.rules, s.utxo, block.txs, |block.txs|)
    && r.files == (if saved then s.files[k := block] else s.files)
    && k in r.headers.index && r.headers.index[k].meta.validated && r.headers.index[k].meta.registered
    && r.headers.index[k].meta.available == saved
    && r.validatedTip.hash == k && r.validatedTip.height == s.validatedTip.height + 1
  }

  lemma PersistRegisters(c: Consensus, s: State, s1: State, block: Block, now: int, saved: bool)
    requires var k := c.hashOf(block.header);
             && k in s1.headers.index && s1.headers.index[k].hash == k && s1.headers.index[k].height == s.validatedTip.height + 1
             && s1.headers.index[k].status == Mainchain && s1.headers.index[k].pow > s.validatedTip.pow
             && !s1.headers.index[k].meta.registered && !s1.headers.index[k].meta.available
    requires s1 == s.(headers := s1.headers)
    requires BlockValid(c, s.utxo, block, s.validatedTip.height + 1, c.hashOf(block.header), now)
    ensures var k := c.hashOf(block.header);
            var s2 := Persist(c, s1, k, block, now);
            k in s2.headers.index && RegisteredOnArrival(c, s, block, saved, if saved then WithFile(s2, k, block) else s2)
  {
  }

  /** A persistent block with a new header on top of the validated tip is registered and becomes the tip if it is valid there. */
  lemma ArrivalExtends(c: Consensus, genesis: Hash, s: State, block: Block, now: int, saved: bool)
    requires Headed(c, genesis, s) && c.hashOf(block.header) !in s.headers.index
    requires block.header.prevBlock == s.validatedTip.hash && s.headers.index[s.validatedTip.hash].children == []
    requires BlockValid(c, s.utxo, block, s.validatedTip.height + 1, c.hashOf(block.header), now)
    ensures RegisteredOnArrival(c, s, block, saved, Step(c, s, BlockArrives(block, now, true, saved)))
  {
    LegalAddsWork(c, block, now);
    NewPathEntry(c, genesis, s, block.header, now);
    ArriveExactly(c.hashOf, s.headers, block.header, now);
    PersistRegisters(c, s, WithHeader(c, s, block.header, now), block, now, saved);
  }

  lemma LegalAddsWork(c: Consensus, block: Block, now: int)
    requires BlockLegal(c, block, now)
    ensures AddsWork(block.header.target) && TimestampLegal(block.header, now)
  {
  }

  /** What the arrival of a block leaves when its header has the entry e in the index: the verdict on it is `valid`. */
  ghost predicate Arrived(c: Consensus, s: State, e: Entry, block: Block, valid: bool, persistent: bool, saved: bool, r: State) {
    var meta := e.meta;
    && e.hash in r.headers.index
    && r.headers.index[e.hash] == e.(meta := Meta(meta.available || saved, if persistent then valid else meta.validated, meta.registered || valid))
    && r.files == (if saved then s.files[e.hash := block] else s.files)
    && r.registered == (if valid && !meta.registered then s.registered + [block] else s.registered)
    && r.utxo == (if valid && !meta.registered then Registered(c.rules, s.utxo, block.txs, |block.txs|) else s.utxo)
    && r.validatedTip == if valid && e.status == Mainchain && e.pow > s.validatedTip.pow then e.(meta := meta.(validated := true))
                         else s.validatedTip
  }

  ghost predicate SameOthers(index: Index, r: Index, k: Hash) {
    r.Keys == index.Keys && forall q :: q in index && q != k ==> r[q] == index[q]
  }

  lemma PersistArrived(c: Consensus, s: State, k: Hash, block: Block, now: int)
    requires k in s.headers.index && s.headers.index[k].hash == k
    ensures var e, r := s.headers.index[k], Persist(c, s, k, block, now);
            Arrived(c, s, e, block, BlockValid(c, s.utxo, block, e.height, k, now), true, false, r)
            && SameOthers(s.headers.index, r.headers.index, k)
  {
  }

  lemma SavedArrived(c: Consensus, s: State, e: Entry, block: Block, valid: bool, persistent: bool, s2: State)
    requires Arrived(c, s, e, block, valid, persistent, false, s2)
    ensures Arrived(c, s, e, block, valid, persistent, true, WithFile(s2, e.hash, block))
    ensures SameOthers(s2.headers.index, WithFile(s2, e.hash, block).headers.index, e.hash)
  {
  }

  /**
   * What a legal block does on arrival, whatever the state: its header arrives; its flags tell whether it is saved, valid
   * where it stands and registered; a persistent, valid one that was not registered is, wherever it stands; the tip moves
   * to it only if it is on the main chain with more work; its file is kept when it can be saved.
   */
  lemma ArrivalExactly(c: Consensus, s: State, block: Block, now: int, persistent: bool, saved: bool)
    requires BlockLegal(c, block, now) && Forest(c.hashOf, s.headers.index)
    ensures var index, k := WithHeader(c, s, block.header, now).headers.index, c.hashOf(block.header);
            k in index &&
            var r, e := Step(c, s, BlockArrives(block, now, persistent, saved)), index[k];
            Arrived(c, s, e, block, persistent && BlockValid(c, s.utxo, block, e.height, k, now), persistent, saved, r)
            && SameOthers(index, r.headers.index, k)
  {
    LegalAddsWork(c, block, now);
    ArriveExactly(c.hashOf, s.headers, block.header, now);
    ArriveKeepsForest(c.hashOf, s.headers, block.header, now);
    var s1, k := WithHeader(c, s, block.header, now), c.hashOf(block.header);
    assert Consistent(c.hashOf, s1.headers.index, k);
    ArrivedFrom(c, s, s1, k, block, now, persistent, saved);
  }

  lemma ArrivedFrom(c: Consensus, s: State, s1: State, k: Hash, block: Block, now: int, persistent: bool, saved: bool)
    requires s1 == s.(headers := s1.headers) && k in s1.headers.index && s1.headers.index[k].hash == k
    ensures var e, valid := s1.headers.index[k], persistent && BlockValid(c, s.utxo, block, s1.headers.index[k].height, k, now);
            var s2 := if persistent then Persist(c, s1, k, block, now) else s1;
            k in s2.headers.index &&
            var r := if saved then WithFile(s2, k, block) else s2;
            Arrived(c, s, e, block, valid, persistent, saved, r) && SameOthers(s1.headers.index, r.headers.index, k)
  {
    var e, valid := s1.headers.index[k], persistent && BlockValid(c, s.utxo, block, s1.headers.index[k].height, k, now);
    var s2 := if persistent then Persist(c, s1, k, block, now) else s1;
    if persistent {
      PersistArrived(c, s1, k, block, now);
    }
    assert Arrived(c, s, e, block, valid, persistent, false, s2);
    if saved {
      SavedArrived(c, s, e, block, valid, persistent, s2);
    }
  }

  /** A reset clears the flags of every entry but availability, empties the store and goes back to genesis; files and headers stay. */
  lemma ResetExactly(s: State, genesis: Hash)
    requires genesis in s.headers.index
    ensures var r := ResetUtxo(s, genesis);
            && r.utxo == map[] && r.registered == [] && r.files == s.files && r.validatedTip == s.headers.index[genesis]
            && r.headers.index.Keys == s.headers.index.Keys && r.headers.tip == s.headers.tip
            && forall k :: k in s.headers.index ==>
                 r.headers.index[k] == s.headers.index[k].(meta := Meta(s.headers.index[k].meta.available, false, false))
  {
  }
}
