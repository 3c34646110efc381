/** Runs of the node: headers and blocks arrive, persistently or not, and validation extends the ledger (src/blockchain.c). */
module Chain {
  import opened Bytes
  import opened Codec
  import opened HeaderIndex
  import opened Ledger
  import opened Conservation
  import opened Supply
  import opened Validation

  /**
   * The header index and its tip, mainValidatedTip, the unspent outputs and the block files. `registered` is a history
   * variable, the blocks registered so far: the source keeps no such list.
   */
  datatype State = State(headers: Headers, validatedTip: Entry, utxo: Utxo, files: map<Hash, Block>, registered: seq<Block>)

  function SetMeta(index: Index, k: Hash, meta: Meta): (r: Index) {
    if k in index then index[k := index[k].(meta := meta)] else index
  }

  function WithMeta(s: State, k: Hash, meta: Meta): (r: State) {
    s.(headers := s.headers.(index := SetMeta(s.headers.index, k, meta)))
  }

  // ----- the steps -----

  /** The registration part of process_incoming_block: a valid block not registered yet is, wherever it stands. */
  function Persist(c: Consensus, s: State, k: Hash, block: Block, now: int): (r: State)
    requires k in s.headers.index
  {
    var e := s.headers.index[k];
    var valid := BlockValid(c, s.utxo, block, e.height, e.hash, now);
    var s1 := WithMeta(s, k, e.meta.(validated := valid, registered := e.meta.registered || valid));
    var tip := if valid && e.status == Mainchain && e.pow > s.validatedTip.pow then e.(meta := e.meta.(validated := true)) else s.validatedTip;
    if valid && !e.meta.registered then
      s1.(validatedTip := tip, utxo := Registered(c.rules, s.utxo, block.txs, |block.txs|), registered := s.registered + [block])
    else s1.(validatedTip := tip)
  }

  function WithHeader(c: Consensus, s: State, header: Header, now: int): (r: State) {
    s.(headers := Arrive(c.hashOf, s.headers, header, now))
  }

  function WithFile(s: State, k: Hash, block: Block): (r: State)
    requires k in s.headers.index
  {
    WithMeta(s, k, s.headers.index[k].meta.(available := true)).(files := s.files[k := block])
  }

  /** process_incoming_block: the header, the registration when persistent, and the file when it can be saved. */
  function AfterBlock(c: Consensus, s: State, block: Block, now: int, persistent: bool, saved: bool): (r: State) {
    var k := c.hashOf(block.header);
    var s1 := WithHeader(c, s, block.header, now);
    if !BlockLegal(c, block, now) || k !in s1.headers.index then s
    else
      var s2 := if persistent then Persist(c, s1, k, block, now) else s1;
      if saved then WithFile(s2, k, block) else s2
  }

  /** The arriving block is registered on arrival. */
  predicate Registers(c: Consensus, s: State, block: Block, now: int, persistent: bool) {
    var k := c.hashOf(block.header);
    var index := WithHeader(c, s, block.header, now).headers.index;
    && persistent && BlockLegal(c, block, now) && k in index
    && BlockValid(c, s.utxo, block, index[k].height, index[k].hash, now) && !index[k].meta.registered
  }

  /** load_block, through its checks. */
  predicate Loads(c: Consensus, s: State, k: Hash, now: int) {
    k in s.files && c.hashOf(s.files[k].header) == k && BlockLegal(c, s.files[k], now)
  }

  /** The result of validate_block: 2 valid and continue, 1 valid and stop, 0 invalid, below 0 an error. */
  datatype Validated = Validated(code: int, state: State, next: Hash)

  function Accept(c: Consensus, s: State, k: Hash): (r: State)
    requires k in s.headers.index && k in s.files
  {
    var e, block := s.headers.index[k], s.files[k];
    var s1 := WithMeta(s, k, e.meta.(validated := true, registered := true));
    s1.(utxo := Registered(c.rules, s.utxo, block.txs, |block.txs|),
        validatedTip := if e.pow > s.validatedTip.pow then s1.headers.index[k] else s.validatedTip,
        registered := s.registered + [block])
  }

  function ValidateBlock(c: Consensus, s: State, k: Hash, now: int): (r: Validated) {
    if k !in s.headers.index then Validated(-1, s, k)
    else
      var e := s.headers.index[k];
      if !e.meta.available || k !in s.files then Validated(-10, s, k)
      else if !Loads(c, s, k, now) then Validated(-10, WithMeta(s, k, e.meta.(available := false, validated := false)), k)
      else if !BlockValid(c, s.utxo, s.files[k], e.height, e.hash, now) then Validated(0, s, k)
      else if e.children == [] then Validated(1, Accept(c, s, k), k)
      else Validated(2, Accept(c, s, k), e.children[0])
  }

  /** The loop of validate_blocks, for as many blocks as there are clock readings before the timer cuts it. */
  function ValidateFrom(c: Consensus, s: State, k: Hash, clocks: seq<int>): (r: State)
    decreases |clocks|
  {
    if clocks == [] then s
    else
      var v := ValidateBlock(c, s, k, clocks[0]);
      if v.code != 2 then v.state else ValidateFrom(c, v.state, v.next, clocks[1..])
  }

  /** Where validate_blocks starts: the first child of the validated tip. */
  function StartOf(s: State): (k: Option<Hash>) {
    var tip := s.validatedTip.hash;
    if tip in s.headers.index && s.headers.index[tip].children != [] then Some(s.headers.index[tip].children[0]) else None
  }

  function ValidateBlocks(c: Consensus, s: State, clocks: seq<int>): (r: State) {
    var k := StartOf(s);
    if k.Some? then ValidateFrom(c, s, k.value, clocks) else s
  }

  datatype Event =
    | HeaderArrives(header: Header, now: int)
    | BlockArrives(block: Block, now: int, persistent: bool, saved: bool)
    | Validates(clocks: seq<int>)
    | FilesChange(files: map<Hash, Block>)

  function Step(c: Consensus, s: State, event: Event): (r: State) {
    match event
    case HeaderArrives(header, now) => WithHeader(c, s, header, now)
    case BlockArrives(block, now, persistent, saved) => AfterBlock(c, s, block, now, persistent, saved)
    case Validates(clocks) => ValidateBlocks(c, s, clocks)
    case FilesChange(files) => s.(files := files)
  }

  function Run(c: Consensus, s: State, events: seq<Event>): (r: State)
    decreases |events|
  {
    if events == [] then s else Run(c, Step(c, s, events[0]), events[1..])
  }

  // ----- side conditions over a run -----

  /** Each block registered on the way is clean with respect to the store it meets. */
  ghost predicate CleanFrom(c: Consensus, s: State, k: Hash, clocks: seq<int>)
    decreases |clocks|
  {
    clocks != [] ==>
      var v := ValidateBlock(c, s, k, clocks[0]);
      && (v.code > 0 ==> Clean(c.rules, s.utxo, s.files[k].txs))
      && (v.code == 2 ==> CleanFrom(c, v.state, v.next, clocks[1..]))
  }

  ghost predicate CleanStep(c: Consensus, s: State, event: Event) {
    match event
    case HeaderArrives(header, _) => AddsWork(header.target)
    case BlockArrives(block, now, persistent, _) =>
      AddsWork(block.header.target) && (Registers(c, s, block, now, persistent) ==> Clean(c.rules, s.utxo, block.txs))
    case Validates(clocks) => StartOf(s).Some? ==> CleanFrom(c, s, StartOf(s).value, clocks)
    case FilesChange(_) => true
  }

  ghost predicate CleanRun(c: Consensus, s: State, events: seq<Event>)
    decreases |events|
  {
    events != [] ==> CleanStep(c, s, events[0]) && CleanRun(c, Step(c, s, events[0]), events[1..])
  }

  /** A block registered on arrival is the path block right above those registered before. */
  ghost predicate InOrderStep(c: Consensus, genesis: Hash, s: State, event: Event) {
    match event
    case BlockArrives(block, now, persistent, _) =>
      Registers(c, s, block, now, persistent) ==>
        NthBlock(WithHeader(c, s, block.header, now).headers.index, genesis, |s.registered| + 1) == Some(c.hashOf(block.header))
    case _ => true
  }

  ghost predicate InOrder(c: Consensus, genesis: Hash, s: State, events: seq<Event>)
    decreases |events|
  {
    events != [] ==> InOrderStep(c, genesis, s, events[0]) && InOrder(c, genesis, Step(c, s, events[0]), events[1..])
  }

  // ----- the invariant -----

  /** The store after the given blocks are registered in order. */
  function Replay(r: Rules, u: Utxo, blocks: seq<Block>): (w: Utxo) {
    if blocks == [] then u
    else
      var txs := blocks[|blocks| - 1].txs;
      Registered(r, Replay(r, u, blocks[..|blocks| - 1]), txs, |txs|)
  }

  /** The blocks are the path above genesis, in order, each once. */
  ghost predicate FollowsPath(hashOf: Header -> Hash, index: Index, genesis: Hash, blocks: seq<Block>) {
    forall i :: 0 <= i < |blocks| ==> NthBlock(index, genesis, i + 1) == Some(hashOf(blocks[i].header))
  }

  ghost predicate AllWork(index: Index) {
    forall k :: k in index ==> AddsWork(index[k].header.target)
  }

  ghost predicate TipOnPath(index: Index, genesis: Hash, tip: Entry) {
    && tip.hash in index && index[tip.hash].pow == tip.pow
    && NthBlock(index, genesis, tip.height) == Some(tip.hash)
  }

  /** The headers form a forest under genesis, and the validated tip is the path block at its height. */
  ghost predicate Headed(c: Consensus, genesis: Hash, s: State) {
    && Reachable(c.hashOf, s.headers) && RootedAt(s.headers.index, genesis) && AllWork(s.headers.index)
    && TipOnPath(s.headers.index, genesis, s.validatedTip)
  }

  /** The store is the replay of the path up to the validated tip, and holds no more than its subsidies. */
  ghost predicate Backed(c: Consensus, genesis: Hash, start: Utxo, s: State) {
    && s.validatedTip.height == |s.registered|
    && FollowsPath(c.hashOf, s.headers.index, genesis, s.registered)
    && s.utxo == Replay(c.rules, start, s.registered)
    && NoNegative(s.utxo) && Total(s.utxo) <= SubsidySum(s.validatedTip.height)
  }

  ghost predicate Sound(c: Consensus, genesis: Hash, start: Utxo, s: State) {
    Headed(c, genesis, s) && Backed(c, genesis, start, s) && FlagsBelow(s.headers.index, s.validatedTip.pow)
  }

  predicate FlagBelow(e: Entry, pow: real) {
    e.meta.registered ==> e.pow <= pow
  }

  /** Nothing with more work than the validated tip is flagged as registered. */
  ghost predicate FlagsBelow(index: Index, pow: real) {
    forall k :: k in index ==> FlagBelow(index[k], pow)
  }

  // ----- headers only extend the path, and flags do not matter to it -----

  /** What is on the path stays where it is. */
  ghost predicate PathKept(index: Index, later: Index, genesis: Hash) {
    forall n: nat :: NthBlock(index, genesis, n).Some? ==> NthBlock(later, genesis, n) == NthBlock(index, genesis, n)
  }

  lemma FollowsKept(hashOf: Header -> Hash, index: Index, later: Index, genesis: Hash, blocks: seq<Block>)
    requires FollowsPath(hashOf, index, genesis, blocks) && PathKept(index, later, genesis)
    ensures FollowsPath(hashOf, later, genesis, blocks)
  {
    forall i | 0 <= i < |blocks|
      ensures NthBlock(later, genesis, i + 1) == Some(hashOf(blocks[i].header))
    {
      assert NthBlock(index, genesis, i + 1) == Some(hashOf(blocks[i].header));
    }
  }

  /** A step that changes the headers only, and keeps the path, keeps the ledger backed. */
  lemma BackedKept(c: Consensus, genesis: Hash, start: Utxo, s: State, later: Headers)
    requires Backed(c, genesis, start, s) && PathKept(s.headers.index, later.index, genesis)
    ensures Backed(c, genesis, start, s.(headers := later))
  {
    FollowsKept(c.hashOf, s.headers.index, later.index, genesis, s.registered);
  }

  lemma {:induction false} ArriveExtendsPath(hashOf: Header -> Hash, s: Headers, header: Header, now: int, genesis: Hash, n: nat)
    requires NthBlock(s.index, genesis, n).Some?
    ensures NthBlock(Arrive(hashOf, s, header, now).index, genesis, n) == NthBlock(s.index, genesis, n)
  {
    if n > 0 {
      ArriveExtendsPath(hashOf, s, header, now, genesis, n - 1);
    }
  }

  lemma ArriveKeepsPath(hashOf: Header -> Hash, s: Headers, header: Header, now: int, genesis: Hash)
    ensures PathKept(s.index, Arrive(hashOf, s, header, now).index, genesis)
  {
    forall n: nat | NthBlock(s.index, genesis, n).Some?
      ensures NthBlock(Arrive(hashOf, s, header, now).index, genesis, n) == NthBlock(s.index, genesis, n)
    {
      ArriveExtendsPath(hashOf, s, header, now, genesis, n);
    }
  }

  lemma ArriveKeepsHeaded(c: Consensus, genesis: Hash, s: State, header: Header, now: int)
    requires Headed(c, genesis, s) && AddsWork(header.target)
    ensures Headed(c, genesis, s.(headers := Arrive(c.hashOf, s.headers, header, now)))
  {
    ArriveKeepsReachable(c.hashOf, s.headers, header, now);
    ArriveKeepsPath(c.hashOf, s.headers, header, now, genesis);
    var index, r := s.headers.index, Arrive(c.hashOf, s.headers, header, now).index;
    forall k | k in r
      ensures AddsWork(r[k].header.target)
    {
      if k in index {
        assert r[k].header == index[k].header;
      }
    }
  }

  lemma ArriveKeepsSound(c: Consensus, genesis: Hash, start: Utxo, s: State, header: Header, now: int)
    requires Sound(c, genesis, start, s) && AddsWork(header.target)
    ensures Sound(c, genesis, start, WithHeader(c, s, header, now))
  {
    ArriveKeepsHeaded(c, genesis, s, header, now);
    ArriveKeepsPath(c.hashOf, s.headers, header, now, genesis);
    BackedKept(c, genesis, start, s, Arrive(c.hashOf, s.headers, header, now));
    ArriveKeepsFlags(c.hashOf, s.headers, header, now, s.validatedTip.pow);
  }

  lemma ArriveKeepsFlags(hashOf: Header -> Hash, s: Headers, header: Header, now: int, pow: real)
    requires FlagsBelow(s.index, pow)
    ensures FlagsBelow(Arrive(hashOf, s, header, now).index, pow)
  {
    var r := Arrive(hashOf, s, header, now).index;
    forall k | k in r
      ensures FlagBelow(r[k], pow)
    {
      if k in s.index {
        assert r[k].meta == s.index[k].meta && r[k].pow == s.index[k].pow && FlagBelow(s.index[k], pow);
      }
    }
  }

  /** The two indices differ in flags only. */
  ghost predicate SameButMeta(index: Index, r: Index) {
    r.Keys == index.Keys && forall k :: k in index ==> r[k].(meta := index[k].meta) == index[k]
  }

  lemma {:induction false} MetaKeepsNth(index: Index, r: Index, genesis: Hash, n: nat)
    requires SameButMeta(index, r)
    ensures NthBlock(r, genesis, n) == NthBlock(index, genesis, n)
  {
    if n > 0 {
      MetaKeepsNth(index, r, genesis, n - 1);
    }
  }

  lemma MetaKeepsPath(index: Index, r: Index, genesis: Hash)
    requires SameButMeta(index, r)
    ensures PathKept(index, r, genesis)
  {
    forall n: nat | NthBlock(index, genesis, n).Some?
      ensures NthBlock(r, genesis, n) == NthBlock(index, genesis, n)
    {
      MetaKeepsNth(index, r, genesis, n);
    }
  }

  lemma MetaKeepsForest(hashOf: Header -> Hash, index: Index, r: Index)
    requires Forest(hashOf, index) && SameButMeta(index, r)
    ensures Forest(hashOf, r)
  {
    forall x | x in r
      ensures Consistent(hashOf, r, x)
    {
      assert Consistent(hashOf, index, x);
      forall i | 0 <= i < |r[x].children|
        ensures ChildStored(r, x, i)
      {
        assert ChildStored(index, x, i);
      }
    }
  }

  lemma MetaKeepsHeaded(c: Consensus, genesis: Hash, s: State, r: Index)
    requires Headed(c, genesis, s) && SameButMeta(s.headers.index, r)
    ensures Headed(c, genesis, s.(headers := s.headers.(index := r)))
  {
    var index := s.headers.index;
    MetaKeepsForest(c.hashOf, index, r);
    MetaKeepsPath(index, r, genesis);
    forall x | x in r
      ensures Below(r[x], s.headers.tip.pow) && AddsWork(r[x].header.target)
    {
      assert Below(index[x], s.headers.tip.pow) && r[x].header == index[x].header;
    }
  }

  lemma MetaKeepsSound(c: Consensus, genesis: Hash, start: Utxo, s: State, k: Hash, meta: Meta)
    requires Sound(c, genesis, start, s)
    requires k in s.headers.index && (meta.registered ==> s.headers.index[k].meta.registered)
    ensures Sound(c, genesis, start, WithMeta(s, k, meta))
  {
    var r := SetMeta(s.headers.index, k, meta);
    MetaKeepsHeaded(c, genesis, s, r);
    MetaKeepsPath(s.headers.index, r, genesis);
    BackedKept(c, genesis, start, s, WithMeta(s, k, meta).headers);
    forall x | x in r
      ensures FlagBelow(r[x], s.validatedTip.pow)
    {
      assert FlagBelow(s.headers.index[x], s.validatedTip.pow);
    }
  }

  // ----- validation extends the ledger by the next block of the path -----

  lemma NextOnPath(c: Consensus, genesis: Hash, s: State, k: Hash)
    requires Headed(c, genesis, s) && NthBlock(s.headers.index, genesis, s.validatedTip.height + 1) == Some(k)
    ensures k in s.headers.index && s.headers.index[k].hash == k
    ensures s.headers.index[k].height == s.validatedTip.height + 1 && s.headers.index[k].pow > s.validatedTip.pow
  {
    var index, tip := s.headers.index, s.validatedTip.hash;
    NthStored(c.hashOf, index, genesis, s.validatedTip.height + 1);
    assert Consistent(c.hashOf, index, tip) && Consistent(c.hashOf, index, k) && ChildStored(index, tip, 0);
    assert AddsWork(index[k].header.target);
  }

  /** The state with one more block registered: its flags changed, the tip moved to it. */
  function Extended(c: Consensus, s: State, k: Hash, block: Block, meta: Meta, tip: Entry): (r: State) {
    WithMeta(s, k, meta)
      .(utxo := Registered(c.rules, s.utxo, block.txs, |block.txs|), validatedTip := tip, registered := s.registered + [block])
  }

  lemma ExtendKeepsHeaded(c: Consensus, genesis: Hash, s: State, k: Hash, block: Block, meta: Meta, tip: Entry)
    requires Headed(c, genesis, s) && NthBlock(s.headers.index, genesis, s.validatedTip.height + 1) == Some(k)
    requires k in s.headers.index && tip.(meta := s.headers.index[k].meta) == s.headers.index[k]
    ensures Headed(c, genesis, Extended(c, s, k, block, meta, tip)) && tip.height == s.validatedTip.height + 1
    ensures PathKept(s.headers.index, SetMeta(s.headers.index, k, meta), genesis)
  {
    NextOnPath(c, genesis, s, k);
    MetaKeepsHeaded(c, genesis, s, SetMeta(s.headers.index, k, meta));
    MetaKeepsPath(s.headers.index, SetMeta(s.headers.index, k, meta), genesis);
  }

  lemma ExtendKeepsFlags(c: Consensus, genesis: Hash, s: State, k: Hash, meta: Meta)
    requires Headed(c, genesis, s) && NthBlock(s.headers.index, genesis, s.validatedTip.height + 1) == Some(k)
    requires k in s.headers.index && FlagsBelow(s.headers.index, s.validatedTip.pow)
    ensures FlagsBelow(SetMeta(s.headers.index, k, meta), s.headers.index[k].pow)
  {
    var index, r := s.headers.index, SetMeta(s.headers.index, k, meta);
    NextOnPath(c, genesis, s, k);
    forall x | x in r
      ensures FlagBelow(r[x], index[k].pow)
    {
      assert FlagBelow(index[x], s.validatedTip.pow);
    }
  }

  /** The accepted block goes on the ledger: next on the path, and paying at most its subsidy. */
  lemma AcceptKeepsBacked(c: Consensus, genesis: Hash, start: Utxo, s: State, later: Index, block: Block, h: nat)
    requires FollowsPath(c.hashOf, s.headers.index, genesis, s.registered) && PathKept(s.headers.index, later, genesis)
    requires s.utxo == Replay(c.rules, start, s.registered) && Total(s.utxo) <= SubsidySum(|s.registered|)
    requires NthBlock(s.headers.index, genesis, |s.registered| + 1) == Some(c.hashOf(block.header))
    requires NoNegative(s.utxo) && h == |s.registered| + 1
    requires AllTxValid(c.rules, s.utxo, block.txs, h) && Clean(c.rules, s.utxo, block.txs)
    ensures var u, blocks := Registered(c.rules, s.utxo, block.txs, |block.txs|), s.registered + [block];
            && FollowsPath(c.hashOf, later, genesis, blocks) && u == Replay(c.rules, start, blocks)
            && NoNegative(u) && Total(u) <= SubsidySum(h)
  {
    ReplaySnoc(c.rules, start, s.registered, block);
    BlockPaid(c.rules, s.utxo, block.txs, h);
    FollowsKept(c.hashOf, s.headers.index, later, genesis, s.registered);
    assert NthBlock(later, genesis, h) == Some(c.hashOf(block.header));
  }

  lemma ReplaySnoc(r: Rules, u: Utxo, blocks: seq<Block>, block: Block)
    ensures Replay(r, u, blocks + [block]) == Registered(r, Replay(r, u, blocks), block.txs, |block.txs|)
  {
    var more := blocks + [block];
    assert more[..|more| - 1] == blocks && more[|more| - 1] == block;
  }

  /** An accepted clean block at height h keeps the store within the subsidies of heights 0 to h. */
  lemma BlockPaid(r: Rules, u: Utxo, txs: seq<Tx>, h: nat)
    requires h > 0 && NoNegative(u) && Total(u) <= SubsidySum(h - 1)
    requires AllTxValid(r, u, txs, h) && Clean(r, u, txs)
    ensures NoNegative(Registered(r, u, txs, |txs|)) && Total(Registered(r, u, txs, |txs|)) <= SubsidySum(h)
  {
    SubsidySumStep(h - 1);
    BlockConserves(r, u, txs, h);
  }

  lemma ExtendKeepsSound(c: Consensus, genesis: Hash, start: Utxo, s: State, k: Hash, block: Block, meta: Meta, tip: Entry)
    requires Sound(c, genesis, start, s) && NthBlock(s.headers.index, genesis, s.validatedTip.height + 1) == Some(k)
    requires k in s.headers.index && tip.(meta := s.headers.index[k].meta) == s.headers.index[k] && c.hashOf(block.header) == k
    requires AllTxValid(c.rules, s.utxo, block.txs, s.headers.index[k].height) && Clean(c.rules, s.utxo, block.txs)
    ensures Sound(c, genesis, start, Extended(c, s, k, block, meta, tip))
  {
    NextOnPath(c, genesis, s, k);
    ExtendKeepsHeaded(c, genesis, s, k, block, meta, tip);
    ExtendKeepsFlags(c, genesis, s, k, meta);
    AcceptKeepsBacked(c, genesis, start, s, SetMeta(s.headers.index, k, meta), block, s.headers.index[k].height);
  }

  lemma AcceptExtends(c: Consensus, genesis: Hash, s: State, k: Hash)
    requires Headed(c, genesis, s) && NthBlock(s.headers.index, genesis, s.validatedTip.height + 1) == Some(k)
    requires k in s.files && k in s.headers.index
    ensures var meta := s.headers.index[k].meta.(validated := true, registered := true);
            Accept(c, s, k) == Extended(c, s, k, s.files[k], meta, s.headers.index[k].(meta := meta))
  {
    NextOnPath(c, genesis, s, k);
  }

  lemma AcceptKeepsSound(c: Consensus, genesis: Hash, start: Utxo, s: State, k: Hash, now: int)
    requires Sound(c, genesis, start, s) && NthBlock(s.headers.index, genesis, s.validatedTip.height + 1) == Some(k)
    requires k in s.files && k in s.headers.index && c.hashOf(s.files[k].header) == k
    requires BlockValid(c, s.utxo, s.files[k], s.headers.index[k].height, k, now)
    requires Clean(c.rules, s.utxo, s.files[k].txs)
    ensures Sound(c, genesis, start, Accept(c, s, k))
    ensures Accept(c, s, k).validatedTip.height == s.validatedTip.height + 1
  {
    var meta := s.headers.index[k].meta.(validated := true, registered := true);
    NextOnPath(c, genesis, s, k);
    AcceptExtends(c, genesis, s, k);
    ExtendKeepsSound(c, genesis, start, s, k, s.files[k], meta, s.headers.index[k].(meta := meta));
  }

  lemma {:induction false} ValidateKeepsSound(c: Consensus, genesis: Hash, start: Utxo, s: State, k: Hash, clocks: seq<int>)
    requires Sound(c, genesis, start, s) && NthBlock(s.headers.index, genesis, s.validatedTip.height + 1) == Some(k)
    requires CleanFrom(c, s, k, clocks)
    ensures Sound(c, genesis, start, ValidateFrom(c, s, k, clocks))
    decreases |clocks|
  {
    if clocks != [] {
      var v := ValidateBlock(c, s, k, clocks[0]);
      NextOnPath(c, genesis, s, k);
      var e := s.headers.index[k];
      if v.code == -10 {
        MetaKeepsSound(c, genesis, start, s, k, e.meta.(available := false, validated := false));
      } else if v.code > 0 {
        AcceptKeepsSound(c, genesis, start, s, k, clocks[0]);
        if v.code == 2 {
          NextCursor(c, genesis, s, k);
          ValidateKeepsSound(c, genesis, start, v.state, v.next, clocks[1..]);
        }
      }
    }
  }

  /** After the block is accepted, its first child is the next block of the path. */
  lemma NextCursor(c: Consensus, genesis: Hash, s: State, k: Hash)
    requires k in s.headers.index && k in s.files && s.headers.index[k].children != []
    requires NthBlock(s.headers.index, genesis, s.validatedTip.height + 1) == Some(k)
    ensures NthBlock(Accept(c, s, k).headers.index, genesis, s.validatedTip.height + 2) == Some(s.headers.index[k].children[0])
  {
    MetaKeepsNth(s.headers.index, Accept(c, s, k).headers.index, genesis, s.validatedTip.height + 2);
  }

  // ----- every run -----

  /** A path block that is not flagged and is valid on arrival extends the ledger as validation would. */
  lemma PersistKeepsSound(c: Consensus, genesis: Hash, start: Utxo, s: State, k: Hash, block: Block, now: int)
    requires Sound(c, genesis, start, s) && k in s.headers.index && c.hashOf(block.header) == k
    requires BlockValid(c, s.utxo, block, s.headers.index[k].height, s.headers.index[k].hash, now) && !s.headers.index[k].meta.registered ==>
               Clean(c.rules, s.utxo, block.txs) && NthBlock(s.headers.index, genesis, s.validatedTip.height + 1) == Some(k)
    ensures Sound(c, genesis, start, Persist(c, s, k, block, now))
  {
    var e := s.headers.index[k];
    if !BlockValid(c, s.utxo, block, e.height, e.hash, now) {
      MetaKeepsSound(c, genesis, start, s, k, e.meta.(validated := false));
    } else if e.meta.registered {
      assert FlagBelow(e, s.validatedTip.pow);
      MetaKeepsSound(c, genesis, start, s, k, e.meta.(validated := true));
    } else {
      var valid := e.(meta := e.meta.(validated := true));
      NextOnPath(c, genesis, s, k);
      NthStored(c.hashOf, s.headers.index, genesis, s.validatedTip.height + 1);
      ExtendKeepsSound(c, genesis, start, s, k, block, valid.meta.(registered := true), valid);
    }
  }

  lemma FileKeepsSound(c: Consensus, genesis: Hash, start: Utxo, s: State, k: Hash, block: Block)
    requires Sound(c, genesis, start, s) && k in s.headers.index
    ensures Sound(c, genesis, start, WithFile(s, k, block))
  {
    MetaKeepsSound(c, genesis, start, s, k, s.headers.index[k].meta.(available := true));
  }

  lemma BlockArrivesKeepsSound(c: Consensus, genesis: Hash, start: Utxo, s: State, event: Event)
    requires event.BlockArrives? && Sound(c, genesis, start, s) && CleanStep(c, s, event) && InOrderStep(c, genesis, s, event)
    ensures Sound(c, genesis, start, Step(c, s, event))
  {
    var BlockArrives(block, now, persistent, saved) := event;
    var k, s1 := c.hashOf(block.header), WithHeader(c, s, block.header, now);
    ArriveKeepsSound(c, genesis, start, s, block.header, now);
    if BlockLegal(c, block, now) && k in s1.headers.index {
      var s2 := if persistent then Persist(c, s1, k, block, now) else s1;
      if persistent {
        PersistKeepsSound(c, genesis, start, s1, k, block, now);
      }
      FileKeepsSound(c, genesis, start, s2, k, block);
    }
  }

  lemma StepKeepsSound(c: Consensus, genesis: Hash, start: Utxo, s: State, event: Event)
    requires Sound(c, genesis, start, s) && CleanStep(c, s, event) && InOrderStep(c, genesis, s, event)
    ensures Sound(c, genesis, start, Step(c, s, event))
  {
    match event
    case HeaderArrives(header, now) => ArriveKeepsSound(c, genesis, start, s, header, now);
    case BlockArrives(_, _, _, _) => BlockArrivesKeepsSound(c, genesis, start, s, event);
    case Validates(clocks) =>
      if StartOf(s).Some? {
        ValidateKeepsSound(c, genesis, start, s, StartOf(s).value, clocks);
      }
    case FilesChange(files) =>
  }

  lemma {:induction false} RunKeepsSound(c: Consensus, genesis: Hash, start: Utxo, s: State, events: seq<Event>)
    requires Sound(c, genesis, start, s) && CleanRun(c, s, events) && InOrder(c, genesis, s, events)
    ensures Sound(c, genesis, start, Run(c, s, events))
    decreases |events|
  {
    if events != [] {
      StepKeepsSound(c, genesis, start, s, events[0]);
      RunKeepsSound(c, genesis, start, Step(c, s, events[0]), events[1..]);
    }
  }

  // ----- exactly when the store stays the replay of the path -----

  /** Block i of those registered is stored, and is not the path block of its place. */
  ghost predicate Astray(c: Consensus, genesis: Hash, s: State, i: nat) {
    && i < |s.registered| && c.hashOf(s.registered[i].header) in s.headers.index
    && NthBlock(s.headers.index, genesis, i + 1) != Some(c.hashOf(s.registered[i].header))
  }

  /** A header that is already stored never gets onto the path by a later arrival. */
  lemma {:induction false} ArriveAddsNoOld(hashOf: Header -> Hash, s: Headers, header: Header, now: int, genesis: Hash, n: nat, k: Hash)
    requires k in s.index && NthBlock(Arrive(hashOf, s, header, now).index, genesis, n) == Some(k)
    ensures NthBlock(s.index, genesis, n) == Some(k)
  {
    if n > 0 {
      var later := Arrive(hashOf, s, header, now).index;
      var p := NthBlock(later, genesis, n - 1).value;
      if p in s.index {
        ArriveAddsNoOld(hashOf, s, header, now, genesis, n - 1, p);
      }
    }
  }

  lemma HeaderKeepsAstray(c: Consensus, genesis: Hash, s: State, header: Header, now: int, i: nat)
    requires Astray(c, genesis, s, i)
    ensures Astray(c, genesis, WithHeader(c, s, header, now), i)
  {
    var k := c.hashOf(s.registered[i].header);
    if NthBlock(Arrive(c.hashOf, s.headers, header, now).index, genesis, i + 1) == Some(k) {
      ArriveAddsNoOld(c.hashOf, s.headers, header, now, genesis, i + 1, k);
    }
  }

  /** Flags and further registrations do not help either. */
  lemma MetaKeepsAstray(c: Consensus, genesis: Hash, s: State, r: State, i: nat)
    requires Astray(c, genesis, s, i) && SameButMeta(s.headers.index, r.headers.index) && s.registered <= r.registered
    ensures Astray(c, genesis, r, i)
  {
    MetaKeepsNth(s.headers.index, r.headers.index, genesis, i + 1);
  }

  lemma SetMetaSame(index: Index, k: Hash, meta: Meta)
    ensures SameButMeta(index, SetMeta(index, k, meta))
  {
  }

  lemma ValidateChangesMeta(c: Consensus, s: State, k: Hash, now: int)
    ensures var r := ValidateBlock(c, s, k, now).state;
            SameButMeta(s.headers.index, r.headers.index) && s.registered <= r.registered
  {
    if k in s.headers.index {
      TurnChangesMeta(c, s, k, ValidateBlock(c, s, k, now).state);
    }
  }

  /** A validation step keeps the state, drops a failed file, or accepts the block. */
  lemma TurnChangesMeta(c: Consensus, s: State, k: Hash, r: State)
    requires k in s.headers.index
    requires r == s || r == WithMeta(s, k, s.headers.index[k].meta.(available := false, validated := false))
             || (k in s.files && r == Accept(c, s, k))
    ensures SameButMeta(s.headers.index, r.headers.index) && s.registered <= r.registered
  {
    SetMetaSame(s.headers.index, k, s.headers.index[k].meta.(validated := true, registered := true));
    SetMetaSame(s.headers.index, k, s.headers.index[k].meta.(available := false, validated := false));
  }

  lemma {:induction false} ValidateKeepsAstray(c: Consensus, genesis: Hash, s: State, k: Hash, clocks: seq<int>, i: nat)
    requires Astray(c, genesis, s, i)
    ensures Astray(c, genesis, ValidateFrom(c, s, k, clocks), i)
    decreases |clocks|
  {
    if clocks != [] {
      var v := ValidateBlock(c, s, k, clocks[0]);
      ValidateChangesMeta(c, s, k, clocks[0]);
      MetaKeepsAstray(c, genesis, s, v.state, i);
      if v.code == 2 {
        ValidateKeepsAstray(c, genesis, v.state, v.next, clocks[1..], i);
      }
    }
  }

  lemma PersistChangesMeta(c: Consensus, s: State, k: Hash, block: Block, now: int)
    requires k in s.headers.index
    ensures SameButMeta(s.headers.index, Persist(c, s, k, block, now).headers.index)
    ensures s.registered <= Persist(c, s, k, block, now).registered
  {
    var e := s.headers.index[k];
    var valid := BlockValid(c, s.utxo, block, e.height, e.hash, now);
    SetMetaSame(s.headers.index, k, e.meta.(validated := valid, registered := e.meta.registered || valid));
  }

  lemma FileChangesMeta(s: State, k: Hash, block: Block)
    requires k in s.headers.index
    ensures SameButMeta(s.headers.index, WithFile(s, k, block).headers.index)
  {
    SetMetaSame(s.headers.index, k, s.headers.index[k].meta.(available := true));
  }

  /** Beyond the arrival of its header a block changes flags and adds to what is registered. */
  lemma BlockChangesMeta(c: Consensus, s: State, block: Block, now: int, persistent: bool, saved: bool)
    requires BlockLegal(c, block, now) && c.hashOf(block.header) in WithHeader(c, s, block.header, now).headers.index
    ensures var s1, r := WithHeader(c, s, block.header, now), AfterBlock(c, s, block, now, persistent, saved);
            && SameButMeta(s1.headers.index, r.headers.index) && s.registered <= r.registered
            && (Registers(c, s, block, now, persistent) ==> r.registered == s.registered + [block])
  {
    var k, s1 := c.hashOf(block.header), WithHeader(c, s, block.header, now);
    var s2 := if persistent then Persist(c, s1, k, block, now) else s1;
    if persistent {
      PersistChangesMeta(c, s1, k, block, now);
    }
    FileChangesMeta(s2, k, block);
  }

  lemma StepKeepsAstray(c: Consensus, genesis: Hash, s: State, event: Event, i: nat)
    requires Astray(c, genesis, s, i)
    ensures Astray(c, genesis, Step(c, s, event), i)
  {
    match event
    case HeaderArrives(header, now) => HeaderKeepsAstray(c, genesis, s, header, now, i);
    case BlockArrives(block, now, persistent, saved) =>
      if Step(c, s, event) != s {
        HeaderKeepsAstray(c, genesis, s, block.header, now, i);
        BlockChangesMeta(c, s, block, now, persistent, saved);
        MetaKeepsAstray(c, genesis, WithHeader(c, s, block.header, now), Step(c, s, event), i);
      }
    case Validates(clocks) =>
      if StartOf(s).Some? {
        ValidateKeepsAstray(c, genesis, s, StartOf(s).value, clocks, i);
      }
    case FilesChange(files) =>
  }

  lemma {:induction false} RunKeepsAstray(c: Consensus, genesis: Hash, s: State, events: seq<Event>, i: nat)
    requires Astray(c, genesis, s, i)
    ensures Astray(c, genesis, Run(c, s, events), i)
    decreases |events|
  {
    if events != [] {
      StepKeepsAstray(c, genesis, s, events[0], i);
      RunKeepsAstray(c, genesis, Step(c, s, events[0]), events[1..], i);
    }
  }

  lemma OutOfOrderIsAstray(c: Consensus, genesis: Hash, s: State, event: Event)
    requires !InOrderStep(c, genesis, s, event)
    ensures Astray(c, genesis, Step(c, s, event), |s.registered|)
  {
    var BlockArrives(block, now, persistent, saved) := event;
    var s1 := WithHeader(c, s, block.header, now);
    BlockChangesMeta(c, s, block, now, persistent, saved);
    MetaKeepsNth(s1.headers.index, Step(c, s, event).headers.index, genesis, |s.registered| + 1);
  }

  /**
   * With persistent arrivals any valid block is registered, on the path or not. The store stays the replay of the
   * path over a clean run exactly when each block registered on arrival is the next path block.
   */
  lemma {:induction false} SoundExactlyInOrder(c: Consensus, genesis: Hash, start: Utxo, s: State, events: seq<Event>)
    requires Sound(c, genesis, start, s) && CleanRun(c, s, events)
    ensures Sound(c, genesis, start, Run(c, s, events)) <==> InOrder(c, genesis, s, events)
    ensures var r := Run(c, s, events);
            FollowsPath(c.hashOf, r.headers.index, genesis, r.registered) <==> InOrder(c, genesis, s, events)
    decreases |events|
  {
    if events != [] {
      if InOrderStep(c, genesis, s, events[0]) {
        StepKeepsSound(c, genesis, start, s, events[0]);
        SoundExactlyInOrder(c, genesis, start, Step(c, s, events[0]), events[1..]);
      } else {
        OutOfOrderIsAstray(c, genesis, s, events[0]);
        RunKeepsAstray(c, genesis, Step(c, s, events[0]), events[1..], |s.registered|);
        AstrayLeavesPath(c, genesis, Run(c, s, events), |s.registered|);
      }
    }
  }

  /** Where a header that is new to the index stands after it arrived. */
  lemma ArrivedOnPath(hashOf: Header -> Hash, s: Headers, header: Header, now: int, genesis: Hash, n: nat)
    requires Forest(hashOf, s.index) && RootedAt(s.index, genesis)
    requires TimestampLegal(header, now) && hashOf(header) !in s.index
    ensures NthBlock(Arrive(hashOf, s, header, now).index, genesis, n + 1) == Some(hashOf(header))
       <==> var p := header.prevBlock;
            p in s.index && s.index[p].children == [] && NthBlock(s.index, genesis, n) == Some(p)
  {
    var later, k, p := Arrive(hashOf, s, header, now).index, hashOf(header), header.prevBlock;
    if NthBlock(later, genesis, n + 1) == Some(k) {
      ArriveKeepsForest(hashOf, s, header, now);
      NthStored(hashOf, later, genesis, n);
      NthStored(hashOf, later, genesis, n + 1);
      var q := NthBlock(later, genesis, n).value;
      assert Consistent(hashOf, later, q) && ChildStored(later, q, 0);
      ArriveAddsNoOld(hashOf, s, header, now, genesis, n, q);
    } else if p in s.index && NthBlock(s.index, genesis, n) == Some(p) {
      ArriveExtendsPath(hashOf, s, header, now, genesis, n);
    }
  }

  lemma ArrivedEntry(hashOf: Header -> Hash, s: Headers, header: Header, now: int)
    requires TimestampLegal(header, now) && hashOf(header) !in s.index
    ensures var index, k, p := Arrive(hashOf, s, header, now).index, hashOf(header), header.prevBlock;
            && k in index && index[k].hash == k && !index[k].meta.registered
            && index[k].height == if p in s.index then s.index[p].height + 1 else 0
  {
  }

  /** A persistent arrival of a legal block whose header is new is registered exactly when it is valid one above its parent. */
  lemma NewArrivalRegisters(c: Consensus, s: State, block: Block, now: int)
    requires BlockLegal(c, block, now) && c.hashOf(block.header) !in s.headers.index
    ensures var index, k, p := s.headers.index, c.hashOf(block.header), block.header.prevBlock;
            Registers(c, s, block, now, true)
            <==> BlockValid(c, s.utxo, block, if p in index then index[p].height + 1 else 0, k, now)
  {
    ArrivedEntry(c.hashOf, s.headers, block.header, now);
  }

  /** It is then registered in path order exactly when its parent ends the path and is the last block registered there. */
  lemma NewArrivalInOrder(c: Consensus, genesis: Hash, s: State, block: Block, now: int, saved: bool)
    requires Forest(c.hashOf, s.headers.index) && RootedAt(s.headers.index, genesis)
    requires c.hashOf(block.header) !in s.headers.index && Registers(c, s, block, now, true)
    ensures var index, p := s.headers.index, block.header.prevBlock;
            InOrderStep(c, genesis, s, BlockArrives(block, now, true, saved))
            <==> p in index && index[p].children == [] && NthBlock(index, genesis, |s.registered|) == Some(p)
  {
    ArrivedOnPath(c.hashOf, s.headers, block.header, now, genesis, |s.registered|);
  }

  /** A valid new block beside another child of its parent is registered off the path, and the validated tip stays. */
  lemma SiblingIsAstray(c: Consensus, genesis: Hash, s: State, block: Block, now: int, saved: bool)
    requires Forest(c.hashOf, s.headers.index) && RootedAt(s.headers.index, genesis)
    requires c.hashOf(block.header) !in s.headers.index
    requires block.header.prevBlock in s.headers.index && s.headers.index[block.header.prevBlock].children != []
    requires BlockValid(c, s.utxo, block, s.headers.index[block.header.prevBlock].height + 1, c.hashOf(block.header), now)
    ensures Registers(c, s, block, now, true)
    ensures Astray(c, genesis, Step(c, s, BlockArrives(block, now, true, saved)), |s.registered|)
    ensures Step(c, s, BlockArrives(block, now, true, saved)).validatedTip == s.validatedTip
  {
    SiblingIsAside(c, s, block.header, now);
    NewArrivalRegisters(c, s, block, now);
    NewArrivalInOrder(c, genesis, s, block, now, saved);
    OutOfOrderIsAstray(c, genesis, s, BlockArrives(block, now, true, saved));
  }

  lemma SiblingIsAside(c: Consensus, s: State, header: Header, now: int)
    requires Forest(c.hashOf, s.headers.index) && c.hashOf(header) !in s.headers.index && TimestampLegal(header, now)
    requires header.prevBlock in s.headers.index && s.headers.index[header.prevBlock].children != []
    ensures var index := WithHeader(c, s, header, now).headers.index;
            c.hashOf(header) in index && index[c.hashOf(header)].status == Sidechain
  {
    assert Consistent(c.hashOf, s.headers.index, header.prevBlock);
  }

  lemma AstrayLeavesPath(c: Consensus, genesis: Hash, s: State, i: nat)
    requires Astray(c, genesis, s, i)
    ensures !FollowsPath(c.hashOf, s.headers.index, genesis, s.registered)
  {
    assert NthBlock(s.headers.index, genesis, i + 1) != Some(c.hashOf(s.registered[i].header));
  }

  // ----- the start of a run -----

  function Unregistered(meta: Meta): (r: Meta) {
    meta.(validated := false, registered := false)
  }

  /** reset_utxo: the flags of every entry are cleared, the validated tip goes back to genesis, the store is emptied. */
  function ResetUtxo(s: State, genesis: Hash): (r: State)
    requires genesis in s.headers.index
  {
    var index := s.headers.index;
    State(s.headers.(index := map k | k in index :: index[k].(meta := Unregistered(index[k].meta))),
          index[genesis], map[], s.files, [])
  }

  /** A node whose validated tip is genesis and whose store holds at most the first subsidy. */
  ghost predicate AtGenesis(c: Consensus, genesis: Hash, s: State) {
    && Headed(c, genesis, s) && s.validatedTip.height == 0 && s.registered == []
    && NoNegative(s.utxo) && Total(s.utxo) <= Subsidy(0) && FlagsBelow(s.headers.index, s.validatedTip.pow)
  }

  /** A reset brings every reachable index back to the start of a run. */
  lemma ResetStartsRun(c: Consensus, genesis: Hash, s: State)
    requires Reachable(c.hashOf, s.headers) && RootedAt(s.headers.index, genesis) && AllWork(s.headers.index)
    ensures AtGenesis(c, genesis, ResetUtxo(s, genesis))
  {
    var at := s.(validatedTip := s.headers.index[genesis]);
    assert Consistent(c.hashOf, s.headers.index, genesis);
    assert NthBlock(s.headers.index, genesis, 0) == Some(genesis);
    MetaKeepsHeaded(c, genesis, at, ResetUtxo(s, genesis).headers.index);
    SubsidySumStep(0);
  }

  lemma StartIsSound(c: Consensus, genesis: Hash, s: State)
    requires AtGenesis(c, genesis, s)
    ensures Sound(c, genesis, s.utxo, s)
  {
    SubsidySumStep(0);
  }

  function BlockHashes(hashOf: Header -> Hash, blocks: seq<Block>): (r: seq<Hash>)
    ensures |r| == |blocks| && forall i :: 0 <= i < |blocks| ==> r[i] == hashOf(blocks[i].header)
  {
    if blocks == [] then [] else BlockHashes(hashOf, blocks[..|blocks| - 1]) + [hashOf(blocks[|blocks| - 1].header)]
  }

  /** Different places on the path are different heights, so different blocks. */
  lemma PlacesDiffer(hashOf: Header -> Hash, index: Index, genesis: Hash, m: nat, n: nat)
    requires Forest(hashOf, index) && RootedAt(index, genesis) && m < n
    requires NthBlock(index, genesis, m).Some? && NthBlock(index, genesis, n).Some?
    ensures NthBlock(index, genesis, m) != NthBlock(index, genesis, n)
  {
    NthStored(hashOf, index, genesis, m);
    NthStored(hashOf, index, genesis, n);
  }

  lemma RegisteredOnce(hashOf: Header -> Hash, index: Index, genesis: Hash, blocks: seq<Block>)
    requires Forest(hashOf, index) && RootedAt(index, genesis) && FollowsPath(hashOf, index, genesis, blocks)
    ensures NoRepeats(BlockHashes(hashOf, blocks))
  {
    forall i, j | 0 <= i < j < |blocks|
      ensures hashOf(blocks[i].header) != hashOf(blocks[j].header)
    {
      assert NthBlock(index, genesis, i + 1) == Some(hashOf(blocks[i].header));
      assert NthBlock(index, genesis, j + 1) == Some(hashOf(blocks[j].header));
      PlacesDiffer(hashOf, index, genesis, i + 1, j + 1);
    }
  }

  /**
   * The supply cap: in every clean run that registers in path order the store is the replay of the genesis path up to
   * the validated tip, each block registered once, and is worth no more than the subsidies up to that height, hence
   * never more than the fixed cap.
   */
  lemma SupplyCapOverRuns(c: Consensus, genesis: Hash, s: State, events: seq<Event>)
    requires AtGenesis(c, genesis, s) && CleanRun(c, s, events) && InOrder(c, genesis, s, events)
    ensures var r := Run(c, s, events);
            && r.utxo == Replay(c.rules, s.utxo, r.registered)
            && FollowsPath(c.hashOf, r.headers.index, genesis, r.registered)
            && |r.registered| == r.validatedTip.height
            && NthBlock(r.headers.index, genesis, r.validatedTip.height) == Some(r.validatedTip.hash)
            && NoRepeats(BlockHashes(c.hashOf, r.registered))
            && Total(r.utxo) <= SubsidySum(r.validatedTip.height) <= SUPPLY_CAP
  {
    StartIsSound(c, genesis, s);
    RunKeepsSound(c, genesis, s.utxo, s, events);
    var r := Run(c, s, events);
    SubsidyCap(r.validatedTip.height);
    RegisteredOnce(c.hashOf, r.headers.index, genesis, r.registered);
  }
}
