/**
 * The node's runs with the header index in the chained hash table: every read of an entry is a hashmap_get, every
 * change of one goes through the pointer that returned (src/blockchain.c over src/hashmap.c).
 */
module TableNode {
  import opened Bytes
  import opened Codec
  import opened Ledger
  import opened Validation
  import opened IndexTable
  import Buckets
  import HeaderIndex
  import Runs = Chain

  type Lookup = seq<byte> -> Hash

  type Entry = HeaderIndex.Entry

  /** The state of a run, its header index in a table. */
  datatype Node = Node(table: Entries, tip: Entry, validatedTip: Entry, utxo: Utxo, files: map<Hash, Block>, registered: seq<Block>)

  function Find(sha256: Lookup, n: Node, k: Hash): (e: Option<Entry>)
    requires n.table != []
  {
    Buckets.Get(sha256, n.table, k)
  }

  /** The flags of the entry a lookup finds, changed in place. */
  function Marked(sha256: Lookup, t: Entries, k: Buckets.Key, meta: HeaderIndex.Meta): (r: Entries)
    requires t != []
    ensures |r| == |t|
  {
    var e := Buckets.Get(sha256, t, k);
    if e.None? then t else Buckets.Stored(sha256, t, k, e.value.(meta := meta))
  }

  // ----- the steps -----

  function OnHeader(sha256: Lookup, c: Consensus, n: Node, header: Header, now: int): (r: Node)
    requires n.table != []
    ensures r.table != []
  {
    var k := c.hashOf(header);
    if !HeaderIndex.TimestampLegal(header, now) || Find(sha256, n, k).Some? then n
    else
      var e := EntryFor(sha256, n.table, k, header);
      n.(table := AfterHeader(sha256, c.hashOf, n.table, header),
         tip := if e.status == HeaderIndex.Mainchain && e.pow > n.tip.pow then e else n.tip)
  }

  /** The persistent part of process_incoming_block, on the entry found. */
  function OnPersist(sha256: Lookup, c: Consensus, n: Node, k: Hash, e: Entry, block: Block, now: int): (r: Node)
    requires n.table != []
    ensures r.table != []
  {
    var valid := BlockValid(c, n.utxo, block, e.height, e.hash, now);
    var validated := Marked(sha256, n.table, k, e.meta.(validated := valid));
    if !valid then n.(table := validated)
    else
      var tip := if e.status == HeaderIndex.Mainchain && e.pow > n.validatedTip.pow then e.(meta := e.meta.(validated := true))
                 else n.validatedTip;
      if e.meta.registered then n.(table := validated, validatedTip := tip)
      else n.(table := Marked(sha256, validated, k, e.meta.(validated := true, registered := true)), validatedTip := tip,
              utxo := Registered(c.rules, n.utxo, block.txs, |block.txs|), registered := n.registered + [block])
  }

  function OnFile(sha256: Lookup, n: Node, k: Hash, block: Block): (r: Node)
    requires n.table != []
    ensures r.table != []
  {
    var e := Find(sha256, n, k);
    if e.None? then n
    else n.(table := Marked(sha256, n.table, k, e.value.meta.(available := true)), files := n.files[k := block])
  }

  function OnBlock(sha256: Lookup, c: Consensus, n: Node, block: Block, now: int, persistent: bool, saved: bool): (r: Node)
    requires n.table != []
    ensures r.table != []
  {
    if !BlockLegal(c, block, now) then n
    else
      var k := c.hashOf(block.header);
      var n1 := OnHeader(sha256, c, n, block.header, now);
      var e := Find(sha256, n1, k);
      if e.None? then n1
      else
        var n2 := if persistent then OnPersist(sha256, c, n1, k, e.value, block, now) else n1;
        if saved then OnFile(sha256, n2, k, block) else n2
  }

  /** load_block's checks, on the file of the wanted hash. */
  predicate Loads(c: Consensus, n: Node, k: Hash, now: int)
    requires k in n.files
  {
    c.hashOf(n.files[k].header) == k && BlockLegal(c, n.files[k], now)
  }

  datatype Turn = Turn(code: int, node: Node, next: Hash)

  /** validate_block. */
  function OnValidate(sha256: Lookup, c: Consensus, n: Node, k: Hash, now: int): (r: Turn)
    requires n.table != []
    ensures r.node.table != []
  {
    var found := Find(sha256, n, k);
    if found.None? then Turn(-1, n, k)
    else
      var e := found.value;
      if !e.meta.available || k !in n.files then Turn(-10, n, k)
      else if !Loads(c, n, k, now) then
        Turn(-10, n.(table := Marked(sha256, n.table, k, e.meta.(available := false, validated := false))), k)
      else if !BlockValid(c, n.utxo, n.files[k], e.height, e.hash, now) then Turn(0, n, k)
      else if e.children == [] then Turn(1, OnAccept(sha256, c, n, k, e, n.files[k]), k)
      else Turn(2, OnAccept(sha256, c, n, k, e, n.files[k]), e.children[0])
  }

  function OnAccept(sha256: Lookup, c: Consensus, n: Node, k: Hash, e: Entry, block: Block): (r: Node)
    requires n.table != []
    ensures r.table != []
  {
    var meta := e.meta.(validated := true, registered := true);
    n.(table := Marked(sha256, n.table, k, meta),
       validatedTip := if e.pow > n.validatedTip.pow then e.(meta := meta) else n.validatedTip,
       utxo := Registered(c.rules, n.utxo, block.txs, |block.txs|), registered := n.registered + [block])
  }

  function OnValidateFrom(sha256: Lookup, c: Consensus, n: Node, k: Hash, clocks: seq<int>): (r: Node)
    requires n.table != []
    ensures r.table != []
    decreases |clocks|
  {
    if clocks == [] then n
    else
      var v := OnValidate(sha256, c, n, k, clocks[0]);
      if v.code != 2 then v.node else OnValidateFrom(sha256, c, v.node, v.next, clocks[1..])
  }

  function OnValidates(sha256: Lookup, c: Consensus, n: Node, clocks: seq<int>): (r: Node)
    requires n.table != []
    ensures r.table != []
  {
    var tip := Find(sha256, n, n.validatedTip.hash);
    if tip.None? || tip.value.children == [] then n
    else OnValidateFrom(sha256, c, n, tip.value.children[0], clocks)
  }

  function Step(sha256: Lookup, c: Consensus, n: Node, event: Runs.Event): (r: Node)
    requires n.table != []
    ensures r.table != []
  {
    match event
    case HeaderArrives(header, now) => OnHeader(sha256, c, n, header, now)
    case BlockArrives(block, now, persistent, saved) => OnBlock(sha256, c, n, block, now, persistent, saved)
    case Validates(clocks) => OnValidates(sha256, c, n, clocks)
    case FilesChange(files) => n.(files := files)
  }

  function Run(sha256: Lookup, c: Consensus, n: Node, events: seq<Runs.Event>): (r: Node)
    requires n.table != []
    ensures r.table != []
    decreases |events|
  {
    if events == [] then n else Run(sha256, c, Step(sha256, c, n, events[0]), events[1..])
  }

  // ----- the table holds the index of the run -----

  ghost predicate Holds(sha256: Lookup, t: Entries, index: HeaderIndex.Index) {
    Buckets.WellFormed(sha256, t) && Buckets.Represents(sha256, t, index)
  }

  ghost predicate Refines(sha256: Lookup, n: Node, s: Runs.State) {
    && Holds(sha256, n.table, s.headers.index)
    && n.tip == s.headers.tip && n.validatedTip == s.validatedTip
    && n.utxo == s.utxo && n.files == s.files && n.registered == s.registered
  }

  lemma FindIs(sha256: Lookup, n: Node, index: HeaderIndex.Index, k: Hash)
    requires Holds(sha256, n.table, index)
    ensures Find(sha256, n, k) == if k in index then Some(index[k]) else None
  {
    GetIs(sha256, n.table, index, k);
  }

  lemma MarkedHolds(sha256: Lookup, t: Entries, index: HeaderIndex.Index, k: Hash, meta: HeaderIndex.Meta)
    requires Holds(sha256, t, index)
    ensures Holds(sha256, Marked(sha256, t, k, meta), Runs.SetMeta(index, k, meta))
  {
    GetIs(sha256, t, index, k);
    if k in index {
      Buckets.StoredRepresents(sha256, t, index, k, index[k].(meta := meta));
    }
  }

  lemma HeaderRefines(sha256: Lookup, c: Consensus, n: Node, s: Runs.State, header: Header, now: int)
    requires Refines(sha256, n, s)
    ensures Refines(sha256, OnHeader(sha256, c, n, header, now), Runs.WithHeader(c, s, header, now))
  {
    var k := c.hashOf(header);
    FindIs(sha256, n, s.headers.index, k);
    if HeaderIndex.TimestampLegal(header, now) && k !in s.headers.index {
      EntryForIs(sha256, n.table, s.headers.index, k, header);
      HeaderKeepsTable(sha256, c.hashOf, n.table, s.headers, header, now);
    }
  }

  lemma PersistRefines(sha256: Lookup, c: Consensus, n: Node, s: Runs.State, k: Hash, block: Block, now: int)
    requires Refines(sha256, n, s) && k in s.headers.index
    ensures Refines(sha256, OnPersist(sha256, c, n, k, s.headers.index[k], block, now), Runs.Persist(c, s, k, block, now))
  {
    var index, e := s.headers.index, s.headers.index[k];
    if !BlockValid(c, s.utxo, block, e.height, e.hash, now) {
      FlagsAlone(sha256, n.table, index, k, e.meta, false);
    } else if e.meta.registered {
      FlagsAlone(sha256, n.table, index, k, e.meta, true);
    } else {
      FlagsTwice(sha256, n.table, index, k, e.meta);
    }
  }

  lemma FlagsAlone(sha256: Lookup, t: Entries, index: HeaderIndex.Index, k: Hash, meta: HeaderIndex.Meta, valid: bool)
    requires Holds(sha256, t, index) && (!valid || meta.registered)
    ensures Holds(sha256, Marked(sha256, t, k, meta.(validated := valid)),
                  Runs.SetMeta(index, k, meta.(validated := valid, registered := meta.registered || valid)))
  {
    assert meta.(validated := valid) == meta.(validated := valid, registered := meta.registered || valid);
    MarkedHolds(sha256, t, index, k, meta.(validated := valid));
  }

  /** The validated flag is written before the registered one. */
  lemma FlagsTwice(sha256: Lookup, t: Entries, index: HeaderIndex.Index, k: Hash, meta: HeaderIndex.Meta)
    requires Holds(sha256, t, index)
    ensures var both := meta.(validated := true, registered := true);
            Holds(sha256, Marked(sha256, Marked(sha256, t, k, meta.(validated := true)), k, both), Runs.SetMeta(index, k, both))
  {
    var once, both := meta.(validated := true), meta.(validated := true, registered := true);
    MarkedHolds(sha256, t, index, k, once);
    MarkedHolds(sha256, Marked(sha256, t, k, once), Runs.SetMeta(index, k, once), k, both);
    MarkedTwice(index, k, once, both);
  }

  lemma MarkedTwice(index: HeaderIndex.Index, k: Hash, a: HeaderIndex.Meta, b: HeaderIndex.Meta)
    ensures Runs.SetMeta(Runs.SetMeta(index, k, a), k, b) == Runs.SetMeta(index, k, b)
  {
  }

  lemma FileRefines(sha256: Lookup, n: Node, s: Runs.State, k: Hash, block: Block)
    requires Refines(sha256, n, s) && k in s.headers.index
    ensures Refines(sha256, OnFile(sha256, n, k, block), Runs.WithFile(s, k, block))
  {
    FindIs(sha256, n, s.headers.index, k);
    MarkedHolds(sha256, n.table, s.headers.index, k, s.headers.index[k].meta.(available := true));
  }

  lemma BlockRefines(sha256: Lookup, c: Consensus, n: Node, s: Runs.State, block: Block, now: int, persistent: bool, saved: bool)
    requires Refines(sha256, n, s)
    ensures Refines(sha256, OnBlock(sha256, c, n, block, now, persistent, saved),
                    Runs.AfterBlock(c, s, block, now, persistent, saved))
  {
    var k := c.hashOf(block.header);
    var n1, s1 := OnHeader(sha256, c, n, block.header, now), Runs.WithHeader(c, s, block.header, now);
    HeaderRefines(sha256, c, n, s, block.header, now);
    FindIs(sha256, n1, s1.headers.index, k);
    if k in s1.headers.index {
      PersistRefines(sha256, c, n1, s1, k, block, now);
      var n2 := if persistent then OnPersist(sha256, c, n1, k, s1.headers.index[k], block, now) else n1;
      var s2 := if persistent then Runs.Persist(c, s1, k, block, now) else s1;
      FileRefines(sha256, n2, s2, k, block);
    }
  }

  lemma ValidateRefines(sha256: Lookup, c: Consensus, n: Node, s: Runs.State, k: Hash, now: int)
    requires Refines(sha256, n, s)
    ensures var v, w := OnValidate(sha256, c, n, k, now), Runs.ValidateBlock(c, s, k, now);
            v.code == w.code && v.next == w.next && Refines(sha256, v.node, w.state)
  {
    FindIs(sha256, n, s.headers.index, k);
    if k in s.headers.index && k in s.files {
      ValidateFoundRefines(sha256, c, n, s, k, now, s.headers.index[k], s.files[k]);
    }
  }

  lemma ValidateFoundRefines(sha256: Lookup, c: Consensus, n: Node, s: Runs.State, k: Hash, now: int, e: Entry, block: Block)
    requires Refines(sha256, n, s) && k in s.headers.index && k in s.files
    requires e == s.headers.index[k] && block == s.files[k] && Find(sha256, n, k) == Some(e)
    ensures var v, w := OnValidate(sha256, c, n, k, now), Runs.ValidateBlock(c, s, k, now);
            v.code == w.code && v.next == w.next && Refines(sha256, v.node, w.state)
  {
    if !e.meta.available {
    } else if !Loads(c, n, k, now) {
      MarkedHolds(sha256, n.table, s.headers.index, k, e.meta.(available := false, validated := false));
    } else if BlockValid(c, s.utxo, block, e.height, e.hash, now) {
      AcceptRefines(sha256, c, n, s, k);
    }
  }

  lemma AcceptRefines(sha256: Lookup, c: Consensus, n: Node, s: Runs.State, k: Hash)
    requires Refines(sha256, n, s) && k in s.headers.index && k in s.files
    ensures Refines(sha256, OnAccept(sha256, c, n, k, s.headers.index[k], s.files[k]), Runs.Accept(c, s, k))
  {
    MarkedHolds(sha256, n.table, s.headers.index, k, s.headers.index[k].meta.(validated := true, registered := true));
  }

  lemma {:induction false} ValidateFromRefines(sha256: Lookup, c: Consensus, n: Node, s: Runs.State, k: Hash, clocks: seq<int>)
    requires Refines(sha256, n, s)
    ensures Refines(sha256, OnValidateFrom(sha256, c, n, k, clocks), Runs.ValidateFrom(c, s, k, clocks))
    decreases |clocks|
  {
    if clocks != [] {
      var v, w := OnValidate(sha256, c, n, k, clocks[0]), Runs.ValidateBlock(c, s, k, clocks[0]);
      ValidateRefines(sha256, c, n, s, k, clocks[0]);
      ValidateFromRefines(sha256, c, v.node, w.state, v.next, clocks[1..]);
    }
  }

  lemma ValidatesRefines(sha256: Lookup, c: Consensus, n: Node, s: Runs.State, clocks: seq<int>)
    requires Refines(sha256, n, s)
    ensures Refines(sha256, OnValidates(sha256, c, n, clocks), Runs.ValidateBlocks(c, s, clocks))
  {
    FindIs(sha256, n, s.headers.index, n.validatedTip.hash);
    var k := Runs.StartOf(s);
    if k.Some? {
      ValidateFromRefines(sha256, c, n, s, k.value, clocks);
    }
  }

  /** One step of the node on its table does what the step does to the index it holds. */
  lemma StepRefines(sha256: Lookup, c: Consensus, n: Node, s: Runs.State, event: Runs.Event)
    requires Refines(sha256, n, s)
    ensures Refines(sha256, Step(sha256, c, n, event), Runs.Step(c, s, event))
  {
    match event
    case HeaderArrives(header, now) => HeaderRefines(sha256, c, n, s, header, now);
    case BlockArrives(block, now, persistent, saved) => BlockRefines(sha256, c, n, s, block, now, persistent, saved);
    case Validates(clocks) => ValidatesRefines(sha256, c, n, s, clocks);
    case FilesChange(_) =>
  }

  /**
   * Over every run the node on its hash table has the tips, the store, the files and the decisions of the run on the
   * index, and its table holds that index.
   */
  lemma {:induction false} RunRefines(sha256: Lookup, c: Consensus, n: Node, s: Runs.State, events: seq<Runs.Event>)
    requires Refines(sha256, n, s)
    ensures Refines(sha256, Run(sha256, c, n, events), Runs.Run(c, s, events))
    decreases |events|
  {
    if events != [] {
      StepRefines(sha256, c, n, s, events[0]);
      RunRefines(sha256, c, Step(sha256, c, n, events[0]), Runs.Step(c, s, events[0]), events[1..]);
    }
  }

  // ----- resetting -----

  /** reset_validation: the flags of every key listed, one lookup and one write after the other. */
  function ResetKeys(sha256: Lookup, t: Entries, keys: seq<Buckets.Key>): (r: Entries)
    requires t != []
    ensures r != []
    decreases |keys|
  {
    if keys == [] then t
    else
      var e := Buckets.Get(sha256, t, keys[0]);
      ResetKeys(sha256, if e.None? then t else Marked(sha256, t, keys[0], Runs.Unregistered(e.value.meta)), keys[1..])
  }

  /** reset_utxo, over the keys hashmap_getkeys lists. */
  function OnReset(sha256: Lookup, n: Node, genesis: Hash): (r: Node)
    requires n.table != []
  {
    var at := Find(sha256, n, genesis);
    if at.None? then n
    else Node(ResetKeys(sha256, n.table, Buckets.Keys(n.table)), n.tip, at.value, map[], n.files, [])
  }

  function ResetAmong(index: HeaderIndex.Index, keys: seq<Buckets.Key>): (r: HeaderIndex.Index) {
    map k | k in index :: if k in keys then index[k].(meta := Runs.Unregistered(index[k].meta)) else index[k]
  }

  lemma {:induction false} ResetKeysHolds(sha256: Lookup, t: Entries, index: HeaderIndex.Index, keys: seq<Buckets.Key>)
    requires Holds(sha256, t, index) && forall k :: k in keys ==> k in index
    ensures Holds(sha256, ResetKeys(sha256, t, keys), ResetAmong(index, keys))
    decreases |keys|
  {
    if keys == [] {
      assert ResetAmong(index, []) == index;
    } else {
      assert keys[0] in index;
      var k: Hash := keys[0];
      var meta := Runs.Unregistered(index[k].meta);
      GetIs(sha256, t, index, k);
      MarkedHolds(sha256, t, index, k, meta);
      ResetKeysHolds(sha256, Marked(sha256, t, k, meta), Runs.SetMeta(index, k, meta), keys[1..]);
      ResetAmongStep(index, k, keys[1..]);
      assert keys == [k] + keys[1..];
    }
  }

  lemma ResetAmongStep(index: HeaderIndex.Index, k: Hash, keys: seq<Buckets.Key>)
    requires k in index
    ensures ResetAmong(Runs.SetMeta(index, k, Runs.Unregistered(index[k].meta)), keys) == ResetAmong(index, [k] + keys)
  {
    forall q | q in index
      ensures ResetAmong(Runs.SetMeta(index, k, Runs.Unregistered(index[k].meta)), keys)[q] == ResetAmong(index, [k] + keys)[q]
    {
      assert q in [k] + keys <==> q == k || q in keys;
    }
  }

  /** A reset over the listed keys of the table clears the flags of every entry of the index. */
  lemma ResetRefines(sha256: Lookup, n: Node, s: Runs.State, genesis: Hash)
    requires Refines(sha256, n, s) && genesis in s.headers.index
    ensures Refines(sha256, OnReset(sha256, n, genesis), Runs.ResetUtxo(s, genesis))
  {
    var keys := Buckets.Keys(n.table);
    FindIs(sha256, n, s.headers.index, genesis);
    Buckets.KeysOfMap(sha256, n.table, s.headers.index);
    ResetKeysHolds(sha256, n.table, s.headers.index, keys);
    assert ResetAmong(s.headers.index, keys) == Runs.ResetUtxo(s, genesis).headers.index;
  }

  /** Any table hashmap_init leaves, any tips and any files start a run whose table holds the index throughout. */
  lemma RunFromStart(sha256: Lookup, c: Consensus, bucketCount: nat, tip: Entry, validatedTip: Entry, files: map<Hash, Block>,
                     events: seq<Runs.Event>)
    requires bucketCount > 0
    ensures Refines(sha256, Run(sha256, c, Node(Buckets.EmptyTable(bucketCount), tip, validatedTip, map[], files, []), events),
                    Runs.Run(c, Runs.State(HeaderIndex.Headers(map[], tip), validatedTip, map[], files, []), events))
  {
    Buckets.EmptyRepresents<Entry>(sha256, bucketCount);
    RunRefines(sha256, c, Node(Buckets.EmptyTable(bucketCount), tip, validatedTip, map[], files, []),
               Runs.State(HeaderIndex.Headers(map[], tip), validatedTip, map[], files, []), events);
  }
}
