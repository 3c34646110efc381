/** The node's mutable state, and the operations that take it through the steps of a run (src/blockchain.c, src/persistent.c). */
module Node {
  import opened Bytes
  import opened Codec
  import opened HeaderIndex
  import opened Ledger
  import opened Validation
  import opened Chain
  import opened UtxoStore

  predicate LowHeights(index: Index) {
    forall k :: k in index ==> index[k].height < SHIFT_LIMIT
  }

  predicate FilesSafe(files: map<Hash, Block>) {
    forall k :: k in files ==> OutputsSafe(files[k].txs)
  }

  class Global {
    const consensus: Consensus
    const blockIndices: BlockIndices
    const utxoDB: Store
    var mainValidatedTip: Entry
    var files: map<Hash, Block>
    ghost var registered: seq<Block>

    constructor (consensus: Consensus, blockIndices: BlockIndices, utxoDB: Store)
      ensures this.consensus == consensus && this.blockIndices == blockIndices && this.utxoDB == utxoDB
      ensures mainValidatedTip == EMPTY_ENTRY && files == map[] && registered == []
    {
      this.consensus := consensus;
      this.blockIndices := blockIndices;
      this.utxoDB := utxoDB;
      mainValidatedTip := EMPTY_ENTRY;
      files := map[];
      registered := [];
    }

    ghost predicate Valid()
      reads this, blockIndices, utxoDB
    {
      && utxoDB.Valid() && blockIndices.hashOf == consensus.hashOf
      && Reachable(consensus.hashOf, blockIndices.State())
      && LowHeights(blockIndices.entries) && FilesSafe(files)
    }

    /** The state the runs are about. */
    ghost function State(): (s: Chain.State)
      reads this, blockIndices, utxoDB
    {
      Chain.State(blockIndices.State(), mainValidatedTip, utxoDB.outputs, files, registered)
    }

    /** Changes the flags of a stored entry in place. */
    method SetFlags(k: Hash, meta: Meta)
      requires Valid() && k in blockIndices.entries
      modifies blockIndices
      ensures Valid() && State() == WithMeta(old(State()), k, meta)
    {
      ghost var before := blockIndices.State();
      blockIndices.entries := blockIndices.entries[k := blockIndices.entries[k].(meta := meta)];
      FlagsKeepReachable(consensus.hashOf, before, k, meta);
    }

    method RegisterOnArrival(k: Hash, block: Block)
      requires Valid() && k in blockIndices.entries && OutputsSafe(block.txs)
      modifies this`registered, blockIndices, utxoDB
      ensures Valid() && blockIndices.entries.Keys == old(blockIndices.entries.Keys)
      ensures State() == WithMeta(old(State()), k, old(blockIndices.entries[k]).meta.(registered := true))
                           .(utxo := Registered(consensus.rules, old(utxoDB.outputs), block.txs, |block.txs|),
                             registered := old(registered) + [block])
    {
      RegisterValidatedBlock(consensus.rules, utxoDB, block.txs);
      SetFlags(k, blockIndices.entries[k].meta.(registered := true));
      registered := registered + [block];
    }

    /** The persistent part of process_incoming_block, in its order: validated, tip, registration. */
    method PersistBlock(k: Hash, block: Block, now: int)
      requires Valid() && k in blockIndices.entries && OutputsSafe(block.txs)
      modifies this`mainValidatedTip, this`registered, blockIndices, utxoDB
      ensures Valid() && State() == Persist(consensus, old(State()), k, block, now)
      ensures blockIndices.entries.Keys == old(blockIndices.entries.Keys)
    {
      var index := blockIndices.entries[k];
      var valid := IsBlockValid(consensus, utxoDB, block, index.height, index.hash, now);
      SetMetaTwice(blockIndices.entries, k, index.meta.(validated := valid), index.meta.(validated := valid, registered := true));
      SetFlags(k, index.meta.(validated := valid));
      if !valid {
        return;
      }
      if index.status == Mainchain && index.pow > mainValidatedTip.pow {
        mainValidatedTip := blockIndices.entries[k];
      }
      if !index.meta.registered {
        RegisterOnArrival(k, block);
      }
    }

    method TakeHeader(header: Header, now: int) returns (status: int)
      requires Valid()
      requires header.prevBlock in blockIndices.entries ==>
                 |blockIndices.entries[header.prevBlock].children| < MAX_CHILDREN
                 && blockIndices.entries[header.prevBlock].height + 1 < SHIFT_LIMIT
      modifies blockIndices
      ensures Valid() && State() == WithHeader(consensus, old(State()), header, now)
      ensures TimestampLegal(header, now) ==> (status == 0 || status == HEADER_EXISTED) && consensus.hashOf(header) in blockIndices.entries
    {
      status := blockIndices.ProcessHeader(header, now);
    }

    method SaveFile(k: Hash, block: Block)
      requires Valid() && k in blockIndices.entries && OutputsSafe(block.txs)
      modifies this`files, blockIndices
      ensures Valid() && State() == WithFile(old(State()), k, block)
    {
      SetFlags(k, blockIndices.entries[k].meta.(available := true));
      files := files[k := block];
    }

    /** process_incoming_block; `saved` tells whether the block file could be written. */
    method ProcessIncomingBlock(block: Block, now: int, persistent: bool, saved: bool) returns (status: int)
      requires Valid() && OutputsSafe(block.txs)
      requires block.header.prevBlock in blockIndices.entries ==>
                 |blockIndices.entries[block.header.prevBlock].children| < MAX_CHILDREN
                 && blockIndices.entries[block.header.prevBlock].height + 1 < SHIFT_LIMIT
      modifies this, blockIndices, utxoDB
      ensures Valid() && State() == Chain.AfterBlock(consensus, old(State()), block, now, persistent, saved)
      ensures status == if !BlockLegal(consensus, block, now) then -1 else if !saved then -5 else 0
    {
      var legal := IsBlockLegal(consensus, block, now);
      if !legal {
        return -1;
      }
      status := TakeHeader(block.header, now);
      if status != 0 && status != HEADER_EXISTED {
        return;
      }
      var hash := consensus.hashOf(block.header);
      if hash !in blockIndices.entries {
        return -30;
      }
      if persistent {
        PersistBlock(hash, block, now);
      }
      if !saved {
        return -5;
      }
      SaveFile(hash, block);
      return 0;
    }

    /** load_block: a file that does not parse to a legal block with the wanted hash marks the block unavailable. */
    method LoadBlock(k: Hash, now: int) returns (status: int)
      requires Valid() && k in blockIndices.entries
      modifies blockIndices
      ensures Valid() && (status == 0 <==> Loads(consensus, old(State()), k, now))
      ensures State() == if k !in files || status == 0 then old(State())
                         else WithMeta(old(State()), k, old(blockIndices.entries[k]).meta.(available := false, validated := false))
    {
      if k !in files {
        return -99;
      }
      var legal := IsBlockLegal(consensus, files[k], now);
      if consensus.hashOf(files[k].header) != k || !legal {
        SetFlags(k, blockIndices.entries[k].meta.(available := false, validated := false));
        return -99;
      }
      return 0;
    }

    /** What validate_block does with a valid block when saveValidation is set. */
    method SaveValidation(target: Hash)
      requires Valid() && target in blockIndices.entries && target in files
      modifies this`mainValidatedTip, this`registered, blockIndices, utxoDB
      ensures Valid() && State() == Accept(consensus, old(State()), target)
    {
      var index := blockIndices.entries[target];
      SetFlags(target, index.meta.(validated := true, registered := true));
      RegisterValidatedBlock(consensus.rules, utxoDB, files[target].txs);
      if index.pow > mainValidatedTip.pow {
        mainValidatedTip := blockIndices.entries[target];
      }
      registered := registered + [files[target]];
    }

    /** validate_block with saveValidation. */
    method ValidateBlock(target: Hash, now: int) returns (code: int, next: Hash)
      requires Valid()
      modifies this`mainValidatedTip, this`registered, blockIndices, utxoDB
      ensures Valid() && Validated(code, State(), next) == Chain.ValidateBlock(consensus, old(State()), target, now)
    {
      next := target;
      if target !in blockIndices.entries {
        return -1, next;
      }
      var index := blockIndices.entries[target];
      if !index.meta.available {
        return -10, next;
      }
      assert Consistent(consensus.hashOf, blockIndices.entries, target);
      var loadStatus := LoadBlock(target, now);
      if loadStatus != 0 {
        return -10, next;
      }
      var block := files[target];
      var valid := IsBlockValid(consensus, utxoDB, block, index.height, index.hash, now);
      if !valid {
        return 0, next;
      }
      code := if index.children != [] then 2 else 1;
      SaveValidation(target);
      if index.children != [] {
        next := index.children[0];
      }
    }

    /** validate_blocks: one block for each clock reading, until one is not followed by another or the timer cuts. */
    method ValidateBlocks(clocks: seq<int>) returns (checkedBlocks: nat)
      requires Valid()
      modifies this`mainValidatedTip, this`registered, blockIndices, utxoDB
      ensures Valid() && State() == Chain.ValidateBlocks(consensus, old(State()), clocks)
    {
      var lastValid := mainValidatedTip.hash;
      if lastValid !in blockIndices.entries {
        return 0;
      }
      if blockIndices.entries[lastValid].children == [] {
        return 1;
      }
      var blockHash := blockIndices.entries[lastValid].children[0];
      checkedBlocks := 0;
      while checkedBlocks < |clocks|
        invariant Valid() && checkedBlocks <= |clocks|
        invariant ValidateFrom(consensus, State(), blockHash, clocks[checkedBlocks..])
               == Chain.ValidateBlocks(consensus, old(State()), clocks)
      {
        var code, next := ValidateBlock(blockHash, clocks[checkedBlocks]);
        assert clocks[checkedBlocks..][1..] == clocks[checkedBlocks + 1..];
        checkedBlocks := checkedBlocks + 1;
        if code != 2 {
          return;
        }
        blockHash := next;
      }
    }

    /** reset_utxo over reset_validation. */
    method ResetUtxo(genesisHash: Hash)
      requires Valid() && genesisHash in blockIndices.entries
      modifies this`mainValidatedTip, this`registered, blockIndices, utxoDB
      ensures Valid() && State() == Chain.ResetUtxo(old(State()), genesisHash)
    {
      ghost var before := blockIndices.State();
      mainValidatedTip := blockIndices.entries[genesisHash];
      var entries := blockIndices.entries;
      blockIndices.entries := map k | k in entries :: entries[k].(meta := Unregistered(entries[k].meta));
      utxoDB.Clear();
      registered := [];
      MetaKeepsReachable(consensus.hashOf, before, blockIndices.entries);
    }
  }

  lemma SetMetaTwice(index: Index, k: Hash, a: Meta, b: Meta)
    ensures SetMeta(SetMeta(index, k, a), k, b) == SetMeta(index, k, b)
  {
  }

  lemma MetaKeepsReachable(hashOf: Header -> Hash, s: Headers, r: Index)
    requires Reachable(hashOf, s) && SameButMeta(s.index, r)
    ensures Reachable(hashOf, Headers(r, s.tip))
  {
    MetaKeepsForest(hashOf, s.index, r);
    forall x | x in r
      ensures Below(r[x], s.tip.pow)
    {
      assert Below(s.index[x], s.tip.pow);
    }
  }

  lemma FlagsKeepReachable(hashOf: Header -> Hash, s: Headers, k: Hash, meta: Meta)
    requires Reachable(hashOf, s) && k in s.index
    ensures Reachable(hashOf, Headers(SetMeta(s.index, k, meta), s.tip))
  {
    MetaKeepsReachable(hashOf, s, SetMeta(s.index, k, meta));
  }
}
