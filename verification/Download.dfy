/** Which blocks to ask for next: walks down the first-child path (src/globalstate.c, src/blockchain.c). */
module Download {
  import opened Bytes
  import opened HeaderIndex
  import opened Codec

  /** A stored block whose body is neither on disk nor being fetched. */
  predicate Wanted(index: Index, requesting: seq<Hash>, k: Hash)
    requires k in index
  {
    !index[k].meta.available && k !in requesting
  }

  lemma FirstChildHigher(hashOf: Header -> Hash, index: Index, k: Hash)
    requires Forest(hashOf, index) && k in index
    ensures index[k].height < |index|
    ensures index[k].children != [] ==> index[k].children[0] in index
    ensures index[k].children != [] ==> index[k].height + 1 == index[index[k].children[0]].height < |index|
  {
    assert Consistent(hashOf, index, k);
    if index[k].children != [] {
      assert ChildStored(index, k, 0) && Consistent(hashOf, index, index[k].children[0]);
    }
  }

  /** The wanted blocks from k down its first-child path, in chain order. */
  ghost function WantedFrom(hashOf: Header -> Hash, index: Index, requesting: seq<Hash>, k: Hash): (r: seq<Hash>)
    requires Forest(hashOf, index) && k in index
    ensures forall i :: 0 <= i < |r| ==> r[i] in index && index[r[i]].height >= index[k].height && Wanted(index, requesting, r[i])
    decreases |index| - index[k].height
  {
    FirstChildHigher(hashOf, index, k);
    var here := if Wanted(index, requesting, k) then [k] else [];
    if index[k].children == [] then here
    else
      here + WantedFrom(hashOf, index, requesting, index[k].children[0])
  }

  /** What is left to find when the walk has reached k. */
  ghost function Rest(hashOf: Header -> Hash, index: Index, requesting: seq<Hash>, k: Hash): (r: seq<Hash>)
    requires Forest(hashOf, index)
  {
    if k in index then WantedFrom(hashOf, index, requesting, k) else []
  }

  lemma RestStep(hashOf: Header -> Hash, index: Index, requesting: seq<Hash>, k: Hash, found: seq<Hash>, next: Hash)
    requires Forest(hashOf, index) && k in index
    requires if index[k].children == [] then next !in index else next == index[k].children[0]
    ensures found + Rest(hashOf, index, requesting, k)
         == (if Wanted(index, requesting, k) then found + [k] else found) + Rest(hashOf, index, requesting, next)
    ensures next in index ==> index[k].height < index[next].height < |index|
    ensures index[k].height < |index|
  {
    FirstChildHigher(hashOf, index, k);
    var here := if Wanted(index, requesting, k) then [k] else [];
    var tail := Rest(hashOf, index, requesting, next);
    assert index[k].children == [] ==> here == here + tail;
    assert Rest(hashOf, index, requesting, k) == here + tail;
    assert found + (here + tail) == (found + here) + tail;
    assert here == [] ==> found + here == found;
  }

  ghost predicate InChainOrder(index: Index, s: seq<Hash>)
    requires forall i :: 0 <= i < |s| ==> s[i] in index
  {
    forall i, j :: 0 <= i < j < |s| ==> index[s[i]].height < index[s[j]].height
  }

  /** Chain order rules out repeats. */
  lemma {:induction false} WantedOrdered(hashOf: Header -> Hash, index: Index, requesting: seq<Hash>, k: Hash)
    requires Forest(hashOf, index) && k in index
    ensures InChainOrder(index, WantedFrom(hashOf, index, requesting, k))
    decreases |index| - index[k].height
  {
    FirstChildHigher(hashOf, index, k);
    if index[k].children != [] {
      var c := index[k].children[0];
      WantedOrdered(hashOf, index, requesting, c);
    }
  }

  lemma {:induction false} WantedExactly(hashOf: Header -> Hash, index: Index, requesting: seq<Hash>, genesis: Hash, n: nat, x: Hash)
    requires Forest(hashOf, index) && RootedAt(index, genesis) && NthBlock(index, genesis, n).Some?
    requires x in index && index[x].height >= n
    ensures NthBlock(index, genesis, n).value in index
    ensures x in WantedFrom(hashOf, index, requesting, NthBlock(index, genesis, n).value)
       <==> OnPath(index, genesis, x) && Wanted(index, requesting, x)
    decreases |index| - n
  {
    NthStored(hashOf, index, genesis, n);
    var k := NthBlock(index, genesis, n).value;
    FirstChildHigher(hashOf, index, k);
    if index[k].children == [] {
      assert NthBlock(index, genesis, n + 1) == None;
      if index[x].height > n {
        NoneAfter(index, genesis, n + 1, index[x].height);
      }
    } else {
      var c := index[k].children[0];
      assert NthBlock(index, genesis, n + 1) == Some(c);
      if index[x].height > n {
        WantedExactly(hashOf, index, requesting, genesis, n + 1, x);
      }
    }
  }

  /** The wanted blocks are exactly those on the genesis path. */
  lemma WantedOnPath(hashOf: Header -> Hash, index: Index, requesting: seq<Hash>, genesis: Hash, x: Hash)
    requires Forest(hashOf, index) && RootedAt(index, genesis) && x in index
    ensures x in WantedFrom(hashOf, index, requesting, genesis) <==> OnPath(index, genesis, x) && Wanted(index, requesting, x)
  {
    WantedExactly(hashOf, index, requesting, genesis, 0, x);
  }

  function FirstOf<T>(n: nat, s: seq<T>): (r: seq<T>)
    ensures |r| <= n && r <= s
  {
    if |s| <= n then s else s[..n]
  }

  lemma FirstOfConcat<T>(n: nat, found: seq<T>, rest: seq<T>)
    requires |found| <= n
    ensures rest == [] || |found| == n ==> FirstOf(n, found + rest) == found
  {
    assert (found + rest)[..|found|] == found;
  }

  lemma RecordStep<T>(found: seq<T>, was: seq<T>, x: T)
    requires |found| < |was|
    ensures (found + was[|found|..])[|found| := x] == found + [x] + was[|found| + 1..]
  {
  }

  method Record(hashes: array<Hash>, count: nat, hash: Hash)
    requires count < hashes.Length
    modifies hashes
    ensures hashes[..] == old(hashes[..])[count := hash]
  {
    hashes[count] := hash;
  }

  /** is_block_being_requested. */
  method IsBeingRequested(requesting: seq<Hash>, hash: Hash) returns (found: bool)
    ensures found == (hash in requesting)
  {
    for i := 0 to |requesting|
      invariant hash !in requesting[..i]
    {
      if requesting[i] == hash { return true; }
    }
    return false;
  }

  /**
   * find_missing_blocks: a do-while loop that steps on even from a wanted block without children, into a slot of the
   * child array that still holds zeros.
   */
  method FindMissingBlocks(hashOf: Header -> Hash, index: Index, genesis: Hash, requesting: seq<Hash>,
                           hashes: array<Hash>, desiredCount: nat) returns (count: nat)
    requires Forest(hashOf, index) && genesis in index && ZERO_HASH !in index
    requires 1 <= desiredCount <= hashes.Length
    modifies hashes
    ensures count <= hashes.Length
    ensures hashes[..count] == FirstOf(desiredCount, WantedFrom(hashOf, index, requesting, genesis))
    ensures hashes[count..] == old(hashes[count..])
  {
    ghost var wanted := WantedFrom(hashOf, index, requesting, genesis);
    ghost var found: seq<Hash>, was := [], hashes[..];
    count := 0;
    var finderHash: Hash := genesis;
    while true
      invariant finderHash != ZERO_HASH ==> finderHash in index
      invariant |found| == count < desiredCount && hashes[..] == found + was[count..]
      invariant wanted == found + Rest(hashOf, index, requesting, finderHash)
      decreases if finderHash in index then |index| - index[finderHash].height else -1
    {
      if finderHash !in index {
        FirstOfConcat(desiredCount, found, []);
        return count;
      }
      var e := index[finderHash];
      var next: Hash := if e.children == [] then ZERO_HASH else e.children[0];
      FirstChildHigher(hashOf, index, finderHash);
      RestStep(hashOf, index, requesting, finderHash, found, next);
      var requested := IsBeingRequested(requesting, finderHash);
      if !e.meta.available && !requested {
        Record(hashes, count, finderHash);
        RecordStep(found, was, finderHash);
        count, found := count + 1, found + [finderHash];
      } else if e.children == [] {
        FirstOfConcat(desiredCount, found, []);
        return count;
      }
      finderHash := next;
      if count >= desiredCount {
        FirstOfConcat(desiredCount, found, Rest(hashOf, index, requesting, finderHash));
        return count;
      }
    }
  }

  /** The number of blocks, less one, that are available from genesis without a gap. */
  ghost predicate FullUpTo(index: Index, genesis: Hash, n: nat) {
    && (forall m: nat :: m <= n ==> Has(index, NthBlock(index, genesis, m)))
    && !Has(index, NthBlock(index, genesis, n + 1))
  }

  predicate Has(index: Index, k: Option<Hash>) {
    k.Some? && k.value in index && index[k.value].meta.available
  }

  /** max_full_block_height_from_genesis: one below 0 wraps when genesis itself is missing. */
  method MaxFullHeight(hashOf: Header -> Hash, index: Index, genesis: Hash) returns (height: uint32)
    requires Forest(hashOf, index) && RootedAt(index, genesis) && |index| <= 0x1_0000_0000
    ensures if Has(index, Some(genesis)) then FullUpTo(index, genesis, height) else height == UINT32_MAX
  {
    var h: nat := 0;
    var hash := genesis;
    while true
      invariant NthBlock(index, genesis, h) == Some(hash)
      invariant forall m: nat :: m < h ==> Has(index, NthBlock(index, genesis, m))
      decreases |index| - h
    {
      NthStored(hashOf, index, genesis, h);
      FirstChildHigher(hashOf, index, hash);
      if hash !in index || !index[hash].meta.available {
        assert h > 0 ==> Has(index, NthBlock(index, genesis, 0));
        return (h - 1) % 0x1_0000_0000;
      } else if index[hash].children == [] {
        return h;
      } else {
        hash := index[hash].children[0];
        h := h + 1;
      }
    }
  }

  /** With nothing in flight, the first block to fetch is the one right above the highest without a gap. */
  lemma FirstMissingFollowsFull(hashOf: Header -> Hash, index: Index, requesting: seq<Hash>, genesis: Hash, n: nat)
    requires Forest(hashOf, index) && RootedAt(index, genesis) && FullUpTo(index, genesis, n)
    requires forall k :: k in requesting ==> k !in index
    ensures var w := WantedFrom(hashOf, index, requesting, genesis);
            w != [] ==> NthBlock(index, genesis, n + 1) == Some(w[0])
  {
    var w := WantedFrom(hashOf, index, requesting, genesis);
    if w != [] {
      var first := w[0];
      WantedOnPath(hashOf, index, requesting, genesis, first);
      var m := index[first].height;
      assert m <= n ==> Has(index, NthBlock(index, genesis, m));
      if NthBlock(index, genesis, n + 1) == None {
        NoneAfter(index, genesis, n + 1, m);
      }
      NthStored(hashOf, index, genesis, n + 1);
      var next := NthBlock(index, genesis, n + 1).value;
      WantedOnPath(hashOf, index, requesting, genesis, next);
      WantedOrdered(hashOf, index, requesting, genesis);
    }
  }
}
