/** The index of block headers: a growing forest with a main chain and a tip (src/blockchain.c, src/blockchain.h). */
module HeaderIndex {
  import opened Bytes
  import opened Codec
  import opened Target

  datatype Status = Mainchain | Sidechain | Orphan

  datatype Meta = Meta(available: bool, validated: bool, registered: bool)

  /** A BlockIndex; `pow` is an exact real where the source has a double. */
  datatype Entry = Entry(header: Header, hash: Hash, meta: Meta, status: Status, height: nat, pow: real, children: seq<Hash>)

  type Index = map<Hash, Entry>

  /** global.blockIndices and global.mainHeaderTip. */
  datatype Headers = Headers(index: Index, tip: Entry)

  const NO_META := Meta(false, false, false)
  const EMPTY_ENTRY := Entry(Header(0, ZERO_HASH, ZERO_HASH, 0, 0, 0), ZERO_HASH, NO_META, Mainchain, 0, 0.0, [])
  const INITIAL := Headers(map[], EMPTY_ENTRY)

  const MAX_CHILDREN := 16
  const MAX_FORWARD := 7200
  const HEADER_EXISTED := 100

  /** Below size 3 the exponent wraps and the target is an infinite double. */
  predicate AddsWork(c: Compact) {
    SizeOf(c) >= 3
  }

  /** calc_block_pow; a target of size below 3 is an infinite double, which leaves no work. */
  function Work(c: Compact): (w: real)
    ensures w >= 0.0
    ensures w > 0.0 <==> AddsWork(c)
  {
    if !AddsWork(c) then 0.0
    else Pow256(32) as real / (ToReal(c) + 1.0)
  }

  predicate IsProduct(w: real, d: nat, n: nat) {
    w * d as real == n as real
  }

  lemma QuotientProduct(x: real, d: nat, n: nat)
    requires d > 0 && x == d as real
    ensures IsProduct(n as real / x, d, n)
  {
  }

  /** The work of a target from size 3 up, times one more than the unsigned target, is 2^256. */
  lemma WorkExactly(c: Compact)
    requires SizeOf(c) >= 3
    ensures IsProduct(Work(c), Shift(Mantissa(c), SizeOf(c) - 3) + 1, Pow256(32))
    ensures SignClear(c) ==> IsProduct(Work(c), ToBignum(c) + 1, Pow256(32))
  {
    QuotientProduct(ToReal(c) + 1.0, Shift(Mantissa(c), SizeOf(c) - 3) + 1, Pow256(32));
    if SignClear(c) {
      ToBignumValue(c);
    }
  }

  /** A smaller target takes more work. */
  lemma WorkOrder(c: Compact, d: Compact)
    requires SizeOf(c) >= 3 && SizeOf(d) >= 3 && SignClear(c) && SignClear(d)
    ensures ToBignum(c) < ToBignum(d) <==> Work(c) > Work(d)
  {
    ToBignumValue(c);
    ToBignumValue(d);
    QuotientOrder(Pow256(32) as real, ToReal(c) + 1.0, ToReal(d) + 1.0);
  }

  lemma QuotientOrder(n: real, a: real, b: real)
    requires n > 0.0 && a > 0.0 && b > 0.0
    ensures a < b <==> n / a > n / b
  {
    assert n / a * a == n && n / b * b == n;
    if a < b {
      assert n / b * a < n / b * b;
    }
    if b <= a {
      assert n / a * b <= n / a * a;
    }
  }

  /** The entry made for a header that is not in the index yet. */
  function NewEntry(hash: Hash, index: Index, header: Header): (e: Entry) {
    if header.prevBlock !in index then
      Entry(header, hash, NO_META, Mainchain, 0, Work(header.target), [])
    else
      var parent := index[header.prevBlock];
      var status := match parent.status
        case Mainchain => if parent.children == [] then Mainchain else Sidechain
        case Sidechain => Sidechain
        case Orphan => Orphan;
      Entry(header, hash, NO_META, status, parent.height + 1, parent.pow + Work(header.target), [])
  }

  function AddChild(index: Index, parent: Hash, child: Hash): (r: Index) {
    if parent in index then index[parent := index[parent].(children := index[parent].children + [child])] else index
  }

  predicate TimestampLegal(header: Header, now: int) {
    header.timestamp - now < MAX_FORWARD
  }

  /** The state process_incoming_block_header leaves. */
  function Arrive(hashOf: Header -> Hash, s: Headers, header: Header, now: int): (r: Headers) {
    var hash := hashOf(header);
    if !TimestampLegal(header, now) || hash in s.index then s
    else
      var e := NewEntry(hash, s.index, header);
      Headers(AddChild(s.index, header.prevBlock, hash)[hash := e],
              if e.status == Mainchain && e.pow > s.tip.pow then e else s.tip)
  }

  /**
   * A header is stored unless it lies two hours or more ahead or is stored already; then nothing changes. Storing it adds
   * one entry without flags and children, above its parent if that is stored, and puts it last among the parent's children.
   */
  lemma ArriveExactly(hashOf: Header -> Hash, s: Headers, header: Header, now: int)
    ensures var r, k, p := Arrive(hashOf, s, header, now), hashOf(header), header.prevBlock;
            && (k in s.index || header.timestamp >= now + 7200 ==> r == s)
            && (k !in s.index && header.timestamp < now + 7200 ==>
                  && r.index.Keys == s.index.Keys + {k}
                  && r.index[k].header == header && r.index[k].hash == k && r.index[k].children == []
                  && !r.index[k].meta.available && !r.index[k].meta.validated && !r.index[k].meta.registered
                  && (if p in s.index then r.index[k].height == s.index[p].height + 1 && r.index[k].pow >= s.index[p].pow
                      else r.index[k].height == 0)
                  && forall q :: q in s.index ==>
                       r.index[q] == if q == p then s.index[q].(children := s.index[q].children + [k]) else s.index[q])
  {
  }

  // ----- the shape every run keeps -----

  /** The i-th child of an entry is stored one block higher, with its work added, on the main chain only as a first child. */
  predicate ChildStored(index: Index, k: Hash, i: nat)
    requires k in index && i < |index[k].children|
  {
    var e, c := index[k], index[k].children[i];
    && c in index && index[c].header.prevBlock == k
    && index[c].height == e.height + 1
    && index[c].pow == e.pow + Work(index[c].header.target)
    && index[c].status == if e.status == Mainchain && i == 0 then Mainchain else Sidechain
  }

  predicate ChildrenStored(index: Index, k: Hash)
    requires k in index
  {
    forall i {:trigger ChildStored(index, k, i)} :: 0 <= i < |index[k].children| ==> ChildStored(index, k, i)
  }

  predicate Linked(index: Index, k: Hash)
    requires k in index
  {
    var p := index[k].header.prevBlock;
    p in index && k in index[p].children
  }

  predicate Consistent(hashOf: Header -> Hash, index: Index, k: Hash)
    requires k in index
  {
    var e := index[k];
    && e.hash == k == hashOf(e.header)
    && e.height < |index| && e.status != Orphan
    && (e.height > 0 ==> Linked(index, k))
    && (e.height == 0 ==> e.status == Mainchain && e.pow == Work(e.header.target))
    && ChildrenStored(index, k)
  }

  /** A forest: every entry is a root of height 0 or a child of the entry its header names. */
  ghost predicate Forest(hashOf: Header -> Hash, index: Index) {
    forall k {:trigger Consistent(hashOf, index, k)} :: k in index ==> Consistent(hashOf, index, k)
  }

  /** The tip is the first main-chain entry to reach the greatest work any main-chain entry has. */
  ghost predicate TipIsGreatest(s: Headers) {
    && s.tip.pow >= 0.0
    && (forall k :: k in s.index ==> Below(s.index[k], s.tip.pow))
    && (s.tip.pow > 0.0 ==> TipStored(s))
  }

  predicate Below(e: Entry, pow: real) {
    e.status == Mainchain ==> e.pow <= pow
  }

  predicate TipStored(s: Headers) {
    && s.tip.hash in s.index && s.index[s.tip.hash].(meta := s.tip.meta, children := s.tip.children) == s.tip
    && s.tip.status == Mainchain && AddsWork(s.tip.header.target)
  }

  ghost predicate Reachable(hashOf: Header -> Hash, s: Headers) {
    Forest(hashOf, s.index) && TipIsGreatest(s)
  }

  lemma ArriveKeepsOthers(hashOf: Header -> Hash, s: Headers, header: Header, now: int, k: Hash)
    requires Forest(hashOf, s.index) && k in s.index
    requires hashOf(header) !in s.index && TimestampLegal(header, now)
    ensures k in Arrive(hashOf, s, header, now).index && Consistent(hashOf, Arrive(hashOf, s, header, now).index, k)
  {
    var r, hash := Arrive(hashOf, s, header, now).index, hashOf(header);
    assert r.Keys == s.index.Keys + {hash};
    assert Consistent(hashOf, s.index, k);
    var e := s.index[k];
    forall i | 0 <= i < |r[k].children|
      ensures ChildStored(r, k, i)
    {
      if i < |e.children| {
        assert ChildStored(s.index, k, i);
        assert r[k].children[i] == e.children[i];
      }
    }
  }

  lemma ArriveKeepsForest(hashOf: Header -> Hash, s: Headers, header: Header, now: int)
    requires Forest(hashOf, s.index)
    ensures Forest(hashOf, Arrive(hashOf, s, header, now).index)
  {
    var r, hash := Arrive(hashOf, s, header, now).index, hashOf(header);
    if TimestampLegal(header, now) && hash !in s.index {
      forall k | k in r
        ensures Consistent(hashOf, r, k)
      {
        assert r.Keys == s.index.Keys + {hash};
        var p := header.prevBlock;
        if k != hash {
          ArriveKeepsOthers(hashOf, s, header, now, k);
        } else if p in s.index {
          assert Consistent(hashOf, s.index, p);
          assert r[p].children[|s.index[p].children|] == hash;
        }
      }
    }
  }

  lemma ArriveKeepsReachable(hashOf: Header -> Hash, s: Headers, header: Header, now: int)
    requires Reachable(hashOf, s)
    ensures Reachable(hashOf, Arrive(hashOf, s, header, now))
  {
    ArriveKeepsForest(hashOf, s, header, now);
    var r, hash := Arrive(hashOf, s, header, now), hashOf(header);
    if TimestampLegal(header, now) && hash !in s.index {
      var p := header.prevBlock;
      if p in s.index {
        assert Consistent(hashOf, s.index, p);
      }
      forall k | k in r.index
        ensures Below(r.index[k], r.tip.pow)
      {
        if k != hash {
          assert k in s.index && Below(s.index[k], s.tip.pow);
        }
      }
    }
  }

  // ----- parents and ancestors -----

  /** Orphans included: an entry above height 0 has its parent stored one block lower, and is one of its children. */
  lemma ParentOf(hashOf: Header -> Hash, index: Index, k: Hash)
    requires Forest(hashOf, index) && k in index && index[k].height > 0
    ensures var p := index[k].header.prevBlock;
            p in index && index[p].height == index[k].height - 1 && k in index[p].children
            && index[k].pow == index[p].pow + Work(index[k].header.target)
            && (index[k].status == Mainchain <==> index[p].status == Mainchain && index[p].children[0] == k)
  {
    assert Consistent(hashOf, index, k);
    var p := index[k].header.prevBlock;
    assert Consistent(hashOf, index, p);
    var i :| 0 <= i < |index[p].children| && index[p].children[i] == k;
    assert ChildStored(index, p, i) && ChildStored(index, p, 0);
  }

  /** The work of a block and of all its ancestors, up to the root of its tree. */
  ghost function AncestorWork(hashOf: Header -> Hash, index: Index, k: Hash): (w: real)
    requires Forest(hashOf, index) && k in index
    decreases index[k].height
  {
    var own := Work(index[k].header.target);
    if index[k].height == 0 then own
    else
      ParentOf(hashOf, index, k);
      AncestorWork(hashOf, index, index[k].header.prevBlock) + own
  }

  lemma {:induction false} PowIsAncestorWork(hashOf: Header -> Hash, index: Index, k: Hash)
    requires Forest(hashOf, index) && k in index
    ensures index[k].pow == AncestorWork(hashOf, index, k)
    decreases index[k].height
  {
    assert Consistent(hashOf, index, k);
    if index[k].height > 0 {
      ParentOf(hashOf, index, k);
      PowIsAncestorWork(hashOf, index, index[k].header.prevBlock);
    }
  }

  /** The pointer after following prev_block from k, or None when it meets a hash that is not stored. */
  function Back(index: Index, k: Hash, steps: nat): (r: Option<Hash>)
    decreases steps
  {
    if steps == 0 then Some(k)
    else if k !in index then None
    else Back(index, index[k].header.prevBlock, steps - 1)
  }

  lemma {:induction false} BackStored(hashOf: Header -> Hash, index: Index, k: Hash, steps: nat)
    requires Forest(hashOf, index) && k in index && steps <= index[k].height
    ensures Back(index, k, steps).Some?
    ensures var a := Back(index, k, steps).value; a in index && index[a].height == index[k].height - steps
    decreases steps
  {
    if steps > 0 {
      ParentOf(hashOf, index, k);
      BackStored(hashOf, index, index[k].header.prevBlock, steps - 1);
    }
  }

  const RETARGET_PERIOD := 2016
  const LOOK_BACK := 2015

  /** The look-back for a header about to be stored never misses, and ends exactly one retarget period below it. */
  lemma LookBackExact(hashOf: Header -> Hash, index: Index, hash: Hash, header: Header)
    requires Forest(hashOf, index)
    ensures var e := NewEntry(hash, index, header);
            e.height >= RETARGET_PERIOD ==>
              var a := Back(index, header.prevBlock, LOOK_BACK);
              a.Some? && a.value in index && index[a.value].height == e.height - RETARGET_PERIOD
  {
    var e := NewEntry(hash, index, header);
    if e.height >= RETARGET_PERIOD {
      BackStored(hashOf, index, header.prevBlock, LOOK_BACK);
    }
  }

  // ----- the main chain -----

  predicate RootedAt(index: Index, genesis: Hash) {
    genesis in index && index[genesis].height == 0
  }

  /** The n-th block of the path that starts at genesis and follows first children. */
  function NthBlock(index: Index, genesis: Hash, n: nat): (r: Option<Hash>) {
    if n == 0 then Some(genesis)
    else
      var k := NthBlock(index, genesis, n - 1);
      if k.Some? && k.value in index && index[k.value].children != [] then Some(index[k.value].children[0]) else None
  }

  lemma {:induction false} NthStored(hashOf: Header -> Hash, index: Index, genesis: Hash, n: nat)
    requires Forest(hashOf, index) && RootedAt(index, genesis) && NthBlock(index, genesis, n).Some?
    ensures var k := NthBlock(index, genesis, n).value; k in index && index[k].height == n && index[k].status == Mainchain
  {
    assert Consistent(hashOf, index, genesis);
    if n > 0 {
      NthStored(hashOf, index, genesis, n - 1);
      var p := NthBlock(index, genesis, n - 1).value;
      assert Consistent(hashOf, index, p) && ChildStored(index, p, 0);
    }
  }

  predicate OnPath(index: Index, genesis: Hash, k: Hash)
    requires k in index
  {
    NthBlock(index, genesis, index[k].height) == Some(k)
  }

  /** Every entry but genesis has a parent. */
  ghost predicate OneRoot(index: Index, genesis: Hash) {
    forall k :: k in index && k != genesis ==> index[k].height > 0
  }

  ghost predicate MainchainIsPath(index: Index, genesis: Hash) {
    forall k :: k in index ==> (index[k].status == Mainchain <==> OnPath(index, genesis, k))
  }

  lemma {:induction false} MainchainOnPath(hashOf: Header -> Hash, index: Index, genesis: Hash, k: Hash)
    requires Forest(hashOf, index) && OneRoot(index, genesis) && k in index && index[k].status == Mainchain
    ensures OnPath(index, genesis, k)
    decreases index[k].height
  {
    if index[k].height > 0 {
      ParentOf(hashOf, index, k);
      MainchainOnPath(hashOf, index, genesis, index[k].header.prevBlock);
    }
  }

  /** The main-chain entries are exactly the first-child path of genesis when, and only when, no other header lacks its parent. */
  lemma MainchainExactly(hashOf: Header -> Hash, index: Index, genesis: Hash)
    requires Forest(hashOf, index) && RootedAt(index, genesis)
    ensures MainchainIsPath(index, genesis) <==> OneRoot(index, genesis)
  {
    if OneRoot(index, genesis) {
      forall k | k in index
        ensures index[k].status == Mainchain <==> OnPath(index, genesis, k)
      {
        if index[k].status == Mainchain {
          MainchainOnPath(hashOf, index, genesis, k);
        } else if OnPath(index, genesis, k) {
          NthStored(hashOf, index, genesis, index[k].height);
        }
      }
    }
    forall k | k in index && k != genesis && index[k].height == 0
      ensures !MainchainIsPath(index, genesis)
    {
      assert Consistent(hashOf, index, k) && !OnPath(index, genesis, k);
    }
  }

  lemma {:induction false} PathOrder(hashOf: Header -> Hash, index: Index, genesis: Hash, m: nat, n: nat)
    requires Forest(hashOf, index) && RootedAt(index, genesis) && m < n && NthBlock(index, genesis, n).Some?
    ensures var last := NthBlock(index, genesis, n).value;
            && NthBlock(index, genesis, m).Some? && last in index
            && NthBlock(index, genesis, m).value in index
            && index[NthBlock(index, genesis, m).value].pow + Work(index[last].header.target) <= index[last].pow
  {
    NthStored(hashOf, index, genesis, n);
    NthStored(hashOf, index, genesis, n - 1);
    var p := NthBlock(index, genesis, n - 1).value;
    assert Consistent(hashOf, index, p) && ChildStored(index, p, 0);
    if m < n - 1 {
      PathOrder(hashOf, index, genesis, m, n - 1);
    }
  }

  /** The path ends below the size of the index. */
  lemma PathEnds(hashOf: Header -> Hash, index: Index, genesis: Hash) returns (n: nat)
    requires Forest(hashOf, index) && RootedAt(index, genesis)
    ensures n < |index| && NthBlock(index, genesis, n).Some? && NthBlock(index, genesis, n + 1) == None
  {
    n := 0;
    assert Consistent(hashOf, index, genesis);
    while NthBlock(index, genesis, n + 1).Some?
      invariant n < |index| && NthBlock(index, genesis, n).Some?
      decreases |index| - n
    {
      n := n + 1;
      NthStored(hashOf, index, genesis, n);
      assert Consistent(hashOf, index, NthBlock(index, genesis, n).value);
    }
  }

  lemma {:induction false} NoneAfter(index: Index, genesis: Hash, n: nat, m: nat)
    requires NthBlock(index, genesis, n) == None && n <= m
    ensures NthBlock(index, genesis, m) == None
  {
    if n < m {
      NoneAfter(index, genesis, n, m - 1);
    }
  }

  /**
   * With one root, the tip's work is that of the last block of the path, the greatest on the main chain; the tip is
   * that block exactly when the block added work.
   */
  lemma TipEndsPath(hashOf: Header -> Hash, s: Headers, genesis: Hash, n: nat)
    requires Reachable(hashOf, s) && RootedAt(s.index, genesis) && OneRoot(s.index, genesis)
    requires NthBlock(s.index, genesis, n).Some? && NthBlock(s.index, genesis, n + 1) == None
    ensures var last := NthBlock(s.index, genesis, n).value;
            && last in s.index && s.tip.pow == s.index[last].pow
            && (forall k :: k in s.index ==> Below(s.index[k], s.index[last].pow))
            && (s.tip.pow > 0.0 && s.tip.hash == last <==> AddsWork(s.index[last].header.target))
  {
    var last := NthBlock(s.index, genesis, n).value;
    NthStored(hashOf, s.index, genesis, n);
    assert Below(s.index[last], s.tip.pow);
    forall k | k in s.index
      ensures Below(s.index[k], s.index[last].pow)
      ensures k != last && s.index[k].status == Mainchain ==>
                s.index[k].pow + Work(s.index[last].header.target) <= s.index[last].pow
    {
      if s.index[k].status == Mainchain {
        AtMostLast(hashOf, s.index, genesis, n, k);
      }
    }
    PowIsAncestorWork(hashOf, s.index, last);
    AncestorWorkCovers(hashOf, s.index, last);
  }

  lemma AtMostLast(hashOf: Header -> Hash, index: Index, genesis: Hash, n: nat, k: Hash)
    requires Forest(hashOf, index) && RootedAt(index, genesis) && OneRoot(index, genesis)
    requires NthBlock(index, genesis, n).Some? && NthBlock(index, genesis, n + 1) == None
    requires k in index && index[k].status == Mainchain
    ensures var last := NthBlock(index, genesis, n).value;
            last in index && (k != last ==> index[k].pow + Work(index[last].header.target) <= index[last].pow)
  {
    var m := index[k].height;
    NthStored(hashOf, index, genesis, n);
    MainchainOnPath(hashOf, index, genesis, k);
    if m > n {
      NoneAfter(index, genesis, n + 1, m);
    } else if m < n {
      PathOrder(hashOf, index, genesis, m, n);
    }
  }

  lemma {:induction false} AncestorWorkCovers(hashOf: Header -> Hash, index: Index, k: Hash)
    requires Forest(hashOf, index) && k in index
    ensures AncestorWork(hashOf, index, k) >= Work(index[k].header.target)
    decreases index[k].height
  {
    if index[k].height > 0 {
      ParentOf(hashOf, index, k);
      AncestorWorkCovers(hashOf, index, index[k].header.prevBlock);
    }
  }

  // ----- runs of arriving headers -----

  datatype Arrival = Arrival(header: Header, now: int)

  function After(hashOf: Header -> Hash, s: Headers, arrivals: seq<Arrival>): (r: Headers)
    decreases |arrivals|
  {
    if arrivals == [] then s
    else After(hashOf, Arrive(hashOf, s, arrivals[0].header, arrivals[0].now), arrivals[1..])
  }

  predicate Accepted(hashOf: Header -> Hash, s: Headers, a: Arrival) {
    TimestampLegal(a.header, a.now) && hashOf(a.header) !in s.index
  }

  /** Every header that is accepted finds its parent already stored. */
  predicate ParentFirst(hashOf: Header -> Hash, s: Headers, arrivals: seq<Arrival>)
    decreases |arrivals|
  {
    arrivals != [] ==>
      && (Accepted(hashOf, s, arrivals[0]) ==> arrivals[0].header.prevBlock in s.index)
      && ParentFirst(hashOf, Arrive(hashOf, s, arrivals[0].header, arrivals[0].now), arrivals[1..])
  }

  lemma {:induction false} RunKeepsRoots(hashOf: Header -> Hash, s: Headers, arrivals: seq<Arrival>, k: Hash)
    requires k in s.index
    ensures var r := After(hashOf, s, arrivals).index; k in r && r[k].height == s.index[k].height
    decreases |arrivals|
  {
    if arrivals != [] {
      RunKeepsRoots(hashOf, Arrive(hashOf, s, arrivals[0].header, arrivals[0].now), arrivals[1..], k);
    }
  }

  lemma {:induction false} ParentFirstExactly(hashOf: Header -> Hash, s: Headers, arrivals: seq<Arrival>, genesis: Hash)
    requires OneRoot(s.index, genesis) && genesis in s.index
    ensures OneRoot(After(hashOf, s, arrivals).index, genesis) <==> ParentFirst(hashOf, s, arrivals)
    decreases |arrivals|
  {
    if arrivals != [] {
      var a := arrivals[0];
      var r := Arrive(hashOf, s, a.header, a.now);
      if Accepted(hashOf, s, a) && a.header.prevBlock !in s.index {
        RunKeepsRoots(hashOf, r, arrivals[1..], hashOf(a.header));
      } else {
        ParentFirstExactly(hashOf, r, arrivals[1..], genesis);
      }
    }
  }

  lemma {:induction false} RunKeepsReachable(hashOf: Header -> Hash, s: Headers, arrivals: seq<Arrival>)
    requires Reachable(hashOf, s)
    ensures Reachable(hashOf, After(hashOf, s, arrivals))
    decreases |arrivals|
  {
    if arrivals != [] {
      ArriveKeepsReachable(hashOf, s, arrivals[0].header, arrivals[0].now);
      RunKeepsReachable(hashOf, Arrive(hashOf, s, arrivals[0].header, arrivals[0].now), arrivals[1..]);
    }
  }

  /** The main-chain invariant over every run of headers that starts with genesis. */
  lemma MainchainOverRuns(hashOf: Header -> Hash, first: Arrival, arrivals: seq<Arrival>)
    requires TimestampLegal(first.header, first.now)
    ensures var genesis, s := hashOf(first.header), After(hashOf, INITIAL, [first] + arrivals);
            && Reachable(hashOf, s) && RootedAt(s.index, genesis)
            && (MainchainIsPath(s.index, genesis) <==>
                ParentFirst(hashOf, Arrive(hashOf, INITIAL, first.header, first.now), arrivals))
            && forall k :: k in s.index ==> s.index[k].pow == AncestorWork(hashOf, s.index, k)
  {
    var genesis, s1 := hashOf(first.header), Arrive(hashOf, INITIAL, first.header, first.now);
    var s := After(hashOf, INITIAL, [first] + arrivals);
    assert ([first] + arrivals)[1..] == arrivals;
    RunKeepsReachable(hashOf, INITIAL, [first] + arrivals);
    RunKeepsRoots(hashOf, s1, arrivals, genesis);
    ParentFirstExactly(hashOf, s1, arrivals, genesis);
    MainchainExactly(hashOf, s.index, genesis);
    forall k | k in s.index
      ensures s.index[k].pow == AncestorWork(hashOf, s.index, k)
    {
      PowIsAncestorWork(hashOf, s.index, k);
    }
  }

  /**
   * The tip over every parent-first run: its work is the greatest on the main chain, and it is the last path block
   * exactly when that block added work.
   */
  lemma TipOverRuns(hashOf: Header -> Hash, first: Arrival, arrivals: seq<Arrival>) returns (n: nat)
    requires TimestampLegal(first.header, first.now)
    requires ParentFirst(hashOf, Arrive(hashOf, INITIAL, first.header, first.now), arrivals)
    ensures var genesis, s := hashOf(first.header), After(hashOf, INITIAL, [first] + arrivals);
            && NthBlock(s.index, genesis, n).Some? && NthBlock(s.index, genesis, n + 1) == None
            && NthBlock(s.index, genesis, n).value in s.index
            && var last := s.index[NthBlock(s.index, genesis, n).value];
               && s.tip.pow == last.pow && (forall k :: k in s.index ==> Below(s.index[k], last.pow))
               && (s.tip.pow > 0.0 && s.tip.hash == last.hash <==> AddsWork(last.header.target))
  {
    var genesis, s := hashOf(first.header), After(hashOf, INITIAL, [first] + arrivals);
    MainchainOverRuns(hashOf, first, arrivals);
    MainchainExactly(hashOf, s.index, genesis);
    n := PathEnds(hashOf, s.index, genesis);
    TipEndsPath(hashOf, s, genesis, n);
    NthStored(hashOf, s.index, genesis, n);
    assert Consistent(hashOf, s.index, NthBlock(s.index, genesis, n).value);
  }

  /** A header whose parent is unknown is filed as main chain although it is off the path: status 0 is MAINCHAIN. */
  lemma OrphanFiledAsMainchain(hashOf: Header -> Hash, first: Arrival, orphan: Arrival)
    requires TimestampLegal(first.header, first.now) && TimestampLegal(orphan.header, orphan.now)
    requires hashOf(orphan.header) != hashOf(first.header) && orphan.header.prevBlock != hashOf(first.header)
    ensures var s := After(hashOf, INITIAL, [first, orphan]);
            && hashOf(orphan.header) in s.index && s.index[hashOf(orphan.header)].status == Mainchain
            && !OnPath(s.index, hashOf(first.header), hashOf(orphan.header))
  {
    var s1 := Arrive(hashOf, INITIAL, first.header, first.now);
    var s2 := Arrive(hashOf, s1, orphan.header, orphan.now);
    assert [first, orphan][1..] == [orphan] && [orphan][1..] == [];
    assert After(hashOf, INITIAL, [first, orphan]) == After(hashOf, s1, [orphan]) == After(hashOf, s2, []) == s2;
  }

  // ----- the operations on the mutable state -----

  class BlockIndices {
    const hashOf: Header -> Hash
    const genesisTarget: Compact
    var entries: Index
    var mainHeaderTip: Entry

    constructor (hashOf: Header -> Hash, genesisTarget: Compact)
      ensures this.hashOf == hashOf && this.genesisTarget == genesisTarget
      ensures State() == INITIAL
    {
      this.hashOf := hashOf;
      this.genesisTarget := genesisTarget;
      entries := map[];
      mainHeaderTip := EMPTY_ENTRY;
    }

    function State(): Headers
      reads this
    {
      Headers(entries, mainHeaderTip)
    }

    /** get_maximal_target: neither -1 nor -2 is ever returned, and a retarget spans exactly one period. */
    method GetMaximalTarget(e: Entry) returns (code: int, result: Compact)
      requires Forest(hashOf, entries)
      requires e.height > 0 ==> e.header.prevBlock in entries && entries[e.header.prevBlock].height == e.height - 1
      ensures code == 0
      ensures e.height < RETARGET_PERIOD ==> result == genesisTarget
      ensures e.height >= RETARGET_PERIOD && e.height % RETARGET_PERIOD != 0 ==> result == entries[e.header.prevBlock].header.target
      ensures e.height >= RETARGET_PERIOD && e.height % RETARGET_PERIOD == 0 ==> RetargetedFrom(e, result)
    {
      result := 0;
      if e.height < RETARGET_PERIOD {
        return 0, genesisTarget;
      } else if e.height % RETARGET_PERIOD != 0 {
        if e.header.prevBlock !in entries { return -1, result; }
        return 0, entries[e.header.prevBlock].header.target;
      }
      var start := e.header.prevBlock;
      BackStored(hashOf, entries, e.header.prevBlock, LOOK_BACK);
      for counter := 0 to LOOK_BACK
        invariant Back(entries, e.header.prevBlock, LOOK_BACK) == Back(entries, start, LOOK_BACK - counter)
      {
        if start !in entries { return -2, result; }
        start := entries[start].header.prevBlock;
      }
      var first, last := entries[start].header, entries[e.header.prevBlock].header;
      if Targetable(last.target) && SizeOf(genesisTarget) >= 3 {
        result := Retarget(last.target, genesisTarget, first.timestamp, last.timestamp);
      } else {
        result := *;
      }
      return 0, result;
    }

    predicate Targetable(c: Compact) {
      3 <= SizeOf(c) <= 32 && SignClear(c)
    }

    /** The target is the retarget of the parent's, over the time since the block one period below. */
    predicate RetargetedFrom(e: Entry, result: Compact)
      reads this
      requires e.header.prevBlock in entries
    {
      var start := Back(entries, e.header.prevBlock, LOOK_BACK);
      && start.Some? && start.value in entries
      && entries[start.value].height == e.height - RETARGET_PERIOD
      && var first, last := entries[start.value].header, entries[e.header.prevBlock].header;
         Targetable(last.target) && SizeOf(genesisTarget) >= 3 ==>
           result == NewTarget(last.target, genesisTarget, (last.timestamp - first.timestamp) % 0x1_0000_0000)
    }

    /** is_block_header_valid compares a hash of zeros with the target, so it accepts every header. */
    method IsHeaderValid(e: Entry) returns (valid: bool)
      requires Forest(hashOf, entries)
      requires e.height > 0 ==> e.header.prevBlock in entries && entries[e.header.prevBlock].height == e.height - 1
      ensures valid
    {
      var code, target := GetMaximalTarget(e);
      if code != 0 || !(3 <= SizeOf(target) <= 32) {
        return true;
      }
      ZeroHashIsZero();
      ZeroSatisfies(ZERO_HASH, target);
      valid := HashSatisfiesTarget(ZERO_HASH, target);
    }

    /** The context fields of a new BlockIndex. */
    method MakeEntry(header: Header, hash: Hash) returns (e: Entry)
      ensures e == NewEntry(hash, entries, header)
    {
      e := EMPTY_ENTRY.(header := header, hash := hash);
      if header.prevBlock in entries {
        var parent := entries[header.prevBlock];
        e := e.(height := parent.height + 1, pow := parent.pow + Work(header.target));
        match parent.status {
          case Mainchain =>
            if parent.children == [] {
              e := e.(status := Mainchain);
            } else {
              e := e.(status := Sidechain);
            }
          case Sidechain => e := e.(status := Sidechain);
          case Orphan => e := e.(status := Orphan);
        }
      } else {
        e := e.(pow := Work(header.target));
      }
    }

    /** process_incoming_block_header. */
    method ProcessHeader(header: Header, now: int) returns (status: int)
      requires Reachable(hashOf, State())
      requires header.prevBlock in entries ==> |entries[header.prevBlock].children| < MAX_CHILDREN
      modifies this
      ensures Reachable(hashOf, State()) && State() == Arrive(hashOf, old(State()), header, now)
      ensures status == if !TimestampLegal(header, now) then -2 else if hashOf(header) in old(entries) then HEADER_EXISTED else 0
    {
      ArriveKeepsReachable(hashOf, State(), header, now);
      if !TimestampLegal(header, now) {
        return -2;
      }
      var hash := hashOf(header);
      if hash in entries {
        return HEADER_EXISTED;
      }
      var e := MakeEntry(header, hash);
      var valid := IsHeaderValid(e);
      if !valid {
        return -100;
      }
      if header.prevBlock in entries {
        var parent := entries[header.prevBlock];
        entries := entries[header.prevBlock := parent.(children := parent.children + [hash])];
      }
      if e.status == Mainchain && e.pow > mainHeaderTip.pow {
        mainHeaderTip := e;
      }
      assert hash !in entries; // the table is only ever set at an absent key
      entries := entries[hash := e];
      return 0;
    }
  }
}
