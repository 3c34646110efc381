/** The chained hash table of src/hashmap.c, as buckets of entries and as linked nodes. */
module Buckets {
  import opened Bytes

  type Key = seq<byte>

  /** One bucket's chain, first node first. */
  type Chain<V> = seq<(Key, V)>

  /** hashmap_get within a bucket: the first entry with the key. */
  function Lookup<V>(c: Chain<V>, key: Key): (r: Option<V>) {
    if c == [] then None else if c[0].0 == key then Some(c[0].1) else Lookup(c[1..], key)
  }

  /** hashmap_set compares the key with the first node, and with every later node but the last. */
  predicate Noticed<V>(c: Chain<V>, key: Key) {
    exists i :: 0 <= i < |c| && c[i].0 == key && (i == 0 || i < |c| - 1)
  }

  /** hashmap_set within a bucket: a noticed key leaves only the new node, any other key is appended. */
  function AfterSet<V>(c: Chain<V>, key: Key, value: V): (r: Chain<V>) {
    if Noticed(c, key) then [(key, value)] else c + [(key, value)]
  }

  predicate HasKey<V>(c: Chain<V>, key: Key) {
    exists i :: 0 <= i < |c| && c[i].0 == key
  }

  ghost predicate DistinctKeys<V>(c: Chain<V>) {
    forall i, j :: 0 <= i < j < |c| ==> c[i].0 != c[j].0
  }

  lemma {:induction false} LookupFinds<V>(c: Chain<V>, i: nat)
    requires DistinctKeys(c) && i < |c|
    ensures Lookup(c, c[i].0) == Some(c[i].1)
  {
    if i > 0 {
      LookupFinds(c[1..], i - 1);
    }
  }

  lemma {:induction false} LookupMisses<V>(c: Chain<V>, key: Key)
    ensures Lookup(c, key) == None <==> !HasKey(c, key)
  {
    if c != [] {
      LookupMisses(c[1..], key);
      if HasKey(c, key) {
        var i :| 0 <= i < |c| && c[i].0 == key;
        if i > 0 {
          assert c[1..][i - 1].0 == key;
        }
      }
      if HasKey(c[1..], key) {
        var i :| 0 <= i < |c[1..]| && c[1..][i].0 == key;
        assert c[i + 1].0 == key;
      }
    }
  }

  lemma {:induction false} LookupAppended<V>(c: Chain<V>, key: Key, value: V, q: Key)
    ensures Lookup(c + [(key, value)], q)
         == if Lookup(c, q).Some? then Lookup(c, q) else if q == key then Some(value) else None
  {
    if c == [] {
      assert ([(key, value)])[1..] == [];
    } else {
      assert (c + [(key, value)])[1..] == c[1..] + [(key, value)];
      LookupAppended(c[1..], key, value, q);
    }
  }

  /** After a set, every lookup answers as a map updated at the key would. */
  ghost predicate MeetsMap<V(!new)>(c: Chain<V>, key: Key, value: V) {
    forall q :: Lookup(AfterSet(c, key, value), q) == if q == key then Some(value) else Lookup(c, q)
  }

  /** The key is new to the bucket, alone in it, or last in it with this value already. */
  predicate SafeSet<V(==)>(c: Chain<V>, key: Key, value: V) {
    || !HasKey(c, key)
    || |c| == 1
    || (c[|c| - 1].0 == key && c[|c| - 1].1 == value)
  }

  /** hashmap_set refines a map update exactly for a safe set. */
  lemma SetMeetsMap<V(!new)>(c: Chain<V>, key: Key, value: V)
    requires DistinctKeys(c)
    ensures MeetsMap(c, key, value) <==> SafeSet(c, key, value)
  {
    LookupMisses(c, key);
    if !HasKey(c, key) {
      assert !Noticed(c, key);
      forall q ensures Lookup(AfterSet(c, key, value), q) == if q == key then Some(value) else Lookup(c, q) {
        LookupAppended(c, key, value, q);
      }
    } else if Noticed(c, key) {
      SetMeetsMapNoticed(c, key, value);
    } else {
      SetMeetsMapUnnoticed(c, key, value);
    }
  }

  lemma SetMeetsMapNoticed<V(!new)>(c: Chain<V>, key: Key, value: V)
    requires DistinctKeys(c) && Noticed(c, key)
    ensures MeetsMap(c, key, value) <==> SafeSet(c, key, value)
  {
    var i :| 0 <= i < |c| && c[i].0 == key && (i == 0 || i < |c| - 1);
    assert AfterSet(c, key, value)[1..] == [];
    if |c| > 1 {
      var other := c[if i == 0 then 1 else 0].0;
      LookupFinds(c, if i == 0 then 1 else 0);
      assert other != key;
      assert Lookup(AfterSet(c, key, value), other) == None;
    } else {
      forall q ensures Lookup(AfterSet(c, key, value), q) == if q == key then Some(value) else Lookup(c, q) {
        assert c[1..] == [];
      }
    }
  }

  lemma SetMeetsMapUnnoticed<V(!new)>(c: Chain<V>, key: Key, value: V)
    requires DistinctKeys(c) && HasKey(c, key) && !Noticed(c, key)
    ensures MeetsMap(c, key, value) <==> SafeSet(c, key, value)
  {
    var i :| 0 <= i < |c| && c[i].0 == key;
    assert i == |c| - 1 > 0;
    LookupFinds(c, i);
    LookupAppended(c, key, value, key);
    if c[i].1 == value {
      forall q ensures Lookup(AfterSet(c, key, value), q) == if q == key then Some(value) else Lookup(c, q) {
        LookupAppended(c, key, value, q);
      }
    }
  }

  /** Keys stay distinct under a set of an absent key or of a key alone in its bucket. */
  lemma SetKeepsDistinct<V>(c: Chain<V>, key: Key, value: V)
    requires DistinctKeys(c) && (!HasKey(c, key) || |c| == 1)
    ensures DistinctKeys(AfterSet(c, key, value))
  {
    if !HasKey(c, key) {
      assert !Noticed(c, key);
    } else {
      assert c[0].0 == key;
    }
  }

  // ----- the whole table -----

  type Table<V> = seq<Chain<V>>

  function BucketOf(sha256: Key -> Hash, key: Key, count: nat): (b: nat)
    requires count > 0
    ensures b < count
  {
    CombineUint32(sha256(key)[..4]) % count
  }

  function Get<V>(sha256: Key -> Hash, t: Table<V>, key: Key): (r: Option<V>)
    requires t != []
  {
    Lookup(t[BucketOf(sha256, key, |t|)], key)
  }

  function Set<V>(sha256: Key -> Hash, t: Table<V>, key: Key, value: V): (r: Table<V>)
    requires t != []
  {
    var b := BucketOf(sha256, key, |t|);
    t[b := AfterSet(t[b], key, value)]
  }

  ghost predicate WellFormed<V>(sha256: Key -> Hash, t: Table<V>) {
    && t != []
    && (forall b :: 0 <= b < |t| ==> DistinctKeys(t[b]))
    && (forall b, i :: 0 <= b < |t| && 0 <= i < |t[b]| ==> BucketOf(sha256, t[b][i].0, |t|) == b)
  }

  /** The table and a map give the same answers. */
  ghost predicate Represents<V(!new)>(sha256: Key -> Hash, t: Table<V>, m: map<Key, V>)
    requires t != []
  {
    forall q :: Get(sha256, t, q) == if q in m then Some(m[q]) else None
  }

  /** A set of a key that is absent, or alone in its bucket. */
  predicate Admissible<V>(sha256: Key -> Hash, t: Table<V>, key: Key)
    requires t != []
  {
    var c := t[BucketOf(sha256, key, |t|)];
    !HasKey(c, key) || |c| == 1
  }

  lemma SetRepresents<V(!new)>(sha256: Key -> Hash, t: Table<V>, m: map<Key, V>, key: Key, value: V)
    requires WellFormed(sha256, t) && Represents(sha256, t, m) && Admissible(sha256, t, key)
    ensures WellFormed(sha256, Set(sha256, t, key, value))
    ensures Represents(sha256, Set(sha256, t, key, value), m[key := value])
  {
    var b := BucketOf(sha256, key, |t|);
    var r := Set(sha256, t, key, value);
    SetMeetsMap(t[b], key, value);
    SetKeepsDistinct(t[b], key, value);
    forall q ensures Get(sha256, r, q) == if q in m[key := value] then Some(m[key := value][q]) else None {
      assert Get(sha256, t, q) == if q in m then Some(m[q]) else None;
    }
  }

  /** The table hashmap_init leaves: no node in any bucket. */
  function EmptyTable<V>(bucketCount: nat): (t: Table<V>)
    ensures |t| == bucketCount && forall b :: 0 <= b < bucketCount ==> t[b] == []
  {
    if bucketCount == 0 then [] else EmptyTable(bucketCount - 1) + [[]]
  }

  lemma EmptyRepresents<V(!new)>(sha256: Key -> Hash, bucketCount: nat)
    requires bucketCount > 0
    ensures WellFormed<V>(sha256, EmptyTable(bucketCount))
    ensures Represents<V>(sha256, EmptyTable(bucketCount), map[])
  {
    var t: Table<V> := EmptyTable(bucketCount);
    forall q: Key
      ensures Get(sha256, t, q) == None
    {
      assert t[BucketOf(sha256, q, |t|)] == [];
    }
  }

  /** A history of sets, each of which was admissible when it happened. */
  ghost predicate AdmissibleRun<V>(sha256: Key -> Hash, t: Table<V>, sets: seq<(Key, V)>)
    requires t != []
    decreases |sets|
  {
    sets == [] || (Admissible(sha256, t, sets[0].0) && AdmissibleRun(sha256, Set(sha256, t, sets[0].0, sets[0].1), sets[1..]))
  }

  function RunSets<V>(sha256: Key -> Hash, t: Table<V>, sets: seq<(Key, V)>): (r: Table<V>)
    requires t != []
    ensures r != []
    decreases |sets|
  {
    if sets == [] then t else RunSets(sha256, Set(sha256, t, sets[0].0, sets[0].1), sets[1..])
  }

  function RunUpdates<V>(m: map<Key, V>, sets: seq<(Key, V)>): (r: map<Key, V>)
    decreases |sets|
  {
    if sets == [] then m else RunUpdates(m[sets[0].0 := sets[0].1], sets[1..])
  }

  /** Over any admissible run the table answers every lookup as the updated map does. */
  lemma {:induction false} RunRepresents<V(!new)>(sha256: Key -> Hash, t: Table<V>, m: map<Key, V>, sets: seq<(Key, V)>)
    requires WellFormed(sha256, t) && Represents(sha256, t, m) && AdmissibleRun(sha256, t, sets)
    ensures WellFormed(sha256, RunSets(sha256, t, sets))
    ensures Represents(sha256, RunSets(sha256, t, sets), RunUpdates(m, sets))
    decreases |sets|
  {
    if sets != [] {
      SetRepresents(sha256, t, m, sets[0].0, sets[0].1);
      RunRepresents(sha256, Set(sha256, t, sets[0].0, sets[0].1), m[sets[0].0 := sets[0].1], sets[1..]);
    }
  }

  // ----- writing through the pointer a lookup returned -----

  function FirstIndex<V>(c: Chain<V>, key: Key): (i: nat)
    ensures i <= |c|
    ensures i < |c| <==> Lookup(c, key).Some?
    ensures i < |c| ==> c[i].0 == key
  {
    if c == [] then 0 else if c[0].0 == key then 0 else 1 + FirstIndex(c[1..], key)
  }

  function Stored<V>(sha256: Key -> Hash, t: Table<V>, key: Key, value: V): (r: Table<V>)
    requires t != [] && Get(sha256, t, key).Some?
  {
    var b := BucketOf(sha256, key, |t|);
    t[b := t[b][FirstIndex(t[b], key) := (key, value)]]
  }

  lemma {:induction false} LookupStored<V>(c: Chain<V>, key: Key, value: V, q: Key)
    requires Lookup(c, key).Some?
    ensures Lookup(c[FirstIndex(c, key) := (key, value)], q) == if q == key then Some(value) else Lookup(c, q)
  {
    if c[0].0 != key {
      var i := FirstIndex(c[1..], key);
      assert c[i + 1 := (key, value)][1..] == c[1..][i := (key, value)];
      LookupStored(c[1..], key, value, q);
    } else {
      assert c[0 := (key, value)][1..] == c[1..];
    }
  }

  /** A write through the pointer is a map update, whatever else shares the bucket. */
  lemma StoredRepresents<V(!new)>(sha256: Key -> Hash, t: Table<V>, m: map<Key, V>, key: Key, value: V)
    requires WellFormed(sha256, t) && Represents(sha256, t, m) && key in m
    ensures Get(sha256, t, key).Some? && WellFormed(sha256, Stored(sha256, t, key, value))
    ensures Represents(sha256, Stored(sha256, t, key, value), m[key := value])
  {
    assert Get(sha256, t, key) == Some(m[key]);
    var b := BucketOf(sha256, key, |t|);
    var r := Stored(sha256, t, key, value);
    forall q ensures Get(sha256, r, q) == if q in m[key := value] then Some(m[key := value][q]) else None {
      assert Get(sha256, t, q) == if q in m then Some(m[q]) else None;
      LookupStored(t[b], key, value, q);
    }
  }

  // ----- listing the keys -----

  function ChainKeys<V>(c: Chain<V>): (r: seq<Key>)
    ensures |r| == |c| && forall i :: 0 <= i < |c| ==> r[i] == c[i].0
  {
    seq(|c|, i requires 0 <= i < |c| => c[i].0)
  }

  /** hashmap_getkeys: bucket after bucket. */
  function Keys<V>(t: Table<V>): (r: seq<Key>) {
    if t == [] then [] else Keys(t[..|t| - 1]) + ChainKeys(t[|t| - 1])
  }

  lemma KeysStep<V>(t: Table<V>, b: nat)
    requires b < |t|
    ensures Keys(t[..b + 1]) == Keys(t[..b]) + ChainKeys(t[b])
  {
    assert t[..b + 1][..b] == t[..b];
  }

  lemma {:induction false} KeysListed<V>(t: Table<V>, key: Key)
    ensures key in Keys(t) <==> exists b :: 0 <= b < |t| && HasKey(t[b], key)
  {
    if t != [] {
      var front, last := t[..|t| - 1], t[|t| - 1];
      KeysListed(front, key);
      if key in ChainKeys(last) {
        var i :| 0 <= i < |last| && ChainKeys(last)[i] == key;
        assert last[i].0 == key;
        assert HasKey(t[|t| - 1], key);
      }
      if exists b :: 0 <= b < |t| && HasKey(t[b], key) {
        var b :| 0 <= b < |t| && HasKey(t[b], key);
        if b < |t| - 1 {
          assert HasKey(front[b], key);
        } else {
          var i :| 0 <= i < |last| && last[i].0 == key;
          assert ChainKeys(last)[i] == key;
        }
      }
      if key in Keys(front) {
        var b :| 0 <= b < |front| && HasKey(front[b], key);
        assert HasKey(t[b], key);
      }
    }
  }

  /** Buckets whose keys do not meet list no key twice. */
  lemma {:induction false} KeysOnce<V>(t: Table<V>)
    requires forall b :: 0 <= b < |t| ==> DistinctKeys(t[b])
    requires forall b, c, key :: 0 <= b < c < |t| && HasKey(t[b], key) ==> !HasKey(t[c], key)
    ensures NoRepeats(Keys(t))
  {
    if t != [] {
      var front, last := t[..|t| - 1], t[|t| - 1];
      forall b, c, key | 0 <= b < c < |front| && HasKey(front[b], key) ensures !HasKey(front[c], key) {
        assert HasKey(t[b], key);
      }
      KeysOnce(front);
      var a, z := Keys(front), ChainKeys(last);
      forall i, j | 0 <= i < |a| && 0 <= j < |z| ensures a[i] != z[j] {
        KeysListed(front, a[i]);
        var b :| 0 <= b < |front| && HasKey(front[b], a[i]);
        assert HasKey(t[b], a[i]);
        assert z[j] == last[j].0;
        assert HasKey(t[|t| - 1], z[j]);
      }
    }
  }

  /** For a table that represents a map, the listing names each of the map's keys exactly once. */
  lemma KeysOfMap<V(!new)>(sha256: Key -> Hash, t: Table<V>, m: map<Key, V>)
    requires WellFormed(sha256, t) && Represents(sha256, t, m)
    ensures NoRepeats(Keys(t)) && forall key :: key in Keys(t) <==> key in m
  {
    forall b, c, key | 0 <= b < c < |t| && HasKey(t[b], key) ensures !HasKey(t[c], key) {
      var i :| 0 <= i < |t[b]| && t[b][i].0 == key;
      assert BucketOf(sha256, key, |t|) == b;
    }
    KeysOnce(t);
    forall key ensures key in Keys(t) <==> key in m {
      KeysListed(t, key);
      var home := BucketOf(sha256, key, |t|);
      LookupMisses(t[home], key);
      assert Get(sha256, t, key) == if key in m then Some(m[key]) else None;
      if exists b :: 0 <= b < |t| && HasKey(t[b], key) {
        var b :| 0 <= b < |t| && HasKey(t[b], key);
        var i :| 0 <= i < |t[b]| && t[b][i].0 == key;
        assert BucketOf(sha256, t[b][i].0, |t|) == b;
      }
    }
  }
}

/** The nodes and pointers of src/hashmap.c. */
module HashTable {
  import opened Bytes
  import opened Buckets

  class HashmapNode<V> {
    const key: Key
    var value: V
    var next: HashmapNode?<V>

    constructor (key: Key, value: V)
      ensures this.key == key && this.value == value && next == null
    {
      this.key, this.value, next := key, value, null;
    }
  }

  ghost function NodeAt<V>(nodes: seq<HashmapNode<V>>, i: nat): (node: HashmapNode?<V>) {
    if i < |nodes| then nodes[i] else null
  }

  ghost predicate Linked<V>(nodes: seq<HashmapNode<V>>)
    reads nodes
  {
    && (forall i, j :: 0 <= i < j < |nodes| ==> nodes[i] != nodes[j])
    && (forall i {:trigger nodes[i].next} :: 0 <= i < |nodes| ==> nodes[i].next == NodeAt(nodes, i + 1))
  }

  ghost function Entries<V>(nodes: seq<HashmapNode<V>>): (c: Chain<V>)
    reads nodes
    ensures |c| == |nodes|
    ensures forall i :: 0 <= i < |c| ==> c[i] == (nodes[i].key, nodes[i].value)
  {
    seq(|nodes|, i requires 0 <= i < |nodes| reads nodes => (nodes[i].key, nodes[i].value))
  }

  method LinkBehind<V>(ghost chain: seq<HashmapNode<V>>, last: HashmapNode<V>, node: HashmapNode<V>)
    requires chain != [] && last == chain[|chain| - 1] && Linked(chain) && node !in chain && node.next == null
    modifies last`next
    ensures Linked(chain + [node]) && Entries(chain + [node]) == old(Entries(chain)) + [(node.key, node.value)]
  {
    last.next := node;
  }

  class Hashmap<V> {
    const sha256: Key -> Hash
    const data: array<HashmapNode?<V>>
    /** The nodes of every bucket, in chain order, and all of them together. */
    ghost var chains: seq<seq<HashmapNode<V>>>
    ghost var nodes: set<HashmapNode<V>>

    ghost predicate Valid()
      reads this, data, nodes
    {
      && |chains| == data.Length > 0
      && (forall b, i :: 0 <= b < |chains| && 0 <= i < |chains[b]| ==> chains[b][i] in nodes)
      && (forall b :: 0 <= b < |chains| ==> data[b] == NodeAt(chains[b], 0))
      && (forall b :: 0 <= b < |chains| ==> Linked(chains[b]))
      && (forall b, i :: 0 <= b < |chains| && 0 <= i < |chains[b]| ==> BucketOf(sha256, chains[b][i].key, data.Length) == b)
    }

    ghost function View(): (t: Table<V>)
      requires Valid()
      reads this, data, nodes
      ensures |t| == data.Length
      ensures forall b :: 0 <= b < |t| ==> t[b] == Entries(chains[b])
    {
      seq(|chains|, b requires 0 <= b < |chains| && Valid() reads this, data, nodes => Entries(chains[b]))
    }

    /** hashmap_init. */
    constructor (sha256: Key -> Hash, bucketCount: nat)
      requires bucketCount > 0
      ensures Valid() && fresh(data) && data.Length == bucketCount && this.sha256 == sha256 && nodes == {}
      ensures View() == EmptyTable<V>(bucketCount)
    {
      this.sha256 := sha256;
      data := new HashmapNode?<V>[bucketCount](_ => null);
      chains := seq(bucketCount, _ => []);
      nodes := {};
    }

    /** hashmap_get. */
    method Get(key: Key) returns (r: Option<V>)
      requires Valid()
      ensures r == Buckets.Get(sha256, View(), key)
    {
      var b := BucketOf(sha256, key, data.Length);
      var node := data[b];
      ghost var c, i := Entries(chains[b]), 0;
      if node == null {
        return None;
      }
      while node.key != key
        invariant 0 <= i < |c| && node == chains[b][i]
        invariant Lookup(c[i..], key) == Lookup(c, key)
        decreases |c| - i
      {
        assert c[i..][1..] == c[i + 1..];
        if node.next == null {
          assert c[i + 1..] == [];
          return None;
        }
        node := node.next;
        i := i + 1;
      }
      return Some(node.value);
    }

    /** The new node takes over bucket `b`; whatever was chained there is dropped. */
    method ReplaceBucket(b: nat, node: HashmapNode<V>)
      requires Valid() && node !in nodes && node.next == null && b == BucketOf(sha256, node.key, data.Length)
      modifies this`chains, this`nodes, data
      ensures Valid() && nodes == old(nodes) + {node}
      ensures View() == old(View())[b := [(node.key, node.value)]]
    {
      data[b] := node;
      chains := chains[b := [node]];
      nodes := nodes + {node};
      assert Entries(chains[b]) == [(node.key, node.value)];
    }

    /** The new node is linked behind the last node of bucket `b`. */
    method AppendNode(b: nat, last: HashmapNode<V>, node: HashmapNode<V>)
      requires Valid() && node !in nodes && node.next == null && b == BucketOf(sha256, node.key, data.Length)
      requires chains[b] != [] && last == chains[b][|chains[b]| - 1]
      modifies this`chains, this`nodes, last`next
      ensures Valid() && nodes == old(nodes) + {node}
      ensures View() == old(View())[b := old(View())[b] + [(node.key, node.value)]]
    {
      ghost var was, view := chains[b], View();
      LastOfChain(b, last);
      LinkBehind(was, last, node);
      chains := chains[b := was + [node]];
      nodes := nodes + {node};
      forall c | 0 <= c < |chains| && c != b ensures Linked(chains[c]) && Entries(chains[c]) == view[c] {
        assert chains[c] == old(chains)[c];
      }
      assert NodeAt(chains[b], 0) == NodeAt(was, 0);
      assert Valid();
      assert View()[b] == view[b] + [(node.key, node.value)];
      assert View() == view[b := view[b] + [(node.key, node.value)]];
    }

    /** The last node of a bucket stands nowhere else. */
    lemma LastOfChain(b: nat, last: HashmapNode<V>)
      requires Valid() && b < data.Length && chains[b] != [] && last == chains[b][|chains[b]| - 1]
      ensures last.next == null
      ensures forall c, i :: 0 <= c < |chains| && 0 <= i < |chains[c]| && (c != b || i != |chains[b]| - 1) ==> chains[c][i] != last
    {
    }

    /** hashmap_set. */
    method Set(key: Key, value: V)
      requires Valid()
      modifies this, data, nodes
      ensures Valid() && fresh(nodes - old(nodes))
      ensures View() == Buckets.Set(sha256, old(View()), key, value)
    {
      var node := new HashmapNode(key, value);
      var b := BucketOf(sha256, key, data.Length);
      var search := data[b];
      ghost var c, i := Entries(chains[b]), 0;
      if search == null {
        assert !Noticed(c, key) && c + [(key, value)] == [(key, value)];
        ReplaceBucket(b, node);
        return;
      }
      if search.key == key {
        assert Noticed(c, key) by { assert c[0].0 == key; }
        ReplaceBucket(b, node);
        return;
      }
      while search.next != null
        invariant 0 <= i < |c| && search == chains[b][i]
        invariant forall j :: 0 <= j < i || j == 0 ==> c[j].0 != key
        decreases |c| - i
      {
        if search.key == key {
          assert Noticed(c, key) by { assert c[i].0 == key; }
          ReplaceBucket(b, node);
          return;
        }
        search := search.next;
        i := i + 1;
      }
      assert !Noticed(c, key);
      AppendNode(b, search, node);
    }

    /** The search of hashmap_get, by pointer. */
    method Find(key: Key) returns (node: HashmapNode?<V>)
      requires Valid()
      ensures var b := BucketOf(sha256, key, data.Length);
              node == NodeAt(chains[b], FirstIndex(View()[b], key))
    {
      var b := BucketOf(sha256, key, data.Length);
      node := data[b];
      ghost var c, i := Entries(chains[b]), 0;
      assert c[0..] == c;
      while node != null && node.key != key
        invariant 0 <= i <= |c| && node == NodeAt(chains[b], i)
        invariant FirstIndex(c, key) == i + FirstIndex(c[i..], key)
        decreases |c| - i
      {
        assert c[i..][1..] == c[i + 1..];
        node := node.next;
        i := i + 1;
      }
    }

    /** A write through the pointer hashmap_get returned: only that key's first entry changes. */
    method Store(key: Key, value: V) returns (found: bool)
      requires Valid()
      modifies nodes
      ensures Valid() && found == Buckets.Get(sha256, old(View()), key).Some?
      ensures View() == if found then Stored(sha256, old(View()), key, value) else old(View())
    {
      ghost var b := BucketOf(sha256, key, data.Length);
      ghost var i := FirstIndex(View()[b], key);
      var node := Find(key);
      found := node != null;
      if found {
        WriteNode(node, value, b, i);
      }
    }

    method WriteNode(node: HashmapNode<V>, value: V, ghost b: nat, ghost i: nat)
      requires Valid() && b < data.Length && i < |chains[b]| && chains[b][i] == node
      modifies node`value
      ensures Valid() && View() == old(View())[b := old(View())[b][i := (node.key, value)]]
    {
      ghost var view := View();
      OnlyPlace(b, i, node);
      node.value := value;
      forall c | 0 <= c < |chains| ensures Entries(chains[c]) == if c == b then view[b][i := (node.key, value)] else view[c] {
      }
    }

    lemma OnlyPlace(b: nat, i: nat, node: HashmapNode<V>)
      requires Valid() && b < data.Length && i < |chains[b]| && chains[b][i] == node
      ensures forall c, j :: 0 <= c < |chains| && 0 <= j < |chains[c]| && (c != b || j != i) ==> chains[c][j] != node
    {
    }

    /** The inner loops of hashmap_getkeys. */
    method BucketKeys(bucket: nat) returns (keys: seq<Key>)
      requires Valid() && bucket < data.Length
      ensures keys == ChainKeys(View()[bucket])
    {
      keys := [];
      var node := data[bucket];
      ghost var c, i := View()[bucket], 0;
      while node != null
        invariant 0 <= i <= |c| && node == NodeAt(chains[bucket], i)
        invariant keys == ChainKeys(c)[..i]
        decreases |c| - i
      {
        keys := keys + [node.key];
        node := node.next;
        i := i + 1;
      }
      assert ChainKeys(c)[..|c|] == ChainKeys(c);
    }

    /** hashmap_getkeys. */
    method GetKeys() returns (keys: seq<Key>)
      requires Valid()
      ensures keys == Keys(View())
    {
      keys := [];
      ghost var t := View();
      assert t[..0] == [];
      for bucket := 0 to data.Length
        invariant keys == Keys(t[..bucket])
      {
        var more := BucketKeys(bucket);
        keys := keys + more;
        KeysStep(t, bucket);
      }
      assert t[..data.Length] == t;
    }
  }
}
