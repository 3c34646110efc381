/** Merkle roots (compute_merkle_root in src/messages/tx.c). */
module Merkle {
  import opened Bytes

  /** dsha256 of two hashes side by side. */
  function Pair(dsha: seq<byte> -> Hash, l: Hash, r: Hash): (h: Hash) {
    dsha(l + r)
  }

  /** One level: neighbours paired, an odd last hash paired with itself. */
  function Level(dsha: seq<byte> -> Hash, s: seq<Hash>): (r: seq<Hash>)
    ensures |r| == (|s| + 1) / 2
  {
    if |s| == 0 then []
    else if |s| == 1 then [Pair(dsha, s[0], s[0])]
    else [Pair(dsha, s[0], s[1])] + Level(dsha, s[2..])
  }

  /** The root, level by level. */
  function Root(dsha: seq<byte> -> Hash, s: seq<Hash>): (h: Hash)
    requires s != []
    decreases |s|
  {
    if |s| == 1 then s[0] else Root(dsha, Level(dsha, s))
  }

  /** The hash at place `i` of the level over `s`. */
  function Joined(dsha: seq<byte> -> Hash, s: seq<Hash>, i: nat): (h: Hash)
    requires 2 * i < |s|
  {
    Pair(dsha, s[2 * i], if 2 * i + 1 < |s| then s[2 * i + 1] else s[2 * i])
  }

  lemma {:induction false} LevelAt(dsha: seq<byte> -> Hash, s: seq<Hash>, i: nat)
    requires 2 * i < |s|
    ensures Level(dsha, s)[i] == Joined(dsha, s, i)
  {
    if i > 0 {
      LevelAt(dsha, s[2..], i - 1);
    }
  }

  // ----- the tree, read from the top -----

  function Pow2(d: nat): (n: nat)
    ensures n > 0
  {
    if d == 0 then 1 else 2 * Pow2(d - 1)
  }

  /**
   * The tree of height `d` over at most 2^d leaves: a full left half beside the rest, or, when the leaves fit in
   * the left half, that half paired with itself.
   */
  function Tree(dsha: seq<byte> -> Hash, leaves: seq<Hash>, d: nat): (h: Hash)
    requires 0 < |leaves| <= Pow2(d)
    decreases d
  {
    if d == 0 then leaves[0]
    else
      var half := Pow2(d - 1);
      if |leaves| <= half then Pair(dsha, Tree(dsha, leaves, d - 1), Tree(dsha, leaves, d - 1))
      else Pair(dsha, Tree(dsha, leaves[..half], d - 1), Tree(dsha, leaves[half..], d - 1))
  }

  /** The height of the tree over `n` leaves. */
  function Height(n: nat): (d: nat)
    requires n > 0
    ensures n <= Pow2(d)
    decreases n
  {
    if n == 1 then 0 else 1 + Height((n + 1) / 2)
  }

  lemma TreeOfFew(dsha: seq<byte> -> Hash, s: seq<Hash>, d: nat)
    requires 0 < |s| <= Pow2(d)
    ensures Tree(dsha, s, d + 1) == Pair(dsha, Tree(dsha, s, d), Tree(dsha, s, d))
  {
  }

  lemma TreeOfHalves(dsha: seq<byte> -> Hash, a: seq<Hash>, b: seq<Hash>, d: nat)
    requires |a| == Pow2(d) && 0 < |b| <= Pow2(d)
    ensures Tree(dsha, a + b, d + 1) == Pair(dsha, Tree(dsha, a, d), Tree(dsha, b, d))
  {
    assert (a + b)[..|a|] == a && (a + b)[|a|..] == b;
  }

  /** `l` is the level over `s`, place by place. */
  ghost predicate Collapses(dsha: seq<byte> -> Hash, s: seq<Hash>, l: seq<Hash>) {
    |l| == (|s| + 1) / 2 && forall i :: 0 <= i < |l| ==> l[i] == Joined(dsha, s, i)
  }

  lemma LevelCollapses(dsha: seq<byte> -> Hash, s: seq<Hash>)
    ensures Collapses(dsha, s, Level(dsha, s))
  {
    forall i | 0 <= i < |Level(dsha, s)| ensures Level(dsha, s)[i] == Joined(dsha, s, i) {
      LevelAt(dsha, s, i);
    }
  }

  lemma HalvesCollapse(dsha: seq<byte> -> Hash, s: seq<Hash>, l: seq<Hash>, half: nat)
    requires Collapses(dsha, s, l) && 2 * half <= |s|
    ensures Collapses(dsha, s[..2 * half], l[..half]) && Collapses(dsha, s[2 * half..], l[half..])
  {
    var a, b := s[..2 * half], s[2 * half..];
    forall i | 0 <= i < half ensures l[i] == Joined(dsha, a, i) {
      assert l[i] == Joined(dsha, s, i);
    }
    forall i | 0 <= i < |l| - half ensures l[half..][i] == Joined(dsha, b, i) {
      assert l[half + i] == Joined(dsha, s, half + i);
    }
  }

  /** Collapsing the leaves by one level takes one level off the tree. */
  lemma {:induction false} CollapsedTree(dsha: seq<byte> -> Hash, s: seq<Hash>, l: seq<Hash>, d: nat)
    requires 0 < |s| <= Pow2(d + 1) && Collapses(dsha, s, l)
    ensures |l| <= Pow2(d) && Tree(dsha, l, d) == Tree(dsha, s, d + 1)
  {
    if d == 0 {
      assert l[0] == Joined(dsha, s, 0);
    } else if |s| <= Pow2(d) {
      CollapsedTree(dsha, s, l, d - 1);
      TreeOfFew(dsha, s, d);
      TreeOfFew(dsha, l, d - 1);
    } else {
      var half := Pow2(d - 1);
      HalvesCollapse(dsha, s, l, half);
      CollapsedTree(dsha, s[..2 * half], l[..half], d - 1);
      CollapsedTree(dsha, s[2 * half..], l[half..], d - 1);
    }
  }

  /** Collapsing level by level gives the top of the tree. */
  lemma {:induction false} RootIsTree(dsha: seq<byte> -> Hash, s: seq<Hash>)
    requires s != []
    ensures Root(dsha, s) == Tree(dsha, s, Height(|s|))
    decreases |s|
  {
    if |s| > 1 {
      var l := Level(dsha, s);
      RootIsTree(dsha, l);
      LevelCollapses(dsha, s);
      CollapsedTree(dsha, s, l, Height(|l|));
    }
  }

  // ----- what a root commits to -----

  function Side(l: seq<byte>, r: seq<byte>): (s: seq<byte>) {
    l + r
  }

  /** The 64-byte strings hashed to collapse one level, in order. */
  function LevelInputs(s: seq<Hash>): (r: seq<seq<byte>>)
    ensures |r| == (|s| + 1) / 2
  {
    if |s| == 0 then []
    else if |s| == 1 then [Side(s[0], s[0])]
    else [Side(s[0], s[1])] + LevelInputs(s[2..])
  }

  /** Every string hashed on the way to a root. */
  function Inputs(dsha: seq<byte> -> Hash, s: seq<Hash>): (r: set<seq<byte>>)
    decreases |s|
  {
    if |s| <= 1 then {} else (set x | x in LevelInputs(s)) + Inputs(dsha, Level(dsha, s))
  }

  /** Two different strings, one hashed on each side, with the same hash. */
  ghost predicate CollisionBetween(dsha: seq<byte> -> Hash, xs: set<seq<byte>>, ys: set<seq<byte>>) {
    exists x, y :: x in xs && y in ys && x != y && dsha(x) == dsha(y)
  }

  lemma {:induction false} LevelFromInputs(dsha: seq<byte> -> Hash, s: seq<Hash>, i: nat)
    requires i < |Level(dsha, s)|
    ensures Level(dsha, s)[i] == dsha(LevelInputs(s)[i])
  {
    if i > 0 {
      LevelFromInputs(dsha, s[2..], i - 1);
    }
  }

  /** The strings hashed determine the hashes below them. */
  lemma {:induction false} InputsDetermine(s: seq<Hash>, t: seq<Hash>)
    requires |s| == |t| && LevelInputs(s) == LevelInputs(t)
    ensures s == t
  {
    if |s| == 1 {
      assert LevelInputs(s)[0][..32] == s[0] && LevelInputs(t)[0][..32] == t[0];
    } else if |s| > 1 {
      var x, y := LevelInputs(s)[0], LevelInputs(t)[0];
      assert x[..32] == s[0] && x[32..] == s[1] && y[..32] == t[0] && y[32..] == t[1];
      assert LevelInputs(s[2..]) == LevelInputs(s)[1..] && LevelInputs(t[2..]) == LevelInputs(t)[1..];
      InputsDetermine(s[2..], t[2..]);
      assert s == [s[0], s[1]] + s[2..] && t == [t[0], t[1]] + t[2..];
    }
  }

  lemma LevelCommits(dsha: seq<byte> -> Hash, s: seq<Hash>, t: seq<Hash>)
    requires |s| == |t| && |s| > 1 && Level(dsha, s) == Level(dsha, t)
    ensures s == t || CollisionBetween(dsha, Inputs(dsha, s), Inputs(dsha, t))
  {
    var xs, ys := LevelInputs(s), LevelInputs(t);
    if xs == ys {
      InputsDetermine(s, t);
    } else {
      var i :| 0 <= i < |xs| && xs[i] != ys[i];
      LevelFromInputs(dsha, s, i);
      LevelFromInputs(dsha, t, i);
      assert xs[i] in Inputs(dsha, s) && ys[i] in Inputs(dsha, t);
    }
  }

  /** Lists of equal length with equal roots are equal, or computing the two roots exhibits a hash collision. */
  lemma {:induction false} RootCommits(dsha: seq<byte> -> Hash, s: seq<Hash>, t: seq<Hash>)
    requires s != [] && |s| == |t| && Root(dsha, s) == Root(dsha, t)
    ensures s == t || CollisionBetween(dsha, Inputs(dsha, s), Inputs(dsha, t))
    decreases |s|
  {
    if |s| > 1 {
      RootCommits(dsha, Level(dsha, s), Level(dsha, t));
      if Level(dsha, s) == Level(dsha, t) {
        LevelCommits(dsha, s, t);
      } else {
        var x, y :| x in Inputs(dsha, Level(dsha, s)) && y in Inputs(dsha, Level(dsha, t)) && x != y && dsha(x) == dsha(y);
        assert x in Inputs(dsha, s) && y in Inputs(dsha, t);
      }
    } else {
      assert s == [s[0]] && t == [t[0]];
    }
  }

  /** The 2^d leaves of the full tree: where the right half is missing, the left half stands in again. */
  function Padded(s: seq<Hash>, d: nat): (r: seq<Hash>)
    requires 0 < |s| <= Pow2(d)
    ensures |r| == Pow2(d)
    decreases d
  {
    if d == 0 then s
    else
      var half := Pow2(d - 1);
      if |s| <= half then Padded(s, d - 1) + Padded(s, d - 1)
      else Padded(s[..half], d - 1) + Padded(s[half..], d - 1)
  }

  lemma {:induction false} PaddedKeepsTree(dsha: seq<byte> -> Hash, s: seq<Hash>, d: nat)
    requires 0 < |s| <= Pow2(d)
    ensures Tree(dsha, Padded(s, d), d) == Tree(dsha, s, d)
    decreases d
  {
    if d > 0 {
      var half := Pow2(d - 1);
      var a, b := if |s| <= half then s else s[..half], if |s| <= half then s else s[half..];
      assert Tree(dsha, s, d) == Pair(dsha, Tree(dsha, a, d - 1), Tree(dsha, b, d - 1));
      PaddedKeepsTree(dsha, a, d - 1);
      PaddedKeepsTree(dsha, b, d - 1);
      PairOfPadded(dsha, s, a, b, d - 1);
    }
  }

  lemma PairOfPadded(dsha: seq<byte> -> Hash, s: seq<Hash>, a: seq<Hash>, b: seq<Hash>, d: nat)
    requires 0 < |s| <= Pow2(d + 1) && 0 < |a| <= Pow2(d) && 0 < |b| <= Pow2(d)
    requires Padded(s, d + 1) == Padded(a, d) + Padded(b, d)
    ensures Tree(dsha, Padded(s, d + 1), d + 1) == Pair(dsha, Tree(dsha, Padded(a, d), d), Tree(dsha, Padded(b, d), d))
  {
    TreeOfHalves(dsha, Padded(a, d), Padded(b, d), d);
  }

  lemma {:induction false} HeightOfFull(d: nat)
    ensures Height(Pow2(d)) == d
  {
    if d > 0 {
      HeightOfFull(d - 1);
    }
  }

  lemma PaddedKeepsRoot(dsha: seq<byte> -> Hash, s: seq<Hash>)
    requires s != []
    ensures Root(dsha, Padded(s, Height(|s|))) == Root(dsha, s)
  {
    var d := Height(|s|);
    HeightOfFull(d);
    RootIsTree(dsha, s);
    RootIsTree(dsha, Padded(s, d));
    PaddedKeepsTree(dsha, s, d);
  }

  /**
   * What a root commits to among lists of any length and one height: lists with equal padded leaves share their root,
   * and lists that share a root have equal padded leaves, or computing the padded roots exhibits a collision.
   */
  lemma RootCommitsToPadded(dsha: seq<byte> -> Hash, s: seq<Hash>, t: seq<Hash>)
    requires s != [] && t != [] && Height(|s|) == Height(|t|)
    ensures var p, q := Padded(s, Height(|s|)), Padded(t, Height(|t|));
            && (p == q ==> Root(dsha, s) == Root(dsha, t))
            && (Root(dsha, s) == Root(dsha, t) ==> p == q || CollisionBetween(dsha, Inputs(dsha, p), Inputs(dsha, q)))
  {
    var p, q := Padded(s, Height(|s|)), Padded(t, Height(|t|));
    PaddedKeepsRoot(dsha, s);
    PaddedKeepsRoot(dsha, t);
    if Root(dsha, s) == Root(dsha, t) {
      RootCommits(dsha, p, q);
    }
  }

  /** The length is not committed to: an odd list of three or more and the list with its last hash repeated agree. */
  lemma RepeatedLeafKeepsRoot(dsha: seq<byte> -> Hash, s: seq<Hash>)
    requires |s| % 2 == 1 && |s| >= 3
    ensures Root(dsha, s + [s[|s| - 1]]) == Root(dsha, s)
  {
    RepeatedLeafKeepsLevel(dsha, s);
  }

  lemma {:induction false} RepeatedLeafKeepsLevel(dsha: seq<byte> -> Hash, s: seq<Hash>)
    requires |s| % 2 == 1
    ensures Level(dsha, s + [s[|s| - 1]]) == Level(dsha, s)
  {
    var t := s + [s[|s| - 1]];
    if |s| > 1 {
      assert t[2..] == s[2..] + [s[2..][|s| - 3]];
      RepeatedLeafKeepsLevel(dsha, s[2..]);
    } else {
      assert t[2..] == [];
    }
  }

  /** A single hash is its own root; repeated, it keeps that root only if it is its own double hash. */
  lemma RepeatedSingleLeaf(dsha: seq<byte> -> Hash, h: Hash)
    ensures Root(dsha, [h, h]) == Root(dsha, [h]) <==> Pair(dsha, h, h) == h
  {
    assert Level(dsha, [h, h]) == [Pair(dsha, h, h)] + Level(dsha, [h, h][2..]);
  }

  // ----- the linked list, collapsed in place -----

  class HashNode {
    var hash: Hash
    var next: HashNode?

    constructor (hash: Hash)
      ensures this.hash == hash && next == null
    {
      this.hash := hash;
      next := null;
    }
  }

  /** `nodes` are linked in order, each once, and the last points nowhere. */
  ghost predicate Linked(nodes: seq<HashNode>)
    reads nodes
  {
    && (forall i, j :: 0 <= i < j < |nodes| ==> nodes[i] != nodes[j])
    && (forall i {:trigger nodes[i].next} :: 0 <= i < |nodes| - 1 ==> nodes[i].next == nodes[i + 1])
    && (nodes != [] ==> nodes[|nodes| - 1].next == null)
  }

  ghost function Hashes(nodes: seq<HashNode>): (s: seq<Hash>)
    reads nodes
    ensures |s| == |nodes|
    ensures forall i :: 0 <= i < |s| ==> s[i] == nodes[i].hash
  {
    seq(|nodes|, i requires 0 <= i < |nodes| reads nodes => nodes[i].hash)
  }

  lemma LinkedSnoc(nodes: seq<HashNode>, node: HashNode)
    requires node !in nodes && node.next == null
    requires forall i, j :: 0 <= i < j < |nodes| ==> nodes[i] != nodes[j]
    requires forall i {:trigger nodes[i].next} :: 0 <= i < |nodes| - 1 ==> nodes[i].next == nodes[i + 1]
    requires nodes != [] ==> nodes[|nodes| - 1].next == node
    ensures Linked(nodes + [node])
  {
  }

  /** The list of transaction hashes, one node each. */
  method BuildList(hashes: seq<Hash>) returns (first: HashNode?, ghost nodes: seq<HashNode>)
    ensures fresh(nodes) && Linked(nodes) && Hashes(nodes) == hashes
    ensures first == if nodes == [] then null else nodes[0]
  {
    first, nodes := null, [];
    var previous: HashNode? := null;
    for i := 0 to |hashes|
      invariant fresh(nodes) && Linked(nodes) && |nodes| == i
      invariant forall k :: 0 <= k < i ==> nodes[k].hash == hashes[k]
      invariant first == if nodes == [] then null else nodes[0]
      invariant previous == if nodes == [] then null else nodes[i - 1]
    {
      var node := new HashNode(hashes[i]);
      if first == null {
        first := node;
      }
      if previous != null {
        previous.next := node;
      }
      previous := node;
      LinkedSnoc(nodes, node);
      nodes := nodes + [node];
    }
  }

  ghost function NodeAt(nodes: seq<HashNode>, i: nat): (node: HashNode?) {
    if i < |nodes| then nodes[i] else null
  }

  /** Every second node, from the first. */
  ghost function Evens(nodes: seq<HashNode>): (kept: seq<HashNode>)
    ensures |kept| == (|nodes| + 1) / 2
  {
    seq((|nodes| + 1) / 2, j requires 0 <= j < (|nodes| + 1) / 2 => nodes[2 * j])
  }

  /** After `k` pairs: the first `k` kept nodes carry their pair's hash and skip their partner, the rest is as it was. */
  ghost predicate Collapsed(nodes: seq<HashNode>, was: seq<Hash>, level: seq<Hash>, k: nat)
    requires |was| == |nodes| && |level| == |Evens(nodes)|
    reads nodes
  {
    var kept := Evens(nodes);
    && k <= |kept|
    && (forall j {:trigger kept[j].hash} :: 0 <= j < k ==> kept[j].hash == level[j])
    && (forall j {:trigger kept[j].next} :: 0 <= j < k ==> kept[j].next == NodeAt(kept, j + 1))
    && (forall i {:trigger nodes[i].hash} :: 2 * k <= i < |nodes| ==> nodes[i].hash == was[i])
    && (forall i {:trigger nodes[i].next} :: 2 * k <= i < |nodes| ==> nodes[i].next == NodeAt(nodes, i + 1))
  }

  /** The inner loop of compute_merkle_root: one pass that pairs the hashes of the list in place. */
  method CollapseLevel(dsha: seq<byte> -> Hash, first: HashNode, ghost nodes: seq<HashNode>) returns (ghost kept: seq<HashNode>)
    requires nodes != [] && first == nodes[0] && Linked(nodes)
    modifies nodes
    ensures kept == Evens(nodes) && Linked(kept)
    ensures Hashes(kept) == Level(dsha, old(Hashes(nodes)))
  {
    ghost var was := Hashes(nodes);
    ghost var level := Level(dsha, was);
    kept := Evens(nodes);
    var p: HashNode? := first;
    ghost var k := 0;
    while p != null
      invariant 0 <= k <= |kept| && p == NodeAt(kept, k)
      invariant Collapsed(nodes, was, level, k)
      decreases |kept| - k
    {
      p := CollapsePair(dsha, p, nodes, was, level, k);
      k := k + 1;
    }
  }

  /** One turn of the inner loop: hash the pair into the left node and unlink the right one. */
  method CollapsePair(dsha: seq<byte> -> Hash, p: HashNode, ghost nodes: seq<HashNode>, ghost was: seq<Hash>,
                      ghost level: seq<Hash>, ghost k: nat) returns (next: HashNode?)
    requires |was| == |nodes| && level == Level(dsha, was) && 2 * k < |nodes| && p == nodes[2 * k]
    requires forall i, j :: 0 <= i < j < |nodes| ==> nodes[i] != nodes[j]
    requires Collapsed(nodes, was, level, k)
    modifies p
    ensures Collapsed(nodes, was, level, k + 1)
    ensures next == NodeAt(Evens(nodes), k + 1)
  {
    ghost var kept := Evens(nodes);
    LevelAt(dsha, was, k);
    assert kept[k] == p;
    assert forall j :: 0 <= j < |kept| && j != k ==> kept[j] != p;
    assert forall i :: 0 <= i < |nodes| && i != 2 * k ==> nodes[i] != p;
    assert nodes[2 * k].next == NodeAt(nodes, 2 * k + 1);
    if p.next != null {
      assert nodes[2 * k + 1].next == NodeAt(nodes, 2 * k + 2) == NodeAt(kept, k + 1);
      p.hash := dsha(p.hash + p.next.hash);
      p.next := p.next.next;
      next := p.next;
    } else {
      p.hash := dsha(p.hash + p.hash);
      next := null;
    }
  }

  /** compute_merkle_root: no transaction gives no root; otherwise the list collapses to the root. */
  method ComputeMerkleRoot(dsha: seq<byte> -> Hash, hashes: seq<Hash>) returns (root: Option<Hash>)
    ensures root == if hashes == [] then None else Some(Root(dsha, hashes))
  {
    var first, nodes := BuildList(hashes);
    if first == null {
      return None;
    }
    while first.next != null
      invariant nodes != [] && first == nodes[0] && Linked(nodes) && fresh(nodes)
      invariant Root(dsha, Hashes(nodes)) == Root(dsha, hashes)
      decreases |nodes|
    {
      assert |nodes| > 1;
      nodes := CollapseLevel(dsha, first, nodes);
    }
    root := Some(first.hash);
  }
}
