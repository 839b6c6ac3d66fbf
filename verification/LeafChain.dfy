/** Walking the leaves of a tree along their forward links (`btree_walk` in `src/hfs/btree/btree.c`). */
module LeafChain {
  import opened Checks
  import opened NodeFormat
  import opened TreeModel
  import opened TreeRecords
  import opened TreeSearch
  import opened BTree

  /** Node i of the chain can be fetched, and its link leads on, or is 0 at the end. */
  ghost predicate LinkAt<K(!new)>(v: Volume<K>, chain: seq<nat>, i: nat)
    requires i < |chain|
  {
    chain[i] != 0 && v.Readable(chain[i]) && v.NodeAt(chain[i]).fLink == if i + 1 < |chain| then chain[i + 1] else 0
  }

  ghost predicate Linked<K(!new)>(v: Volume<K>, chain: seq<nat>) {
    chain != [] && LinkCheck(v, chain) == Holds
  }

  ghost function LinkCheck<K(!new)>(v: Volume<K>, chain: seq<nat>): Check {
    if forall i :: 0 <= i < |chain| ==> LinkAt(v, chain, i) then Holds else Fails
  }

  lemma LinkedOn<K(!new)>(v: Volume<K>, chain: seq<nat>)
    requires Linked(v, chain)
    ensures LinkAt(v, chain, 0) && (|chain| > 1 ==> Linked(v, chain[1..]) && chain[1] != 0)
  {
    assert LinkAt(v, chain, 0) && (|chain| > 1 ==> LinkAt(v, chain, 1));
    forall i | 0 <= i < |chain| - 1 ensures LinkAt(v, chain[1..], i) {
      assert LinkAt(v, chain, i + 1);
    }
  }

  /** The walk takes links as signed numbers, and goes no further than the first that is negative. */
  function Followed(chain: seq<nat>): (r: seq<nat>)
    ensures r <= chain
  {
    if |chain| <= 1 || chain[1] >= 0x8000_0000 then chain[..if chain == [] then 0 else 1]
    else [chain[0]] + Followed(chain[1..])
  }

  /** No id behind the first is negative as a signed number. */
  ghost predicate LinksSigned(chain: seq<nat>) {
    forall i :: 0 < i < |chain| ==> chain[i] < 0x8000_0000
  }

  /** A chain is followed to its end exactly if every id behind the first has 31 bits. */
  lemma {:induction false} FollowedToTheEnd(chain: seq<nat>)
    ensures Followed(chain) == chain <==> LinksSigned(chain)
  {
    if |chain| > 1 {
      FollowedToTheEnd(chain[1..]);
      assert chain == [chain[0]] + chain[1..];
      assert chain[1] < 0x8000_0000 ==> (LinksSigned(chain) <==> LinksSigned(chain[1..]));
    }
  }

  /** Of two leaves, the second with an id of 2^31, only the first is visited. */
  lemma StopsShort()
    ensures Followed([1, 0x8000_0000]) == [1]
  {}

  lemma FollowedStep(chain: seq<nat>, fLink: nat)
    requires chain != [] && (|chain| > 1 ==> chain[1] != 0) && fLink == if |chain| > 1 then chain[1] else 0
    ensures Followed(chain) == if 0 < fLink < 0x8000_0000 then [chain[0]] + Followed(chain[1..]) else [chain[0]]
    ensures 0 < fLink ==> |chain| > 1
  {}

  /** BTGetNode, and the forward link of the node. */
  method NextLink<K(!new)>(tree: BTree<K>, n: nat) returns (fLink: nat)
    requires tree.Valid() && tree.volume.Readable(n)
    modifies tree.nodeCache, tree.nodeCache.Repr
    ensures tree.Valid() && fresh(tree.nodeCache.Repr - old(tree.nodeCache.Repr))
    ensures fLink == tree.volume.NodeAt(n).fLink
  {
    var node := tree.ReadNode(n);
    fLink := LE32(node, 0);
  }

  /** Reading the link of the first node of a chain: whether it is followed, and where it leads. */
  method FirstLink<K(!new)>(tree: BTree<K>, ghost chain: seq<nat>, n: nat) returns (fLink: nat)
    requires tree.Valid() && Linked(tree.volume, chain) && chain[0] == n
    modifies tree.nodeCache, tree.nodeCache.Repr
    ensures tree.Valid() && fresh(tree.nodeCache.Repr - old(tree.nodeCache.Repr))
    ensures if 0 < fLink < 0x8000_0000 then
              && |chain| > 1 && Linked(tree.volume, chain[1..]) && chain[1] == fLink
              && Followed(chain) == [n] + Followed(chain[1..])
            else Followed(chain) == [n]
  {
    LinkedOn(tree.volume, chain);
    fLink := NextLink(tree, n);
    FollowedStep(chain, fLink);
  }

  /** btree_walk, from node n on; the walker sees the nodes returned. A node that cannot be fetched would make the C
      begin again with the first leaf. */
  method Walk<K(!new)>(tree: BTree<K>, n: nat, ghost chain: seq<nat>) returns (visited: seq<nat>)
    requires tree.Valid() && Linked(tree.volume, chain) && chain[0] == n
    modifies tree.nodeCache, tree.nodeCache.Repr
    ensures tree.Valid() && fresh(tree.nodeCache.Repr - old(tree.nodeCache.Repr))
    ensures visited == Followed(chain)
    decreases |chain|
  {
    var fLink := FirstLink(tree, chain, n);
    if fLink <= 0 || fLink >= 0x8000_0000 {
      return [n];
    }
    visited := Walk(tree, fLink, chain[1..]);
    visited := [n] + visited;
  }

  /** Leaf p of a tree can be read, is a leaf, and has data for each key. */
  lemma LeafOfTree<K(!new)>(v: Volume<K>, p: nat)
    requires v.HoldsTree() && p < |v.Tree().AllLeaves()|
    ensures v.Readable(v.Tree().AllLeaves()[p]) && v.NodeAt(v.Tree().AllLeaves()[p]).leaf
    ensures |v.NodeAt(v.Tree().AllLeaves()[p]).keys| == |v.NodeAt(v.Tree().AllLeaves()[p]).values|
  {
    var t, n := v.Tree(), v.Tree().AllLeaves()[p];
    LeavesAreLeaves(t.cmp, t.nodes, t.readable, t.root, t.depth, p);
    v.TreeFields(n);
    LeafCounts(v, n);
  }

  lemma LeafCounts<K(!new)>(v: Volume<K>, n: nat)
    requires v.Readable(n) && v.NodeAt(n).leaf
    ensures |v.NodeAt(n).keys| == |v.NodeAt(n).values|
  {}

  /** The records of a tree have as many data as keys. */
  lemma TreeCounts<K(!new)>(v: Volume<K>)
    requires v.HoldsTree()
    ensures SameCounts(v.Nodes(), v.Tree().AllLeaves())
  {
    forall p | 0 <= p < |v.Tree().AllLeaves()|
      ensures |v.Nodes()(v.Tree().AllLeaves()[p]).values| == |v.Nodes()(v.Tree().AllLeaves()[p]).keys|
    {
      LeafOfTree(v, p);
    }
  }

  /** The leaves of a tree are such a chain. */
  lemma LeavesLinked<K(!new)>(v: Volume<K>)
    requires v.HoldsTree()
    ensures Linked(v, v.Tree().AllLeaves()) && v.Tree().AllLeaves()[0] == v.header.firstLeafNode
  {
    var t, leaves := v.Tree(), v.Tree().AllLeaves();
    FirstKey(t.cmp, t.nodes, t.readable, t.root, t.depth);
    forall i | 0 <= i < |leaves| ensures LinkAt(v, leaves, i) {
      LeafLinked(v, t, leaves, i);
    }
  }

  lemma LeafLinked<K(!new)>(v: Volume<K>, t: Tree<K>, leaves: seq<nat>, i: nat)
    requires t == v.Tree() && t.WellFormed() && leaves == t.AllLeaves() && i < |leaves|
    ensures LinkAt(v, leaves, i)
  {
    LeavesAreLeaves(t.cmp, t.nodes, t.readable, t.root, t.depth, i);
    v.TreeFields(leaves[i]);
  }

  /** Walking from the first leaf visits the leaves from left to right, and all of them exactly if no later one has an
      id of 2^31 or more. */
  method WalkTree<K(!new)>(tree: BTree<K>) returns (visited: seq<nat>)
    requires tree.Valid() && tree.volume.HoldsTree()
    modifies tree.nodeCache, tree.nodeCache.Repr
    ensures tree.Valid() && fresh(tree.nodeCache.Repr - old(tree.nodeCache.Repr))
    ensures visited <= tree.volume.Tree().AllLeaves()
    ensures visited == tree.volume.Tree().AllLeaves() <==> LinksSigned(tree.volume.Tree().AllLeaves())
    ensures tree.volume.header.totalNodes <= 0x8000_0000 ==> visited == tree.volume.Tree().AllLeaves()
  {
    ghost var chain := tree.volume.Tree().AllLeaves();
    LeavesLinked(tree.volume);
    visited := Walk(tree, tree.volume.header.firstLeafNode, chain);
    ReadableIds(tree.volume, chain);
    FollowedToTheEnd(chain);
  }

  lemma ReadableIds<K(!new)>(v: Volume<K>, chain: seq<nat>)
    requires Linked(v, chain)
    ensures forall i :: 0 <= i < |chain| ==> chain[i] < v.header.totalNodes
  {
    forall i | 0 <= i < |chain| ensures chain[i] < v.header.totalNodes {
      assert LinkAt(v, chain, i);
      v.TreeFields(chain[i]);
    }
  }
}
