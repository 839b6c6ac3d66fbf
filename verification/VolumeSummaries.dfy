/** generateVolumeSummary (`src/operations/hfs_summary.c`): the summary over the leaf chain of a catalog tree. */
module VolumeSummaries {
  import opened MachineTypes
  import opened Checks
  import opened Sequences
  import opened KeyOrders
  import opened NodeFormat
  import opened TreeRecords
  import opened BTree
  import opened LeafChain
  import opened CatalogSummary

  /** What the records hold, one after the other. */
  function Records(recordOf: seq<u8> -> CatalogRecord, values: seq<seq<u8>>): (r: seq<CatalogRecord>)
    ensures |r| == |values|
  {
    if values == [] then [] else Records(recordOf, values[..|values| - 1]) + [recordOf(values[|values| - 1])]
  }

  lemma {:induction false} RecordsAppend(recordOf: seq<u8> -> CatalogRecord, a: seq<seq<u8>>, b: seq<seq<u8>>)
    ensures Records(recordOf, a + b) == Records(recordOf, a) + Records(recordOf, b)
    decreases |b|
  {
    if b == [] {
      assert a + b == a;
    } else {
      var m := b[..|b| - 1];
      assert (a + b)[..|a + b| - 1] == a + m;
      RecordsAppend(recordOf, a, m);
      Associative(Records(recordOf, a), Records(recordOf, m), [recordOf(b[|b| - 1])]);
    }
  }

  lemma RecordsNext(recordOf: seq<u8> -> CatalogRecord, values: seq<seq<u8>>, i: nat)
    requires i < |values|
    ensures Records(recordOf, values[..i + 1]) == Records(recordOf, values[..i]) + [recordOf(values[i])]
  {
    assert values[..i + 1][..i] == values[..i];
  }

  /** Record i of a node, added to the summary. */
  method AddValue(recordOf: seq<u8> -> CatalogRecord, value: seq<u8>, summary: VolumeSummary,
                  ghost nodes: nat, ghost before: seq<CatalogRecord>, ghost values: seq<seq<u8>>, ghost i: nat)
    requires i < |values| && value == values[i] && summary.Shows(nodes, before + Records(recordOf, values[..i]))
    modifies summary, summary.largestFiles
    ensures summary.Shows(nodes, before + Records(recordOf, values[..i + 1]))
  {
    RecordsNext(recordOf, values, i);
    Associative(before, Records(recordOf, values[..i]), [recordOf(value)]);
    summary.AddRecord(recordOf(value));
  }

  /** The node, in host order, is a leaf with these records. */
  ghost function HasRecords(v: Volume<CatalogKey>, node: seq<u8>, values: seq<seq<u8>>): Check {
    if HostFormed(node, v.header) && Kind(node) == KIND_LEAF && v.NodeOf(node).values == values then Holds else Fails
  }

  lemma RecordCount(v: Volume<CatalogKey>, node: seq<u8>, values: seq<seq<u8>>)
    requires HasRecords(v, node, values) == Holds
    ensures |node| >= 12 && |values| == LE16(node, 10)
  {}

  /** The body of the loop. */
  method AddRecordAt(tree: BTree<CatalogKey>, node: seq<u8>, recNum: nat, recordOf: seq<u8> -> CatalogRecord,
                     summary: VolumeSummary, ghost nodes: nat, ghost before: seq<CatalogRecord>,
                     ghost values: seq<seq<u8>>)
    requires HasRecords(tree.volume, node, values) == Holds && recNum < |values|
    requires summary.Shows(nodes, before + Records(recordOf, values[..recNum]))
    modifies summary, summary.largestFiles
    ensures summary.Shows(nodes, before + Records(recordOf, values[..recNum + 1]))
  {
    var value := tree.GetRecordValue(node, recNum);
    AddValue(recordOf, value, summary, nodes, before, values, recNum);
  }

  /** The records of one node, added to the summary. */
  method AddRecords(tree: BTree<CatalogKey>, node: seq<u8>, recordOf: seq<u8> -> CatalogRecord, summary: VolumeSummary,
                    ghost nodes: nat, ghost seen: seq<CatalogRecord>, ghost values: seq<seq<u8>>)
    requires HasRecords(tree.volume, node, values) == Holds && summary.Shows(nodes, seen)
    modifies summary, summary.largestFiles
    ensures summary.Shows(nodes + 1, seen + Records(recordOf, values))
  {
    RecordCount(tree.volume, node, values);
    summary.nodeCount := summary.nodeCount + 1;
    assert seen + Records(recordOf, values[..0]) == seen;
    var numRecords := LE16(node, 10);
    for recNum := 0 to numRecords
      invariant summary.Shows(nodes + 1, seen + Records(recordOf, values[..recNum]))
    {
      AddRecordAt(tree, node, recNum, recordOf, summary, nodes + 1, seen, values);
    }
    assert values[..numRecords] == values;
  }

  /** The tree is not affected by that. */
  method AddNode(tree: BTree<CatalogKey>, node: seq<u8>, recordOf: seq<u8> -> CatalogRecord, summary: VolumeSummary,
                 ghost nodes: nat, ghost seen: seq<CatalogRecord>, ghost values: seq<seq<u8>>)
    requires tree.Valid() && HasRecords(tree.volume, node, values) == Holds && summary.Shows(nodes, seen)
    modifies summary, summary.largestFiles
    ensures tree.Valid() && summary.Shows(nodes + 1, seen + Records(recordOf, values))
  {
    AddRecords(tree, node, recordOf, summary, nodes, seen, values);
  }

  /** What is counted in some leaves, in order. */
  ghost function Counted(v: Volume<CatalogKey>, recordOf: seq<u8> -> CatalogRecord, leaves: seq<nat>):
    (r: seq<CatalogRecord>)
  {
    Records(recordOf, Values(v.Nodes(), leaves))
  }

  lemma CountedNext(v: Volume<CatalogKey>, recordOf: seq<u8> -> CatalogRecord, leaves: seq<nat>, i: nat)
    requires i < |leaves|
    ensures Counted(v, recordOf, leaves[..i + 1])
         == Counted(v, recordOf, leaves[..i]) + Records(recordOf, v.NodeAt(leaves[i]).values)
  {
    ValuesNext(v.Nodes(), leaves, i);
    RecordsAppend(recordOf, Values(v.Nodes(), leaves[..i]), v.NodeAt(leaves[i]).values);
  }

  ghost predicate LeafAt(v: Volume<CatalogKey>, leaves: seq<nat>, i: nat)
    requires i < |leaves|
  {
    v.NodeAt(leaves[i]).leaf
  }

  /** Leaves that can be read, linked to the end of the chain. */
  ghost predicate LinkedLeaves(v: Volume<CatalogKey>, leaves: seq<nat>) {
    LeavesCheck(v, leaves) == Holds
  }

  ghost function LeavesCheck(v: Volume<CatalogKey>, leaves: seq<nat>): Check {
    if Linked(v, leaves) && forall i :: 0 <= i < |leaves| ==> LeafAt(v, leaves, i) then Holds else Fails
  }

  lemma NextLeaf(v: Volume<CatalogKey>, leaves: seq<nat>, i: nat)
    requires LinkedLeaves(v, leaves) && i < |leaves|
    ensures v.Readable(leaves[i]) && v.NodeAt(leaves[i]).leaf
    ensures v.NodeAt(leaves[i]).fLink == 0 <==> i + 1 == |leaves|
    ensures i + 1 < |leaves| ==> v.NodeAt(leaves[i]).fLink == leaves[i + 1]
  {
    assert LinkAt(v, leaves, i) && LeafAt(v, leaves, i);
    if i + 1 < |leaves| {
      assert LinkAt(v, leaves, i + 1);
    }
  }

  /** BTGetNode for a leaf, and its link. */
  method ReadLeaf(tree: BTree<CatalogKey>, n: nat) returns (node: seq<u8>, fLink: nat)
    requires tree.Valid() && tree.volume.Readable(n) && tree.volume.NodeAt(n).leaf
    modifies tree.nodeCache, tree.nodeCache.Repr
    ensures tree.Valid() && fresh(tree.nodeCache.Repr - old(tree.nodeCache.Repr))
    ensures HasRecords(tree.volume, node, tree.volume.NodeAt(n).values) == Holds && fLink == tree.volume.NodeAt(n).fLink
  {
    node := tree.ReadNode(n);
    fLink := LE32(node, 0);
  }

  /** One leaf: BTGetNode, the loop over its records, and the link to the next. The C dies when the node cannot be
      fetched, which these requirements exclude. */
  method AddLeaf(tree: BTree<CatalogKey>, n: nat, recordOf: seq<u8> -> CatalogRecord, summary: VolumeSummary,
                 ghost nodes: nat, ghost seen: seq<CatalogRecord>)
    returns (fLink: nat)
    requires tree.Valid() && summary.Shows(nodes, seen) && tree.volume.Readable(n) && tree.volume.NodeAt(n).leaf
    modifies tree.nodeCache, tree.nodeCache.Repr, summary, summary.largestFiles
    ensures tree.Valid() && fresh(tree.nodeCache.Repr - old(tree.nodeCache.Repr))
    ensures summary.Shows(nodes + 1, seen + Records(recordOf, tree.volume.NodeAt(n).values))
    ensures fLink == tree.volume.NodeAt(n).fLink
  {
    var node;
    node, fLink := ReadLeaf(tree, n);
    AddNode(tree, node, recordOf, summary, nodes, seen, tree.volume.NodeAt(n).values);
  }

  /** The leaves before leaf i are counted, and leaf i, node n, comes next. */
  ghost function Reached(v: Volume<CatalogKey>, recordOf: seq<u8> -> CatalogRecord, leaves: seq<nat>, i: nat, n: nat,
                         seen: seq<CatalogRecord>): Check
  {
    if LinkedLeaves(v, leaves) && i < |leaves| && n == leaves[i] && seen == Counted(v, recordOf, leaves[..i])
    then Holds else Fails
  }

  /** The same, or all leaves are counted and the link is 0. */
  ghost function Continues(v: Volume<CatalogKey>, recordOf: seq<u8> -> CatalogRecord, leaves: seq<nat>, i: nat,
                           fLink: nat, seen: seq<CatalogRecord>): Check
  {
    if fLink != 0 then Reached(v, recordOf, leaves, i, fLink, seen)
    else if i == |leaves| && seen == Counted(v, recordOf, leaves) then Holds
    else Fails
  }

  lemma ReachedFirst(v: Volume<CatalogKey>, recordOf: seq<u8> -> CatalogRecord, leaves: seq<nat>)
    requires LinkedLeaves(v, leaves)
    ensures leaves != [] && Reached(v, recordOf, leaves, 0, leaves[0], []) == Holds
  {}

  lemma ReachedNext(v: Volume<CatalogKey>, recordOf: seq<u8> -> CatalogRecord, leaves: seq<nat>, i: nat, n: nat,
                    seen: seq<CatalogRecord>)
    requires Reached(v, recordOf, leaves, i, n, seen) == Holds
    ensures v.Readable(n) && v.NodeAt(n).leaf
    ensures i < |leaves|
    ensures Continues(v, recordOf, leaves, i + 1, v.NodeAt(n).fLink, seen + Records(recordOf, v.NodeAt(n).values))
         == Holds
  {
    NextLeaf(v, leaves, i);
    CountedNext(v, recordOf, leaves, i);
    if i + 1 == |leaves| {
      Whole(leaves, i + 1);
    }
  }

  /** One turn of the loop. */
  method AddNext(tree: BTree<CatalogKey>, n: nat, recordOf: seq<u8> -> CatalogRecord, summary: VolumeSummary,
                 ghost leaves: seq<nat>, ghost i: nat, ghost seen: seq<CatalogRecord>)
    returns (fLink: nat, ghost more: seq<CatalogRecord>)
    requires tree.Valid() && summary.Shows(i, seen) && Reached(tree.volume, recordOf, leaves, i, n, seen) == Holds
    modifies tree.nodeCache, tree.nodeCache.Repr, summary, summary.largestFiles
    ensures tree.Valid() && fresh(tree.nodeCache.Repr - old(tree.nodeCache.Repr))
    ensures summary.Shows(i + 1, more) && i < |leaves|
    ensures Continues(tree.volume, recordOf, leaves, i + 1, fLink, more) == Holds
  {
    ReachedNext(tree.volume, recordOf, leaves, i, n, seen);
    fLink := AddLeaf(tree, n, recordOf, summary, i, seen);
    more := seen + Records(recordOf, tree.volume.NodeAt(n).values);
  }

  /** The loop over a chain of leaves counts all their records. */
  method AddChain(tree: BTree<CatalogKey>, recordOf: seq<u8> -> CatalogRecord, summary: VolumeSummary,
                  ghost leaves: seq<nat>)
    returns (ghost counted: nat, ghost seen: seq<CatalogRecord>)
    requires tree.Valid() && summary.Shows(0, [])
    requires Reached(tree.volume, recordOf, leaves, 0, tree.volume.header.firstLeafNode, []) == Holds
    modifies tree.nodeCache, tree.nodeCache.Repr, summary, summary.largestFiles
    ensures summary.Shows(counted, seen) && Continues(tree.volume, recordOf, leaves, counted, 0, seen) == Holds
  {
    var cnid: nat := tree.volume.header.firstLeafNode;
    counted, seen := 0, [];
    while true
      invariant tree.Valid() && fresh(tree.nodeCache.Repr - old(tree.nodeCache.Repr))
      invariant summary.Shows(counted, seen)
      invariant Reached(tree.volume, recordOf, leaves, counted, cnid, seen) == Holds
      decreases |leaves| - counted
    {
      cnid, seen := AddNext(tree, cnid, recordOf, summary, leaves, counted, seen);
      counted := counted + 1;
      if cnid == 0 {
        break;
      }
    }
  }

  /** The leaves of a tree are such a chain, and hold its records. */
  lemma TreeLeaves(v: Volume<CatalogKey>)
    requires v.HoldsTree()
    ensures LinkedLeaves(v, v.Tree().AllLeaves())
    ensures v.Tree().AllLeaves() != [] && v.Tree().AllLeaves()[0] == v.header.firstLeafNode
    ensures |Values(v.Nodes(), v.Tree().AllLeaves())| == |v.Tree().AllKeys()|
  {
    var leaves := v.Tree().AllLeaves();
    LeavesLinked(v);
    forall i | 0 <= i < |leaves| ensures LeafAt(v, leaves, i) {
      LeafOfTree(v, i);
    }
    TreeCounts(v);
    CountsMatch(v.Nodes(), leaves);
  }

  /** Over the leaves of a catalog tree, the summary counts every record of the tree. */
  method GenerateVolumeSummary(tree: BTree<CatalogKey>, recordOf: seq<u8> -> CatalogRecord)
    returns (summary: VolumeSummary)
    requires tree.Valid() && tree.volume.HoldsTree()
    modifies tree.nodeCache, tree.nodeCache.Repr
    ensures fresh(summary) && summary.Valid() && summary.nodeCount == |tree.volume.Tree().AllLeaves()|
    ensures summary.seen == Counted(tree.volume, recordOf, tree.volume.Tree().AllLeaves())
    ensures |summary.seen| == |tree.volume.Tree().AllKeys()| && summary.FieldsRight()
  {
    TreeLeaves(tree.volume);
    ReachedFirst(tree.volume, recordOf, tree.volume.Tree().AllLeaves());
    summary := new VolumeSummary();
    ghost var _, _ := AddChain(tree, recordOf, summary, tree.volume.Tree().AllLeaves());
    summary.ValidFields();
  }
}
