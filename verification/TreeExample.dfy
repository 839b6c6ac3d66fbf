/** An extents overflow file of 384 bytes that holds a tree: an index node over one leaf with one record. It shows what
    the requirements on a tree ask of the bytes of a file, a lookup, and a search that stops at the root. */
module TreeExample {
  import opened MachineTypes
  import opened Orders
  import opened KeyOrders
  import opened DiskFormat
  import opened NodeFormat
  import opened BuiltNodes
  import opened TreeModel
  import opened TreeSearch
  import opened TreeRecords
  import opened BTree
  import opened Extents

  const NODE_SIZE := 128

  /** Attributes 2, keys of 10 bytes, three nodes, the root being node 1 and the leaf node 2. */
  function SmallHeader(): Header { Header(2, 1, 2, NODE_SIZE, 10, 3, 2) }

  /** File 5, data fork, block 8. */
  function SmallKey(): ExtentKey { ExtentKey(5, 0, 8) }

  function OneItem(data: seq<u8>): seq<Item> { [Item(10, ExtentKeyBytes(0, 5, 8), data)] }

  /** One record with such a key and at most 64 bytes of data fits a node. */
  lemma OneFits(leaf: bool, data: seq<u8>, children: seq<u32>)
    requires |data| <= 64 && (!leaf ==> |children| == 1 && data == Word(children[0]))
    ensures Describable(SmallHeader(), leaf, OneItem(data), true, false, children)
  {
    var items := OneItem(data);
    var records := Written(items, true);
    KnownAttributes();
    assert |ItemBytes(true, items[0])| == 12 + |data|;
    assert records[..0] == [] && records[..1] == records && Concat(records) == Concat(records[..0]) + records[0];
  }

  function Node(leaf: bool, height: u8, data: seq<u8>): (raw: seq<u8>)
    requires |data| <= 64
    ensures |raw| == NODE_SIZE
  {
    OneFits(true, data, []);
    Built(SmallHeader(), leaf, height, 0, 0, OneItem(data), true)
  }

  /** Nodes 0, 1 and 2 are in use; node 0 is not looked at. */
  const USED: seq<bool> := [true, true, true, false, false, false, false, false]

  function Small(ds: seq<Descriptor>): Volume<ExtentKey>
    requires |ds| == DENSITY
  {
    Volume(Zeroes(NODE_SIZE) + Node(false, 2, Word(2)) + Node(true, 1, DescriptorsBytes(ds)), SmallHeader(),
           BitmapBytes(USED), ExtentKeyOf, ExtentOrder)
  }

  lemma OneDescribed(v: Volume<ExtentKey>, leaf: bool, height: u8, data: seq<u8>, children: seq<u32>)
    requires v.keyOf == ExtentKeyOf && (!leaf ==> |children| == 1)
    ensures Described(v, leaf, height, 0, OneItem(data), true, children)
         == TreeModel.Node(leaf, height, 0, [SmallKey()], if leaf then [] else [children[0] as nat],
                           if leaf then [data] else [])
  {
    var items := OneItem(data);
    ExtentKeyReads(0, 5, 8, Pad(true, items[0].key));
    var node := Described(v, leaf, height, 0, items, true, children);
    assert node.keys[0] == ExtentKeyOf(Body(items[0], true)) == SmallKey();
    assert node.keys == [SmallKey()];
    assert leaf ==> node.values == [data];
    assert !leaf ==> node.children == [children[0] as nat];
  }

  /** What such a node in the file says. */
  lemma OneNodeReads(v: Volume<ExtentKey>, n: nat, before: seq<u8>, after: seq<u8>, leaf: bool, height: u8,
                     data: seq<u8>, children: seq<u32>)
    requires v.keyOf == ExtentKeyOf && v.header == SmallHeader() && v.bitmap == BitmapBytes(USED)
    requires 0 < n < 3 && |data| <= 64 && (!leaf ==> |children| == 1 && data == Word(children[0]))
    requires |before| == n * NODE_SIZE && v.file == before + Node(leaf, height, data) + after
    ensures v.Readable(n)
    ensures v.NodeAt(n) == TreeModel.Node(leaf, height, 0, [SmallKey()], if leaf then [] else [children[0] as nat],
                                          if leaf then [data] else [])
  {
    OneFits(leaf, data, children);
    OneDescribed(v, leaf, height, data, children);
    FetchBuilt(v, n, before, after, USED, leaf, height, 0, 0, OneItem(data), true, false, children);
  }

  lemma RootReads(ds: seq<Descriptor>)
    requires |ds| == DENSITY
    ensures Small(ds).Readable(1)
    ensures Small(ds).NodeAt(1) == TreeModel.Node(false, 2, 0, [SmallKey()], [2], [])
  {
    OneNodeReads(Small(ds), 1, Zeroes(NODE_SIZE), Node(true, 1, DescriptorsBytes(ds)), false, 2, Word(2), [2]);
  }

  lemma NothingBehind(s: seq<u8>)
    ensures s + [] == s
  {}

  lemma LeafReads(ds: seq<Descriptor>)
    requires |ds| == DENSITY
    ensures Small(ds).Readable(2)
    ensures Small(ds).NodeAt(2) == TreeModel.Node(true, 1, 0, [SmallKey()], [], [DescriptorsBytes(ds)])
  {
    var before := Zeroes(NODE_SIZE) + Node(false, 2, Word(2));
    NothingBehind(before + Node(true, 1, DescriptorsBytes(ds)));
    OneNodeReads(Small(ds), 2, before, [], true, 1, DescriptorsBytes(ds), []);
  }

  /** An index node over one leaf. */
  lemma TwoNodes<K(!new)>(t: Tree<K>, key: K, value: seq<u8>)
    requires IsOrder(t.cmp) && t.root == 1 && t.depth == 2 && t.firstLeaf == 2 && t.readable(1) && t.readable(2)
    requires t.nodes(1) == TreeModel.Node(false, 2, 0, [key], [2], [])
    requires t.nodes(2) == TreeModel.Node(true, 1, 0, [key], [], [value])
    ensures t.WellFormed() && t.AllKeys() == [key] && t.AllLeaves() == [2]
    ensures Values(t.nodes, t.AllLeaves()) == [value]
  {
    var none: seq<nat> := [];
    assert [2][1..] == none && [2] + none == [2];
    assert LeavesOf(t.nodes, [2], 1) == Leaves(t.nodes, 2, 1) + LeavesOf(t.nodes, none, 1);
    assert t.AllLeaves() == [2];
    assert Keys(t.nodes, [2]) == t.nodes(2).keys + Keys(t.nodes, none);
    assert Values(t.nodes, [2]) == t.nodes(2).values + Values(t.nodes, none);
    assert t.cmp(key, key) == 0;
    assert Shape(t.cmp, t.nodes, t.readable, 2, 1);
    assert Shape(t.cmp, t.nodes, t.readable, 1, 2);
  }

  lemma TwoNodesInFile(v: Volume<ExtentKey>, value: seq<u8>)
    requires v.keyOf == ExtentKeyOf && v.keyCompare == ExtentOrder && v.header == SmallHeader() && |value| == 64
    requires v.Readable(1) && v.NodeAt(1) == TreeModel.Node(false, 2, 0, [SmallKey()], [2], [])
    requires v.Readable(2) && v.NodeAt(2) == TreeModel.Node(true, 1, 0, [SmallKey()], [], [value])
    ensures v.HoldsTree() && OverflowTree(v) && TableOf(v) == Table([SmallKey()], [value], true)
  {
    v.TreeFields(1);
    v.TreeFields(2);
    ExtentIsOrder();
    TwoNodes(v.Tree(), SmallKey(), value);
  }

  /** The file holds an overflow tree, so the requirements on one can be met. */
  lemma SmallHoldsTree(ds: seq<Descriptor>)
    requires |ds| == DENSITY
    ensures Small(ds).HoldsTree() && OverflowTree(Small(ds))
    ensures TableOf(Small(ds)) == Table([SmallKey()], [DescriptorsBytes(ds)], true)
  {
    RootReads(ds);
    LeafReads(ds);
    TwoNodesInFile(Small(ds), DescriptorsBytes(ds));
  }

  lemma OneRecordFound(t: Table, ds: seq<Descriptor>, r: Lookup)
    requires |ds| == DENSITY && t == Table([SmallKey()], [DescriptorsBytes(ds)], true)
    requires LookedUp(t, SmallKey(), r)
    ensures r == Hit(ds, 8)
  {
    if r.Hit? {
      DescriptorsRead(ds);
      DescriptorsRead(r.record);
    }
  }

  /** A lookup of the record's key can only find the record. */
  lemma SmallLookup(ds: seq<Descriptor>, r: Lookup)
    requires |ds| == DENSITY && LookedUp(TableOf(Small(ds)), SmallKey(), r)
    ensures r == Hit(ds, 8)
  {
    SmallHoldsTree(ds);
    OneRecordFound(Table([SmallKey()], [DescriptorsBytes(ds)], true), ds, r);
  }

  /** A search for a key below the record ends in critical(), although the tree is in order. */
  lemma BelowAllIsCritical(ds: seq<Descriptor>, x: ExtentKey, r: SearchResult)
    requires |ds| == DENSITY && ExtentOrder(x, SmallKey()) < 0 && Small(ds).Tree().Correct(x, r)
    ensures r == Critical
  {
    SmallHoldsTree(ds);
  }
}
