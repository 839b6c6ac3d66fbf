/** Collecting the extents of a fork (`src/hfs/extents.c`): those in its fork record, then the records of the extents
    overflow tree, found by the block they begin at. */
module Extents {
  import opened MachineTypes
  import opened Checks
  import opened KeyOrders
  import opened DiskFormat
  import opened NodeFormat
  import opened BuiltNodes
  import opened WrittenLeaves
  import opened TreeModel
  import opened TreeRecords
  import opened TreeSearch
  import opened BTree
  import opened LeafChain

  const DENSITY := 8

  /** What the fork record says. */
  datatype Fork = Fork(fileID: u32, forkType: u8, extents: seq<Descriptor>, totalBlocks: u32)

  /** The eight descriptors of an overflow record. */
  function Descriptors(value: seq<u8>): (r: seq<Descriptor>)
    requires |value| == 8 * DENSITY
    ensures |r| == DENSITY
  {
    seq(DENSITY, i requires 0 <= i < DENSITY => Descriptor(BE32(value, 8 * i), BE32(value, 8 * i + 4)))
  }

  lemma {:induction false} DescriptorWritten(ds: seq<Descriptor>, i: nat)
    requires i < |ds|
    ensures DescriptorsBytes(ds)[8 * i..8 * i + 4] == Word(ds[i].startBlock)
    ensures DescriptorsBytes(ds)[8 * i + 4..8 * i + 8] == Word(ds[i].blockCount)
    decreases |ds|
  {
    var n := |ds| - 1;
    var before := DescriptorsBytes(ds[..n]);
    if i < n {
      DescriptorWritten(ds[..n], i);
      assert DescriptorsBytes(ds)[8 * i..8 * i + 4] == before[8 * i..8 * i + 4];
      assert DescriptorsBytes(ds)[8 * i + 4..8 * i + 8] == before[8 * i + 4..8 * i + 8];
    }
  }

  /** The descriptors read from a record are those written to it. */
  lemma DescriptorsRead(ds: seq<Descriptor>)
    requires |ds| == DENSITY
    ensures Descriptors(DescriptorsBytes(ds)) == ds
  {
    var value := DescriptorsBytes(ds);
    forall i | 0 <= i < DENSITY ensures Descriptors(value)[i] == ds[i] {
      DescriptorWritten(ds, i);
      WordAt(value, 8 * i, ds[i].startBlock);
      WordAt(value, 8 * i + 4, ds[i].blockCount);
    }
  }

  lemma WordWritten(s: seq<u8>, i: nat)
    requires i + 4 <= |s|
    ensures Word(BE32(s, i)) == s[i..i + 4]
  {
    var a, b := (s[i] as int) * 0x100 + s[i + 1], (s[i + 2] as int) * 0x100 + s[i + 3];
    assert BE32(s, i) == a * 0x1_0000 + b;
    assert BE32(s, i) / 0x1_0000 == a && BE32(s, i) / 0x100 == a * 0x100 + s[i + 2];
  }

  /** Any 64 bytes are written from the descriptors read. */
  lemma DescriptorsWrite(value: seq<u8>)
    requires |value| == 8 * DENSITY
    ensures DescriptorsBytes(Descriptors(value)) == value
  {
    var ds := Descriptors(value);
    forall i | 0 <= i < DENSITY ensures DescriptorsBytes(ds)[8 * i..8 * i + 8] == value[8 * i..8 * i + 8] {
      DescriptorWritten(ds, i);
      WordWritten(value, 8 * i);
      WordWritten(value, 8 * i + 4);
      Eight(DescriptorsBytes(ds), value, 8 * i);
    }
    forall j | 0 <= j < 64 ensures DescriptorsBytes(ds)[j] == value[j] {
      var i := j / 8;
      assert DescriptorsBytes(ds)[8 * i..8 * i + 8][j - 8 * i] == value[8 * i..8 * i + 8][j - 8 * i];
    }
  }

  lemma Eight(s: seq<u8>, t: seq<u8>, i: nat)
    requires i + 8 <= |s| == |t| && s[i..i + 4] == t[i..i + 4] && s[i + 4..i + 8] == t[i + 4..i + 8]
    ensures s[i..i + 8] == t[i..i + 8]
  {
    assert s[i..i + 8] == s[i..i + 4] + s[i + 4..i + 8] && t[i..i + 8] == t[i..i + 4] + t[i + 4..i + 8];
  }

  // ----- the overflow tree -----

  /** The records of the overflow file, in key order, and whether it has index nodes. */
  datatype Table = Table(keys: seq<ExtentKey>, values: seq<seq<u8>>, indexed: bool)
  {
    ghost predicate HasRecord(key: ExtentKey, value: seq<u8>) { HasEntry(keys, values, key, value) }

    /** The data of every record is a full extent record. */
    ghost predicate Full() { forall i :: 0 <= i < |values| ==> |values[i]| == 8 * DENSITY }

    /** A search for the key stops: it is below every record of a tree with index nodes. */
    ghost predicate BelowAll(key: ExtentKey) { indexed && keys != [] && ExtentOrder(key, keys[0]) < 0 }
  }

  /** The records of the tree in the file; an empty tree has none. */
  ghost function TableOf(v: Volume<ExtentKey>): Table {
    if v.header.rootNode == 0 then Table([], [], false)
    else Table(v.Tree().AllKeys(), Values(v.Nodes(), v.Tree().AllLeaves()), v.header.treeDepth > 1)
  }

  /** The file holds an extents overflow tree, or an empty one. */
  ghost predicate OverflowTree(v: Volume<ExtentKey>) {
    TreeCheck(v) == Holds
  }

  ghost function TreeCheck(v: Volume<ExtentKey>): Check {
    if
      && v.keyOf == ExtentKeyOf && v.keyCompare == ExtentOrder && v.header.treeDepth <= 256
      && (v.header.rootNode != 0 ==> v.HoldsTree() && TableOf(v).Full())
    then Holds else Fails
  }

  lemma FullTable(v: Volume<ExtentKey>)
    requires OverflowTree(v)
    ensures TableOf(v).Full()
  {}

  lemma TableSorted(v: Volume<ExtentKey>)
    requires OverflowTree(v)
    ensures Sorted(ExtentOrder, TableOf(v).keys)
  {}

  /** The answer to a lookup: the record that begins at the block, nothing, or a stop of the search. */
  datatype Lookup = Hit(record: seq<Descriptor>, startBlock: u32) | Miss | Stopped

  /** The record with the key, as its data were written, or else the key is not in the tree, or below all that are. */
  ghost function LookupCheck(t: Table, key: ExtentKey, r: Lookup): Check {
    if match r
       case Hit(record, startBlock) =>
         |record| == DENSITY && t.HasRecord(key, DescriptorsBytes(record)) && startBlock == key.startBlock
       case Miss => key !in t.keys
       case Stopped => t.BelowAll(key)
    then Holds else Fails
  }

  ghost predicate LookedUp(t: Table, key: ExtentKey, r: Lookup) {
    LookupCheck(t, key, r) == Holds
  }

  // ----- the records as they are written -----

  /** A record of the overflow file. */
  datatype Overflow = Overflow(key: ExtentKey, record: seq<Descriptor>)

  function OverflowItem(e: Overflow): Item {
    Item(10, ExtentKeyBytes(e.key.forkType, e.key.fileID, e.key.startBlock), DescriptorsBytes(e.record))
  }

  function OverflowItems(es: seq<Overflow>): (items: seq<Item>)
    ensures |items| == |es|
  {
    seq(|es|, i requires 0 <= i < |es| => OverflowItem(es[i]))
  }

  function AllItems(contents: seq<seq<Overflow>>): (items: seq<seq<Item>>)
    ensures |items| == |contents|
  {
    seq(|contents|, p requires 0 <= p < |contents| => OverflowItems(contents[p]))
  }

  ghost predicate FullRecords(es: seq<Overflow>) { forall i :: 0 <= i < |es| ==> |es[i].record| == DENSITY }

  /** The leaves of the tree in the file are written with these records. */
  ghost predicate OverflowWritten(v: Volume<ExtentKey>, contents: seq<seq<Overflow>>) {
    && v.header.rootNode != 0 && LeavesWritten(v, v.Tree().AllLeaves(), AllItems(contents))
    && FullRecords(Flatten(contents))
  }

  lemma {:induction false} FlattenItems(contents: seq<seq<Overflow>>)
    ensures Flatten(AllItems(contents)) == OverflowItems(Flatten(contents))
  {
    if contents != [] {
      FlattenItems(contents[1..]);
      assert AllItems(contents)[1..] == AllItems(contents[1..]);
      var a, b := contents[0], Flatten(contents[1..]);
      assert OverflowItems(a + b) == OverflowItems(a) + OverflowItems(b);
    }
  }

  lemma KeyBody(e: Overflow)
    ensures ExtentKeyOf(Body(OverflowItem(e), true)) == e.key
  {
    ExtentKeyReads(e.key.forkType, e.key.fileID, e.key.startBlock, Pad(true, OverflowItem(e).key));
  }

  /** The table read from the file is the one written. */
  lemma TableWritten(v: Volume<ExtentKey>, contents: seq<seq<Overflow>>)
    requires OverflowTree(v) && OverflowWritten(v, contents)
    ensures |TableOf(v).keys| == |TableOf(v).values| == |Flatten(contents)|
    ensures forall i :: 0 <= i < |Flatten(contents)| ==>
              && TableOf(v).keys[i] == Flatten(contents)[i].key
              && TableOf(v).values[i] == DescriptorsBytes(Flatten(contents)[i].record)
  {
    var leaves, es := v.Tree().AllLeaves(), Flatten(contents);
    forall p | 0 <= p < |leaves| ensures v.Readable(leaves[p]) {
      LeafOfTree(v, p);
    }
    LeavesRead(v, leaves, AllItems(contents));
    FlattenItems(contents);
    forall i | 0 <= i < |es| ensures TableOf(v).keys[i] == es[i].key {
      KeyBody(es[i]);
    }
  }

  lemma KeyOnce(keys: seq<ExtentKey>, i: nat, j: nat)
    requires Sorted(ExtentOrder, keys) && i < |keys| && j < |keys| && keys[i] == keys[j]
    ensures i == j
  {}

  /** A lookup finds a record exactly if one is written with the key, and then that one. */
  ghost predicate FoundAsWritten(es: seq<Overflow>, key: ExtentKey, r: Lookup) {
    && (r.Hit? <==> exists i :: 0 <= i < |es| && es[i].key == key)
    && forall i :: 0 <= i < |es| && es[i].key == key ==> r == Hit(es[i].record, key.startBlock)
  }

  lemma LookedUpWritten(v: Volume<ExtentKey>, contents: seq<seq<Overflow>>, key: ExtentKey, r: Lookup)
    requires OverflowTree(v) && OverflowWritten(v, contents) && LookedUp(TableOf(v), key, r)
    ensures FoundAsWritten(Flatten(contents), key, r)
  {
    var t, es := TableOf(v), Flatten(contents);
    TableWritten(v, contents);
    TableSorted(v);
    if r.Hit? {
      var k: nat :| Entry(t.keys, t.values, k, key, DescriptorsBytes(r.record));
      forall i | 0 <= i < |es| && es[i].key == key ensures r == Hit(es[i].record, key.startBlock) {
        KeyOnce(t.keys, i, k);
        DescriptorsRead(es[i].record);
        DescriptorsRead(r.record);
      }
    } else {
      forall i | 0 <= i < |es| ensures es[i].key != key {
        assert t.keys[i] in t.keys;
        assert i > 0 ==> ExtentOrder(t.keys[0], t.keys[i]) < 0;
      }
    }
  }

  // ----- looking up one overflow record -----

  /** The result of a search that ended at a leaf: a record of the table, that of the key if and only if it has one. */
  ghost predicate AnswersFrom(v: Volume<ExtentKey>, t: Table, x: ExtentKey, r: SearchResult)
    requires r.Done?
  {
    var node := v.NodeAt(r.node);
    && v.Readable(r.node) && node.leaf && r.index < |node.keys| == |node.values|
    && t.HasRecord(node.keys[r.index], node.values[r.index])
    && if r.found then node.keys[r.index] == x else x !in t.keys
  }

  ghost function AnswerCheck(v: Volume<ExtentKey>, t: Table, x: ExtentKey, r: SearchResult): Check
    requires r.Done?
  {
    if AnswersFrom(v, t, x, r) then Holds else Fails
  }

  lemma DoneRecord(v: Volume<ExtentKey>, x: ExtentKey, r: SearchResult)
    requires v.HoldsTree() && v.keyCompare == ExtentOrder && v.header.rootNode != 0
    requires r.Done? && v.Tree().Correct(x, r)
    ensures AnswersFrom(v, TableOf(v), x, r)
  {
    TreeCounts(v);
    ExtentIsOrder();
    var p := DoneEntry(v.Tree(), x, r);
    LeafOfTree(v, p);
    v.TreeFields(r.node);
  }

  /** What a search says about the records of the tree. */
  lemma SearchedRecord(v: Volume<ExtentKey>, x: ExtentKey, r: SearchResult)
    requires v.HoldsTree() && v.keyCompare == ExtentOrder && v.header.rootNode != 0 && v.Tree().Correct(x, r)
    ensures if r.Done? then AnswerCheck(v, TableOf(v), x, r) == Holds else r == Critical && TableOf(v).BelowAll(x)
  {
    if r.Done? {
      DoneRecord(v, x, r);
    }
  }

  lemma FullRecord(t: Table, key: ExtentKey, value: seq<u8>)
    requires t.Full() && t.HasRecord(key, value)
    ensures |value| == 8 * DENSITY
  {
    var i: nat :| Entry(t.keys, t.values, i, key, value);
  }

  /** An answer, or a table that is empty, or a stop. */
  ghost function ResultCheck(v: Volume<ExtentKey>, t: Table, x: ExtentKey, r: SearchResult): Check {
    match r
    case Done(_, _, _) => AnswerCheck(v, t, x, r)
    case Unreadable => if t.keys == [] then Holds else Fails
    case Critical => if t.BelowAll(x) then Holds else Fails
  }

  /** The search for a key in the tree; an empty tree is not searched. */
  method SearchTable(tree: BTree<ExtentKey>, searchKey: ExtentKey, ghost t: Table) returns (result: SearchResult)
    requires tree.Valid() && OverflowTree(tree.volume) && t == TableOf(tree.volume)
    modifies tree.nodeCache, tree.nodeCache.Repr
    ensures tree.Valid() && fresh(tree.nodeCache.Repr - old(tree.nodeCache.Repr))
    ensures t.Full() && ResultCheck(tree.volume, t, searchKey, result) == Holds
  {
    FullTable(tree.volume);
    if tree.volume.header.rootNode == 0 {
      return Unreadable;
    }
    result := tree.Search(searchKey);
    SearchedRecord(tree.volume, searchKey, result);
  }

  lemma RecordInLeaf(v: Volume<ExtentKey>, node: seq<u8>, index: nat)
    requires HostFormed(node, v.header) && index < |v.NodeOf(node).values|
    ensures Kind(node) == KIND_LEAF && index < LE16(node, 10)
  {}

  /** The key and the data of the record a search ended at. The C gets the node from the search; the model fetches it
      again. */
  method FetchRecord(tree: BTree<ExtentKey>, n: nat, index: nat) returns (key: ExtentKey, value: seq<u8>)
    requires tree.Valid() && tree.volume.Readable(n)
    requires index < |tree.volume.NodeAt(n).keys| == |tree.volume.NodeAt(n).values|
    modifies tree.nodeCache, tree.nodeCache.Repr
    ensures tree.Valid() && fresh(tree.nodeCache.Repr - old(tree.nodeCache.Repr))
    ensures key == tree.volume.NodeAt(n).keys[index] && value == tree.volume.NodeAt(n).values[index]
  {
    var node := tree.ReadNode(n);
    RecordInLeaf(tree.volume, node, index);
    key := tree.GetRecordKey(node, index);
    value := tree.GetRecordValue(node, index);
  }

  lemma AnswerMeans(v: Volume<ExtentKey>, t: Table, x: ExtentKey, r: SearchResult)
    requires r.Done? && AnswerCheck(v, t, x, r) == Holds
    ensures v.Readable(r.node) && r.index < |v.NodeAt(r.node).keys| == |v.NodeAt(r.node).values|
    ensures t.HasRecord(v.NodeAt(r.node).keys[r.index], v.NodeAt(r.node).values[r.index])
    ensures if r.found then v.NodeAt(r.node).keys[r.index] == x else x !in t.keys
  {}

  method FetchAnswer(tree: BTree<ExtentKey>, searchKey: ExtentKey, result: SearchResult, ghost t: Table)
    returns (key: ExtentKey, value: seq<u8>)
    requires tree.Valid() && result.Done? && AnswerCheck(tree.volume, t, searchKey, result) == Holds
    modifies tree.nodeCache, tree.nodeCache.Repr
    ensures tree.Valid() && fresh(tree.nodeCache.Repr - old(tree.nodeCache.Repr))
    ensures t.HasRecord(key, value) && if result.found then key == searchKey else searchKey !in t.keys
  {
    AnswerMeans(tree.volume, t, searchKey, result);
    key, value := FetchRecord(tree, result.node, result.index);
  }

  /** The end of hfsplus_extents_find_record. A record that is not the exact one is copied out by the C too, but
      reported as not found, and the caller ignores it. */
  method Report(searchKey: ExtentKey, found: bool, returnedKey: ExtentKey, value: seq<u8>, ghost t: Table)
    returns (r: Lookup)
    requires t.Full() && t.HasRecord(returnedKey, value)
    requires if found then returnedKey == searchKey else searchKey !in t.keys
    ensures LookedUp(t, searchKey, r)
  {
    FullRecord(t, returnedKey, value);
    DescriptorsWrite(value);
    r := Miss;
    if returnedKey.fileID != searchKey.fileID || returnedKey.forkType != searchKey.forkType
       || returnedKey.startBlock > searchKey.startBlock {
      return;
    }
    if found {
      r := Hit(Descriptors(value), returnedKey.startBlock);
    }
  }

  /** What the search has found is fetched and reported. */
  method LookUp(tree: BTree<ExtentKey>, searchKey: ExtentKey, result: SearchResult, ghost t: Table)
    returns (r: Lookup)
    requires tree.Valid() && t.Full()
    requires ResultCheck(tree.volume, t, searchKey, result) == Holds
    modifies tree.nodeCache, tree.nodeCache.Repr
    ensures tree.Valid() && fresh(tree.nodeCache.Repr - old(tree.nodeCache.Repr))
    ensures LookedUp(t, searchKey, r)
  {
    if result == Unreadable {
      return Miss;
    }
    if result == Critical {
      return Stopped;
    }
    var returnedKey, bytes := FetchAnswer(tree, searchKey, result, t);
    r := Report(searchKey, result.found, returnedKey, bytes, t);
  }

  /** hfsplus_extents_find_record */
  method FindRecord(tree: BTree<ExtentKey>, fileID: u32, forkType: u8, startBlock: u32)
    returns (r: Lookup)
    requires tree.Valid() && OverflowTree(tree.volume)
    modifies tree.nodeCache, tree.nodeCache.Repr
    ensures tree.Valid() && fresh(tree.nodeCache.Repr - old(tree.nodeCache.Repr))
    ensures LookedUp(TableOf(tree.volume), ExtentKey(fileID, forkType, startBlock), r)
    ensures forall contents :: OverflowWritten(tree.volume, contents) ==>
              FoundAsWritten(Flatten(contents), ExtentKey(fileID, forkType, startBlock), r)
  {
    var searchKey := ExtentKey(fileID, forkType, startBlock);
    var result := SearchTable(tree, searchKey, TableOf(tree.volume));
    r := LookUp(tree, searchKey, result, TableOf(tree.volume));
    forall contents | OverflowWritten(tree.volume, contents) ensures FoundAsWritten(Flatten(contents), searchKey, r) {
      LookedUpWritten(tree.volume, contents, searchKey, r);
    }
  }
}
