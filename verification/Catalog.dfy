/** Looking up a name in the catalog (`src/hfs/catalog.c`): the tree search, with catalog keys in one of their two
    orders. */
module Catalog {
  import opened MachineTypes
  import opened Checks
  import opened Orders
  import opened KeyOrders
  import opened TreeRecords
  import opened TreeSearch
  import opened BTree
  import opened DiskFormat
  import opened BuiltNodes
  import opened WrittenLeaves
  import opened LeafChain

  /** How the catalog of a volume compares names. */
  datatype Comparison = CaseFolding(tables: FoldTables) | Binary
  {
    function Order(key1: CatalogKey, key2: CatalogKey): int {
      match this
      case CaseFolding(tables) => CatalogOrderCF(tables, key1, key2)
      case Binary => CatalogOrderBC(key1, key2)
    }

    /** The same parent, and the same name as far as the comparison goes. */
    predicate Same(key1: CatalogKey, key2: CatalogKey) {
      match this
      case CaseFolding(tables) =>
        key1.parentID == key2.parentID && Folded(tables, key1.name) == Folded(tables, key2.name)
      case Binary => key1 == key2
    }

    lemma OrderIsSame(key1: CatalogKey, key2: CatalogKey)
      ensures Order(key1, key2) == 0 <==> Same(key1, key2)
    {
      match this
      case CaseFolding(tables) => CatalogCFEqual(tables, key1, key2);
      case Binary => CatalogBCIsOrder();
    }
  }

  /** The file holds a catalog compared in this way. */
  ghost predicate CatalogTree(c: Comparison, v: Volume<CatalogKey>) {
    CatalogCheck(c, v) == Holds
  }

  ghost function CatalogCheck(c: Comparison, v: Volume<CatalogKey>): Check {
    if
      && v.keyOf == CatalogKeyOf && (forall a, b :: v.keyCompare(a, b) == c.Order(a, b))
      && v.HoldsTree() && v.header.treeDepth <= 256
    then Holds else Fails
  }

  /** The keys of the catalog, in order. */
  ghost function Entries(v: Volume<CatalogKey>): seq<CatalogKey> { v.Tree().AllKeys() }

  /** The catalog has a record with this parent and a name that compares equal. */
  ghost predicate HasName(c: Comparison, v: Volume<CatalogKey>, key: CatalogKey) {
    exists k :: k in Entries(v) && c.Same(key, k)
  }

  /** What a lookup can come to: the record, none, or a stop of the search. */
  datatype Lookup = Found(node: nat, index: nat) | NotFound | Stopped

  /** Found exactly if there is such a record, and then the record named is one; a stop is for keys below all. */
  ghost predicate LookedUp(c: Comparison, v: Volume<CatalogKey>, key: CatalogKey, r: Lookup) {
    && (r.Found? <==> HasName(c, v, key))
    && (r.Found? ==> r.node in v.Tree().AllLeaves() && v.Readable(r.node) && v.NodeAt(r.node).leaf
                     && r.index < |v.NodeAt(r.node).keys| && c.Same(key, v.NodeAt(r.node).keys[r.index]))
    && (r == Stopped ==> v.header.treeDepth > 1 && Entries(v) != [] && c.Order(key, Entries(v)[0]) < 0)
  }

  function LookupOf(result: SearchResult): Lookup {
    match result
    case Done(found, node, index) => if found then Found(node, index) else NotFound
    case Unreadable => NotFound
    case Critical => Stopped
  }

  /** What the search says about the entries of the catalog. */
  lemma SearchedCatalog(c: Comparison, v: Volume<CatalogKey>, key: CatalogKey, result: SearchResult)
    requires CatalogTree(c, v) && v.Tree().Correct(key, result)
    ensures LookedUp(c, v, key, LookupOf(result))
  {
    SearchedKeys(v.Tree(), key, result);
    forall k ensures v.keyCompare(key, k) == 0 <==> c.Same(key, k) {
      c.OrderIsSame(key, k);
    }
    if result.Done? {
      var p :| 0 <= p < |v.Tree().AllLeaves()| && v.Tree().AllLeaves()[p] == result.node;
      LeafOfTree(v, p);
      v.TreeFields(result.node);
    }
  }

  // ----- the entries as they are written -----

  datatype Entry = Entry(parentID: u32, name: seq<u16>, data: seq<u8>)

  /** A record of the catalog: the length of its key, the key, and the data. */
  function EntryItem(e: Entry): Item
    requires |e.name| <= 255
  {
    Item(6 + 2 * |e.name|, CatalogKeyBytes(e.parentID, e.name), e.data)
  }

  /** Names have up to 255 units. */
  ghost predicate Nameable(es: seq<Entry>) { forall i :: 0 <= i < |es| ==> |es[i].name| <= 255 }

  ghost function EntryItems(es: seq<Entry>): (items: seq<Item>)
    requires Nameable(es)
    ensures |items| == |es|
  {
    seq(|es|, i requires 0 <= i < |es| => EntryItem(es[i]))
  }

  ghost predicate AllNameable(contents: seq<seq<Entry>>) { forall p :: 0 <= p < |contents| ==> Nameable(contents[p]) }

  ghost function AllItems(contents: seq<seq<Entry>>): (items: seq<seq<Item>>)
    requires AllNameable(contents)
    ensures |items| == |contents|
  {
    seq(|contents|, p requires 0 <= p < |contents| => EntryItems(contents[p]))
  }

  /** The leaves of the tree in the file are written with these entries. */
  ghost predicate CatalogWritten(v: Volume<CatalogKey>, contents: seq<seq<Entry>>) {
    AllNameable(contents) && LeavesWritten(v, v.Tree().AllLeaves(), AllItems(contents))
  }

  lemma {:induction false} FlattenEntries(contents: seq<seq<Entry>>)
    requires AllNameable(contents)
    ensures Nameable(Flatten(contents)) && Flatten(AllItems(contents)) == EntryItems(Flatten(contents))
  {
    if contents != [] {
      FlattenEntries(contents[1..]);
      assert AllItems(contents)[1..] == AllItems(contents[1..]);
      var a, b := contents[0], Flatten(contents[1..]);
      assert Nameable(a) && EntryItems(a + b) == EntryItems(a) + EntryItems(b);
    }
  }

  lemma EntryKey(e: Entry)
    requires |e.name| <= 255
    ensures CatalogKeyOf(Body(EntryItem(e), true)) == CatalogKey(e.parentID, e.name)
  {
    CatalogKeyReads(e.parentID, e.name, Pad(true, EntryItem(e).key));
  }

  lemma LeafEntries(c: Comparison, v: Volume<CatalogKey>, contents: seq<seq<Entry>>, p: nat)
    requires CatalogTree(c, v) && CatalogWritten(v, contents) && p < |contents|
    ensures p < |v.Tree().AllLeaves()|
    ensures var keys := v.NodeAt(v.Tree().AllLeaves()[p]).keys;
            && |keys| == |contents[p]|
            && forall i :: 0 <= i < |keys| ==> keys[i] == CatalogKey(contents[p][i].parentID, contents[p][i].name)
  {
    var leaves := v.Tree().AllLeaves();
    LeafOfTree(v, p);
    assert WrittenAt(v, leaves, AllItems(contents), p);
    LeafReads(v, leaves[p], EntryItems(contents[p]));
    forall i | 0 <= i < |contents[p]|
      ensures v.NodeAt(leaves[p]).keys[i] == CatalogKey(contents[p][i].parentID, contents[p][i].name)
    {
      EntryKey(contents[p][i]);
    }
  }

  /** The keys read from the file are those written. */
  lemma EntriesWritten(c: Comparison, v: Volume<CatalogKey>, contents: seq<seq<Entry>>)
    requires CatalogTree(c, v) && CatalogWritten(v, contents)
    ensures |Entries(v)| == |Flatten(contents)|
    ensures forall i :: 0 <= i < |Flatten(contents)| ==>
              Entries(v)[i] == CatalogKey(Flatten(contents)[i].parentID, Flatten(contents)[i].name)
  {
    var leaves, es := v.Tree().AllLeaves(), Flatten(contents);
    forall p | 0 <= p < |leaves| ensures v.Readable(leaves[p]) {
      LeafOfTree(v, p);
    }
    LeavesRead(v, leaves, AllItems(contents));
    FlattenEntries(contents);
    forall i | 0 <= i < |es| ensures Entries(v)[i] == CatalogKey(es[i].parentID, es[i].name) {
      EntryKey(es[i]);
    }
  }

  /** An entry with this parent and, as far as the comparison goes, this name. */
  predicate Matches(c: Comparison, e: Entry, parentID: u32, name: seq<u16>) {
    c.Same(CatalogKey(parentID, name), CatalogKey(e.parentID, e.name))
  }

  /** A lookup finds an entry exactly if one matches that is written, and names one: entry `index` of the leaf. */
  ghost predicate FoundAsWritten(c: Comparison, v: Volume<CatalogKey>, contents: seq<seq<Entry>>, parentID: u32,
                                 name: seq<u16>, r: Lookup)
    requires |contents| == |v.Tree().AllLeaves()|
  {
    && (r.Found? <==> exists i :: 0 <= i < |Flatten(contents)| && Matches(c, Flatten(contents)[i], parentID, name))
    && (r.Found? ==> exists p :: 0 <= p < |contents| && v.Tree().AllLeaves()[p] == r.node && r.index < |contents[p]|
                                 && Matches(c, contents[p][r.index], parentID, name))
  }

  lemma NameWritten(c: Comparison, v: Volume<CatalogKey>, contents: seq<seq<Entry>>, parentID: u32, name: seq<u16>)
    requires CatalogTree(c, v) && CatalogWritten(v, contents)
    ensures HasName(c, v, CatalogKey(parentID, name))
       <==> exists i :: 0 <= i < |Flatten(contents)| && Matches(c, Flatten(contents)[i], parentID, name)
  {
    var es, key := Flatten(contents), CatalogKey(parentID, name);
    EntriesWritten(c, v, contents);
    if HasName(c, v, key) {
      var k :| k in Entries(v) && c.Same(key, k);
      var i :| 0 <= i < |es| && Entries(v)[i] == k;
      assert Matches(c, es[i], parentID, name);
    }
    forall i | 0 <= i < |es| && Matches(c, es[i], parentID, name) ensures HasName(c, v, key) {
      assert Entries(v)[i] in Entries(v);
    }
  }

  lemma LookedUpWritten(c: Comparison, v: Volume<CatalogKey>, contents: seq<seq<Entry>>, parentID: u32,
                        name: seq<u16>, r: Lookup)
    requires CatalogTree(c, v) && CatalogWritten(v, contents) && LookedUp(c, v, CatalogKey(parentID, name), r)
    ensures FoundAsWritten(c, v, contents, parentID, name, r)
  {
    NameWritten(c, v, contents, parentID, name);
    if r.Found? {
      var p :| 0 <= p < |v.Tree().AllLeaves()| && v.Tree().AllLeaves()[p] == r.node;
      LeafEntries(c, v, contents, p);
      assert Matches(c, contents[p][r.index], parentID, name);
    }
  }

  /** hfsplus_catalog_find_record */
  method FindRecord(c: Comparison, tree: BTree<CatalogKey>, parentFolder: u32, name: seq<u16>) returns (r: Lookup)
    requires tree.Valid() && CatalogTree(c, tree.volume)
    modifies tree.nodeCache, tree.nodeCache.Repr
    ensures tree.Valid() && fresh(tree.nodeCache.Repr - old(tree.nodeCache.Repr))
    ensures LookedUp(c, tree.volume, CatalogKey(parentFolder, name), r)
    ensures forall contents :: CatalogWritten(tree.volume, contents) ==>
              FoundAsWritten(c, tree.volume, contents, parentFolder, name, r)
  {
    var catalogKey := CatalogKey(parentFolder, name);
    var result := tree.Search(catalogKey);
    SearchedCatalog(c, tree.volume, catalogKey, result);
    r := LookupOf(result);
    forall contents | CatalogWritten(tree.volume, contents)
      ensures FoundAsWritten(c, tree.volume, contents, parentFolder, name, r)
    {
      LookedUpWritten(c, tree.volume, contents, parentFolder, name, r);
    }
  }

  /** There is at most one such record. */
  lemma EntryUnique(c: Comparison, v: Volume<CatalogKey>, key: CatalogKey, i: nat, j: nat)
    requires CatalogTree(c, v) && i < |Entries(v)| && j < |Entries(v)|
    requires c.Same(key, Entries(v)[i]) && c.Same(key, Entries(v)[j])
    ensures i == j
  {
    c.OrderIsSame(key, Entries(v)[i]);
    c.OrderIsSame(key, Entries(v)[j]);
    OrderTransitive(v.keyCompare, key, Entries(v)[i], Entries(v)[j]);
    OrderTransitive(v.keyCompare, key, Entries(v)[j], Entries(v)[i]);
  }
}
