/** Building the extent list of a fork (`hfsplus_extents_get_extentlist_for_fork` in `src/hfs/extents.c`). */
module ExtentCollection {
  import opened MachineTypes
  import opened Checks
  import opened Sequences
  import opened KeyOrders
  import opened TreeModel
  import opened TreeRecords
  import opened BTree
  import opened DiskFormat
  import opened ExtentLists
  import opened Extents

  // ----- chains of overflow records -----

  /** The descriptors of the fork and of some overflow records, in order. */
  function Descriptions(fork: Fork, records: seq<seq<Descriptor>>): seq<Descriptor>
    requires forall i :: 0 <= i < |records| ==> |records[i]| == DENSITY
  {
    if records == [] then fork.extents
    else Descriptions(fork, records[..|records| - 1]) + records[|records| - 1]
  }

  /** How many blocks they cover. */
  function Covered(fork: Fork, records: seq<seq<Descriptor>>): nat
    requires forall i :: 0 <= i < |records| ==> |records[i]| == DENSITY
  {
    |FlatOf(Descriptions(fork, records))|
  }

  lemma {:induction false} FlatOfAppend(a: seq<Descriptor>, b: seq<Descriptor>)
    ensures FlatOf(a + b) == FlatOf(a) + FlatOf(b)
    decreases |b|
  {
    if b == [] {
      assert a + b == a;
    } else {
      var m, z := b[..|b| - 1], b[|b| - 1];
      assert (a + b)[..|a + b| - 1] == a + m;
      FlatOfAppend(a, m);
      Associative(FlatOf(a), FlatOf(m), Blocks(z.startBlock, z.blockCount));
    }
  }

  /** The key an overflow record of the fork has if it begins at block b, a 32-bit number. */
  function KeyAtBlock(fork: Fork, b: nat): ExtentKey { ExtentKey(fork.fileID, fork.forkType, b % 0x1_0000_0000) }

  /** Record i is the one that begins where the fork and the records before it end, short of the total. */
  ghost predicate Follows(t: Table, fork: Fork, records: seq<seq<Descriptor>>, i: nat)
    requires i < |records| && forall j :: 0 <= j < |records| ==> |records[j]| == DENSITY
  {
    && Covered(fork, records[..i]) < fork.totalBlocks
    && t.HasRecord(KeyAtBlock(fork, Covered(fork, records[..i])), DescriptorsBytes(records[i]))
    && (i + 1 < |records| ==> records[i][7].blockCount != 0)
  }

  ghost predicate Chain(t: Table, fork: Fork, records: seq<seq<Descriptor>>) {
    && (forall i :: 0 <= i < |records| ==> |records[i]| == DENSITY)
    && (forall i :: 0 <= i < |records| ==> Follows(t, fork, records, i))
  }

  /** Nothing more is to be had: the total is reached, the last record is not full, or none begins where it ends. */
  ghost predicate Ends(t: Table, fork: Fork, records: seq<seq<Descriptor>>)
    requires Chain(t, fork, records)
  {
    || Covered(fork, records) >= fork.totalBlocks
    || (records != [] && records[|records| - 1][7].blockCount == 0)
    || KeyAtBlock(fork, Covered(fork, records)) !in t.keys
  }

  /** The totals of the fork and its own records fit the integers that add them up. */
  ghost predicate SmallTotals(t: Table, fork: Fork) {
    TotalsCheck(t, fork) == Holds
  }

  ghost function TotalsCheck(t: Table, fork: Fork): Check {
    if
      && |FlatOf(fork.extents)| < 0x8000_0000 && fork.totalBlocks < 0x8000_0000
      && forall b: nat, record: seq<Descriptor> ::
           |record| == DENSITY && t.HasRecord(KeyAtBlock(fork, b), DescriptorsBytes(record)) ==>
             fork.totalBlocks + |FlatOf(record)| < 0x8000_0000
    then Holds else Fails
  }

  // ----- the collector -----

  /** What the collector can come to: a list, or one of its critical() stops. */
  datatype Collected = Collected | SearchStopped | BadExtent | Duplicate

  /** for (i = 0; i < 8; i++) blocks += record[i].blockCount, in 32 bits */
  method AddCounts(blocks: u32, record: seq<Descriptor>) returns (sum: u32)
    ensures sum == (blocks + |FlatOf(record)|) % 0x1_0000_0000
  {
    sum := blocks;
    for i := 0 to |record|
      invariant sum == (blocks + |FlatOf(record[..i])|) % 0x1_0000_0000
    {
      sum := (sum + record[i].blockCount) % 0x1_0000_0000;
      assert record[..i + 1][..i] == record[..i];
    }
    assert record[..|record|] == record;
  }

  /** Blocks [0, blocks) are those of the fork's extents and of a chain of full records. */
  ghost predicate Covers(t: Table, fork: Fork, records: seq<seq<Descriptor>>, flat: seq<nat>, blocks: nat) {
    && Chain(t, fork, records) && flat == FlatOf(Descriptions(fork, records))
    && blocks == |flat| < 0x8000_0000
    && (records != [] ==> records[|records| - 1][7].blockCount != 0)
  }

  /** The list is that of a chain of records, and the reason to stop is a good one. */
  ghost predicate Finished(t: Table, fork: Fork, records: seq<seq<Descriptor>>, flat: seq<nat>, r: Collected) {
    && Chain(t, fork, records) && flat == FlatOf(Descriptions(fork, records))
    && match r
       case Collected => Ends(t, fork, records)
       case SearchStopped =>
         Covered(fork, records) < fork.totalBlocks && t.BelowAll(KeyAtBlock(fork, Covered(fork, records)))
       case _ => false
  }

  /** How far the collection has come. */
  datatype Stage = Going | Ended(r: Collected)

  ghost predicate Stands(t: Table, fork: Fork, records: seq<seq<Descriptor>>, flat: seq<nat>, blocks: nat,
                         stage: Stage) {
    match stage
    case Going => Covers(t, fork, records, flat, blocks)
    case Ended(r) => Finished(t, fork, records, flat, r)
  }

  ghost function Accounted(t: Table, fork: Fork, records: seq<seq<Descriptor>>, flat: seq<nat>, blocks: nat,
                           stage: Stage): Check
  {
    if Stands(t, fork, records, flat, blocks, stage) then Holds else Fails
  }

  lemma ChainMore(t: Table, fork: Fork, records: seq<seq<Descriptor>>, record: seq<Descriptor>)
    requires Chain(t, fork, records) && Covered(fork, records) < fork.totalBlocks
    requires records != [] ==> records[|records| - 1][7].blockCount != 0
    requires |record| == DENSITY
    requires t.HasRecord(KeyAtBlock(fork, Covered(fork, records)), DescriptorsBytes(record))
    ensures Chain(t, fork, records + [record])
  {
    var more := records + [record];
    assert more[..|records|] == records;
    forall i | 0 <= i < |more| ensures Follows(t, fork, more, i) {
      if i < |records| {
        assert more[..i] == records[..i] && Follows(t, fork, records, i);
      }
    }
  }

  /** The stage after taking a record. */
  function After(record: seq<Descriptor>): Stage
    requires |record| == DENSITY
  {
    if record[7].blockCount == 0 then Ended(Collected) else Going
  }

  /** Taking the record that begins where the covered blocks end. */
  lemma TakenRecord(t: Table, fork: Fork, records: seq<seq<Descriptor>>, flat: seq<nat>, blocks: u32,
                    found: Lookup)
    requires SmallTotals(t, fork) && Accounted(t, fork, records, flat, blocks, Going) == Holds
    requires blocks < fork.totalBlocks && found.Hit?
             && LookedUp(t, ExtentKey(fork.fileID, fork.forkType, blocks), found)
    ensures found.startBlock == blocks == |flat| && |found.record| == DENSITY
    ensures blocks + |FlatOf(found.record)| < 0x8000_0000
    ensures found.record[7].blockCount <= |FlatOf(found.record)|
    ensures Accounted(t, fork, records + [found.record], flat + FlatOf(found.record), blocks + |FlatOf(found.record)|,
                      After(found.record)) == Holds
  {
    ChainMore(t, fork, records, found.record);
    assert (records + [found.record])[..|records|] == records;
    FlatOfAppend(Descriptions(fork, records), found.record);
  }

  /** Finding none. */
  lemma NoRecord(t: Table, fork: Fork, records: seq<seq<Descriptor>>, flat: seq<nat>, blocks: u32,
                 found: Lookup)
    requires Accounted(t, fork, records, flat, blocks, Going) == Holds && !found.Hit? && blocks < fork.totalBlocks
    requires LookedUp(t, ExtentKey(fork.fileID, fork.forkType, blocks), found)
    ensures Accounted(t, fork, records, flat, blocks, Ended(if found.Miss? then Collected else SearchStopped)) == Holds
  {}

  /** A finished account is a finished list, whatever the count. */
  lemma FinishedCheck(t: Table, fork: Fork, records: seq<seq<Descriptor>>, flat: seq<nat>, blocks: nat, r: Collected)
    requires Accounted(t, fork, records, flat, blocks, Ended(r)) == Holds
    ensures Finished(t, fork, records, flat, r)
  {}

  lemma NothingFound(t: Table, fork: Fork)
    requires |FlatOf(fork.extents)| < 0x8000_0000
    ensures Accounted(t, fork, [], FlatOf(fork.extents), |FlatOf(fork.extents)|, Going) == Holds
  {}

  lemma TotalReached(t: Table, fork: Fork, records: seq<seq<Descriptor>>, flat: seq<nat>, blocks: nat)
    requires Accounted(t, fork, records, flat, blocks, Going) == Holds && blocks >= fork.totalBlocks
    ensures Accounted(t, fork, records, flat, blocks, Ended(Collected)) == Holds
  {}

  /** The checks of a record found, and its descriptors added to the list. Failing the checks stops the program. */
  method AddFound(list: ExtentList, blocks: u32, found: Lookup) returns (stage: Stage, newBlocks: u32)
    requires list.Valid() && found.Hit? && |found.record| == DENSITY && Small(list.extents)
    modifies list
    ensures list.Valid()
    ensures found.startBlock == blocks == |old(Flat(list.extents))| && blocks + |FlatOf(found.record)| < 0x8000_0000 ==>
              && stage == After(found.record) && newBlocks == blocks + |FlatOf(found.record)|
              && Flat(list.extents) == old(Flat(list.extents)) + FlatOf(found.record)
  {
    newBlocks := blocks;
    if found.startBlock > blocks {
      return Ended(BadExtent), newBlocks;
    }
    var already, _, _ := list.Find(found.startBlock);
    if already {
      return Ended(Duplicate), newBlocks;
    }
    list.AddRecord(found.record);
    newBlocks := AddCounts(blocks, found.record);
    stage := if found.record[7].blockCount == 0 then Ended(Collected) else Going;
  }

  /** What the loop does with the result of a lookup. */
  method TakeRecord(list: ExtentList, fork: Fork, blocks: u32, found: Lookup,
                    ghost t: Table, ghost records: seq<seq<Descriptor>>)
    returns (stage: Stage, newBlocks: u32, ghost newRecords: seq<seq<Descriptor>>)
    requires SmallTotals(t, fork) && list.Valid() && blocks < fork.totalBlocks
    requires Accounted(t, fork, records, Flat(list.extents), blocks, Going) == Holds
    requires LookedUp(t, ExtentKey(fork.fileID, fork.forkType, blocks), found)
    modifies list
    ensures list.Valid() && Accounted(t, fork, newRecords, Flat(list.extents), newBlocks, stage) == Holds
    ensures stage.Going? ==> newBlocks > blocks
  {
    ghost var flat := Flat(list.extents);
    newBlocks, newRecords := blocks, records;
    if found.Hit? {
      TakenRecord(t, fork, records, flat, blocks, found);
      stage, newBlocks := AddFound(list, blocks, found);
      newRecords := records + [found.record];
    } else {
      NoRecord(t, fork, records, flat, blocks, found);
      stage := Ended(if found.Miss? then Collected else SearchStopped);
    }
  }

  // ----- consistent overflow trees -----

  lemma OneRecordPerKey(t: Table, key: ExtentKey, a: seq<Descriptor>, b: seq<Descriptor>)
    requires |a| == |b| == DENSITY && Sorted(ExtentOrder, t.keys)
    requires t.HasRecord(key, DescriptorsBytes(a)) && t.HasRecord(key, DescriptorsBytes(b))
    ensures a == b
  {
    var i: nat :| Entry(t.keys, t.values, i, key, DescriptorsBytes(a));
    var j: nat :| Entry(t.keys, t.values, j, key, DescriptorsBytes(b));
    DescriptorsRead(a);
    DescriptorsRead(b);
    KeyOnce(t.keys, i, j);
  }

  /** There is only one way to go on. */
  lemma {:induction false} ChainsAgree(t: Table, fork: Fork, a: seq<seq<Descriptor>>, b: seq<seq<Descriptor>>, n: nat)
    requires Sorted(ExtentOrder, t.keys) && Chain(t, fork, a) && Chain(t, fork, b) && n <= |a| && n <= |b|
    ensures a[..n] == b[..n]
  {
    if n > 0 {
      ChainsAgree(t, fork, a, b, n - 1);
      assert Follows(t, fork, a, n - 1) && Follows(t, fork, b, n - 1);
      OneRecordPerKey(t, KeyAtBlock(fork, Covered(fork, a[..n - 1])), a[n - 1], b[n - 1]);
      assert a[..n] == a[..n - 1] + [a[n - 1]] && b[..n] == b[..n - 1] + [b[n - 1]];
    }
  }

  lemma KeyNotBelowAll(t: Table, key: ExtentKey, value: seq<u8>)
    requires Sorted(ExtentOrder, t.keys) && t.HasRecord(key, value)
    ensures key in t.keys && !t.BelowAll(key)
  {
    var i: nat :| Entry(t.keys, t.values, i, key, value);
    assert i > 0 ==> ExtentOrder(t.keys[0], t.keys[i]) < 0;
  }

  /** Where a shorter chain ends, the longer one goes on. */
  lemma ShorterChain(t: Table, fork: Fork, longer: seq<seq<Descriptor>>, shorter: seq<seq<Descriptor>>)
    requires Sorted(ExtentOrder, t.keys) && Chain(t, fork, longer) && Chain(t, fork, shorter)
    ensures |shorter| < |longer| ==>
              && Covered(fork, shorter) < fork.totalBlocks
              && KeyAtBlock(fork, Covered(fork, shorter)) in t.keys
              && !t.BelowAll(KeyAtBlock(fork, Covered(fork, shorter)))
              && (shorter != [] ==> shorter[|shorter| - 1][7].blockCount != 0)
  {
    var n := |shorter|;
    if n < |longer| {
      ChainsAgree(t, fork, longer, shorter, n);
      assert shorter == shorter[..n] == longer[..n] && Follows(t, fork, longer, n);
      KeyNotBelowAll(t, KeyAtBlock(fork, Covered(fork, shorter)), DescriptorsBytes(longer[n]));
      if n > 0 {
        assert Follows(t, fork, longer, n - 1) && longer[n - 1] == shorter[n - 1];
      }
    }
  }

  /** If the tree has a chain of records that covers the total, the collector takes that chain: the search never stops
      it, and the list covers exactly the total. */
  lemma WholeForkCovered(t: Table, fork: Fork, whole: seq<seq<Descriptor>>, got: seq<seq<Descriptor>>,
                         flat: seq<nat>, r: Collected)
    requires Sorted(ExtentOrder, t.keys) && Chain(t, fork, whole) && Covered(fork, whole) == fork.totalBlocks
    requires Finished(t, fork, got, flat, r)
    ensures r == Collected && got == whole && |flat| == fork.totalBlocks
  {
    ShorterChain(t, fork, whole, got);
    ShorterChain(t, fork, got, whole);
    ChainsAgree(t, fork, whole, got, |got|);
    assert whole[..|got|] == whole && got[..|got|] == got;
  }

  /** A chain of records that covers the fork exactly. */
  ghost predicate CoversFork(t: Table, fork: Fork, whole: seq<seq<Descriptor>>) {
    Chain(t, fork, whole) && Covered(fork, whole) == fork.totalBlocks
  }

  /** The tree has all of the fork. */
  ghost predicate HasWholeFork(t: Table, fork: Fork) {
    exists whole :: CoversFork(t, fork, whole)
  }

  /** The list covers exactly the total if and only if the tree has all of the fork. */
  lemma WholeExactly(t: Table, fork: Fork, got: seq<seq<Descriptor>>, flat: seq<nat>, r: Collected)
    requires Sorted(ExtentOrder, t.keys) && Finished(t, fork, got, flat, r)
    ensures HasWholeFork(t, fork) <==> r == Collected && |flat| == fork.totalBlocks
  {
    if HasWholeFork(t, fork) {
      var whole :| CoversFork(t, fork, whole);
      WholeForkCovered(t, fork, whole, got, flat, r);
    }
    if |flat| == fork.totalBlocks {
      assert CoversFork(t, fork, got);
    }
  }

  // ----- the loop -----

  /** One turn of the loop: look for the next record, and take it. */
  method CollectNext(tree: BTree<ExtentKey>, list: ExtentList, fork: Fork, blocks: u32,
                     ghost t: Table, ghost records: seq<seq<Descriptor>>)
    returns (stage: Stage, newBlocks: u32, ghost newRecords: seq<seq<Descriptor>>)
    requires tree.Valid() && OverflowTree(tree.volume) && t == TableOf(tree.volume)
    requires SmallTotals(t, fork) && list.Valid() && blocks < fork.totalBlocks
    requires Accounted(t, fork, records, Flat(list.extents), blocks, Going) == Holds
    modifies list, tree.nodeCache, tree.nodeCache.Repr
    ensures tree.Valid() && fresh(tree.nodeCache.Repr - old(tree.nodeCache.Repr)) && list.Valid()
    ensures Accounted(t, fork, newRecords, Flat(list.extents), newBlocks, stage) == Holds
    ensures stage.Going? ==> newBlocks > blocks
  {
    var found := FindRecord(tree, fork.fileID, fork.forkType, blocks);
    stage, newBlocks, newRecords := TakeRecord(list, fork, blocks, found, t, records);
  }

  /** The loop over the overflow records. */
  method CollectRecords(tree: BTree<ExtentKey>, list: ExtentList, fork: Fork, covered: u32, ghost t: Table)
    returns (r: Collected, blocks: u32, ghost records: seq<seq<Descriptor>>)
    requires tree.Valid() && OverflowTree(tree.volume) && t == TableOf(tree.volume) && SmallTotals(t, fork)
    requires list.Valid() && Flat(list.extents) == FlatOf(fork.extents) && covered == |FlatOf(fork.extents)|
    modifies list, tree.nodeCache, tree.nodeCache.Repr
    ensures tree.Valid() && list.Valid()
    ensures Accounted(t, fork, records, Flat(list.extents), blocks, Ended(r)) == Holds
  {
    records := [];
    NothingFound(t, fork);
    var stage := Going;
    blocks := covered;
    while stage.Going? && blocks < fork.totalBlocks
      invariant tree.Valid() && list.Valid() && fresh(tree.nodeCache.Repr - old(tree.nodeCache.Repr))
      invariant Accounted(t, fork, records, Flat(list.extents), blocks, stage) == Holds
      decreases if stage.Going? then 1 else 0, fork.totalBlocks - blocks
    {
      stage, blocks, records := CollectNext(tree, list, fork, blocks, t, records);
    }
    if stage.Going? {
      TotalReached(t, fork, records, Flat(list.extents), blocks);
    }
    r := if stage.Ended? then stage.r else Collected;
  }

  /** The extents of the fork record come first. */
  method StartList(list: ExtentList, fork: Fork) returns (blocks: u32)
    requires list.Valid() && list.extents == [] && |FlatOf(fork.extents)| < 0x8000_0000
    modifies list
    ensures list.Valid() && Flat(list.extents) == FlatOf(fork.extents) && blocks == |FlatOf(fork.extents)|
  {
    list.AddRecord(fork.extents);
    assert Flat([]) + FlatOf(fork.extents) == FlatOf(fork.extents);
    blocks := AddCounts(0, fork.extents);
  }

  /** hfsplus_extents_get_extentlist_for_fork. The chain of records it took is a ghost result. */
  method GetExtentList(tree: BTree<ExtentKey>, list: ExtentList, fork: Fork)
    returns (r: Collected, ghost records: seq<seq<Descriptor>>)
    requires tree.Valid() && OverflowTree(tree.volume) && SmallTotals(TableOf(tree.volume), fork)
    requires list.Valid() && list.extents == [] && |fork.extents| == DENSITY
    modifies list, tree.nodeCache, tree.nodeCache.Repr
    ensures tree.Valid() && list.Valid()
    ensures Finished(TableOf(tree.volume), fork, records, Flat(list.extents), r)
    ensures HasWholeFork(TableOf(tree.volume), fork)
       <==> r == Collected && |Flat(list.extents)| == fork.totalBlocks
  {
    ghost var t := TableOf(tree.volume);
    var blocks: u32 := StartList(list, fork);
    r, blocks, records := CollectRecords(tree, list, fork, blocks, t);
    FinishedCheck(t, fork, records, Flat(list.extents), blocks, r);
    TableSorted(tree.volume);
    WholeExactly(t, fork, records, Flat(list.extents), r);
  }
}
