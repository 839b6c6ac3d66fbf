/** The run-length map of a fork from logical to physical blocks (`src/hfs/hfs_extentlist.c`, `src/hfs/range.c`), and
    the flat map it stands for. */
module ExtentLists {
  import opened MachineTypes
  import opened Checks
  import opened DiskFormat
  import opened Sequences

  datatype Extent = Extent(logicalStart: u64, startBlock: u64, blockCount: u64)

  // ----- the flat map -----

  function Blocks(start: nat, count: nat): (r: seq<nat>)
    ensures |r| == count
  {
    seq(count, i requires 0 <= i < count => start + i)
  }

  /** Entry k is the physical block of logical block k. */
  function Flat(es: seq<Extent>): seq<nat> {
    if es == [] then [] else Flat(es[..|es| - 1]) + Blocks(es[|es| - 1].startBlock, es[|es| - 1].blockCount)
  }

  function FlatOf(ds: seq<Descriptor>): seq<nat> {
    if ds == [] then [] else FlatOf(ds[..|ds| - 1]) + Blocks(ds[|ds| - 1].startBlock, ds[|ds| - 1].blockCount)
  }

  lemma FlatSnoc(es: seq<Extent>, e: Extent)
    ensures Flat(es + [e]) == Flat(es) + Blocks(e.startBlock, e.blockCount)
  {
    assert (es + [e])[..|es|] == es;
  }

  lemma {:induction false} FlatAppend(es: seq<Extent>, fs: seq<Extent>)
    ensures Flat(es + fs) == Flat(es) + Flat(fs)
    decreases |fs|
  {
    if fs == [] {
      assert es + fs == es;
    } else {
      var f, z := fs[..|fs| - 1], fs[|fs| - 1];
      Snoc(fs);
      Associative(es, f, [z]);
      FlatSnoc(es + f, z);
      FlatAppend(es, f);
      Associative(Flat(es), Flat(f), Blocks(z.startBlock, z.blockCount));
    }
  }

  /** How many blocks come before extent i. */
  function Start(es: seq<Extent>, i: nat): nat
    requires i <= |es|
  {
    |Flat(es[..i])|
  }

  /** The totals fit the int that adds them up. */
  ghost predicate Small(es: seq<Extent>) { |Flat(es)| < 0x8000_0000 }

  ghost predicate NoneEmpty(es: seq<Extent>) { forall i :: 0 <= i < |es| ==> es[i].blockCount > 0 }

  /** The logical starts are the sums of the counts before. */
  ghost predicate LaidOut(es: seq<Extent>) {
    forall i :: 0 <= i < |es| ==> es[i].logicalStart == Start(es, i)
  }

  lemma StartNext(es: seq<Extent>, i: nat)
    requires i < |es|
    ensures Start(es, i + 1) == Start(es, i) + es[i].blockCount <= |Flat(es)|
  {
    assert es[..i + 1] == es[..i] + [es[i]];
    FlatSnoc(es[..i], es[i]);
    Halves(es, i + 1);
    FlatAppend(es[..i + 1], es[i + 1..]);
  }

  /** The flat map along extent i. */
  lemma FlatAlong(es: seq<Extent>, i: nat, k: nat)
    requires i < |es| && k < es[i].blockCount
    ensures Start(es, i) + k < |Flat(es)|
    ensures Flat(es)[Start(es, i) + k] == es[i].startBlock + k
  {
    StartNext(es, i);
    assert es[..i + 1] == es[..i] + [es[i]];
    FlatSnoc(es[..i], es[i]);
    Halves(es, i + 1);
    FlatAppend(es[..i + 1], es[i + 1..]);
  }

  // ----- the arithmetic of range.c and of C's int -----

  /** A size_t stored in an int, and an int stored in a size_t. */
  function ToInt(x: int): (r: int)
    ensures -0x8000_0000 <= r < 0x8000_0000
  {
    var y := x % 0x1_0000_0000;
    if y < 0x8000_0000 then y else y - 0x1_0000_0000
  }

  function ToSize(x: int): u64 { x % 0x1_0000_0000_0000_0000 }

  /** range_contains */
  predicate RangeContains(pos: u64, start: u64, count: u64) {
    start <= pos <= ToSize(start + count - 1)
  }

  /** In the ranges of small lists there is no wrap-around. */
  lemma SmallRange(pos: u64, start: u64, count: u64)
    requires 0 < count && start + count < 0x8000_0000
    ensures RangeContains(pos, start, count) <==> start <= pos < start + count
    ensures start <= pos < start + count ==>
              ToInt(count - (pos - start)) == ToSize(count - (pos - start)) == count - (pos - start)
    ensures ToInt(start + count) == ToSize(start + count) == start + count
  {}

  /** The same extents but for their logical starts. */
  ghost predicate SameBlocks(es: seq<Extent>, fs: seq<Extent>) {
    |es| == |fs|
    && forall i :: 0 <= i < |es| ==> es[i].startBlock == fs[i].startBlock && es[i].blockCount == fs[i].blockCount
  }

  lemma {:induction false} SameFlat(es: seq<Extent>, fs: seq<Extent>)
    requires SameBlocks(es, fs)
    ensures Flat(es) == Flat(fs)
  {
    if es != [] {
      SameFlat(es[..|es| - 1], fs[..|fs| - 1]);
    }
  }

  /** The first i logical starts are right, and the next one is in `block`, if the totals are small. */
  ghost function Numbering(es: seq<Extent>, fs: seq<Extent>, i: nat, block: int): Check
    requires i <= |es|
  {
    if
      && SameBlocks(es, fs)
      && (Small(es) ==> block == Start(es, i) && forall j :: 0 <= j < i ==> fs[j].logicalStart == Start(es, j))
    then Holds else Fails
  }

  lemma NumberOne(es: seq<Extent>, fs: seq<Extent>, i: nat, block: int)
    requires NoneEmpty(es) && i < |es| == |fs| && Numbering(es, fs, i, block) == Holds
    ensures Numbering(es, fs[i := fs[i].(logicalStart := ToSize(block))], i + 1, ToInt(block + fs[i].blockCount))
         == Holds
  {
    StartNext(es, i);
    if Small(es) {
      SmallRange(0, Start(es, i), es[i].blockCount);
    }
  }

  lemma NumberedAll(es: seq<Extent>, fs: seq<Extent>, block: int)
    requires NoneEmpty(es) && Numbering(es, fs, |es|, block) == Holds
    ensures NoneEmpty(fs) && Flat(fs) == Flat(es) && (Small(fs) ==> LaidOut(fs))
  {
    SameFlat(es, fs);
    forall j | 0 <= j < |es| ensures Start(fs, j) == Start(es, j) {
      SameFlat(es[..j], fs[..j]);
    }
  }

  /** Logical block b lies in extent i, at physical block `offset`, with `length` blocks left there. */
  ghost predicate FromExtent(es: seq<Extent>, i: nat, b: nat, offset: nat, length: nat) {
    && i < |es| && Start(es, i) <= b && length > 0
    && b + length == Start(es, i) + es[i].blockCount
    && offset == ToSize(es[i].startBlock + b - Start(es, i))
  }

  ghost predicate InExtent(es: seq<Extent>, b: nat, offset: nat, length: nat) {
    exists i: nat :: FromExtent(es, i, b, offset, length)
  }

  /** An extent whose range does not have the block, and that does not begin behind it, ends before it. */
  lemma PassedBy(es: seq<Extent>, i: nat, b: u64)
    requires NoneEmpty(es) && LaidOut(es) && Small(es) && i < |es| && Start(es, i) <= b
    requires !RangeContains(b, es[i].logicalStart, es[i].blockCount)
    ensures Start(es, i + 1) <= b
  {
    StartNext(es, i);
    SmallRange(b, es[i].logicalStart, es[i].blockCount);
  }

  lemma InsideExtent(es: seq<Extent>, i: nat, b: u64)
    requires NoneEmpty(es) && LaidOut(es) && Small(es) && i < |es|
    requires RangeContains(b, es[i].logicalStart, es[i].blockCount)
    ensures es[i].logicalStart == Start(es, i) <= b < Start(es, i) + es[i].blockCount <= |Flat(es)| < 0x8000_0000
    ensures es[i].blockCount > 0
  {
    StartNext(es, i);
    SmallRange(b, es[i].logicalStart, es[i].blockCount);
  }

  lemma FromInside(es: seq<Extent>, i: nat, b: nat, block: nat, left: nat)
    requires i < |es| && Start(es, i) <= b && left > 0
    requires block == es[i].startBlock + (b - Start(es, i)) && left == es[i].blockCount - (b - Start(es, i))
    ensures InExtent(es, b, ToSize(block), left)
  {
    assert FromExtent(es, i, b, ToSize(block), left);
  }

  /** What is reported of the extent whose range has the block. */
  lemma AnswerFrom(es: seq<Extent>, i: nat, b: u64, at: int, block: int, left: int)
    requires NoneEmpty(es) && LaidOut(es) && Small(es) && i < |es|
    requires RangeContains(b, es[i].logicalStart, es[i].blockCount)
    requires at == b - es[i].logicalStart && block == es[i].startBlock + at && left == es[i].blockCount - at
    ensures b < |Flat(es)| && ToInt(left) == ToSize(left) == left > 0 && InExtent(es, b, ToSize(block), left)
  {
    InsideExtent(es, i, b);
    FromInside(es, i, b, block, left);
    SmallNumber(left);
  }

  lemma SmallNumber(n: int)
    requires 0 <= n < 0x8000_0000
    ensures ToInt(n) == ToSize(n) == n
  {}

  class ExtentList {
    var extents: seq<Extent>

    /** extentlist_make */
    constructor ()
      ensures extents == []
    {
      extents := [];
    }

    /** No extent is empty, and the logical starts are right as long as the totals are small. */
    ghost predicate Valid()
      reads this
    {
      NoneEmpty(extents) && (Small(extents) ==> LaidOut(extents))
    }

    /** extentlist_add */
    method Add(startBlock: u64, blockCount: u64)
      requires Valid()
      modifies this
      ensures Valid()
      ensures Flat(extents) == old(Flat(extents)) + Blocks(startBlock, blockCount)
    {
      if blockCount == 0 {
        return;
      }
      var newExtent := Extent(0, startBlock, blockCount);
      if extents == [] {
        extents := [newExtent];
        assert Start(extents, 0) == 0;
      } else {
        ghost var before := extents;
        extents := extents + [newExtent];
        FlatSnoc(before, newExtent);
        Renumber();
      }
    }

    /** The loop of extentlist_add over all extents. */
    method Renumber()
      requires NoneEmpty(extents)
      modifies this
      ensures Valid() && Flat(extents) == old(Flat(extents))
    {
      ghost var es := extents;
      var block := 0;
      var i := 0;
      while i < |extents|
        invariant i <= |extents| == |es| && Numbering(es, extents, i, block) == Holds
      {
        NumberOne(es, extents, i, block);
        extents := extents[i := extents[i].(logicalStart := ToSize(block))];
        block := ToInt(block + extents[i].blockCount);
        i := i + 1;
      }
      NumberedAll(es, extents, block);
    }

    /** extentlist_add_record */
    method AddRecord(record: seq<Descriptor>)
      requires Valid()
      modifies this
      ensures Valid()
      ensures Flat(extents) == old(Flat(extents)) + FlatOf(record)
    {
      ghost var before := Flat(extents);
      for i := 0 to |record|
        invariant Valid() && Flat(extents) == before + FlatOf(record[..i])
      {
        Add(record[i].startBlock, record[i].blockCount);
        assert record[..i + 1][..i] == record[..i];
      }
      assert record[..|record|] == record;
    }

    /** extentlist_find */
    method Find(logicalBlock: u64) returns (found: bool, offset: u64, length: u64)
      requires Valid()
      ensures Small(extents) ==> (found <==> logicalBlock < |Flat(extents)|)
      ensures Small(extents) && found ==> InExtent(extents, logicalBlock, offset, length)
    {
      ghost var small := Small(extents);
      found, offset, length := false, 0, 0;
      var i := 0;
      while i < |extents| && !RangeContains(logicalBlock, extents[i].logicalStart, extents[i].blockCount)
        invariant i <= |extents|
        invariant small ==> Start(extents, i) <= logicalBlock
      {
        if small {
          PassedBy(extents, i, logicalBlock);
        }
        i := i + 1;
      }
      if i == |extents| {
        Whole(extents, i);
        return;
      }
      var extentOffset := logicalBlock - extents[i].logicalStart;
      var block, left := extents[i].startBlock + extentOffset, extents[i].blockCount - extentOffset;
      if small {
        AnswerFrom(extents, i, logicalBlock, extentOffset, block, left);
      }
      if ToInt(left) <= 0 {
        return;
      }
      found, offset, length := true, ToSize(block), ToSize(left);
    }
  }

  /** The answer agrees with the flat map, all along the run it reports. */
  lemma AnswerIsFlat(es: seq<Extent>, b: nat, offset: nat, length: nat, k: nat)
    requires InExtent(es, b, offset, length) && k < length
    requires forall i :: 0 <= i < |es| ==> es[i].startBlock < 0x1_0000_0000
    requires Small(es)
    ensures b + length <= |Flat(es)| && Flat(es)[b + k] == offset + k
  {
    var i: nat :| FromExtent(es, i, b, offset, length);
    StartNext(es, i);
    FlatAlong(es, i, b + k - Start(es, i));
  }
}
