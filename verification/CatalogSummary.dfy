/** The volume summary (`src/operations/hfs_summary.c`): one pass along the leaves of the catalog, counting records and
    keeping the ten largest files. The predicates on catalog records are those of `src/hfs/catalog.c`. */
module CatalogSummary {
  import opened MachineTypes
  import opened Checks
  import opened Sequences

  const HFS_PLUS_CREATOR: u32 := 0x6866732B
  const HARD_LINK_FILE_TYPE: u32 := 0x686C6E6B
  const SYM_LINK_CREATOR: u32 := 0x72686170
  const SYM_LINK_FILE_TYPE: u32 := 0x736C6E6B
  const ALIAS_CREATOR: u32 := 0x4D414353
  const FOLDER_ALIAS_TYPE: u32 := 0x66647270

  /** A leaf record of the catalog, as far as the summary looks at it. */
  datatype CatalogRecord =
    | FileRecord(fileID: u32, flags: u16, fdCreator: u32, fdType: u32, fdFlags: u16, dataSize: u64, resourceSize: u64)
    | FolderRecord(valence: u32)
    | OtherRecord
  {
    /** HFSPlusCatalogFileIsHardLink */
    predicate IsFileHardLink() {
      FileRecord? && fdCreator == HFS_PLUS_CREATOR && fdType == HARD_LINK_FILE_TYPE
    }

    /** HFSPlusCatalogFolderIsHardLink: kHFSHasLinkChainMask on a folder alias. */
    predicate IsFolderHardLink() {
      FileRecord? && flags / 0x20 % 2 == 1 && IsFolderAlias()
    }

    /** HFSPlusCatalogRecordIsFolderAlias */
    predicate IsFolderAlias() {
      FileRecord? && IsAlias() && fdCreator == ALIAS_CREATOR && fdType == FOLDER_ALIAS_TYPE
    }

    /** HFSPlusCatalogRecordIsSymLink */
    predicate IsSymLink() {
      FileRecord? && fdCreator == SYM_LINK_CREATOR && fdType == SYM_LINK_FILE_TYPE
    }

    /** kIsAlias and kIsInvisible */
    predicate IsAlias()
      requires FileRecord?
    {
      fdFlags / 0x8000 % 2 == 1
    }

    predicate IsInvisible()
      requires FileRecord?
    {
      fdFlags / 0x4000 % 2 == 1
    }

    predicate IsEmpty()
      requires FileRecord?
    {
      dataSize == 0 && resourceSize == 0
    }

    /** None of the special kinds: a file whose size counts. */
    predicate IsSized() {
      FileRecord? && !IsFileHardLink() && !IsFolderHardLink() && !IsSymLink()
      && !IsAlias() && !IsInvisible() && !IsEmpty()
    }

    /** The sum of both forks, a size_t. */
    function Size(): u64
      requires FileRecord?
    {
      (dataSize + resourceSize) % 0x1_0000_0000_0000_0000
    }
  }

  // ----- counting -----

  /** The buckets of the summary, each record in the first that takes it. */
  datatype Bucket = FileHardLink | FolderHardLink | SymLink | Alias | Invisible | EmptyFile | SizedFile

  const BUCKETS: seq<Bucket> := [FileHardLink, FolderHardLink, SymLink, Alias, Invisible, EmptyFile, SizedFile]

  predicate Takes(b: Bucket, r: CatalogRecord) {
    r.FileRecord? && match b
      case FileHardLink => r.IsFileHardLink()
      case FolderHardLink => r.IsFolderHardLink()
      case SymLink => r.IsSymLink()
      case Alias => r.IsAlias()
      case Invisible => r.IsInvisible()
      case EmptyFile => r.IsEmpty()
      case SizedFile => true
  }

  /** The record belongs to the bucket: it takes the record and none before it does. */
  predicate Belongs(r: CatalogRecord, i: nat)
    requires i < |BUCKETS|
  {
    Takes(BUCKETS[i], r) && forall j :: 0 <= j < i ==> !Takes(BUCKETS[j], r)
  }

  function Count(i: nat, s: seq<CatalogRecord>): nat
    requires i < |BUCKETS|
  {
    if s == [] then 0 else Count(i, s[..|s| - 1]) + if Belongs(s[|s| - 1], i) then 1 else 0
  }

  function Files(s: seq<CatalogRecord>): nat {
    if s == [] then 0 else Files(s[..|s| - 1]) + if s[|s| - 1].FileRecord? then 1 else 0
  }

  function Folders(s: seq<CatalogRecord>, emptyOnly: bool): nat {
    if s == [] then 0
    else Folders(s[..|s| - 1], emptyOnly)
         + if s[|s| - 1].FolderRecord? && (emptyOnly ==> s[|s| - 1].valence == 0) then 1 else 0
  }

  /** Every file is counted in exactly one bucket. */
  lemma {:induction false} FilesSplit(s: seq<CatalogRecord>)
    ensures Files(s) == Count(0, s) + Count(1, s) + Count(2, s) + Count(3, s) + Count(4, s) + Count(5, s) + Count(6, s)
  {
    if s != [] {
      var r := s[|s| - 1];
      FilesSplit(s[..|s| - 1]);
      assert Takes(BUCKETS[6], r) <==> r.FileRecord?;
      assert forall i, j :: 0 <= i < j < 7 && Belongs(r, i) ==> !Belongs(r, j);
      if r.FileRecord? {
        var i := if Takes(BUCKETS[0], r) then 0 else if Takes(BUCKETS[1], r) then 1 else if Takes(BUCKETS[2], r) then 2
                 else if Takes(BUCKETS[3], r) then 3 else if Takes(BUCKETS[4], r) then 4
                 else if Takes(BUCKETS[5], r) then 5 else 6;
        assert Belongs(r, i);
      }
    }
  }

  // ----- what the numbers of a record mean -----

  /** A four-character code. */
  function Code(s: string): nat
    requires |s| == 4
  {
    ((s[0] as int * 256 + s[1] as int) * 256 + s[2] as int) * 256 + s[3] as int
  }

  /** The special kinds of file, by their codes and by the ranges their flags put numbers in. */
  lemma KindsByCode(r: CatalogRecord)
    requires r.FileRecord?
    ensures r.IsFileHardLink() <==> r.fdCreator == Code("hfs+") && r.fdType == Code("hlnk")
    ensures r.IsSymLink() <==> r.fdCreator == Code("rhap") && r.fdType == Code("slnk")
    ensures r.IsAlias() <==> r.fdFlags >= 32768
    ensures r.IsInvisible() <==> r.fdFlags % 32768 >= 16384
    ensures r.IsFolderHardLink() <==>
              r.flags % 64 >= 32 && r.fdFlags >= 32768 && r.fdCreator == Code("MACS") && r.fdType == Code("fdrp")
  {}

  /** Sizes add up, up to a wrap-around at 2^64. */
  lemma SizeIsSum(r: CatalogRecord)
    requires r.FileRecord?
    ensures var sum := r.dataSize + r.resourceSize;
            r.Size() == if sum < 0x1_0000_0000_0000_0000 then sum else sum - 0x1_0000_0000_0000_0000
  {}

  // ----- the ten largest -----

  datatype Rank = Rank(measure: u64, cnid: u32)

  predicate Ascending(s: seq<Rank>) {
    forall i, j :: 0 <= i < j < |s| ==> s[i].measure <= s[j].measure
  }

  function RanksOf(s: seq<CatalogRecord>): seq<Rank> {
    if s == [] then []
    else RanksOf(s[..|s| - 1]) + if s[|s| - 1].IsSized() then [Rank(s[|s| - 1].Size(), s[|s| - 1].fileID)] else []
  }

  function NoRanks(): (r: seq<Rank>)
    ensures |r| == 10
  {
    seq(10, _ => Rank(0, 0))
  }

  /** In ascending order, ten of the ranks, or zeros where there are fewer; the rest are none of them larger. */
  ghost predicate TopTen(top: seq<Rank>, ranks: seq<Rank>, rest: multiset<Rank>) {
    && |top| == 10 && Ascending(top)
    && multiset(top) + rest == multiset(NoRanks()) + multiset(ranks)
    && forall d :: d in rest ==> d.measure <= top[0].measure
  }

  ghost function Ranking(top: seq<Rank>, ranks: seq<Rank>, rest: multiset<Rank>): Check {
    if TopTen(top, ranks, rest) then Holds else Fails
  }

  ghost predicate IsTopTen(top: seq<Rank>, ranks: seq<Rank>) {
    exists rest :: TopTen(top, ranks, rest)
  }

  lemma FewerInside(a: multiset<Rank>, b: multiset<Rank>)
    requires a <= b
    ensures |a| <= |b|
  {
    assert b == a + (b - a);
  }

  lemma NotSmaller(s: seq<Rank>, t: seq<Rank>, ranks: seq<Rank>, i: nat)
    requires IsTopTen(s, ranks) && IsTopTen(t, ranks) && i < 10
    ensures s[i].measure >= t[i].measure
  {
    if s[i].measure < t[i].measure {
      var rest :| TopTen(s, ranks, rest);
      var rest' :| TopTen(t, ranks, rest');
      var high, left := multiset(t[i..]), multiset(s[i + 1..]);
      Halves(s, i + 1);
      Halves(t, i);
      assert multiset(s) == multiset(s[..i + 1]) + left && multiset(t) == multiset(t[..i]) + high;
      forall x ensures high[x] <= left[x] {
        if x in t[i..] {
          var j :| i <= j < 10 && t[j] == x;
          assert x.measure > s[i].measure >= s[0].measure;
          assert x !in s[..i + 1] && x !in rest;
          assert (multiset(s) + rest)[x] == (multiset(t) + rest')[x];
        }
      }
      FewerInside(high, left);
    }
  }

  /** The ten largest measures are unique; which of several equal files is listed is up to the sort. */
  lemma TopTenUnique(s: seq<Rank>, t: seq<Rank>, ranks: seq<Rank>, i: nat)
    requires IsTopTen(s, ranks) && IsTopTen(t, ranks) && i < 10
    ensures s[i].measure == t[i].measure
  {
    NotSmaller(s, t, ranks, i);
    NotSmaller(t, s, ranks, i);
  }

  // ----- sorting -----

  /** What qsort may leave: the same ranks in ascending order, equal ones in any order. */
  predicate Sorts(s: seq<Rank>, sorted: seq<Rank>) {
    |sorted| == |s| && multiset(sorted) == multiset(s) && Ascending(sorted)
  }

  function Place(s: seq<Rank>, r: Rank): (p: seq<Rank>) {
    if s == [] || s[|s| - 1].measure <= r.measure then s + [r] else Place(s[..|s| - 1], r) + [s[|s| - 1]]
  }

  lemma AscendingSnoc(s: seq<Rank>, z: Rank)
    requires Ascending(s) && forall x :: x in multiset(s) ==> x.measure <= z.measure
    ensures Ascending(s + [z])
  {
    assert forall i :: 0 <= i < |s| ==> s[i] in multiset(s);
  }

  lemma {:induction false} PlaceContents(s: seq<Rank>, r: Rank)
    ensures multiset(Place(s, r)) == multiset(s) + multiset{r} && |Place(s, r)| == |s| + 1
  {
    if s != [] {
      PlaceContents(s[..|s| - 1], r);
      Snoc(s);
    }
  }

  lemma {:induction false} PlaceAscending(s: seq<Rank>, r: Rank)
    requires Ascending(s)
    ensures Ascending(Place(s, r))
  {
    if s != [] && s[|s| - 1].measure > r.measure {
      PlaceAscending(s[..|s| - 1], r);
      PlaceContents(s[..|s| - 1], r);
      AscendingSnoc(Place(s[..|s| - 1], r), s[|s| - 1]);
    }
  }

  lemma {:induction false} CanSort(s: seq<Rank>) returns (sorted: seq<Rank>)
    ensures Sorts(s, sorted)
  {
    if s == [] {
      sorted := [];
    } else {
      var t := CanSort(s[..|s| - 1]);
      PlaceAscending(t, s[|s| - 1]);
      PlaceContents(t, s[|s| - 1]);
      Snoc(s);
      sorted := Place(t, s[|s| - 1]);
    }
  }

  /** qsort by measure */
  method Qsort(a: array<Rank>)
    modifies a
    ensures Sorts(old(a[..]), a[..])
  {
    var before := a[..];
    ghost var possible := CanSort(before);
    var sorted: seq<Rank> :| Sorts(before, sorted);
    assert Sorts(before, sorted) && |sorted| == |before| == a.Length;
    forall i | 0 <= i < a.Length {
      a[i] := sorted[i];
    }
    assert a[..] == sorted;
  }

  // ----- the summary -----

  /** The counters of the summary. */
  datatype Counts = Counts(records: nat, files: nat, folders: nat, emptyFolders: nat, fileHardLinks: nat,
                           folderHardLinks: nat, symLinks: nat, aliases: nat, invisible: nat, empty: nat)

  /** What they should be. */
  function Tally(s: seq<CatalogRecord>): Counts {
    Counts(|s|, Files(s), Folders(s, false), Folders(s, true), Count(0, s), Count(1, s), Count(2, s), Count(3, s),
           Count(4, s), Count(5, s))
  }

  /** What they are with one more record. */
  function CountsWith(c: Counts, r: CatalogRecord): Counts {
    Counts(c.records + 1, c.files + Unit(r.FileRecord?), c.folders + Unit(r.FolderRecord?),
           c.emptyFolders + Unit(r.FolderRecord? && r.valence == 0),
           c.fileHardLinks + Unit(Belongs(r, 0)), c.folderHardLinks + Unit(Belongs(r, 1)),
           c.symLinks + Unit(Belongs(r, 2)), c.aliases + Unit(Belongs(r, 3)),
           c.invisible + Unit(Belongs(r, 4)), c.empty + Unit(Belongs(r, 5)))
  }

  class VolumeSummary {
    var nodeCount: nat
    var recordCount: nat
    var fileCount: nat
    var folderCount: nat
    var aliasCount: nat
    var hardLinkFileCount: nat
    var hardLinkFolderCount: nat
    var symbolicLinkCount: nat
    var invisibleFileCount: nat
    var emptyFileCount: nat
    var emptyDirectoryCount: nat
    const largestFiles: array<Rank>

    /** The records counted so far, and the ranks that did not make the ten. */
    ghost var seen: seq<CatalogRecord>
    ghost var rest: multiset<Rank>

    ghost predicate Valid()
      reads this, largestFiles
    {
      && largestFiles.Length == 10
      && Ranking(largestFiles[..], RanksOf(seen), rest) == Holds
      && Counters() == Tally(seen)
    }

    ghost function ShowCheck(nodes: nat, records: seq<CatalogRecord>): Check
      reads this, largestFiles
    {
      if Valid() && nodeCount == nodes && seen == records then Holds else Fails
    }

    /** The summary is that of so many nodes and of these records. */
    ghost predicate Shows(nodes: nat, records: seq<CatalogRecord>)
      reads this, largestFiles
    {
      ShowCheck(nodes, records) == Holds
    }

    /** Every field of the summary says what its name says. */
    ghost predicate FieldsRight()
      reads this
    {
      && recordCount == |seen| && fileCount == Files(seen)
      && folderCount == Folders(seen, false) && emptyDirectoryCount == Folders(seen, true)
      && hardLinkFileCount == Count(0, seen) && hardLinkFolderCount == Count(1, seen)
      && symbolicLinkCount == Count(2, seen) && aliasCount == Count(3, seen)
      && invisibleFileCount == Count(4, seen) && emptyFileCount == Count(5, seen)
    }

    lemma ValidFields()
      requires Valid()
      ensures FieldsRight()
    {}

    ghost function Counters(): Counts
      reads this
    {
      Counts(recordCount, fileCount, folderCount, emptyDirectoryCount, hardLinkFileCount, hardLinkFolderCount,
             symbolicLinkCount, aliasCount, invisibleFileCount, emptyFileCount)
    }

    constructor ()
      ensures Valid() && seen == [] && nodeCount == 0 && fresh(largestFiles)
    {
      nodeCount, recordCount, fileCount, folderCount, aliasCount := 0, 0, 0, 0, 0;
      hardLinkFileCount, hardLinkFolderCount, symbolicLinkCount := 0, 0, 0;
      invisibleFileCount, emptyFileCount, emptyDirectoryCount := 0, 0, 0;
      largestFiles := new Rank[10](_ => Rank(0, 0));
      seen, rest := [], multiset{};
      new;
      assert largestFiles[..] == NoRanks();
    }

    /** The body of the loop over the records of a node. */
    method AddRecord(record: CatalogRecord)
      requires Valid()
      modifies this, largestFiles
      ensures Valid() && seen == old(seen) + [record] && nodeCount == old(nodeCount)
    {
      ghost var counted, ranks := seen + [record], RanksOf(seen);
      OneMore(seen, record);
      var sized := CountRecord(record);
      seen := counted;
      assert Counters() == Tally(counted);
      if sized {
        rest := KeepLargest(largestFiles, Rank(record.Size(), record.fileID), ranks, rest);
      }
      assert Ranking(largestFiles[..], RanksOf(seen), rest) == Holds;
    }

    /** The switch on the record type, up to the sizes. */
    method CountRecord(record: CatalogRecord) returns (sized: bool)
      modifies this`recordCount, this`fileCount, this`folderCount, this`hardLinkFileCount, this`hardLinkFolderCount,
               this`symbolicLinkCount, this`aliasCount, this`invisibleFileCount, this`emptyFileCount,
               this`emptyDirectoryCount
      ensures sized == record.IsSized()
      ensures Counters() == CountsWith(old(Counters()), record)
    {
      WhichBucket(record);
      sized := false;
      recordCount := recordCount + 1;
      match record {
        case FileRecord(_, _, _, _, _, _, _) =>
          fileCount := fileCount + 1;
          if record.IsFileHardLink() {
            hardLinkFileCount := hardLinkFileCount + 1;
          } else if record.IsFolderHardLink() {
            hardLinkFolderCount := hardLinkFolderCount + 1;
          } else if record.IsSymLink() {
            symbolicLinkCount := symbolicLinkCount + 1;
          } else if record.IsAlias() {
            aliasCount := aliasCount + 1;
          } else if record.IsInvisible() {
            invisibleFileCount := invisibleFileCount + 1;
          } else if record.IsEmpty() {
            emptyFileCount := emptyFileCount + 1;
          } else {
            sized := true;
          }
        case FolderRecord(valence) =>
          folderCount := folderCount + 1;
          if valence == 0 {
            emptyDirectoryCount := emptyDirectoryCount + 1;
          }
        case OtherRecord =>
      }
    }
  }

  /** Puts a file larger than the smallest of the ten in its place, and sorts them again. */
  method KeepLargest(largest: array<Rank>, file: Rank, ghost ranks: seq<Rank>, ghost rest: multiset<Rank>)
    returns (ghost newRest: multiset<Rank>)
    requires largest.Length == 10 && Ranking(largest[..], ranks, rest) == Holds
    modifies largest
    ensures Ranking(largest[..], ranks + [file], newRest) == Holds
  {
    ghost var top := largest[..];
    if largest[0].measure < file.measure {
      newRest := rest + multiset{top[0]};
      largest[0] := file;
      assert largest[..] == [file] + top[1..];
      Qsort(largest);
      Replaced(top, file, largest[..], ranks, rest);
    } else {
      newRest := rest + multiset{file};
      Kept(top, file, ranks, rest);
    }
  }

  lemma Kept(top: seq<Rank>, file: Rank, ranks: seq<Rank>, rest: multiset<Rank>)
    requires TopTen(top, ranks, rest)
    ensures multiset(top) + (rest + multiset{file}) == multiset(NoRanks()) + multiset(ranks + [file])
  {
    var f := multiset{file};
    MovesOver(multiset(top), rest, f, multiset(NoRanks()), multiset(ranks));
    assert multiset(ranks + [file]) == multiset(ranks) + f;
  }

  lemma MovesOver(top: multiset<Rank>, rest: multiset<Rank>, f: multiset<Rank>,
                  zeros: multiset<Rank>, ranks: multiset<Rank>)
    requires top + rest == zeros + ranks
    ensures top + (rest + f) == zeros + (ranks + f)
  {
    assert top + (rest + f) == (top + rest) + f;
    assert zeros + (ranks + f) == (zeros + ranks) + f;
  }

  /** The smallest of the ten joins the rest, and what remains is sorted. */
  lemma Replaced(top: seq<Rank>, file: Rank, sorted: seq<Rank>, ranks: seq<Rank>, rest: multiset<Rank>)
    requires TopTen(top, ranks, rest) && top[0].measure < file.measure && Sorts([file] + top[1..], sorted)
    ensures TopTen(sorted, ranks + [file], rest + multiset{top[0]})
  {
    var others := multiset(top[1..]);
    assert top == [top[0]] + top[1..] && multiset(top) == multiset{top[0]} + others;
    assert multiset([file] + top[1..]) == multiset{file} + others;
    assert multiset(sorted) + (rest + multiset{top[0]}) == multiset(top) + (rest + multiset{file});
    Kept(top, file, ranks, rest);
    assert sorted[0] in multiset(sorted) && sorted[0] in [file] + top[1..];
  }

  function Unit(b: bool): nat { if b then 1 else 0 }

  lemma OneMore(s: seq<CatalogRecord>, r: CatalogRecord)
    ensures Tally(s + [r]) == CountsWith(Tally(s), r)
    ensures RanksOf(s + [r]) == if r.IsSized() then RanksOf(s) + [Rank(r.Size(), r.fileID)] else RanksOf(s)
  {
    assert (s + [r])[..|s|] == s;
  }

  /** The bucket of a record, by the first test it passes. */
  lemma WhichBucket(r: CatalogRecord)
    ensures Belongs(r, 0) <==> r.IsFileHardLink()
    ensures Belongs(r, 1) <==> r.IsFolderHardLink() && !r.IsFileHardLink()
    ensures Belongs(r, 2) <==> r.IsSymLink() && !r.IsFileHardLink() && !r.IsFolderHardLink()
    ensures Belongs(r, 3) <==> r.FileRecord? && r.IsAlias()
                               && !r.IsFileHardLink() && !r.IsFolderHardLink() && !r.IsSymLink()
    ensures Belongs(r, 4) <==> r.FileRecord? && r.IsInvisible()
                               && !r.IsFileHardLink() && !r.IsFolderHardLink() && !r.IsSymLink() && !r.IsAlias()
    ensures Belongs(r, 5) <==> r.FileRecord? && r.IsEmpty()
                               && !r.IsFileHardLink() && !r.IsFolderHardLink() && !r.IsSymLink() && !r.IsAlias()
                               && !r.IsInvisible()
    ensures Belongs(r, 6) <==> r.IsSized()
  {
    assert BUCKETS[0] == FileHardLink && BUCKETS[1] == FolderHardLink && BUCKETS[2] == SymLink && BUCKETS[3] == Alias;
    assert BUCKETS[4] == Invisible && BUCKETS[5] == EmptyFile && BUCKETS[6] == SizedFile;
  }
}
