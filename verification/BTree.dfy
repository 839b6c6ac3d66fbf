/** The B-tree reader (`src/hfs/btree/btree.c`): nodes fetched through the cache and swapped in a private copy, the
    binary search in a node, the descent, and the walk along the leaf chain.
    The file is an immutable byte sequence. Keys are whatever `keyOf` makes of the bytes of a key, which stand for the
    tree-specific swaps, and are compared by `keyCompare`. */
module BTree {
  import opened MachineTypes
  import opened Checks
  import opened Orders
  import opened NodeFormat
  import opened NodeCache
  import opened Recency
  import opened TreeModel
  import opened TreeSearch

  /** What a request for a node can come to: its bytes, an error return, or a failed assertion. */
  datatype Fetched = Fetched(bytes: seq<u8>) | Refused | Aborted

  datatype Volume<!K(!new)> = Volume(file: seq<u8>, header: Header, bitmap: seq<u8>, keyOf: seq<u8> -> K,
                               keyCompare: (K, K) -> int)
  {
    // ----- reading a node without a cache -----

    function NodeStart(n: nat): nat { n * header.nodeSize }

    /** fread at the node's offset into a zeroed buffer: short at the end of the file. */
    function BytesRead(n: nat): (len: nat)
      ensures len <= header.nodeSize && (len > 0 ==> NodeStart(n) + len <= |file|)
    {
      var start, size := NodeStart(n), header.nodeSize as nat;
      if start >= |file| then 0 else if start + size <= |file| then size else |file| - start
    }

    function RawNode(n: nat): (raw: seq<u8>)
      ensures |raw| == header.nodeSize
      ensures forall i :: 0 <= i < header.nodeSize ==> raw[i] == if i < BytesRead(n) then file[NodeStart(n) + i] else 0
    {
      var start, len := NodeStart(n), BytesRead(n);
      (if len == 0 then [] else file[start..start + len]) + seq(header.nodeSize as nat - len, _ => 0)
    }

    /** Every datum is the complete raw node of its number. */
    ghost function RawCheck(data: map<nat, seq<u8>>): Check {
      if forall k :: k in data ==> data[k] == RawNode(k) then Holds else Fails
    }

    lemma RawAfterSet(c: State, max: nat, n: nat)
      requires Wellformed(c, max) && RawCheck(c.data) == Holds
      ensures RawCheck(AfterSet(c, max, n, RawNode(n)).data) == Holds
    {
      if n in c.data {
        SetReplaces(c, max, n, RawNode(n));
      } else {
        SetAdds(c, max, n, RawNode(n));
      }
    }

    /** BTIsBlockUsed on the loaded bitmap. Its length check lets one byte too many through: the buffer for a bitmap
        that is all in the header node is zeroed and longer than it, so those blocks read as unused; once map nodes
        are appended the buffer ends with the bitmap, and what the C then reads behind it is taken to be 0. */
    predicate IsNodeUsed(n: nat) {
      n / 8 < |bitmap| && BitSet(bitmap[n / 8], 7 - n % 8)
    }

    /** One uncached read and one byte swap. */
    function Fetch(n: nat): Fetched
      requires SaneAt(n)
    {
      if n >= header.totalNodes then Refused
      else if n != 0 && !IsNodeUsed(n) then Refused
      else
        var raw := RawNode(n);
        if raw[10] == 0 && raw[11] == 0 then Aborted
        else if AlreadySwapped(raw) then Fetched(raw)
        else if Recognised(raw) then Fetched(Swapped(raw, header))
        else Refused
    }

    /** Nodes have room for a descriptor. */
    predicate Roomy() { header.nodeSize >= 16 }

    /** If node n is in use and is taken for a node, it is laid out as one. */
    ghost predicate SaneAt(n: nat) {
      Roomy() && (n < header.totalNodes && (n == 0 || IsNodeUsed(n)) ==> LaidOut(RawNode(n), header))
    }

    ghost predicate Sane() { forall n: nat :: SaneAt(n) }

    // ----- nodes as values -----

    /** The key of record k, from a node in host order. */
    function KeyAt(s: seq<u8>, k: nat): K
      requires HasDescriptor(s) && HasTable(s, k + 1) && HostRecordFits(s, header, k) && Keyed(s)
    {
      var off := RecordOffset(s, k);
      keyOf(s[off + header.LengthField()..off + KeyLength(s, header, off)])
    }

    /** The child pointer of record k of an index node. */
    function ChildAt(s: seq<u8>, k: nat): u32
      requires HasDescriptor(s) && HasTable(s, k + 1) && HostRecordFits(s, header, k) && Kind(s) == KIND_INDEX
    {
      var off := RecordOffset(s, k);
      LE32(s, off + KeyLength(s, header, off))
    }

    /** The data of record k of a leaf. */
    function ValueAt(s: seq<u8>, k: nat): seq<u8>
      requires HasDescriptor(s) && HasTable(s, k + 1) && HostRecordFits(s, header, k) && Kind(s) == KIND_LEAF
    {
      var off := RecordOffset(s, k);
      s[off + KeyLength(s, header, off)..RecordOffset(s, k + 1)]
    }

    /** A node in host order, as a value. */
    ghost function NodeOf(s: seq<u8>): Node<K>
      requires HostFormed(s, header)
    {
      var n := LE16(s, 10) as nat;
      Node(Kind(s) == KIND_LEAF, s[9], LE32(s, 0),
           if Keyed(s) then seq(n, k requires 0 <= k < n => KeyAt(s, k)) else [],
           if Kind(s) == KIND_INDEX then seq(n, k requires 0 <= k < n => ChildAt(s, k) as nat) else [],
           if Kind(s) == KIND_LEAF then seq(n, k requires 0 <= k < n => ValueAt(s, k)) else [])
    }

    /** A node on disk, as a value. */
    ghost function Decode(raw: seq<u8>): Node<K>
      requires WellFormed(raw, header)
    {
      var n := RawCount(raw);
      Node(Kind(raw) == KIND_LEAF, raw[9], BE32(raw, 0),
           if Keyed(raw) then seq(n, k requires 0 <= k < n => RawKey(raw, k)) else [],
           if Kind(raw) == KIND_INDEX then seq(n, k requires 0 <= k < n => RawChild(raw, k) as nat) else [],
           if Kind(raw) == KIND_LEAF then seq(n, k requires 0 <= k < n => RawValue(raw, k)) else [])
    }

    ghost function RawKey(raw: seq<u8>, k: nat): K
      requires WellFormed(raw, header) && k < RawCount(raw) && Keyed(raw)
    {
      RecordBounds(raw, header, k);
      var off := RawOffset(raw, k);
      keyOf(raw[off + header.LengthField()..off + RawKeyLength(raw, header, off)])
    }

    ghost function RawChild(raw: seq<u8>, k: nat): u32
      requires WellFormed(raw, header) && k < RawCount(raw) && Kind(raw) == KIND_INDEX
    {
      RecordBounds(raw, header, k);
      var off := RawOffset(raw, k);
      BE32(raw, off + RawKeyLength(raw, header, off))
    }

    ghost function RawValue(raw: seq<u8>, k: nat): seq<u8>
      requires WellFormed(raw, header) && k < RawCount(raw) && Kind(raw) == KIND_LEAF
    {
      RecordBounds(raw, header, k);
      var off := RawOffset(raw, k);
      raw[off + RawKeyLength(raw, header, off)..RawOffset(raw, k + 1)]
    }

    lemma SameLayout(raw: seq<u8>, k: nat)
      requires WellFormed(raw, header) && k < RawCount(raw) && Keyed(raw)
      ensures RecordFits(raw, header, k) && |Swapped(raw, header)| == |raw| && RawOffset(raw, k + 1) <= |raw|
      ensures RecordReads(raw, header, k, Swapped(raw, header))
      ensures HasTable(Swapped(raw, header), k + 1) && Keyed(Swapped(raw, header))
      ensures RecordOffset(Swapped(raw, header), k) == RawOffset(raw, k)
      ensures RecordOffset(Swapped(raw, header), k + 1) == RawOffset(raw, k + 1)
      ensures HostRecordFits(Swapped(raw, header), header, k)
    {
      SwappedHostFormed(raw, header);
      SwappedRecord(raw, header, k);
      ImageDescriptor(raw, header, RawCount(raw));
      ImageOffset(raw, header, RawCount(raw), k);
      ImageOffset(raw, header, RawCount(raw), k + 1);
    }

    /** A record that reads in host order as on disk has the same key, child pointer or data. */
    lemma RecordPreserved(raw: seq<u8>, k: nat, s: seq<u8>)
      requires WellFormed(raw, header) && k < RawCount(raw) && Keyed(raw) && |s| == |raw|
      requires RecordFits(raw, header, k) && RawOffset(raw, k + 1) <= |raw| && RecordReads(raw, header, k, s)
      requires RecordOffset(s, k) == RawOffset(raw, k) && RecordOffset(s, k + 1) == RawOffset(raw, k + 1)
      requires HostRecordFits(s, header, k)
      ensures KeyAt(s, k) == RawKey(raw, k)
      ensures Kind(raw) == KIND_INDEX ==> ChildAt(s, k) == RawChild(raw, k)
      ensures Kind(raw) == KIND_LEAF ==> ValueAt(s, k) == RawValue(raw, k)
    {
      var off := RawOffset(raw, k);
      var body, end := off + header.LengthField(), off + RawKeyLength(raw, header, off);
      SameBytes(s, raw, body, end);
      if Kind(raw) == KIND_LEAF {
        SameBytes(s, raw, end, RawOffset(raw, k + 1));
      }
    }

    /** The byte swap preserves what a node says. */
    lemma SwapPreserves(raw: seq<u8>)
      requires WellFormed(raw, header)
      ensures HostFormed(Swapped(raw, header), header)
      ensures NodeOf(Swapped(raw, header)) == Decode(raw)
    {
      SwappedHostFormed(raw, header);
      ImageDescriptor(raw, header, RawCount(raw));
      var v, w := NodeOf(Swapped(raw, header)), Decode(raw);
      if Keyed(raw) {
        forall k | 0 <= k < RawCount(raw)
          ensures v.keys[k] == w.keys[k]
          ensures Kind(raw) == KIND_INDEX ==> v.children[k] == w.children[k]
          ensures Kind(raw) == KIND_LEAF ==> v.values[k] == w.values[k]
        {
          SameLayout(raw, k);
          RecordPreserved(raw, k, Swapped(raw, header));
        }
      }
      assert v.keys == w.keys && v.children == w.children && v.values == w.values;
    }

    /** Whatever a fetch returns can be read and has records, and a recognised node says what it does on disk. */
    lemma FetchedFacts(n: nat)
      requires SaneAt(n) && Fetch(n).Fetched?
      ensures HostFormed(Fetch(n).bytes, header) && LE16(Fetch(n).bytes, 10) > 0
      ensures Readable(n) ==> NodeOf(Fetch(n).bytes) == NodeAt(n) && NodeAt(n).height == Fetch(n).bytes[9]
    {
      var raw := RawNode(n);
      if Recognised(raw) {
        SwapPreserves(raw);
        ImageDescriptor(raw, header, RawCount(raw));
      }
    }

    // ----- the tree in the file -----

    ghost predicate Readable(n: nat) {
      SaneAt(n) && Fetch(n).Fetched? && Recognised(RawNode(n))
    }

    ghost function NodeAt(n: nat): Node<K> {
      if Readable(n) then Decode(RawNode(n)) else Node(false, 0, 0, [], [], [])
    }

    ghost function Nodes(): nat -> Node<K> { (n: nat) => NodeAt(n) }

    ghost function Readables(): nat -> bool { (n: nat) => Readable(n) }

    /** The tree in the file. */
    ghost function Tree(): Tree<K> {
      TreeSearch.Tree(Nodes(), Readables(), header.rootNode, header.treeDepth, header.firstLeafNode, keyCompare)
    }

    ghost predicate HoldsTree() { Tree().WellFormed() }

    lemma TreeFields(n: nat)
      ensures Tree().nodes(n) == NodeAt(n) && Tree().readable(n) == Readable(n)
      ensures Tree().cmp == keyCompare && Tree().root == header.rootNode && Tree().depth == header.treeDepth
      ensures Readable(n) ==> n < header.totalNodes
    {}

    // ----- the checks of a search -----

    /** In any file: a node that cannot be fetched ends the search, one that lacks the height and the kind of its level
        stops it, and the way down is a child pointer of the node that is not 0. */
    ghost function ScreenCheck(n: nat, level: nat, step: Step): Check
      requires SaneAt(n)
    {
      if match Fetch(n)
         case Refused => step == Stop(Unreadable)
         case Aborted => step == Stop(Critical)
         case Fetched(s) =>
           if s[9] != level || s[8] != (if level == 1 then 0xFF else 0) then step == Stop(Critical)
           else if level == 1 then step.AtLeaf?
           else step == Stop(Critical) || (step.Down? && HostFormed(s, header) && step.child != 0
                                           && step.index < |NodeOf(s).children|
                                           && NodeOf(s).children[step.index] == step.child)
      then Holds else Fails
    }

    // ----- how a search in the file stands -----

    /** In a tree the invariant of the search holds; in any other file all nodes are sane. */
    ghost function Course(x: K, n: nat, level: nat, left: seq<nat>, right: seq<nat>, history: seq<nat>): Check {
      if HoldsTree() then Tree().Progress(x, n, level, left, right, history) else if Sane() then Holds else Fails
    }

    /** In a tree the result is right. */
    ghost function Verdict(x: K, r: SearchResult): Check {
      if HoldsTree() ==> Tree().Correct(x, r) then Holds else Fails
    }

    /** The outcome of one level is right, or leads on with the invariant of the search. */
    ghost function Advanced(x: K, n: nat, level: nat, left: seq<nat>, right: seq<nat>, history: seq<nat>,
                            step: Step): Check
      requires level > 0
    {
      match step
      case Stop(stopped) => Verdict(x, stopped)
      case AtLeaf(found, index) => Verdict(x, Done(found, n, index))
      case Down(index, child) => Course(x, child, level - 1, left, right, history)
    }

    lemma CourseStart(x: K, history: seq<nat>)
      requires (HoldsTree() || Sane()) && header.treeDepth <= 256
      requires |history| == 256 && forall i :: 0 <= i < 256 ==> history[i] == 0
      ensures Course(x, header.rootNode, header.treeDepth, [], [], history) == Holds
    {
      if HoldsTree() {
        Tree().SearchStart(x, history);
      }
    }

    /** The node the search has come to can be fetched, and in a tree it is sound and new. */
    lemma CourseSound(x: K, n: nat, level: nat, left: seq<nat>, right: seq<nat>, history: seq<nat>)
      requires Course(x, n, level, left, right, history) == Holds
      ensures SaneAt(n)
      ensures HoldsTree() ==> n < header.totalNodes && Tree().Sound(n, level)
      ensures HoldsTree() ==> forall i :: 0 <= i < 256 ==> history[i] != n
    {
      if HoldsTree() {
        Tree().SearchSound(x, n, level, left, right, history);
        TreeFields(n);
      }
    }

    lemma StepTaken(x: K, n: nat, level: nat, left: seq<nat>, right: seq<nat>, history: seq<nat>, step: Step)
      requires level > 0 && (step.Stop? ==> Verdict(x, step.result) == Holds)
      requires step.AtLeaf? ==> Verdict(x, Done(step.found, n, step.index)) == Holds
      requires step.Down? ==> Course(x, step.child, level - 1, left, right, history) == Holds
      ensures Advanced(x, n, level, left, right, history, step) == Holds
    {}

    lemma CourseVisited(x: K, n: nat, level: nat, left: seq<nat>, right: seq<nat>, history: seq<nat>, step: Step)
      returns (left': seq<nat>, right': seq<nat>)
      requires Course(x, n, level, left, right, history) == Holds && 1 <= level <= |history|
      requires HoldsTree() ==> Tree().Sound(n, level) && Tree().Visited(x, n, level, step)
      ensures Advanced(x, n, level, left', right', history[level - 1 := n], step) == Holds
    {
      left', right' := left, right;
      if HoldsTree() {
        left', right' := Tree().SearchVisited(x, n, level, left, right, history, step);
        StepTaken(x, n, level, left', right', history[level - 1 := n], step);
      }
    }
  }

  lemma SameBytes(s: seq<u8>, t: seq<u8>, i: nat, j: nat)
    requires i <= j <= |s| == |t| && forall k :: i <= k < j ==> s[k] == t[k]
    ensures s[i..j] == t[i..j]
  {}

  /** What is taken for a node is laid out as one: on disk, or already in host order. */
  ghost predicate LaidOut(raw: seq<u8>, h: Header) {
    && (HasDescriptor(raw) && Recognised(raw) ==> WellFormed(raw, h))
    && (HasDescriptor(raw) && AlreadySwapped(raw) ==> HostFormed(raw, h))
  }

  /** What btree_get_node returns. The C asserts that the node has records; failing that is reported as 1. */
  function FetchResult(f: Fetched): int {
    match f
    case Fetched(_) => 0
    case Refused => -1
    case Aborted => 1
  }

  predicate BitSet(b: u8, bit: nat)
    requires bit < 8
  {
    b / Power(bit) % 2 == 1
  }

  /** 1 << bit */
  function Power(bit: nat): (p: nat)
    ensures p > 0
  {
    if bit == 0 then 1 else 2 * Power(bit - 1)
  }

  // ----- btree_init -----

  /** fread of n bytes into a zeroed buffer. */
  function ReadAt(file: seq<u8>, at: nat, n: nat): (r: seq<u8>)
    ensures |r| == n
  {
    seq(n, i requires 0 <= i < n => if at + i < |file| then file[at + i] else 0)
  }

  /** The header of the tree in a file: all zero if the header node has no records. */
  function HeaderOf(file: seq<u8>): Header {
    var r := ReadAt(file, DESCRIPTOR_SIZE, HEADER_REC_SIZE);
    if BE16(ReadAt(file, 0, DESCRIPTOR_SIZE), 10) == 0 then Header(0, 0, 0, 0, 0, 0, 0)
    else Header(BE16(r, 0), BE32(r, 2), BE32(r, 10), BE16(r, 18), BE16(r, 20), BE32(r, 22), BE32(r, 38))
  }

  /** fpread to the start of a buffer. */
  method ReadInto(file: seq<u8>, at: nat, n: nat, buf: array<u8>)
    requires n <= buf.Length
    modifies buf
    ensures buf[..n] == ReadAt(file, at, n)
  {
    forall i | 0 <= i < n {
      buf[i] := if at + i < |file| then file[at + i] else 0;
    }
  }

  /** The first part of btree_init: the descriptor, and the header record if there is one, swapped in a buffer. */
  method ReadHeader(file: seq<u8>) returns (header: Header)
    ensures header == HeaderOf(file)
  {
    var buf := new u8[DESCRIPTOR_SIZE](_ => 0);
    ReadInto(file, 0, DESCRIPTOR_SIZE, buf);
    ghost var descriptor := ReadAt(file, 0, DESCRIPTOR_SIZE);
    assert buf[..] == buf[..DESCRIPTOR_SIZE];
    Swap32At(buf, 0);
    Swap32At(buf, 4);
    Swap16At(buf, 10);
    var numRecords := LE16(buf[..], 10);
    assert numRecords == BE16(descriptor, 10);
    if numRecords == 0 {
      return Header(0, 0, 0, 0, 0, 0, 0);
    }
    var rec := new u8[HEADER_REC_SIZE](_ => 0);
    ReadInto(file, DESCRIPTOR_SIZE, HEADER_REC_SIZE, rec);
    ghost var raw := ReadAt(file, DESCRIPTOR_SIZE, HEADER_REC_SIZE);
    assert rec[..] == rec[..HEADER_REC_SIZE];
    SwapHeaderRecAt(rec, 0);
    var s := rec[..];
    FieldsMeaning(raw, s);
    header := Header(LE16(s, 0), LE32(s, 2), LE32(s, 10), LE16(s, 18), LE16(s, 20), LE32(s, 22), LE32(s, 38));
  }

  lemma FieldsMeaning(raw: seq<u8>, s: seq<u8>)
    requires |s| == |raw| == HEADER_REC_SIZE && HeaderReads(raw, s, 0)
    ensures LE16(s, 0) == BE16(raw, 0) && LE32(s, 2) == BE32(raw, 2) && LE32(s, 10) == BE32(raw, 10)
    ensures LE16(s, 18) == BE16(raw, 18) && LE16(s, 20) == BE16(raw, 20)
    ensures LE32(s, 22) == BE32(raw, 22) && LE32(s, 38) == BE32(raw, 38)
  {
    assert FieldReads(raw, s, 0, 0) && FieldReads(raw, s, 0, 1) && FieldReads(raw, s, 0, 3);
    assert FieldReads(raw, s, 0, 5) && FieldReads(raw, s, 0, 6);
    assert FieldReads(raw, s, 0, 7) && FieldReads(raw, s, 0, 10);
  }

  /** btree_init on a file, with the loaded bitmap, the swaps of keys and their comparator. */
  method Init<K(!new)>(file: seq<u8>, bitmap: seq<u8>, keyOf: seq<u8> -> K, keyCompare: (K, K) -> int)
    returns (tree: BTree<K>)
    requires HeaderOf(file).nodeSize >= 16
    ensures tree.Valid() && fresh(tree) && fresh(tree.nodeCache) && fresh(tree.nodeCache.Repr)
    ensures tree.volume == Volume(file, HeaderOf(file), bitmap, keyOf, keyCompare)
  {
    var header := ReadHeader(file);
    tree := new BTree(Volume(file, header, bitmap, keyOf, keyCompare));
  }

  class BTree<K(!new)> {
    const volume: Volume<K>
    const nodeCache: Cache

    /** Every cached record is a complete raw node of the file. */
    ghost predicate Valid()
      reads nodeCache, nodeCache.Repr
    {
      volume.Roomy() && CacheCheck() == Holds
    }

    ghost function CacheCheck(): Check
      reads nodeCache, nodeCache.Repr
    {
      if nodeCache.Valid() && volume.RawCheck(nodeCache.Contents.data) == Holds then Holds else Fails
    }

    /** The end of btree_init: a reader with an empty cache. */
    constructor (volume: Volume<K>)
      requires volume.Roomy()
      ensures Valid() && fresh(nodeCache) && fresh(nodeCache.Repr)
      ensures this.volume == volume && nodeCache.maxRecords == 100
    {
      this.volume := volume;
      nodeCache := new Cache(100);
    }

    /** The middle of btree_get_node: the raw node, from the cache or else from the file, which is then cached if the
        read was complete. */
    method Load(data: array<u8>, nodeNumber: nat)
      requires Valid() && data[..] == seq(volume.header.nodeSize, _ => 0)
      modifies data, nodeCache, nodeCache.Repr
      ensures Valid() && fresh(nodeCache.Repr - old(nodeCache.Repr))
      ensures data[..] == volume.RawNode(nodeNumber)
    {
      var nodeSize := volume.header.nodeSize as nat;
      ghost var zeroed := data[..];
      var cached := nodeCache.Get(data, nodeSize, nodeNumber);
      if cached == 1 {
        WholeOverlay(zeroed, volume.RawNode(nodeNumber));
      } else {
        ReadFile(data, nodeNumber);
        if volume.BytesRead(nodeNumber) == nodeSize {
          Remember(data, nodeNumber);
        }
      }
    }

    /** A complete node is cached. */
    method Remember(data: array<u8>, nodeNumber: nat)
      requires Valid() && data[..] == volume.RawNode(nodeNumber)
      modifies nodeCache, nodeCache.Repr
      ensures Valid() && fresh(nodeCache.Repr - old(nodeCache.Repr))
    {
      nodeCache.WellformedContents();
      volume.RawAfterSet(nodeCache.Contents, nodeCache.maxRecords, nodeNumber);
      assert data[..data.Length] == data[..];
      nodeCache.Set(data, data.Length, nodeNumber);
    }

    lemma WholeOverlay(buf: seq<u8>, data: seq<u8>)
      requires |buf| == |data|
      ensures Overlay(buf, data, |data|) == data
    {}

    /** fpread into the zeroed buffer. */
    method ReadFile(data: array<u8>, nodeNumber: nat)
      requires data[..] == seq(volume.header.nodeSize, _ => 0)
      modifies data
      ensures data[..] == volume.RawNode(nodeNumber)
    {
      var start, bytesRead := volume.NodeStart(nodeNumber), volume.BytesRead(nodeNumber);
      assert data.Length == |data[..]|;
      forall i | 0 <= i < bytesRead {
        data[i] := volume.file[start + i];
      }
    }

    /** The end of btree_get_node: the assertion, and the swap of the private copy. */
    method CheckAndSwap(data: array<u8>, nodeNumber: nat) returns (r: int)
      requires volume.SaneAt(nodeNumber) && data[..] == volume.RawNode(nodeNumber)
      requires nodeNumber < volume.header.totalNodes && (nodeNumber == 0 || volume.IsNodeUsed(nodeNumber))
      modifies data
      ensures r == FetchResult(volume.Fetch(nodeNumber))
      ensures r == 0 ==> data[..] == volume.Fetch(nodeNumber).bytes
    {
      if data[10] == 0 && data[11] == 0 {
        return 1;
      }
      var swapped := SwapNode(data, volume.header);
      r := if swapped < 0 then -1 else 0;
    }

    /** btree_get_node: 0 and a private copy of the node, or -1. */
    method GetNode(nodeNumber: nat) returns (r: int, data: array<u8>)
      requires Valid() && volume.SaneAt(nodeNumber)
      modifies nodeCache, nodeCache.Repr
      ensures Valid() && fresh(nodeCache.Repr - old(nodeCache.Repr)) && fresh(data)
      ensures r == FetchResult(volume.Fetch(nodeNumber))
      ensures r == 0 ==> data[..] == volume.Fetch(nodeNumber).bytes
    {
      data := new u8[volume.header.nodeSize](_ => 0);
      if nodeNumber >= volume.header.totalNodes {
        return -1, data;
      }
      if nodeNumber != 0 && !volume.IsNodeUsed(nodeNumber) {
        return -1, data;
      }
      Load(data, nodeNumber);
      r := CheckAndSwap(data, nodeNumber);
    }

    /** btree_get_node for a node that can be read. */
    method ReadNode(n: nat) returns (node: seq<u8>)
      requires Valid() && volume.Readable(n)
      modifies nodeCache, nodeCache.Repr
      ensures Valid() && fresh(nodeCache.Repr - old(nodeCache.Repr))
      ensures HostFormed(node, volume.header) && volume.NodeOf(node) == volume.NodeAt(n)
    {
      volume.FetchedFacts(n);
      var _, data := GetNode(n);
      node := data[..];
    }

    /** btree_get_record: the key of a record. */
    method GetRecordKey(node: seq<u8>, recNum: nat) returns (key: K)
      requires HostFormed(node, volume.header) && Keyed(node) && recNum < LE16(node, 10)
      ensures key == volume.NodeOf(node).keys[recNum]
    {
      assert HostRecordFits(node, volume.header, recNum);
      key := volume.KeyAt(node, recNum);
    }

    /** btree_get_record: the data of a record. */
    method GetRecordValue(node: seq<u8>, recNum: nat) returns (value: seq<u8>)
      requires HostFormed(node, volume.header) && Kind(node) == KIND_LEAF && recNum < LE16(node, 10)
      ensures value == volume.NodeOf(node).values[recNum]
    {
      assert HostRecordFits(node, volume.header, recNum);
      value := volume.ValueAt(node, recNum);
    }

    /** btree_search_node: binary search, then one step back if the last key tested was above the search key. */
    method SearchNode(data: array<u8>, searchKey: K) returns (found: bool, index: nat)
      requires HostFormed(data[..], volume.header) && Keyed(data[..])
      ensures index == 0 || index < LE16(data[..], 10)
      ensures IsOrder(volume.keyCompare) && Sorted(volume.keyCompare, volume.NodeOf(data[..]).keys)
              && volume.NodeOf(data[..]).keys != [] ==>
                Answer(volume.keyCompare, volume.NodeOf(data[..]).keys, searchKey, index, found)
    {
      var node := data[..];
      ghost var keys := volume.NodeOf(node).keys;
      ghost var ordered := IsOrder(volume.keyCompare) && Sorted(volume.keyCompare, keys);
      var numRecords: int := LE16(node, 10);
      var low, high := 0, numRecords - 1;
      var result, recNum := 0, 0;
      found := false;
      while low <= high
        invariant 0 <= low <= high + 1 <= numRecords == |keys|
        invariant 0 <= recNum && (recNum == 0 || recNum < numRecords)
        invariant !found
        invariant if result == 0 then low == 0 && high == numRecords - 1 && recNum == 0
                  else if result < 0 then recNum == high + 1 < numRecords
                  else recNum == low - 1
        invariant ordered ==> SidesKnown(volume.keyCompare, keys, searchKey, low, high + 1)
      {
        recNum := (low + high) / 2;
        var testKey := GetRecordKey(node, recNum);
        result := volume.keyCompare(searchKey, testKey);
        if ordered {
          OrderedSides(volume.keyCompare, keys, searchKey, recNum, low, high + 1);
        }
        if result < 0 {
          high := recNum - 1;
        } else if result > 0 {
          low := recNum + 1;
        } else {
          found := true;
          break;
        }
      }
      if ordered && !found && keys != [] {
        SidesAnswer(volume.keyCompare, keys, searchKey, low);
      }
      if !found && recNum != 0 && result < 0 {
        recNum := recNum - 1;
      }
      index := recNum;
    }

    /** One iteration of btree_search: fetch the node, check it, search it, and find the way down. */
    method Visit(searchKey: K, currentNode: nat, level: nat) returns (step: Step)
      requires Valid() && level > 0 && volume.SaneAt(currentNode)
      modifies nodeCache, nodeCache.Repr
      ensures Valid() && fresh(nodeCache.Repr - old(nodeCache.Repr))
      ensures step.AtLeaf? ==> level == 1
      ensures step.Down? ==> level > 1
      ensures volume.ScreenCheck(currentNode, level, step) == Holds
      ensures volume.Tree().Sound(currentNode, level) ==> volume.Tree().Visited(searchKey, currentNode, level, step)
    {
      volume.TreeFields(currentNode);
      var r, data := GetNode(currentNode);
      if r < 0 {
        step := Stop(Unreadable);
      } else if r > 0 {
        step := Stop(Critical);
      } else {
        step := Examine(searchKey, data, currentNode, level);
      }
    }

    /** The checks on a node fetched, and the search in it. */
    method Examine(searchKey: K, data: array<u8>, currentNode: nat, level: nat) returns (step: Step)
      requires level > 0 && volume.SaneAt(currentNode)
      requires volume.Fetch(currentNode).Fetched? && data[..] == volume.Fetch(currentNode).bytes
      ensures step.AtLeaf? ==> level == 1
      ensures step.Down? ==> level > 1
      ensures volume.ScreenCheck(currentNode, level, step) == Holds
      ensures volume.Tree().Sound(currentNode, level) ==> volume.Tree().Visited(searchKey, currentNode, level, step)
    {
      volume.FetchedFacts(currentNode);
      volume.TreeFields(currentNode);
      var node := data[..];
      if node[9] != level {
        return Stop(Critical);
      }
      if level == 1 {
        if Kind(node) != KIND_LEAF {
          return Stop(Critical);
        }
      } else if Kind(node) != KIND_INDEX {
        return Stop(Critical);
      }
      var found, index := SearchNode(data, searchKey);
      if Kind(node) == KIND_LEAF {
        return AtLeaf(found, index);
      }
      var child := FollowRecord(node, index);
      var currentKey := GetRecordKey(node, index);
      if child == 0 {
        step := Stop(Critical);
      } else if volume.keyCompare(searchKey, currentKey) == -1 {
        step := Stop(Critical);
      } else {
        step := Down(index, child);
      }
      if volume.Tree().Sound(currentNode, level) {
        assert volume.Tree().WentBy(searchKey, currentNode, step, index, found);
      }
    }

    /** BTGetBTNodeRecord: the child pointer of an index record. */
    method FollowRecord(node: seq<u8>, recNum: nat) returns (child: nat)
      requires HostFormed(node, volume.header) && Kind(node) == KIND_INDEX && recNum < LE16(node, 10)
      ensures child == volume.NodeOf(node).children[recNum]
    {
      assert HostRecordFits(node, volume.header, recNum);
      child := volume.ChildAt(node, recNum);
    }

    /** One turn of the loop of btree_search, with the check that no node is visited twice. */
    method SearchLevel(searchKey: K, currentNode: nat, level: nat, history: seq<nat>,
                       ghost left: seq<nat>, ghost right: seq<nat>)
      returns (step: Step, history': seq<nat>, ghost left': seq<nat>, ghost right': seq<nat>)
      requires Valid() && 1 <= level <= volume.header.treeDepth <= 256 == |history|
      requires volume.Course(searchKey, currentNode, level, left, right, history) == Holds
      modifies nodeCache, nodeCache.Repr
      ensures Valid() && fresh(nodeCache.Repr - old(nodeCache.Repr))
      ensures |history'| == 256 && (step.Down? ==> level > 1)
      ensures if currentNode > volume.header.totalNodes || currentNode in history[..volume.header.treeDepth]
              then step == Stop(Critical)
              else volume.SaneAt(currentNode) && volume.ScreenCheck(currentNode, level, step) == Holds
                   && history' == history[level - 1 := currentNode]
      ensures volume.Advanced(searchKey, currentNode, level, left', right', history', step) == Holds
    {
      left', right', history' := left, right, history;
      volume.CourseSound(searchKey, currentNode, level, left, right, history);
      if currentNode > volume.header.totalNodes {
        return Stop(Critical), history', left', right';
      }
      if exists i :: 0 <= i < volume.header.treeDepth && history[i] == currentNode {
        return Stop(Critical), history', left', right';
      }
      history' := history[level - 1 := currentNode];
      step := Visit(searchKey, currentNode, level);
      left', right' := volume.CourseVisited(searchKey, currentNode, level, left, right, history, step);
    }

    /** What the loop needs of its turns. */
    method NextLevel(searchKey: K, currentNode: nat, level: nat, history: seq<nat>,
                     ghost left: seq<nat>, ghost right: seq<nat>)
      returns (step: Step, history': seq<nat>, ghost left': seq<nat>, ghost right': seq<nat>)
      requires Valid() && 1 <= level <= volume.header.treeDepth <= 256 == |history|
      requires volume.Course(searchKey, currentNode, level, left, right, history) == Holds
      modifies nodeCache, nodeCache.Repr
      ensures Valid() && fresh(nodeCache.Repr - old(nodeCache.Repr))
      ensures |history'| == 256 && (step.Down? ==> level > 1)
      ensures volume.Advanced(searchKey, currentNode, level, left', right', history', step) == Holds
    {
      step, history', left', right' := SearchLevel(searchKey, currentNode, level, history, left, right);
    }

    /** The loop of btree_search, from the root down. */
    method SearchLevels(searchKey: K, history: seq<nat>) returns (result: SearchResult)
      requires Valid() && 1 <= volume.header.treeDepth <= 256 == |history|
      requires volume.Course(searchKey, volume.header.rootNode, volume.header.treeDepth, [], [], history) == Holds
      modifies nodeCache, nodeCache.Repr
      ensures Valid() && fresh(nodeCache.Repr - old(nodeCache.Repr))
      ensures volume.Verdict(searchKey, result) == Holds
    {
      ghost var left: seq<nat>, right: seq<nat> := [], [];
      var visited := history;
      var level: nat, currentNode: nat := volume.header.treeDepth, volume.header.rootNode;
      while true
        invariant Valid() && fresh(nodeCache.Repr - old(nodeCache.Repr))
        invariant 1 <= level <= volume.header.treeDepth && |visited| == 256
        invariant volume.Course(searchKey, currentNode, level, left, right, visited) == Holds
        decreases level
      {
        var step;
        step, visited, left, right := NextLevel(searchKey, currentNode, level, visited, left, right);
        match step {
          case Stop(stopped) =>
            return stopped;
          case AtLeaf(found, index) =>
            return Done(found, currentNode, index);
          case Down(_, child) =>
            currentNode := child;
            level := level - 1;
        }
      }
    }

    /** btree_search */
    method Search(searchKey: K) returns (result: SearchResult)
      requires Valid() && volume.header.treeDepth <= 256 && (volume.HoldsTree() || volume.Sane())
      modifies nodeCache, nodeCache.Repr
      ensures Valid() && fresh(nodeCache.Repr - old(nodeCache.Repr))
      ensures volume.HoldsTree() ==> volume.Tree().Correct(searchKey, result)
      ensures volume.header.treeDepth == 0 ==> result == Unreadable
    {
      if volume.header.treeDepth == 0 {
        return Unreadable;
      }
      var history: seq<nat> := seq(256, _ => 0);
      volume.CourseStart(searchKey, history);
      result := SearchLevels(searchKey, history);
    }
  }

  /** The keys before low are below x, those from high on are above it. */
  ghost predicate SidesKnown<K>(cmp: (K, K) -> int, s: seq<K>, x: K, low: nat, high: nat) {
    && (forall k :: 0 <= k < low && k < |s| ==> cmp(x, s[k]) > 0)
    && (forall k :: high <= k < |s| ==> cmp(x, s[k]) < 0)
  }

  /** What one comparison says about the keys on either side. */
  lemma OrderedSides<K(!new)>(cmp: (K, K) -> int, s: seq<K>, x: K, i: nat, low: nat, high: nat)
    requires IsOrder(cmp) && Sorted(cmp, s) && i < |s| && SidesKnown(cmp, s, x, low, high)
    ensures cmp(x, s[i]) < 0 ==> SidesKnown(cmp, s, x, low, i)
    ensures cmp(x, s[i]) > 0 ==> SidesKnown(cmp, s, x, i + 1, high)
  {
    forall k | 0 <= k < |s|
      ensures cmp(x, s[i]) < 0 && k >= i ==> cmp(x, s[k]) < 0
      ensures cmp(x, s[i]) > 0 && k <= i ==> cmp(x, s[k]) > 0
    {
      if k > i {
        OrderTransitive(cmp, x, s[i], s[k]);
      } else if k < i {
        OrderTransitive(cmp, s[k], s[i], x);
      }
      assert cmp(x, s[k]) == -cmp(s[k], x) && cmp(x, s[i]) == -cmp(s[i], x);
    }
  }

  /** When every key is known to lie on one side or the other, the last one below is the answer. */
  lemma SidesAnswer<K(!new)>(cmp: (K, K) -> int, s: seq<K>, x: K, low: nat)
    requires low <= |s| && s != [] && SidesKnown(cmp, s, x, low, low)
    ensures Answer(cmp, s, x, if low == 0 then 0 else low - 1, false)
  {}
}
