/** The bytes of a B-tree node: the big-endian image on disk, the in-place byte swap (`src/hfs/btree/btree_endian.c`)
    and the accessors that read the swapped image on a little-endian host (`src/hfs/btree/btree.c`). */
module NodeFormat {
  import opened MachineTypes
  import opened Checks

  const KIND_LEAF: u8 := 0xff
  const KIND_INDEX: u8 := 0
  const KIND_HEADER: u8 := 1
  const KIND_MAP: u8 := 2

  /** As a signed byte, from -1 to 2. */
  predicate KnownKind(kind: u8) { kind == KIND_LEAF || kind <= KIND_MAP }

  const DESCRIPTOR_SIZE := 14
  const HEADER_REC_SIZE := 106

  /** The fields of the header record the code reads, in host order. */
  datatype Header = Header(treeDepth: u16, rootNode: u32, firstLeafNode: u32, nodeSize: u16, maxKeyLength: u16,
                           totalNodes: u32, attributes: u32) {
    /** kBTBigKeysMask */
    predicate BigKeys() { attributes / 2 % 2 == 1 }

    /** kBTVariableIndexKeysMask */
    predicate VariableIndexKeys() { attributes / 4 % 2 == 1 }

    /** The size of the key length field. */
    function LengthField(): nat { if BigKeys() then 2 else 1 }
  }

  // ----- numbers in either byte order -----

  function BE16(s: seq<u8>, i: nat): u16
    requires i + 2 <= |s|
  {
    (s[i] as int) * 0x100 + s[i + 1]
  }

  function LE16(s: seq<u8>, i: nat): u16
    requires i + 2 <= |s|
  {
    s[i] + (s[i + 1] as int) * 0x100
  }

  function BE32(s: seq<u8>, i: nat): u32
    requires i + 4 <= |s|
  {
    (s[i] as int) * 0x100_0000 + (s[i + 1] as int) * 0x1_0000 + (s[i + 2] as int) * 0x100 + s[i + 3]
  }

  function LE32(s: seq<u8>, i: nat): u32
    requires i + 4 <= |s|
  {
    s[i] + (s[i + 1] as int) * 0x100 + (s[i + 2] as int) * 0x1_0000 + (s[i + 3] as int) * 0x100_0000
  }

  function Swap16(s: seq<u8>, i: nat): (r: seq<u8>)
    requires i + 2 <= |s|
    ensures |r| == |s| && LE16(r, i) == BE16(s, i)
    ensures forall j :: 0 <= j < |s| && !(i <= j < i + 2) ==> r[j] == s[j]
  {
    s[i := s[i + 1]][i + 1 := s[i]]
  }

  function Swap32(s: seq<u8>, i: nat): (r: seq<u8>)
    requires i + 4 <= |s|
    ensures |r| == |s| && LE32(r, i) == BE32(s, i)
    ensures forall j :: 0 <= j < |s| && !(i <= j < i + 4) ==> r[j] == s[j]
  {
    s[i := s[i + 3]][i + 1 := s[i + 2]][i + 2 := s[i + 1]][i + 3 := s[i]]
  }

  // ----- the image on disk -----

  predicate HasDescriptor(raw: seq<u8>) { |raw| >= DESCRIPTOR_SIZE + 2 }

  function Kind(s: seq<u8>): u8
    requires HasDescriptor(s)
  {
    s[8]
  }

  predicate Keyed(s: seq<u8>)
    requires HasDescriptor(s)
  {
    Kind(s) == KIND_LEAF || Kind(s) == KIND_INDEX
  }

  function RawCount(raw: seq<u8>): nat
    requires HasDescriptor(raw)
  {
    BE16(raw, 10)
  }

  /** There is room for the table of record offsets, which grows down from the end of the node. */
  predicate HasTable(raw: seq<u8>, n: nat) { DESCRIPTOR_SIZE + 2 * (n + 1) <= |raw| }

  function RawOffset(raw: seq<u8>, k: nat): nat
    requires HasTable(raw, k)
  {
    BE16(raw, |raw| - 2 - 2 * k)
  }

  /** The bytes a key takes, given its length field: clamped, with the length field, padded to an even number.
      The C computes this in 16 bits; a key that fits its node, as RecordFits asks, does not wrap. */
  function PaddedKeyLength(h: Header, kind: u8, field: nat): nat {
    var stored := if kind == KIND_LEAF || h.VariableIndexKeys() then field else h.maxKeyLength;
    var keySize := if stored > h.maxKeyLength then h.maxKeyLength else stored;
    var withField := keySize + h.LengthField();
    withField + withField % 2
  }

  function RawKeyLength(raw: seq<u8>, h: Header, off: nat): nat
    requires HasDescriptor(raw) && off + 2 <= |raw|
  {
    PaddedKeyLength(h, Kind(raw), if h.BigKeys() then BE16(raw, off) else raw[off])
  }

  /** The bytes of record k the swap touches or the accessors read: the whole header record, a key and what follows
      it, or nothing. */
  function RawNeed(raw: seq<u8>, h: Header, k: nat): nat
    requires HasDescriptor(raw) && HasTable(raw, k)
    requires RawOffset(raw, k) + 2 <= |raw|
  {
    if Kind(raw) == KIND_HEADER && k == 0 then HEADER_REC_SIZE
    else if Kind(raw) == KIND_INDEX then RawKeyLength(raw, h, RawOffset(raw, k)) + 4
    else if Kind(raw) == KIND_LEAF then RawKeyLength(raw, h, RawOffset(raw, k))
    else 0
  }

  /** Where the table of offsets starts. */
  function TableStart(raw: seq<u8>): nat
    requires HasDescriptor(raw) && HasTable(raw, RawCount(raw))
  {
    |raw| - 2 * (RawCount(raw) + 1)
  }

  /** Record k lies between its own offset and the next one. */
  ghost predicate RecordFits(raw: seq<u8>, h: Header, k: nat)
    requires HasDescriptor(raw) && HasTable(raw, k + 1)
  {
    && RawOffset(raw, k) + 2 <= |raw|
    && RawOffset(raw, k) + RawNeed(raw, h, k) <= RawOffset(raw, k + 1)
  }

  /** The layout of a node: records in order of their offsets, between the descriptor and the table. */
  ghost predicate WellFormed(raw: seq<u8>, h: Header) {
    && HasDescriptor(raw)
    && BE16(raw, |raw| - 2) == DESCRIPTOR_SIZE
    && KnownKind(Kind(raw))
    && HasTable(raw, RawCount(raw))
    && RawOffset(raw, RawCount(raw)) <= TableStart(raw)
    && forall k :: 0 <= k < RawCount(raw) ==> RecordFits(raw, h, k)
  }

  lemma {:induction false} OffsetsRise(raw: seq<u8>, h: Header, i: nat, j: nat)
    requires WellFormed(raw, h) && i <= j <= RawCount(raw)
    ensures RawOffset(raw, i) <= RawOffset(raw, j)
    decreases j
  {
    if i < j {
      OffsetsRise(raw, h, i, j - 1);
      assert RecordFits(raw, h, j - 1);
    }
  }

  /** Record k lies between the descriptor and the table. */
  lemma RecordBounds(raw: seq<u8>, h: Header, k: nat)
    requires WellFormed(raw, h) && k < RawCount(raw)
    ensures DESCRIPTOR_SIZE <= RawOffset(raw, k) && RecordFits(raw, h, k)
    ensures RawOffset(raw, k + 1) <= TableStart(raw)
  {
    OffsetsRise(raw, h, 0, k);
    OffsetsRise(raw, h, k + 1, RawCount(raw));
    assert RecordFits(raw, h, k);
  }

  // ----- the swap, as a function -----

  /** swap_BTNodeDescriptor */
  function SwapDescriptor(s: seq<u8>): (r: seq<u8>)
    requires HasDescriptor(s)
    ensures |r| == |s|
    ensures LE32(r, 0) == BE32(s, 0) && LE32(r, 4) == BE32(s, 4) && LE16(r, 10) == BE16(s, 10)
    ensures r[8] == s[8] && r[9] == s[9]
    ensures forall j :: 12 <= j < |s| ==> r[j] == s[j]
  {
    Swap16(Swap32(Swap32(s, 0), 4), 10)
  }

  /** The first i entries of the table of n + 1 offsets, from its low end. */
  function SwapTable(s: seq<u8>, n: nat, i: nat): (r: seq<u8>)
    requires HasTable(s, n) && i <= n + 1
    ensures |r| == |s|
    ensures forall j :: 0 <= j < |s| - 2 * (n + 1) ==> r[j] == s[j]
    ensures forall j :: |s| - 2 * (n + 1) + 2 * i <= j < |s| ==> r[j] == s[j]
  {
    if i == 0 then s else Swap16(SwapTable(s, n, i - 1), |s| - 2 * (n + 1) + 2 * (i - 1))
  }

  const HEADER_FIELDS := 11

  /** Where field i of a header record begins: treeDepth, rootNode, leafRecords, firstLeafNode, lastLeafNode, nodeSize,
      maxKeyLength, totalNodes, freeNodes, clumpSize, attributes. */
  function FieldStart(i: nat): nat {
    match i case 0 => 0 case 1 => 2 case 2 => 6 case 3 => 10 case 4 => 14 case 5 => 18 case 6 => 20 case 7 => 22
      case 8 => 26 case 9 => 32 case 10 => 38 case _ => 42
  }

  predicate IsHalf(i: nat) { i == 0 || i == 5 || i == 6 }

  function FieldEnd(i: nat): nat { FieldStart(i) + if IsHalf(i) then 2 else 4 }

  lemma {:induction false} FieldsRise(i: nat, j: nat)
    requires i < j <= HEADER_FIELDS
    ensures FieldEnd(i) <= FieldStart(j) <= 42
    decreases j
  {
    if i + 1 < j {
      FieldsRise(i, j - 1);
    }
  }

  /** Field i, read in host order from r, is what it is on disk in s. */
  ghost predicate FieldReads(s: seq<u8>, r: seq<u8>, off: nat, i: nat)
    requires off + HEADER_REC_SIZE <= |s| == |r| && i < HEADER_FIELDS
  {
    FieldsRise(i, HEADER_FIELDS);
    if IsHalf(i) then LE16(r, off + FieldStart(i)) == BE16(s, off + FieldStart(i))
    else LE32(r, off + FieldStart(i)) == BE32(s, off + FieldStart(i))
  }

  /** The bytes of a header record that are part of a field. */
  predicate InField(j: nat) { j < 30 || 32 <= j < 36 || 38 <= j < 42 }

  /** Every field of a header record reads in host order as it does on disk, and its other bytes are as they were. */
  ghost predicate HeaderReads(s: seq<u8>, r: seq<u8>, off: nat)
    requires off + HEADER_REC_SIZE <= |s| == |r|
  {
    && (forall i {:trigger FieldReads(s, r, off, i)} :: 0 <= i < HEADER_FIELDS ==> FieldReads(s, r, off, i))
    && forall j :: 0 <= j < HEADER_REC_SIZE && !InField(j) ==> r[off + j] == s[off + j]
  }

  /** swap_BTHeaderRec, as far as the first n fields of a header record at off. */
  function SwapFields(s: seq<u8>, off: nat, n: nat): (r: seq<u8>)
    requires off + HEADER_REC_SIZE <= |s| && n <= HEADER_FIELDS
    ensures |r| == |s|
    ensures forall i {:trigger FieldReads(s, r, off, i)} :: 0 <= i < n ==> FieldReads(s, r, off, i)
    ensures forall j :: 0 <= j < |s| && !(off <= j < off + FieldStart(n) && InField(j - off)) ==> r[j] == s[j]
  {
    if n == 0 then s
    else
      FieldsRise(n - 1, HEADER_FIELDS);
      var t, at := SwapFields(s, off, n - 1), off + FieldStart(n - 1);
      var r := if IsHalf(n - 1) then Swap16(t, at) else Swap32(t, at);
      OneFieldMore(s, t, r, off, n - 1);
      r
  }

  lemma OneFieldMore(s: seq<u8>, t: seq<u8>, r: seq<u8>, off: nat, n: nat)
    requires off + HEADER_REC_SIZE <= |s| == |t| == |r| && n < HEADER_FIELDS && FieldEnd(n) <= 42
    requires forall i {:trigger FieldReads(s, t, off, i)} :: 0 <= i < n ==> FieldReads(s, t, off, i)
    requires forall j :: 0 <= j < |s| && !(off <= j < off + FieldStart(n) && InField(j - off)) ==> t[j] == s[j]
    requires r == if IsHalf(n) then Swap16(t, off + FieldStart(n)) else Swap32(t, off + FieldStart(n))
    ensures forall i {:trigger FieldReads(s, r, off, i)} :: 0 <= i <= n ==> FieldReads(s, r, off, i)
    ensures forall j :: 0 <= j < |s| && !(off <= j < off + FieldStart(n + 1) && InField(j - off)) ==> r[j] == s[j]
  {
    forall i | 0 <= i <= n ensures FieldReads(s, r, off, i) {
      if i < n {
        FieldsRise(i, n);
        assert FieldReads(s, t, off, i);
      }
    }
  }

  /** swap_BTHeaderRec, for a header record at off. */
  function SwapHeaderRec(s: seq<u8>, off: nat): (r: seq<u8>)
    requires off + HEADER_REC_SIZE <= |s|
    ensures |r| == |s| && HeaderReads(s, r, off)
    ensures forall j :: 0 <= j < |s| && !(off <= j < off + HEADER_REC_SIZE) ==> r[j] == s[j]
  {
    SwapFields(s, off, HEADER_FIELDS)
  }

  /** The key length field, swapped if it has two bytes. */
  function SwapKeyLength(h: Header, s: seq<u8>, off: nat): (r: seq<u8>)
    requires off + 2 <= |s|
    ensures |r| == |s| && (if h.BigKeys() then LE16(r, off) == BE16(s, off) else r[off] == s[off])
    ensures forall j :: 0 <= j < |s| && !(off <= j < off + h.LengthField()) ==> r[j] == s[j]
  {
    if h.BigKeys() then Swap16(s, off) else s
  }

  /** What the loop does to record k, whose bytes in s are still those of raw. */
  function SwapRecord(raw: seq<u8>, h: Header, k: nat, s: seq<u8>): (r: seq<u8>)
    requires HasDescriptor(raw) && HasTable(raw, k + 1) && RecordFits(raw, h, k)
    requires RawOffset(raw, k + 1) <= |raw| == |s|
    ensures |r| == |s|
    ensures forall j :: 0 <= j < |s| && !(RawOffset(raw, k) <= j < RawOffset(raw, k + 1)) ==> r[j] == s[j]
  {
    var off := RawOffset(raw, k);
    if Keyed(raw) then
      var keyed := SwapKeyLength(h, s, off);
      if Kind(raw) == KIND_INDEX then Swap32(keyed, off + RawKeyLength(raw, h, off)) else keyed
    else if Kind(raw) == KIND_HEADER && k == 0 then SwapHeaderRec(s, off)
    else s
  }

  /** The image after the descriptor, the table and the first k records have been swapped. */
  function Image(raw: seq<u8>, h: Header, k: nat): (r: seq<u8>)
    requires WellFormed(raw, h) && k <= RawCount(raw)
    ensures |r| == |raw|
  {
    if k == 0 then
      SwapTable(SwapDescriptor(raw), RawCount(raw), RawCount(raw) + 1)
    else
      RecordBounds(raw, h, k - 1);
      SwapRecord(raw, h, k - 1, Image(raw, h, k - 1))
  }

  /** The node as the rest of the program sees it. */
  function Swapped(raw: seq<u8>, h: Header): seq<u8>
    requires WellFormed(raw, h)
  {
    Image(raw, h, RawCount(raw))
  }

  // ----- the accessors on the swapped image -----

  /** The table's first entry, which is always 14: in host order the node was swapped before. */
  predicate AlreadySwapped(s: seq<u8>)
    requires HasDescriptor(s)
  {
    LE16(s, |s| - 2) == DESCRIPTOR_SIZE
  }

  function RecordOffset(s: seq<u8>, k: nat): nat
    requires HasTable(s, k)
  {
    LE16(s, |s| - 2 - 2 * k)
  }

  /** BTGetRecordKeyLength */
  function KeyLength(s: seq<u8>, h: Header, off: nat): nat
    requires HasDescriptor(s) && off + 2 <= |s|
  {
    if Keyed(s) then PaddedKeyLength(h, Kind(s), if h.BigKeys() then LE16(s, off) else s[off]) else 0
  }

  /** A node image the accessors can read: the table and the records it leads to are inside the node. */
  ghost predicate HostFormed(s: seq<u8>, h: Header) {
    && HasDescriptor(s)
    && AlreadySwapped(s)
    && HasTable(s, LE16(s, 10))
    && (Keyed(s) ==> forall k :: 0 <= k < LE16(s, 10) ==> HostRecordFits(s, h, k))
  }

  ghost predicate HostRecordFits(s: seq<u8>, h: Header, k: nat)
    requires HasDescriptor(s) && HasTable(s, k + 1)
  {
    var off := RecordOffset(s, k);
    && off + 2 <= |s|
    && off + KeyLength(s, h, off) + (if Kind(s) == KIND_INDEX then 4 else 0) <= RecordOffset(s, k + 1) <= |s|
  }

  lemma {:induction false} SwapTableMeaning(s: seq<u8>, n: nat, i: nat, k: nat)
    requires HasTable(s, n) && i <= n + 1 && n + 1 - i <= k <= n
    ensures LE16(SwapTable(s, n, i), |s| - 2 - 2 * k) == BE16(s, |s| - 2 - 2 * k)
  {
    if n + 1 - i < k {
      SwapTableMeaning(s, n, i - 1, k);
    }
  }

  lemma ImageStep(raw: seq<u8>, h: Header, k: nat, j: nat)
    requires WellFormed(raw, h) && k < RawCount(raw) && j < |raw|
    requires j < RawOffset(raw, k) || RawOffset(raw, k + 1) <= j
    ensures Image(raw, h, k + 1)[j] == Image(raw, h, k)[j]
  {
    RecordBounds(raw, h, k);
  }

  /** Swapping records k to m - 1 leaves the bytes outside them alone. */
  lemma {:induction false} ImageAt(raw: seq<u8>, h: Header, k: nat, m: nat, j: nat)
    requires WellFormed(raw, h) && k <= m <= RawCount(raw) && j < |raw|
    requires j < RawOffset(raw, k) || RawOffset(raw, m) <= j
    ensures Image(raw, h, m)[j] == Image(raw, h, k)[j]
    decreases m - k
  {
    if k < m {
      OffsetsRise(raw, h, k, k + 1);
      OffsetsRise(raw, h, k + 1, m);
      ImageStep(raw, h, k, j);
      ImageAt(raw, h, k + 1, m, j);
    }
  }

  /** A record still to be swapped has its bytes on disk. */
  lemma ImageBefore(raw: seq<u8>, h: Header, k: nat, j: nat)
    requires WellFormed(raw, h) && k <= RawCount(raw)
    requires RawOffset(raw, k) <= j < TableStart(raw)
    ensures Image(raw, h, k)[j] == raw[j]
  {
    OffsetsRise(raw, h, 0, k);
    ImageAt(raw, h, 0, k, j);
  }

  /** The descriptor and the table are done before the records. */
  lemma ImageOutside(raw: seq<u8>, h: Header, k: nat, j: nat)
    requires WellFormed(raw, h) && k <= RawCount(raw)
    requires j < DESCRIPTOR_SIZE || TableStart(raw) <= j < |raw|
    ensures Image(raw, h, k)[j] == Image(raw, h, 0)[j]
  {
    OffsetsRise(raw, h, k, RawCount(raw));
    ImageAt(raw, h, 0, k, j);
  }

  lemma SameNumber(s: seq<u8>, t: seq<u8>, i: nat)
    requires i + 2 <= |s| && i + 2 <= |t| && s[i] == t[i] && s[i + 1] == t[i + 1]
    ensures LE16(s, i) == LE16(t, i) && BE16(s, i) == BE16(t, i)
  {}

  lemma DescriptorBeforeTable(raw: seq<u8>, at: nat)
    requires HasDescriptor(raw) && 12 <= at && at + 2 <= |raw|
    ensures BE16(SwapDescriptor(raw), at) == BE16(raw, at)
  {
    SameNumber(SwapDescriptor(raw), raw, at);
  }

  lemma TableSwapped(raw: seq<u8>, k: nat)
    requires HasDescriptor(raw) && HasTable(raw, RawCount(raw)) && k <= RawCount(raw)
    ensures RecordOffset(SwapTable(SwapDescriptor(raw), RawCount(raw), RawCount(raw) + 1), k) == RawOffset(raw, k)
  {
    SwapTableMeaning(SwapDescriptor(raw), RawCount(raw), RawCount(raw) + 1, k);
    DescriptorBeforeTable(raw, |raw| - 2 - 2 * k);
  }

  /** The entries of the table stay as they are once they are swapped. */
  lemma TableStays(raw: seq<u8>, h: Header, m: nat, k: nat)
    requires WellFormed(raw, h) && m <= RawCount(raw) && k <= RawCount(raw)
    ensures RecordOffset(Image(raw, h, m), k) == RecordOffset(Image(raw, h, 0), k)
  {
    var at := |raw| - 2 - 2 * k;
    ImageOutside(raw, h, m, at);
    ImageOutside(raw, h, m, at + 1);
    SameNumber(Image(raw, h, m), Image(raw, h, 0), at);
  }

  /** The offset of record k, read in host order at any time after the table is swapped, is the one on disk. */
  lemma ImageOffset(raw: seq<u8>, h: Header, m: nat, k: nat)
    requires WellFormed(raw, h) && m <= RawCount(raw) && k <= RawCount(raw)
    ensures RecordOffset(Image(raw, h, m), k) == RawOffset(raw, k)
  {
    TableSwapped(raw, k);
    TableStays(raw, h, m, k);
  }

  /** So are the fields of the descriptor. */
  lemma ImageDescriptor(raw: seq<u8>, h: Header, m: nat)
    requires WellFormed(raw, h) && m <= RawCount(raw)
    ensures LE32(Image(raw, h, m), 0) == BE32(raw, 0) && LE32(Image(raw, h, m), 4) == BE32(raw, 4)
    ensures LE16(Image(raw, h, m), 10) == RawCount(raw)
    ensures Image(raw, h, m)[8] == raw[8] && Image(raw, h, m)[9] == raw[9]
  {
    var d := SwapDescriptor(raw);
    assert RawOffset(raw, 0) == DESCRIPTOR_SIZE;
    forall j | 0 <= j < DESCRIPTOR_SIZE ensures Image(raw, h, m)[j] == d[j] {
      ImageOutside(raw, h, m, j);
    }
    assert LE32(d, 0) == BE32(raw, 0) && LE32(d, 4) == BE32(raw, 4) && LE16(d, 10) == BE16(raw, 10);
  }

  /** Record k, read from s in host order: the key length and the child pointer are those on disk, and every other
      byte of the record is untouched. */
  ghost predicate RecordReads(raw: seq<u8>, h: Header, k: nat, s: seq<u8>)
    requires HasDescriptor(raw) && Keyed(raw) && HasTable(raw, k + 1) && RecordFits(raw, h, k)
    requires RawOffset(raw, k + 1) <= |raw| == |s|
  {
    RecordCheck(raw, h, k, s) == Holds
  }

  ghost function RecordCheck(raw: seq<u8>, h: Header, k: nat, s: seq<u8>): Check
    requires HasDescriptor(raw) && Keyed(raw) && HasTable(raw, k + 1) && RecordFits(raw, h, k)
    requires RawOffset(raw, k + 1) <= |raw| == |s|
  {
    var off, next := RawOffset(raw, k), RawOffset(raw, k + 1);
    var len := RawKeyLength(raw, h, off);
    if
      && Kind(s) == Kind(raw) && KeyLength(s, h, off) == len
      && (if h.BigKeys() then LE16(s, off) == BE16(raw, off) else s[off] == raw[off])
      && (forall j :: off + h.LengthField() <= j < off + len ==> s[j] == raw[j])
      && (Kind(raw) == KIND_INDEX ==> LE32(s, off + len) == BE32(raw, off + len)
                                      && forall j :: off + len + 4 <= j < next ==> s[j] == raw[j])
      && (Kind(raw) == KIND_LEAF ==> forall j :: off + len <= j < next ==> s[j] == raw[j])
    then Holds else Fails
  }

  lemma KeyedSwap(raw: seq<u8>, h: Header, k: nat, s: seq<u8>)
    requires HasDescriptor(raw) && Keyed(raw) && HasTable(raw, k + 1) && RecordFits(raw, h, k)
    requires DESCRIPTOR_SIZE <= RawOffset(raw, k) && RawOffset(raw, k + 1) <= |raw| == |s|
    requires Kind(s) == Kind(raw)
    requires forall j :: RawOffset(raw, k) <= j < RawOffset(raw, k + 1) ==> s[j] == raw[j]
    ensures var off := RawOffset(raw, k);
            var keyed := SwapKeyLength(h, s, off);
            && Kind(keyed) == Kind(raw) && KeyLength(keyed, h, off) == RawKeyLength(raw, h, off)
            && forall j :: off + h.LengthField() <= j < RawOffset(raw, k + 1) ==> keyed[j] == raw[j]
  {
    assert s[RawOffset(raw, k)] == raw[RawOffset(raw, k)] && s[RawOffset(raw, k) + 1] == raw[RawOffset(raw, k) + 1];
  }

  lemma OwnSwap(raw: seq<u8>, h: Header, k: nat, s: seq<u8>)
    requires HasDescriptor(raw) && Keyed(raw) && HasTable(raw, k + 1) && RecordFits(raw, h, k)
    requires DESCRIPTOR_SIZE <= RawOffset(raw, k) && RawOffset(raw, k + 1) <= |raw| == |s|
    requires Kind(s) == Kind(raw)
    requires forall j :: RawOffset(raw, k) <= j < RawOffset(raw, k + 1) ==> s[j] == raw[j]
    ensures RecordReads(raw, h, k, SwapRecord(raw, h, k, s))
  {
    var off := RawOffset(raw, k);
    var at := off + RawKeyLength(raw, h, off);
    var keyed := SwapKeyLength(h, s, off);
    KeyedSwap(raw, h, k, s);
    if Kind(raw) == KIND_INDEX {
      assert BE32(keyed, at) == BE32(raw, at);
      var r := Swap32(keyed, at);
      assert forall j :: 0 <= j < at ==> r[j] == keyed[j];
      SameKeyLength(keyed, r, h, off);
    }
  }

  lemma SameKeyLength(s: seq<u8>, t: seq<u8>, h: Header, off: nat)
    requires HasDescriptor(s) && off + 2 <= |s| == |t| && s[8] == t[8] && s[off] == t[off] && s[off + 1] == t[off + 1]
    ensures KeyLength(s, h, off) == KeyLength(t, h, off)
  {}

  lemma SameReads(raw: seq<u8>, h: Header, k: nat, s: seq<u8>, t: seq<u8>)
    requires HasDescriptor(raw) && Keyed(raw) && HasTable(raw, k + 1) && RecordFits(raw, h, k)
    requires RawOffset(raw, k + 1) <= |raw| == |s| == |t|
    requires RecordReads(raw, h, k, s) && Kind(t) == Kind(s)
    requires forall j :: RawOffset(raw, k) <= j < RawOffset(raw, k + 1) ==> t[j] == s[j]
    ensures RecordReads(raw, h, k, t)
  {}

  lemma RecordBytes(raw: seq<u8>, h: Header, k: nat)
    requires WellFormed(raw, h) && k < RawCount(raw)
    ensures RawOffset(raw, k + 1) <= |raw|
    ensures forall j :: RawOffset(raw, k) <= j < RawOffset(raw, k + 1) ==>
              Image(raw, h, k)[j] == raw[j] && Swapped(raw, h)[j] == Image(raw, h, k + 1)[j]
  {
    RecordBounds(raw, h, k);
    forall j | RawOffset(raw, k) <= j < RawOffset(raw, k + 1)
      ensures Image(raw, h, k)[j] == raw[j] && Swapped(raw, h)[j] == Image(raw, h, k + 1)[j]
    {
      ImageBefore(raw, h, k, j);
      ImageAt(raw, h, k + 1, RawCount(raw), j);
    }
  }

  /** What the swap means: every record reads in host order as it is on disk. */
  lemma SwappedRecord(raw: seq<u8>, h: Header, k: nat)
    requires WellFormed(raw, h) && Keyed(raw) && k < RawCount(raw)
    ensures RecordFits(raw, h, k) && RawOffset(raw, k + 1) <= |raw| == |Swapped(raw, h)|
    ensures RecordReads(raw, h, k, Swapped(raw, h))
  {
    RecordBounds(raw, h, k);
    RecordBytes(raw, h, k);
    ImageDescriptor(raw, h, k);
    ImageDescriptor(raw, h, k + 1);
    ImageDescriptor(raw, h, RawCount(raw));
    OwnSwap(raw, h, k, Image(raw, h, k));
    SameReads(raw, h, k, Image(raw, h, k + 1), Swapped(raw, h));
  }

  // ----- the swap in place -----

  /** Not swapped before, and recognised as a node. */
  predicate Recognised(s: seq<u8>)
    requires HasDescriptor(s)
  {
    && !AlreadySwapped(s)
    && BE16(s, |s| - 2) == DESCRIPTOR_SIZE
    && KnownKind(Kind(s))
  }

  /** Swapping is done once: a swapped node is left alone. */
  lemma SwapOnce(raw: seq<u8>, h: Header)
    requires WellFormed(raw, h)
    ensures HasDescriptor(Swapped(raw, h)) && AlreadySwapped(Swapped(raw, h))
  {
    ImageOffset(raw, h, RawCount(raw), 0);
  }

  /** A record that reads as on disk, at the offset it has on disk, can be read. */
  lemma HostRecord(raw: seq<u8>, h: Header, k: nat, s: seq<u8>)
    requires HasDescriptor(raw) && Keyed(raw) && HasTable(raw, k + 1) && RecordFits(raw, h, k)
    requires RawOffset(raw, k + 1) <= |raw| == |s| && RecordReads(raw, h, k, s)
    requires RecordOffset(s, k) == RawOffset(raw, k) && RecordOffset(s, k + 1) == RawOffset(raw, k + 1)
    ensures HostRecordFits(s, h, k)
  {}

  /** A swapped node can be read. */
  lemma SwappedHostFormed(raw: seq<u8>, h: Header)
    requires WellFormed(raw, h)
    ensures HostFormed(Swapped(raw, h), h)
  {
    var s := Swapped(raw, h);
    SwapOnce(raw, h);
    ImageDescriptor(raw, h, RawCount(raw));
    if Keyed(s) {
      forall k | 0 <= k < RawCount(raw) ensures HostRecordFits(s, h, k) {
        SwappedRecord(raw, h, k);
        ImageOffset(raw, h, RawCount(raw), k);
        ImageOffset(raw, h, RawCount(raw), k + 1);
        HostRecord(raw, h, k, s);
      }
    }
  }

  // ----- the whole swapped image -----

  lemma SameHeaders(raw: seq<u8>, s: seq<u8>, t: seq<u8>, r: seq<u8>, off: nat)
    requires off + HEADER_REC_SIZE <= |raw| == |s| == |t| == |r| && HeaderReads(s, t, off)
    requires forall j :: off <= j < off + HEADER_REC_SIZE ==> s[j] == raw[j] && r[j] == t[j]
    ensures HeaderReads(raw, r, off)
  {
    forall i | 0 <= i < HEADER_FIELDS ensures FieldReads(raw, r, off, i) {
      FieldsRise(i, HEADER_FIELDS);
      assert FieldReads(s, t, off, i);
    }
  }

  lemma HeaderRoom(raw: seq<u8>, h: Header)
    requires WellFormed(raw, h) && Kind(raw) == KIND_HEADER && RawCount(raw) > 0
    ensures HasTable(raw, 1) && RawOffset(raw, 0) == 14
    ensures 14 + HEADER_REC_SIZE <= RawOffset(raw, 1) <= TableStart(raw)
  {
    RecordBounds(raw, h, 0);
  }

  lemma HeaderStep(raw: seq<u8>, h: Header)
    requires WellFormed(raw, h) && Kind(raw) == KIND_HEADER && RawCount(raw) > 0 && 14 + HEADER_REC_SIZE <= |raw|
    ensures HeaderReads(Image(raw, h, 0), Image(raw, h, 1), 14)
  {
    assert Image(raw, h, 1) == SwapHeaderRec(Image(raw, h, 0), 14);
  }

  /** The header record of a header node reads in host order as on disk. */
  lemma SwappedHeader(raw: seq<u8>, h: Header)
    requires WellFormed(raw, h) && Kind(raw) == KIND_HEADER && RawCount(raw) > 0
    ensures 14 + HEADER_REC_SIZE <= |raw| == |Swapped(raw, h)| && HeaderReads(raw, Swapped(raw, h), 14)
  {
    HeaderRoom(raw, h);
    RecordBytes(raw, h, 0);
    HeaderStep(raw, h);
    SameHeaders(raw, Image(raw, h, 0), Image(raw, h, 1), Swapped(raw, h), 14);
  }

  /** Where the records of a node without keys begin that are left as they are. */
  function PlainStart(raw: seq<u8>): nat
    requires HasDescriptor(raw)
  {
    if Kind(raw) == KIND_HEADER && RawCount(raw) > 0 then 14 + HEADER_REC_SIZE else 14
  }

  lemma {:induction false} PlainImage(raw: seq<u8>, h: Header, k: nat, j: nat)
    requires WellFormed(raw, h) && !Keyed(raw) && k <= RawCount(raw) && PlainStart(raw) <= j < TableStart(raw)
    ensures Image(raw, h, k)[j] == raw[j]
  {
    if k > 0 {
      PlainImage(raw, h, k - 1, j);
      RecordBounds(raw, h, k - 1);
      if Kind(raw) == KIND_HEADER && k == 1 {
        HeaderRoom(raw, h);
      }
    }
  }

  /** What a swapped image s of a node is: the descriptor and the table of offsets in host order, and between them
      only key lengths, child pointers and the header record changed. The header record is the first one of a header
      node; map nodes, and all other records of header nodes, are as they were. */
  ghost predicate HostImage(raw: seq<u8>, h: Header, s: seq<u8>)
    requires WellFormed(raw, h) && |s| == |raw|
  {
    && DescriptorImage(raw, s) && TableImage(raw, s)
    && (Keyed(raw) ==> RecordsImage(raw, h, s))
    && (!Keyed(raw) ==> PlainBytes(raw, s, PlainStart(raw), TableStart(raw)))
    && (Keyed(raw) ==> PlainBytes(raw, s, RawOffset(raw, RawCount(raw)), TableStart(raw)))
    && (Kind(raw) == KIND_HEADER && RawCount(raw) > 0 ==> 14 + HEADER_REC_SIZE <= |raw| && HeaderReads(raw, s, 14))
  }

  ghost predicate DescriptorImage(raw: seq<u8>, s: seq<u8>)
    requires HasDescriptor(raw) && |s| == |raw|
  {
    && LE32(s, 0) == BE32(raw, 0) && LE32(s, 4) == BE32(raw, 4) && LE16(s, 10) == BE16(raw, 10)
    && s[8] == raw[8] && s[9] == raw[9] && s[12] == raw[12] && s[13] == raw[13]
  }

  ghost predicate TableImage(raw: seq<u8>, s: seq<u8>)
    requires HasDescriptor(raw) && HasTable(raw, RawCount(raw)) && |s| == |raw|
  {
    forall k :: 0 <= k <= RawCount(raw) ==> RecordOffset(s, k) == RawOffset(raw, k)
  }

  ghost predicate RecordsImage(raw: seq<u8>, h: Header, s: seq<u8>)
    requires WellFormed(raw, h) && Keyed(raw) && |s| == |raw|
  {
    forall k :: 0 <= k < RawCount(raw) ==> RecordFits(raw, h, k) && RawOffset(raw, k + 1) <= |raw|
                                           && RecordReads(raw, h, k, s)
  }

  ghost predicate PlainBytes(raw: seq<u8>, s: seq<u8>, i: nat, j: nat)
    requires j <= |s| == |raw|
  {
    forall b :: i <= b < j ==> s[b] == raw[b]
  }

  lemma SwappedDescriptor(raw: seq<u8>, h: Header)
    requires WellFormed(raw, h)
    ensures |Swapped(raw, h)| == |raw| && DescriptorImage(raw, Swapped(raw, h))
  {
    ImageDescriptor(raw, h, RawCount(raw));
    ImageOutside(raw, h, RawCount(raw), 12);
    ImageOutside(raw, h, RawCount(raw), 13);
  }

  lemma SwappedTable(raw: seq<u8>, h: Header)
    requires WellFormed(raw, h)
    ensures |Swapped(raw, h)| == |raw| && TableImage(raw, Swapped(raw, h))
  {
    forall k | 0 <= k <= RawCount(raw) ensures RecordOffset(Swapped(raw, h), k) == RawOffset(raw, k) {
      ImageOffset(raw, h, RawCount(raw), k);
    }
  }

  lemma SwappedRecords(raw: seq<u8>, h: Header)
    requires WellFormed(raw, h) && Keyed(raw)
    ensures |Swapped(raw, h)| == |raw| && RecordsImage(raw, h, Swapped(raw, h))
    ensures PlainBytes(raw, Swapped(raw, h), RawOffset(raw, RawCount(raw)), TableStart(raw))
  {
    var n := RawCount(raw);
    forall k | 0 <= k < n
      ensures RecordFits(raw, h, k) && RawOffset(raw, k + 1) <= |raw| && RecordReads(raw, h, k, Swapped(raw, h))
    {
      SwappedRecord(raw, h, k);
    }
    forall b | RawOffset(raw, n) <= b < TableStart(raw) ensures Swapped(raw, h)[b] == raw[b] {
      ImageBefore(raw, h, n, b);
    }
  }

  lemma SwappedPlain(raw: seq<u8>, h: Header)
    requires WellFormed(raw, h) && !Keyed(raw)
    ensures |Swapped(raw, h)| == |raw| && PlainBytes(raw, Swapped(raw, h), PlainStart(raw), TableStart(raw))
  {
    forall b | PlainStart(raw) <= b < TableStart(raw) ensures Swapped(raw, h)[b] == raw[b] {
      PlainImage(raw, h, RawCount(raw), b);
    }
  }

  lemma SwappedImage(raw: seq<u8>, h: Header)
    requires WellFormed(raw, h)
    ensures |Swapped(raw, h)| == |raw| && HostImage(raw, h, Swapped(raw, h))
  {
    SwappedDescriptor(raw, h);
    SwappedTable(raw, h);
    if Keyed(raw) {
      SwappedRecords(raw, h);
    } else {
      SwappedPlain(raw, h);
    }
    if Kind(raw) == KIND_HEADER && RawCount(raw) > 0 {
      SwappedHeader(raw, h);
    }
  }

  method Swap16At(a: array<u8>, i: nat)
    requires i + 2 <= a.Length
    modifies a
    ensures a[..] == Swap16(old(a[..]), i)
  {
    a[i], a[i + 1] := a[i + 1], a[i];
  }

  method Swap32At(a: array<u8>, i: nat)
    requires i + 4 <= a.Length
    modifies a
    ensures a[..] == Swap32(old(a[..]), i)
  {
    a[i], a[i + 1], a[i + 2], a[i + 3] := a[i + 3], a[i + 2], a[i + 1], a[i];
  }

  /** Swap16 or Swap32 of one field of a header record. */
  method SwapFieldAt(a: array<u8>, off: nat, i: nat, ghost s: seq<u8>)
    requires off + HEADER_REC_SIZE <= a.Length == |s| && i < HEADER_FIELDS && a[..] == SwapFields(s, off, i)
    modifies a
    ensures a[..] == SwapFields(s, off, i + 1)
  {
    FieldsRise(i, HEADER_FIELDS);
    if IsHalf(i) {
      Swap16At(a, off + FieldStart(i));
    } else {
      Swap32At(a, off + FieldStart(i));
    }
  }

  /** swap_BTHeaderRec: its fields in turn. */
  method SwapHeaderRecAt(a: array<u8>, off: nat)
    requires off + HEADER_REC_SIZE <= a.Length
    modifies a
    ensures a[..] == SwapHeaderRec(old(a[..]), off) && HeaderReads(old(a[..]), a[..], off)
  {
    ghost var s := a[..];
    SwapFieldAt(a, off, 0, s);   // treeDepth
    SwapFieldAt(a, off, 1, s);   // rootNode
    SwapFieldAt(a, off, 2, s);   // leafRecords
    SwapFieldAt(a, off, 3, s);   // firstLeafNode
    SwapFieldAt(a, off, 4, s);   // lastLeafNode
    SwapFieldAt(a, off, 5, s);   // nodeSize
    SwapFieldAt(a, off, 6, s);   // maxKeyLength
    SwapFieldAt(a, off, 7, s);   // totalNodes
    SwapFieldAt(a, off, 8, s);   // freeNodes
    SwapFieldAt(a, off, 9, s);   // clumpSize
    SwapFieldAt(a, off, 10, s);  // attributes
  }

  /** The loop over the record offsets. */
  method SwapTableAt(a: array<u8>, numRecords: nat)
    requires HasTable(a[..], numRecords)
    modifies a
    ensures a[..] == SwapTable(old(a[..]), numRecords, numRecords + 1)
  {
    var i := 0;
    while i < numRecords + 1
      invariant 0 <= i <= numRecords + 1
      invariant a[..] == SwapTable(old(a[..]), numRecords, i)
    {
      Swap16At(a, a.Length - 2 * (numRecords + 1) + 2 * i);
      i := i + 1;
    }
  }

  /** What one iteration of the record loop needs: it reads the right offset, kind and key length from s. */
  ghost predicate StepReads(raw: seq<u8>, h: Header, k: nat, s: seq<u8>) {
    && HasDescriptor(raw) && HasTable(raw, k + 1) && RecordFits(raw, h, k) && RawOffset(raw, k + 1) <= |raw| == |s|
    && StepCheck(raw, k, s) == Holds
  }

  ghost function StepCheck(raw: seq<u8>, k: nat, s: seq<u8>): Check
    requires HasDescriptor(raw) && HasTable(raw, k) && |s| == |raw|
  {
    if
      && RecordOffset(s, k) == RawOffset(raw, k) && LE16(s, |s| - 2) == DESCRIPTOR_SIZE
      && Kind(s) == Kind(raw) && DESCRIPTOR_SIZE <= RawOffset(raw, k)
      && (Keyed(raw) ==> RawOffset(raw, k) + 2 <= |raw| && s[RawOffset(raw, k)] == raw[RawOffset(raw, k)]
                         && s[RawOffset(raw, k) + 1] == raw[RawOffset(raw, k) + 1])
    then Holds else Fails
  }

  lemma KeyRoom(raw: seq<u8>, h: Header, k: nat)
    requires HasDescriptor(raw) && Keyed(raw) && HasTable(raw, k + 1) && RecordFits(raw, h, k)
    ensures RawOffset(raw, k) + 2 <= RawOffset(raw, k + 1)
  {}

  lemma BytesBefore(raw: seq<u8>, h: Header, k: nat)
    requires WellFormed(raw, h) && k < RawCount(raw) && Keyed(raw)
    ensures RawOffset(raw, k) + 2 <= |raw|
    ensures Image(raw, h, k)[RawOffset(raw, k)] == raw[RawOffset(raw, k)]
    ensures Image(raw, h, k)[RawOffset(raw, k) + 1] == raw[RawOffset(raw, k) + 1]
  {
    assert RecordFits(raw, h, k);
    KeyRoom(raw, h, k);
    RecordBytes(raw, h, k);
  }

  lemma StepBounds(raw: seq<u8>, h: Header, k: nat)
    requires WellFormed(raw, h) && k < RawCount(raw)
    ensures HasTable(raw, k + 1) && RecordFits(raw, h, k) && DESCRIPTOR_SIZE <= RawOffset(raw, k)
    ensures RawOffset(raw, k + 1) <= |raw| && LE16(Image(raw, h, k), |raw| - 2) == DESCRIPTOR_SIZE
  {
    RecordBounds(raw, h, k);
    ImageOffset(raw, h, k, 0);
  }

  lemma RecordStep(raw: seq<u8>, h: Header, k: nat)
    requires WellFormed(raw, h) && k < RawCount(raw)
    ensures StepReads(raw, h, k, Image(raw, h, k))
  {
    StepBounds(raw, h, k);
    ImageOffset(raw, h, k, k);
    ImageDescriptor(raw, h, k);
    if Keyed(raw) {
      BytesBefore(raw, h, k);
    }
  }

  /** The key length, if it has two bytes; after this it reads in host order as on disk. */
  method SwapKeyAt(a: array<u8>, h: Header, ghost raw: seq<u8>, k: nat, record: nat)
    requires StepReads(raw, h, k, a[..]) && Keyed(raw) && record == RawOffset(raw, k)
    modifies a
    ensures a[..] == SwapKeyLength(h, old(a[..]), record)
    ensures Kind(a[..]) == Kind(raw) && KeyLength(a[..], h, record) == RawKeyLength(raw, h, record)
  {
    KeyRoom(raw, h, k);
    if h.BigKeys() {
      Swap16At(a, record);
    }
  }

  /** One iteration of the record loop. */
  method SwapRecordAt(a: array<u8>, h: Header, ghost raw: seq<u8>, k: nat)
    requires StepReads(raw, h, k, a[..])
    modifies a
    ensures a[..] == SwapRecord(raw, h, k, old(a[..]))
  {
    var record := RecordOffset(a[..], k);
    var kind := Kind(a[..]);
    if kind == KIND_INDEX || kind == KIND_LEAF {
      SwapKeyAt(a, h, raw, k, record);
    }
    if kind == KIND_HEADER {
      if k == 0 {
        SwapHeaderRecAt(a, record);
      }
    } else if kind == KIND_INDEX {
      var keyLen := KeyLength(a[..], h, record);
      Swap32At(a, record + keyLen);
    }
  }

  /** swap_BTreeNode: 1 when the node was swapped, 0 when it had been before, -1 when it is not a node. */
  method SwapNode(a: array<u8>, h: Header) returns (r: int)
    requires HasDescriptor(a[..])
    requires Recognised(a[..]) ==> WellFormed(a[..], h)
    modifies a
    ensures r == if AlreadySwapped(old(a[..])) then 0 else if Recognised(old(a[..])) then 1 else -1
    ensures r == 1 ==> a[..] == Swapped(old(a[..]), h) && HostImage(old(a[..]), h, a[..])
    ensures r == 0 ==> a[..] == old(a[..])
  {
    var size := a.Length;
    ghost var raw := a[..];
    if LE16(a[..], size - 2) == DESCRIPTOR_SIZE {
      return 0;
    }
    if BE16(a[..], size - 2) != DESCRIPTOR_SIZE {
      return -1;
    }
    Swap32At(a, 0);
    Swap32At(a, 4);
    Swap16At(a, 10);
    assert a[..] == SwapDescriptor(raw);
    if !KnownKind(a[8]) {
      return -1;
    }
    var numRecords: int := LE16(a[..], 10);
    SwapTableAt(a, numRecords);
    var recordNum := 0;
    while recordNum < numRecords
      invariant 0 <= recordNum <= numRecords
      invariant a[..] == Image(raw, h, recordNum)
    {
      RecordStep(raw, h, recordNum);
      SwapRecordAt(a, h, raw, recordNum);
      recordNum := recordNum + 1;
    }
    SwappedImage(raw, h);
    return 1;
  }
}
