/** How a volume is written: numbers, keyed records, nodes, keys and bitmaps, after sections "B-Trees", "Keyed Records",
    "Catalog File" and "Extents Overflow File" of Apple Technote 1150. Nothing here reads; what the program reads is
    proved to be what is written here. */
module DiskFormat {
  import opened MachineTypes

  /** Big-endian numbers. */
  function Half(x: u16): (r: seq<u8>)
    ensures |r| == 2
  {
    [x / 0x100, x % 0x100]
  }

  function Word(x: u32): (r: seq<u8>)
    ensures |r| == 4
  {
    [x / 0x100_0000, x / 0x1_0000 % 0x100, x / 0x100 % 0x100, x % 0x100]
  }

  function Zeroes(n: nat): (r: seq<u8>)
    ensures |r| == n
  {
    seq(n, _ => 0)
  }

  function Concat(parts: seq<seq<u8>>): seq<u8> {
    if parts == [] then [] else Concat(parts[..|parts| - 1]) + parts[|parts| - 1]
  }

  // ----- keyed records -----

  /** A record with a key: the length field says `field`, and the key and the data take these bytes. */
  datatype Item = Item(field: u16, key: seq<u8>, data: seq<u8>)

  /** The length of a key takes one byte or two. */
  function LengthBytes(big: bool, field: u16): (r: seq<u8>)
    requires big || field < 0x100
    ensures |r| == if big then 2 else 1
  {
    if big then Half(field) else [field]
  }

  /** A byte that makes length and key an even number of bytes. */
  function Pad(big: bool, key: seq<u8>): (r: seq<u8>)
    ensures |r| <= 1 && ((if big then 2 else 1) + |key| + |r|) % 2 == 0
  {
    if ((if big then 2 else 1) + |key|) % 2 == 1 then [0] else []
  }

  function ItemBytes(big: bool, item: Item): seq<u8>
    requires big || item.field < 0x100
  {
    LengthBytes(big, item.field) + item.key + Pad(big, item.key) + item.data
  }

  /** The key takes as many bytes as its length says, up to the maximum; in an index node without keys of variable
      length it always takes the maximum. */
  predicate KeyFits(item: Item, big: bool, sized: bool, max: u16) {
    && (big || item.field < 0x100)
    && |item.key| == if !sized || item.field > max then max as int else item.field as int
  }

  ghost predicate AllFit(items: seq<Item>, big: bool, sized: bool, max: u16) {
    forall i :: 0 <= i < |items| ==> KeyFits(items[i], big, sized, max)
  }

  function Written(items: seq<Item>, big: bool): (records: seq<seq<u8>>)
    requires forall i :: 0 <= i < |items| ==> big || items[i].field < 0x100
    ensures |records| == |items|
  {
    seq(|items|, i requires 0 <= i < |items| => ItemBytes(big, items[i]))
  }

  // ----- nodes -----

  /** Where record k begins, the records being one after the other behind the 14 bytes of the descriptor; for k the
      number of records, where the free space begins. */
  function Offset(records: seq<seq<u8>>, k: nat): (at: nat)
    requires k <= |records|
    ensures at >= 14
  {
    14 + |Concat(records[..k])|
  }

  /** The offsets of the free space and of the records down to the first, as they stand at the end of a node. */
  function OffsetTable(records: seq<seq<u8>>, n: nat): (r: seq<u8>)
    requires n <= |records| && Offset(records, |records|) < 0x1_0000
    ensures |r| == 2 * (n + 1)
  {
    OffsetsFit(records, n, |records|);
    Half(Offset(records, n)) + if n == 0 then [] else OffsetTable(records, n - 1)
  }

  /** There is room for the descriptor, the records and the table. */
  predicate NodeFits(records: seq<seq<u8>>, size: nat) {
    |records| < 0x1_0000 && size < 0x1_0000 && Offset(records, |records|) + 2 * (|records| + 1) <= size
  }

  function NodeBytes(kind: u8, height: u8, fLink: u32, bLink: u32, records: seq<seq<u8>>, size: nat): (r: seq<u8>)
    requires NodeFits(records, size)
    ensures |r| == size
  {
    assert records[..|records|] == records;
    DescriptorBytes(kind, height, fLink, bLink, |records|) + Concat(records)
    + Zeroes(size - Offset(records, |records|) - 2 * (|records| + 1)) + OffsetTable(records, |records|)
  }

  function DescriptorBytes(kind: u8, height: u8, fLink: u32, bLink: u32, count: u16): (r: seq<u8>)
    ensures |r| == 14
  {
    Word(fLink) + Word(bLink) + [kind, height] + Half(count) + [0, 0]
  }

  lemma {:induction false} OffsetsFit(records: seq<seq<u8>>, j: nat, k: nat)
    requires j <= k <= |records|
    ensures Offset(records, j) <= Offset(records, k)
    decreases k
  {
    if j < k {
      assert records[..k][..k - 1] == records[..k - 1];
      OffsetsFit(records, j, k - 1);
    }
  }

  // ----- catalog keys, extent keys and extent records -----

  function NameBytes(name: seq<u16>): (r: seq<u8>)
    ensures |r| == 2 * |name|
  {
    if name == [] then [] else NameBytes(name[..|name| - 1]) + Half(name[|name| - 1])
  }

  /** A catalog key behind its length field: parent, length of the name, name. */
  function CatalogKeyBytes(parentID: u32, name: seq<u16>): (r: seq<u8>)
    requires |name| < 0x1_0000
    ensures |r| == 6 + 2 * |name|
  {
    Word(parentID) + Half(|name|) + NameBytes(name)
  }

  /** An extent key behind its length field: fork type, padding, file id, start block. */
  function ExtentKeyBytes(forkType: u8, fileID: u32, startBlock: u32): (r: seq<u8>)
    ensures |r| == 10
  {
    [forkType, 0] + Word(fileID) + Word(startBlock)
  }

  /** An extent descriptor. */
  datatype Descriptor = Descriptor(startBlock: u32, blockCount: u32)

  /** The descriptors of an extent record, start before count. */
  function DescriptorsBytes(ds: seq<Descriptor>): (r: seq<u8>)
    ensures |r| == 8 * |ds|
  {
    if ds == [] then []
    else DescriptorsBytes(ds[..|ds| - 1]) + Word(ds[|ds| - 1].startBlock) + Word(ds[|ds| - 1].blockCount)
  }

  // ----- bitmaps -----

  function BitValue(used: bool): nat { if used then 1 else 0 }

  function FourBits(a: bool, b: bool, c: bool, d: bool): (n: nat)
    ensures n < 16
  {
    8 * BitValue(a) + 4 * BitValue(b) + 2 * BitValue(c) + BitValue(d)
  }

  function ByteValue(b: seq<bool>): u8
    requires |b| == 8
  {
    16 * FourBits(b[0], b[1], b[2], b[3]) + FourBits(b[4], b[5], b[6], b[7])
  }

  /** Eight to a byte, the first in the most significant bit. */
  function BitmapBytes(used: seq<bool>): (r: seq<u8>)
    requires |used| % 8 == 0
    ensures |r| == |used| / 8
  {
    if used == [] then [] else
      [ByteValue(used[..8])] + BitmapBytes(used[8..])
  }

  // ----- the header record -----

  /** All fields of a header record, in their order. */
  function HeaderBytes(treeDepth: u16, rootNode: u32, leafRecords: u32, firstLeafNode: u32, lastLeafNode: u32,
                       nodeSize: u16, maxKeyLength: u16, totalNodes: u32, freeNodes: u32, clumpSize: u32,
                       btreeType: u8, keyCompareType: u8, attributes: u32): (r: seq<u8>)
    ensures |r| == 106
  {
    HeaderStart(treeDepth, rootNode, leafRecords, firstLeafNode, lastLeafNode)
    + HeaderEnd(nodeSize, maxKeyLength, totalNodes, freeNodes, clumpSize, btreeType, keyCompareType, attributes)
  }

  function HeaderStart(treeDepth: u16, rootNode: u32, leafRecords: u32, firstLeafNode: u32, lastLeafNode: u32):
    (r: seq<u8>)
    ensures |r| == 18
  {
    Half(treeDepth) + Word(rootNode) + Word(leafRecords) + Word(firstLeafNode) + Word(lastLeafNode)
  }

  function HeaderEnd(nodeSize: u16, maxKeyLength: u16, totalNodes: u32, freeNodes: u32, clumpSize: u32,
                     btreeType: u8, keyCompareType: u8, attributes: u32): (r: seq<u8>)
    ensures |r| == 88
  {
    Half(nodeSize) + Half(maxKeyLength) + Word(totalNodes) + Word(freeNodes) + [0, 0] + Word(clumpSize)
    + [btreeType, keyCompareType] + Word(attributes) + Zeroes(64)
  }
}
