/** What the program reads from nodes as they are written. */
module BuiltNodes {
  import opened MachineTypes
  import opened Checks
  import opened Sequences
  import opened DiskFormat
  import opened NodeFormat
  import opened TreeModel
  import opened BTree

  // ----- numbers -----

  lemma HalfReads(x: u16)
    ensures BE16(Half(x), 0) == x && LE16([x % 0x100, x / 0x100], 0) == x
  {}

  lemma TwoBytesOff(x: nat)
    ensures x / 0x100 / 0x100 == x / 0x1_0000
  {}

  lemma ThreeBytesOff(x: nat)
    ensures x / 0x1_0000 / 0x100 == x / 0x100_0000
  {}

  lemma BytesGive(x: nat, p: nat, q: nat, r: nat)
    requires p == x / 0x100 && q == p / 0x100 && r == q / 0x100
    ensures x == r * 0x100_0000 + q % 0x100 * 0x1_0000 + p % 0x100 * 0x100 + x % 0x100
  {}

  lemma WordReads(x: u32)
    ensures BE32(Word(x), 0) == x
    ensures LE32([x % 0x100, x / 0x100 % 0x100, x / 0x1_0000 % 0x100, x / 0x100_0000], 0) == x
  {
    TwoBytesOff(x);
    ThreeBytesOff(x);
    BytesGive(x, x / 0x100, x / 0x1_0000, x / 0x100_0000);
  }

  lemma HalfAt(s: seq<u8>, i: nat, x: u16)
    requires i + 2 <= |s| && s[i..i + 2] == Half(x)
    ensures BE16(s, i) == x
  {
    assert s[i] == s[i..i + 2][0] && s[i + 1] == s[i..i + 2][1];
  }

  lemma WordAt(s: seq<u8>, i: nat, x: u32)
    requires i + 4 <= |s| && s[i..i + 4] == Word(x)
    ensures BE32(s, i) == x
  {
    var w := s[i..i + 4];
    WordReads(x);
    assert s[i] == w[0] && s[i + 1] == w[1] && s[i + 2] == w[2] && s[i + 3] == w[3];
  }

  /** A part of a part. */
  lemma Inside(s: seq<u8>, i: nat, part: seq<u8>, j: nat, k: nat)
    requires i + |part| <= |s| && s[i..i + |part|] == part && j <= k <= |part|
    ensures s[i + j..i + k] == part[j..k]
  {
    SliceOfSlice(s, i, i + |part|, j, k);
  }

  // ----- the layout of a node -----

  lemma {:induction false} ConcatSlice(parts: seq<seq<u8>>, k: nat)
    requires k < |parts|
    ensures |Concat(parts[..k + 1])| == |Concat(parts[..k])| + |parts[k]| <= |Concat(parts)|
    ensures Concat(parts)[|Concat(parts[..k])|..|Concat(parts[..k + 1])|] == parts[k]
    decreases |parts|
  {
    var n := |parts| - 1;
    assert parts[..k + 1][..k] == parts[..k] && parts[..n + 1] == parts;
    if k < n {
      var t := parts[..n];
      assert t[..k] == parts[..k] && t[..k + 1] == parts[..k + 1];
      ConcatSlice(t, k);
    }
  }

  lemma {:induction false} TableEntry(records: seq<seq<u8>>, n: nat, k: nat)
    requires k <= n <= |records| && Offset(records, |records|) < 0x1_0000
    ensures Offset(records, k) < 0x1_0000
    ensures OffsetTable(records, n)[2 * (n - k)..2 * (n - k) + 2] == Half(Offset(records, k))
    decreases n
  {
    OffsetsFit(records, k, |records|);
    if k < n {
      var t := OffsetTable(records, n - 1);
      TableEntry(records, n - 1, k);
      assert OffsetTable(records, n)[2 * (n - k)..2 * (n - k) + 2] == t[2 * (n - 1 - k)..2 * (n - 1 - k) + 2];
    }
  }

  /** The fields of the descriptor, the table and the records are where the accessors look for them. */
  ghost predicate Laid(raw: seq<u8>, kind: u8, height: u8, fLink: u32, bLink: u32, records: seq<seq<u8>>) {
    && HasDescriptor(raw) && HasTable(raw, |records|)
    && Kind(raw) == kind && raw[9] == height && BE32(raw, 0) == fLink && BE32(raw, 4) == bLink
    && RawCount(raw) == |records| && RawOffset(raw, 0) == 14
    && RawOffset(raw, |records|) <= |raw| - 2 * (|records| + 1)
    && forall k :: 0 <= k < |records| ==> HoldsRecord(raw, k, records[k])
  }

  ghost predicate HoldsRecord(raw: seq<u8>, k: nat, record: seq<u8>) {
    && HasTable(raw, k + 1)
    && RawOffset(raw, k) + |record| == RawOffset(raw, k + 1) <= |raw|
    && raw[RawOffset(raw, k)..RawOffset(raw, k + 1)] == record
  }

  lemma DescriptorLaid(raw: seq<u8>, kind: u8, height: u8, fLink: u32, bLink: u32, count: u16)
    requires |raw| >= 16 && raw[..14] == DescriptorBytes(kind, height, fLink, bLink, count)
    ensures Kind(raw) == kind && raw[9] == height && BE32(raw, 0) == fLink && BE32(raw, 4) == bLink
    ensures RawCount(raw) == count
  {
    var d := DescriptorBytes(kind, height, fLink, bLink, count);
    assert d[0..4] == Word(fLink) && d[4..8] == Word(bLink) && d[10..12] == Half(count);
    assert raw[0..14] == d;
    Inside(raw, 0, d, 0, 4);
    Inside(raw, 0, d, 4, 8);
    Inside(raw, 0, d, 10, 12);
    WordAt(raw, 0, fLink);
    WordAt(raw, 4, bLink);
    HalfAt(raw, 10, count);
    assert raw[8] == raw[..14][8] == kind && raw[9] == raw[..14][9] == height;
  }

  lemma FourParts(a: seq<u8>, b: seq<u8>, c: seq<u8>, d: seq<u8>)
    ensures (a + b + c + d)[..|a|] == a && (a + b + c + d)[|a|..|a| + |b|] == b
    ensures (a + b + c + d)[|a| + |b| + |c|..] == d
  {}

  lemma NodeParts(kind: u8, height: u8, fLink: u32, bLink: u32, records: seq<seq<u8>>, size: nat)
    requires NodeFits(records, size)
    ensures var raw, n := NodeBytes(kind, height, fLink, bLink, records, size), |records|;
            && Offset(records, n) + 2 * (n + 1) <= |raw| == size && Offset(records, n) == 14 + |Concat(records)|
            && raw[..14] == DescriptorBytes(kind, height, fLink, bLink, n)
            && raw[14..Offset(records, n)] == Concat(records)
            && raw[size - 2 * (n + 1)..] == OffsetTable(records, n)
  {
    var n := |records|;
    assert records[..n] == records;
    FourParts(DescriptorBytes(kind, height, fLink, bLink, n), Concat(records),
              Zeroes(size - Offset(records, n) - 2 * (n + 1)), OffsetTable(records, n));
  }

  lemma OffsetLaid(kind: u8, height: u8, fLink: u32, bLink: u32, records: seq<seq<u8>>, size: nat, k: nat)
    requires NodeFits(records, size) && k <= |records|
    ensures var raw := NodeBytes(kind, height, fLink, bLink, records, size);
            HasTable(raw, k) && RawOffset(raw, k) == Offset(records, k)
  {
    var raw, n := NodeBytes(kind, height, fLink, bLink, records, size), |records|;
    var at, table := size - 2 * (n + 1), OffsetTable(records, n);
    NodeParts(kind, height, fLink, bLink, records, size);
    TableEntry(records, n, k);
    assert raw[at..at + |table|] == table;
    Inside(raw, at, table, 2 * (n - k), 2 * (n - k) + 2);
    HalfAt(raw, size - 2 - 2 * k, Offset(records, k));
  }

  lemma SliceIs(raw: seq<u8>, at: nat, part: seq<u8>, j: nat, k: nat, piece: seq<u8>)
    requires at + |part| <= |raw| && raw[at..at + |part|] == part && j <= k <= |part| && part[j..k] == piece
    ensures raw[at + j..at + k] == piece
  {
    Inside(raw, at, part, j, k);
  }

  lemma RecordLaid(kind: u8, height: u8, fLink: u32, bLink: u32, records: seq<seq<u8>>, size: nat, k: nat)
    requires NodeFits(records, size) && k < |records|
    ensures HoldsRecord(NodeBytes(kind, height, fLink, bLink, records, size), k, records[k])
  {
    var raw, all := NodeBytes(kind, height, fLink, bLink, records, size), Concat(records);
    NodeParts(kind, height, fLink, bLink, records, size);
    OffsetLaid(kind, height, fLink, bLink, records, size, k);
    OffsetLaid(kind, height, fLink, bLink, records, size, k + 1);
    ConcatSlice(records, k);
    SliceIs(raw, 14, all, |Concat(records[..k])|, |Concat(records[..k + 1])|, records[k]);
  }

  lemma NodeLaid(kind: u8, height: u8, fLink: u32, bLink: u32, records: seq<seq<u8>>, size: nat)
    requires NodeFits(records, size)
    ensures Laid(NodeBytes(kind, height, fLink, bLink, records, size), kind, height, fLink, bLink, records)
  {
    var raw := NodeBytes(kind, height, fLink, bLink, records, size);
    NodeParts(kind, height, fLink, bLink, records, size);
    DescriptorLaid(raw, kind, height, fLink, bLink, |records|);
    OffsetLaid(kind, height, fLink, bLink, records, size, 0);
    OffsetLaid(kind, height, fLink, bLink, records, size, |records|);
    assert records[..0] == [];
    forall k | 0 <= k < |records| ensures HoldsRecord(raw, k, records[k]) {
      RecordLaid(kind, height, fLink, bLink, records, size, k);
    }
  }

  // ----- keyed records -----

  /** The attributes of a tree, bit by bit: 2 says that key lengths take two bytes, 4 that keys in index nodes vary in
      length; the bit below and those above do not matter here. */
  ghost predicate HasAttributes(attributes: u32, big: bool, variable: bool) {
    exists high: nat, low: nat :: low < 2 && attributes == AttributeValue(high, variable, big, low)
  }

  function AttributeValue(high: nat, variable: bool, big: bool, low: nat): nat {
    8 * high + (if variable then 4 else 0) + (if big then 2 else 0) + low
  }

  lemma AttributeBits(high: nat, v: nat, b: nat, low: nat)
    requires v < 2 && b < 2 && low < 2
    ensures var a := 8 * high + 4 * v + 2 * b + low; a / 2 % 2 == b && a / 4 % 2 == v
  {
    assert (8 * high + 4 * v + 2 * b + low) / 2 == 4 * high + 2 * v + b;
    assert (8 * high + 4 * v + 2 * b + low) / 4 == 2 * high + v;
  }

  lemma AttributesRead(h: Header, big: bool, variable: bool)
    requires HasAttributes(h.attributes, big, variable)
    ensures h.BigKeys() == big && h.VariableIndexKeys() == variable
  {
    var high: nat, low: nat :| low < 2 && h.attributes == AttributeValue(high, variable, big, low);
    AttributeBits(high, if variable then 1 else 0, if big then 1 else 0, low);
  }

  /** The trees of HFS+: extents overflow files have attributes 2, catalogs 6. */
  lemma KnownAttributes()
    ensures HasAttributes(2, true, false) && HasAttributes(6, true, true)
    ensures HasAttributes(0, false, false) && HasAttributes(4, false, true)
  {
    assert AttributeValue(0, false, true, 0) == 2 && AttributeValue(0, true, true, 0) == 6;
    assert AttributeValue(0, false, false, 0) == 0 && AttributeValue(0, true, false, 0) == 4;
  }

  lemma LengthReads(raw: seq<u8>, at: nat, big: bool, field: u16)
    requires big || field < 0x100
    requires at + 2 <= |raw| && raw[at..at + |LengthBytes(big, field)|] == LengthBytes(big, field)
    ensures (if big then BE16(raw, at) else raw[at]) == field
  {
    if big {
      HalfAt(raw, at, field);
    } else {
      assert raw[at] == raw[at..at + 1][0];
    }
  }

  lemma ThreeParts(a: seq<u8>, b: seq<u8>, c: seq<u8>)
    ensures (a + b + c)[0..|a|] == a && (a + b + c)[|a|..|a| + |b|] == b
    ensures (a + b + c)[|a| + |b|..|a + b + c|] == c
  {}

  /** The key with its padding. */
  function Body(item: Item, big: bool): seq<u8> { item.key + Pad(big, item.key) }

  lemma ItemParts(raw: seq<u8>, at: nat, item: Item, big: bool)
    requires big || item.field < 0x100
    requires at + |ItemBytes(big, item)| <= |raw| && raw[at..at + |ItemBytes(big, item)|] == ItemBytes(big, item)
    ensures var l := |LengthBytes(big, item.field)|;
            && |ItemBytes(big, item)| == l + |Body(item, big)| + |item.data|
            && raw[at..at + l] == LengthBytes(big, item.field)
            && raw[at + l..at + (l + |Body(item, big)|)] == Body(item, big)
            && raw[at + (l + |Body(item, big)|)..at + |ItemBytes(big, item)|] == item.data
  {
    var record, length, body := ItemBytes(big, item), LengthBytes(big, item.field), Body(item, big);
    Associative(length, item.key, Pad(big, item.key));
    ThreeParts(length, body, item.data);
    assert record == length + body + item.data;
    SliceIs(raw, at, record, 0, |length|, length);
    SliceIs(raw, at, record, |length|, |length| + |body|, body);
    SliceIs(raw, at, record, |length| + |body|, |record|, item.data);
  }

  lemma LengthIs(raw: seq<u8>, h: Header, at: nat, item: Item, big: bool, sized: bool)
    requires HasDescriptor(raw) && Keyed(raw) && KeyFits(item, big, sized, h.maxKeyLength)
    requires at + 2 <= |raw| && (if big then BE16(raw, at) else raw[at]) == item.field
    requires h.BigKeys() == big && sized == (Kind(raw) == KIND_LEAF || h.VariableIndexKeys())
    ensures RawKeyLength(raw, h, at) == h.LengthField() + |Body(item, big)|
    ensures h.LengthField() == |LengthBytes(big, item.field)|
  {}

  /** Length, key and padding, and data are where the accessors look for them. */
  ghost predicate ReadsAs(raw: seq<u8>, h: Header, k: nat, body: seq<u8>, data: seq<u8>)
    requires HasDescriptor(raw)
  {
    && HasTable(raw, k + 1) && RecordFits(raw, h, k) && RawOffset(raw, k + 1) <= |raw|
    && var at, end := RawOffset(raw, k), RawOffset(raw, k) + RawKeyLength(raw, h, RawOffset(raw, k));
       && end == at + h.LengthField() + |body| <= RawOffset(raw, k + 1)
       && raw[at + h.LengthField()..end] == body && raw[end..RawOffset(raw, k + 1)] == data
  }

  lemma ItemReads(raw: seq<u8>, h: Header, k: nat, item: Item, big: bool, sized: bool)
    requires HasDescriptor(raw) && Keyed(raw) && KeyFits(item, big, sized, h.maxKeyLength)
    requires HoldsRecord(raw, k, ItemBytes(big, item))
    requires h.BigKeys() == big && sized == (Kind(raw) == KIND_LEAF || h.VariableIndexKeys())
    requires Kind(raw) == KIND_INDEX ==> |item.data| == 4
    ensures ReadsAs(raw, h, k, Body(item, big), item.data)
  {
    var at := RawOffset(raw, k);
    ItemParts(raw, at, item, big);
    LengthReads(raw, at, big, item.field);
    LengthIs(raw, h, at, item, big, sized);
  }

  // ----- nodes with keyed records -----

  /** What a leaf or an index node with these records says. */
  ghost function Described<K(!new)>(v: Volume<K>, leaf: bool, height: u8, fLink: u32, items: seq<Item>, big: bool,
                                    children: seq<u32>): Node<K>
    requires !leaf ==> |children| == |items|
  {
    Node(leaf, height, fLink,
         seq(|items|, i requires 0 <= i < |items| => v.keyOf(Body(items[i], big))),
         if leaf then [] else seq(|items|, i requires 0 <= i < |items| => children[i] as nat),
         if leaf then seq(|items|, i requires 0 <= i < |items| => items[i].data) else [])
  }

  /** Leaves have kind 0xFF, index nodes kind 0, and the data of an index record is the number of the child. */
  ghost predicate Describable(h: Header, leaf: bool, items: seq<Item>, big: bool, variable: bool, children: seq<u32>) {
    && HasAttributes(h.attributes, big, variable) && AllFit(items, big, leaf || variable, h.maxKeyLength)
    && NodeFits(Written(items, big), h.nodeSize)
    && (!leaf ==> |children| == |items| && forall i :: 0 <= i < |items| ==> items[i].data == Word(children[i]))
  }

  function KindByte(leaf: bool): u8 { if leaf then 0xFF else 0 }

  /** Record k reads as written. */
  ghost function ItemCheck(raw: seq<u8>, h: Header, leaf: bool, items: seq<Item>, big: bool, children: seq<u32>,
                           k: nat): Check
    requires HasDescriptor(raw) && k < |items| && (!leaf ==> |children| == |items|)
  {
    if
      && ReadsAs(raw, h, k, Body(items[k], big), items[k].data)
      && (!leaf ==> RawOffset(raw, k) + RawKeyLength(raw, h, RawOffset(raw, k)) + 4 <= |raw|
                    && BE32(raw, RawOffset(raw, k) + RawKeyLength(raw, h, RawOffset(raw, k))) == children[k])
    then Holds else Fails
  }

  lemma ChildReads(raw: seq<u8>, h: Header, k: nat, body: seq<u8>, child: u32)
    requires HasDescriptor(raw) && ReadsAs(raw, h, k, body, Word(child))
    ensures var end := RawOffset(raw, k) + RawKeyLength(raw, h, RawOffset(raw, k));
            end + 4 <= |raw| && BE32(raw, end) == child
  {
    WordAt(raw, RawOffset(raw, k) + RawKeyLength(raw, h, RawOffset(raw, k)), child);
  }

  lemma WrittenReads(raw: seq<u8>, h: Header, leaf: bool, items: seq<Item>, big: bool, variable: bool,
                     children: seq<u32>, k: nat)
    requires Describable(h, leaf, items, big, variable, children) && k < |items|
    requires HasDescriptor(raw) && Kind(raw) == KindByte(leaf) && HoldsRecord(raw, k, ItemBytes(big, items[k]))
    ensures ItemCheck(raw, h, leaf, items, big, children, k) == Holds
  {
    AttributesRead(h, big, variable);
    assert KeyFits(items[k], big, leaf || variable, h.maxKeyLength);
    ItemReads(raw, h, k, items[k], big, leaf || variable);
    if !leaf {
      ChildReads(raw, h, k, Body(items[k], big), children[k]);
    }
  }

  /** A node as it is written. */
  function Built(h: Header, leaf: bool, height: u8, fLink: u32, bLink: u32, items: seq<Item>, big: bool): (raw: seq<u8>)
    requires forall i :: 0 <= i < |items| ==> big || items[i].field < 0x100
    requires NodeFits(Written(items, big), h.nodeSize)
    ensures |raw| == h.nodeSize
  {
    NodeBytes(KindByte(leaf), height, fLink, bLink, Written(items, big), h.nodeSize)
  }

  /** The node reads as written. */
  ghost predicate ReadsNode(raw: seq<u8>, h: Header, leaf: bool, height: u8, fLink: u32, items: seq<Item>, big: bool,
                            children: seq<u32>)
    requires !leaf ==> |children| == |items|
  {
    && HasDescriptor(raw) && HasTable(raw, |items|)
    && Kind(raw) == KindByte(leaf) && raw[9] == height && BE32(raw, 0) == fLink
    && RawCount(raw) == |items| && RawOffset(raw, 0) == 14
    && RawOffset(raw, |items|) <= |raw| - 2 * (|items| + 1)
    && forall k :: 0 <= k < |items| ==> ItemCheck(raw, h, leaf, items, big, children, k) == Holds
  }

  lemma BuiltReads(h: Header, leaf: bool, height: u8, fLink: u32, bLink: u32, items: seq<Item>, big: bool,
                   variable: bool, children: seq<u32>)
    requires Describable(h, leaf, items, big, variable, children)
    ensures ReadsNode(Built(h, leaf, height, fLink, bLink, items, big), h, leaf, height, fLink, items, big, children)
  {
    var raw, records := Built(h, leaf, height, fLink, bLink, items, big), Written(items, big);
    NodeLaid(KindByte(leaf), height, fLink, bLink, records, h.nodeSize);
    forall k | 0 <= k < |items| ensures ItemCheck(raw, h, leaf, items, big, children, k) == Holds {
      assert HoldsRecord(raw, k, records[k]);
      WrittenReads(raw, h, leaf, items, big, variable, children, k);
    }
  }

  lemma ReadsWellFormed(raw: seq<u8>, h: Header, leaf: bool, height: u8, fLink: u32, items: seq<Item>, big: bool,
                        children: seq<u32>)
    requires !leaf ==> |children| == |items|
    requires ReadsNode(raw, h, leaf, height, fLink, items, big, children)
    ensures WellFormed(raw, h)
  {
    forall k | 0 <= k < RawCount(raw) ensures RecordFits(raw, h, k) {
      assert ItemCheck(raw, h, leaf, items, big, children, k) == Holds;
    }
  }

  lemma RecordDecoded<K(!new)>(v: Volume<K>, raw: seq<u8>, k: nat, body: seq<u8>, data: seq<u8>)
    requires WellFormed(raw, v.header) && k < RawCount(raw) && Keyed(raw) && ReadsAs(raw, v.header, k, body, data)
    ensures v.RawKey(raw, k) == v.keyOf(body)
    ensures Kind(raw) == KIND_LEAF ==> v.RawValue(raw, k) == data
  {}

  lemma DescribedAt<K(!new)>(v: Volume<K>, leaf: bool, height: u8, fLink: u32, raw: seq<u8>, items: seq<Item>,
                             big: bool, children: seq<u32>, k: nat)
    requires (!leaf ==> |children| == |items|) && k < |items|
    requires WellFormed(raw, v.header) && ReadsNode(raw, v.header, leaf, height, fLink, items, big, children)
    ensures v.RawKey(raw, k) == v.keyOf(Body(items[k], big))
    ensures leaf ==> v.RawValue(raw, k) == items[k].data
    ensures !leaf ==> v.RawChild(raw, k) == children[k]
  {
    assert ItemCheck(raw, v.header, leaf, items, big, children, k) == Holds;
    RecordDecoded(v, raw, k, Body(items[k], big), items[k].data);
  }

  lemma ReadsDescribed<K(!new)>(v: Volume<K>, leaf: bool, height: u8, fLink: u32, raw: seq<u8>, items: seq<Item>,
                                big: bool, children: seq<u32>)
    requires !leaf ==> |children| == |items|
    requires WellFormed(raw, v.header) && ReadsNode(raw, v.header, leaf, height, fLink, items, big, children)
    ensures v.Decode(raw) == Described(v, leaf, height, fLink, items, big, children)
  {
    var a, b := v.Decode(raw), Described(v, leaf, height, fLink, items, big, children);
    forall k | 0 <= k < |items|
      ensures a.keys[k] == b.keys[k]
      ensures leaf ==> a.values[k] == b.values[k]
      ensures !leaf ==> a.children[k] == b.children[k]
    {
      DescribedAt(v, leaf, height, fLink, raw, items, big, children, k);
    }
    assert a.keys == b.keys && a.values == b.values && a.children == b.children;
  }

  /** The keys, children and data read from a node are those written to it. */
  lemma DecodeBuilt<K(!new)>(v: Volume<K>, leaf: bool, height: u8, fLink: u32, bLink: u32, items: seq<Item>, big: bool,
                             variable: bool, children: seq<u32>)
    requires Describable(v.header, leaf, items, big, variable, children)
    ensures WellFormed(Built(v.header, leaf, height, fLink, bLink, items, big), v.header)
    ensures v.Decode(Built(v.header, leaf, height, fLink, bLink, items, big))
         == Described(v, leaf, height, fLink, items, big, children)
  {
    var raw := Built(v.header, leaf, height, fLink, bLink, items, big);
    BuiltReads(v.header, leaf, height, fLink, bLink, items, big, variable, children);
    ReadsWellFormed(raw, v.header, leaf, height, fLink, items, big, children);
    ReadsDescribed(v, leaf, height, fLink, raw, items, big, children);
  }

  // ----- the bitmap -----

  lemma FourBitsRead(a: bool, b: bool, c: bool, d: bool)
    ensures var x := FourBits(a, b, c, d);
            (x / 8 % 2 == 1) == a && (x / 4 % 2 == 1) == b && (x / 2 % 2 == 1) == c && (x % 2 == 1) == d
  {}

  lemma HighBits(x: nat, y: nat)
    requires x < 16 && y < 16
    ensures (16 * x + y) / 128 == x / 8 && (16 * x + y) / 64 == x / 4 && (16 * x + y) / 32 == x / 2
    ensures (16 * x + y) / 16 == x
  {}

  lemma LowBits(x: nat, y: nat)
    requires x < 16 && y < 16
    ensures (16 * x + y) / 8 % 2 == y / 8 % 2 && (16 * x + y) / 4 % 2 == y / 4 % 2
    ensures (16 * x + y) / 2 % 2 == y / 2 % 2 && (16 * x + y) % 2 == y % 2
  {
    assert (16 * x + y) / 8 == 2 * x + y / 8;
    assert (16 * x + y) / 4 == 4 * x + y / 4;
    assert (16 * x + y) / 2 == 8 * x + y / 2;
  }

  lemma HighBitsSet(a: bool, b: bool, c: bool, d: bool, y: nat)
    requires y < 16
    ensures var x := 16 * FourBits(a, b, c, d) + y;
            BitSet(x, 7) == a && BitSet(x, 6) == b && BitSet(x, 5) == c && BitSet(x, 4) == d
  {
    assert Power(7) == 128 && Power(6) == 64 && Power(5) == 32 && Power(4) == 16;
    FourBitsRead(a, b, c, d);
    HighBits(FourBits(a, b, c, d), y);
  }

  lemma LowBitsSet(x: nat, a: bool, b: bool, c: bool, d: bool)
    requires x < 16
    ensures var y := 16 * x + FourBits(a, b, c, d);
            BitSet(y, 3) == a && BitSet(y, 2) == b && BitSet(y, 1) == c && BitSet(y, 0) == d
  {
    assert Power(3) == 8 && Power(2) == 4 && Power(1) == 2 && Power(0) == 1;
    FourBitsRead(a, b, c, d);
    LowBits(x, FourBits(a, b, c, d));
  }

  lemma ByteBits(b: seq<bool>, i: nat)
    requires |b| == 8 && i < 8
    ensures BitSet(ByteValue(b), 7 - i) == b[i]
  {
    HighBitsSet(b[0], b[1], b[2], b[3], FourBits(b[4], b[5], b[6], b[7]));
    LowBitsSet(FourBits(b[0], b[1], b[2], b[3]), b[4], b[5], b[6], b[7]);
  }

  /** Bit n of a bitmap. */
  predicate BitOf(bitmap: seq<u8>, n: nat) { n / 8 < |bitmap| && BitSet(bitmap[n / 8], 7 - n % 8) }

  lemma BitInFront(b: u8, bitmap: seq<u8>, n: nat)
    requires n < 8
    ensures BitOf([b] + bitmap, n) == BitSet(b, 7 - n)
  {
    assert n / 8 == 0 && n % 8 == n;
  }

  lemma BitBehind(b: u8, bitmap: seq<u8>, n: nat)
    requires n >= 8
    ensures BitOf([b] + bitmap, n) == BitOf(bitmap, n - 8)
  {
    assert (n - 8) / 8 == n / 8 - 1 && (n - 8) % 8 == n % 8;
  }

  /** The bitmap read says which nodes are in use as the one written. */
  lemma {:induction false} BitmapReads(used: seq<bool>, n: nat)
    requires |used| % 8 == 0
    ensures BitOf(BitmapBytes(used), n) <==> n < |used| && used[n]
    decreases |used|
  {
    if used != [] {
      var b, rest := ByteValue(used[..8]), BitmapBytes(used[8..]);
      if n < 8 {
        ByteBits(used[..8], n);
        BitInFront(b, rest, n);
      } else {
        BitmapReads(used[8..], n - 8);
        BitBehind(b, rest, n);
      }
    }
  }

  // ----- nodes in a file -----

  /** Node n is the part of the file at n times the size of a node, filled up with zeros if the file ends there. */
  lemma NodeInFile<K(!new)>(v: Volume<K>, n: nat, before: seq<u8>, node: seq<u8>, after: seq<u8>)
    requires |before| == n * v.header.nodeSize && v.file == before + node + after
    requires |node| == v.header.nodeSize || (|node| < v.header.nodeSize && after == [])
    ensures v.RawNode(n) == node + Zeroes(v.header.nodeSize as nat - |node|)
  {
    assert v.NodeStart(n) == |before|;
    forall i | 0 <= i < v.header.nodeSize
      ensures v.RawNode(n)[i] == (node + Zeroes(v.header.nodeSize as nat - |node|))[i]
    {
      assert i < |node| ==> v.file[|before| + i] == node[i];
    }
  }

  /** A node as it is written is on disk order, and of a known kind. */
  lemma BuiltRecognised(h: Header, leaf: bool, height: u8, fLink: u32, bLink: u32, items: seq<Item>, big: bool,
                        variable: bool, children: seq<u32>)
    requires Describable(h, leaf, items, big, variable, children)
    ensures var raw := Built(h, leaf, height, fLink, bLink, items, big);
            WellFormed(raw, h) && Recognised(raw) && RawCount(raw) == |items|
  {
    var raw := Built(h, leaf, height, fLink, bLink, items, big);
    BuiltReads(h, leaf, height, fLink, bLink, items, big, variable, children);
    ReadsWellFormed(raw, h, leaf, height, fLink, items, big, children);
    assert BE16(raw, |raw| - 2) == 14;
  }

  /** A node that is recognised and laid out is fetched if it is in use and has records, and then says what it does on
      disk. */
  lemma NodeFetched<K(!new)>(v: Volume<K>, n: nat, raw: seq<u8>)
    requires v.Roomy() && v.RawNode(n) == raw && WellFormed(raw, v.header) && Recognised(raw)
    ensures v.SaneAt(n)
    ensures var inUse := n < v.header.totalNodes && (n == 0 || v.IsNodeUsed(n));
            && (v.Fetch(n).Fetched? <==> inUse && RawCount(raw) > 0)
            && (v.Fetch(n).Aborted? <==> inUse && RawCount(raw) == 0)
    ensures v.Fetch(n).Fetched? ==>
              v.Readable(n) && v.NodeAt(n) == v.Decode(raw) && HostFormed(v.Fetch(n).bytes, v.header)
              && v.NodeOf(v.Fetch(n).bytes) == v.Decode(raw)
  {
    if v.Fetch(n).Fetched? {
      v.FetchedFacts(n);
    }
  }

  /** A node written to a file is fetched exactly if its number is below the total and the bitmap has it in use (node 0
      is not looked up) and it has records; what is fetched says what was written. */
  lemma FetchBuilt<K(!new)>(v: Volume<K>, n: nat, before: seq<u8>, after: seq<u8>, used: seq<bool>, leaf: bool,
                            height: u8, fLink: u32, bLink: u32, items: seq<Item>, big: bool, variable: bool,
                            children: seq<u32>)
    requires Describable(v.header, leaf, items, big, variable, children)
    requires |used| % 8 == 0 && v.bitmap == BitmapBytes(used) && |before| == n * v.header.nodeSize
    requires v.file == before + Built(v.header, leaf, height, fLink, bLink, items, big) + after
    ensures v.SaneAt(n)
    ensures var inUse := n < v.header.totalNodes && (n == 0 || (n < |used| && used[n]));
            && (v.Fetch(n).Fetched? <==> inUse && items != [])
            && (v.Fetch(n).Aborted? <==> inUse && items == [])
    ensures v.Fetch(n).Fetched? ==>
              && v.Readable(n) && v.NodeAt(n) == Described(v, leaf, height, fLink, items, big, children)
              && HostFormed(v.Fetch(n).bytes, v.header)
              && v.NodeOf(v.Fetch(n).bytes) == Described(v, leaf, height, fLink, items, big, children)
  {
    var raw := Built(v.header, leaf, height, fLink, bLink, items, big);
    NodeInFile(v, n, before, raw, after);
    assert raw + Zeroes(0) == raw;
    BitmapReads(used, n);
    BuiltRecognised(v.header, leaf, height, fLink, bLink, items, big, variable, children);
    DecodeBuilt(v, leaf, height, fLink, bLink, items, big, variable, children);
    NodeFetched(v, n, raw);
  }

  // ----- header and map nodes -----

  /** Header nodes have kind 1, and a first record of at least 106 bytes; map nodes have kind 2. */
  ghost predicate Plain(kind: u8, records: seq<seq<u8>>, size: nat) {
    NodeFits(records, size) && ((kind == 1 && (records != [] ==> |records[0]| >= 106)) || kind == 2)
  }

  lemma PlainWellFormed(h: Header, kind: u8, height: u8, fLink: u32, bLink: u32, records: seq<seq<u8>>)
    requires Plain(kind, records, h.nodeSize)
    ensures WellFormed(NodeBytes(kind, height, fLink, bLink, records, h.nodeSize), h)
  {
    var raw := NodeBytes(kind, height, fLink, bLink, records, h.nodeSize);
    NodeLaid(kind, height, fLink, bLink, records, h.nodeSize);
    assert BE16(raw, |raw| - 2) == 14;
    forall k | 0 <= k < |records| ensures RecordFits(raw, h, k) {
      assert HoldsRecord(raw, k, records[k]);
      OffsetsFit(records, k, |records|);
      OffsetLaid(kind, height, fLink, bLink, records, h.nodeSize, k);
      OffsetLaid(kind, height, fLink, bLink, records, h.nodeSize, |records|);
    }
  }

  /** Exactly four kinds of node are recognised. */
  lemma KindsRecognised(kind: u8, height: u8, fLink: u32, bLink: u32, records: seq<seq<u8>>, size: nat)
    requires NodeFits(records, size)
    ensures |NodeBytes(kind, height, fLink, bLink, records, size)| >= 16
    ensures Recognised(NodeBytes(kind, height, fLink, bLink, records, size))
       <==> kind == 0xFF || kind == 0 || kind == 1 || kind == 2
  {
    NodeLaid(kind, height, fLink, bLink, records, size);
    assert BE16(NodeBytes(kind, height, fLink, bLink, records, size), size - 2) == 14;
  }

  /** In a swapped map node every record is as it was written, and in a swapped header node every one but the first. */
  lemma PlainRecords(h: Header, kind: u8, height: u8, fLink: u32, bLink: u32, records: seq<seq<u8>>, k: nat)
    requires Plain(kind, records, h.nodeSize) && k < |records| && (kind == 1 ==> k > 0)
    ensures var raw := NodeBytes(kind, height, fLink, bLink, records, h.nodeSize);
            && WellFormed(raw, h) && |Swapped(raw, h)| == |raw| && HasTable(Swapped(raw, h), k + 1)
            && RecordOffset(Swapped(raw, h), k) <= RecordOffset(Swapped(raw, h), k + 1) <= |raw|
            && Swapped(raw, h)[RecordOffset(Swapped(raw, h), k)..RecordOffset(Swapped(raw, h), k + 1)] == records[k]
  {
    var raw := NodeBytes(kind, height, fLink, bLink, records, h.nodeSize);
    PlainWellFormed(h, kind, height, fLink, bLink, records);
    NodeLaid(kind, height, fLink, bLink, records, h.nodeSize);
    SwappedTable(raw, h);
    SwappedPlain(raw, h);
    assert HoldsRecord(raw, k, records[k]);
    RecordBounds(raw, h, k);
    if kind == 1 {
      HeaderRoom(raw, h);
      OffsetsRise(raw, h, 1, k);
    }
    SameBytes(Swapped(raw, h), raw, RawOffset(raw, k), RawOffset(raw, k + 1));
  }

  // ----- the header -----

  lemma StartWritten(r: seq<u8>, treeDepth: u16, rootNode: u32, leafRecords: u32, firstLeafNode: u32,
                     lastLeafNode: u32)
    requires |r| == 106 && r[0..18] == HeaderStart(treeDepth, rootNode, leafRecords, firstLeafNode, lastLeafNode)
    ensures BE16(r, 0) == treeDepth && BE32(r, 2) == rootNode && BE32(r, 10) == firstLeafNode
  {
    var s := HeaderStart(treeDepth, rootNode, leafRecords, firstLeafNode, lastLeafNode);
    assert s[0..2] == Half(treeDepth) && s[2..6] == Word(rootNode) && s[10..14] == Word(firstLeafNode);
    SliceIs(r, 0, s, 0, 2, Half(treeDepth));
    SliceIs(r, 0, s, 2, 6, Word(rootNode));
    SliceIs(r, 0, s, 10, 14, Word(firstLeafNode));
    HalfAt(r, 0, treeDepth);
    WordAt(r, 2, rootNode);
    WordAt(r, 10, firstLeafNode);
  }

  lemma EndWritten(r: seq<u8>, nodeSize: u16, maxKeyLength: u16, totalNodes: u32, freeNodes: u32, clumpSize: u32,
                   btreeType: u8, keyCompareType: u8, attributes: u32)
    requires |r| == 106
    requires r[18..106] == HeaderEnd(nodeSize, maxKeyLength, totalNodes, freeNodes, clumpSize, btreeType,
                                     keyCompareType, attributes)
    ensures BE16(r, 18) == nodeSize && BE16(r, 20) == maxKeyLength && BE32(r, 22) == totalNodes
    ensures BE32(r, 38) == attributes
  {
    var e := HeaderEnd(nodeSize, maxKeyLength, totalNodes, freeNodes, clumpSize, btreeType, keyCompareType, attributes);
    assert e[0..2] == Half(nodeSize) && e[2..4] == Half(maxKeyLength) && e[4..8] == Word(totalNodes);
    assert e[20..24] == Word(attributes);
    SliceIs(r, 18, e, 0, 2, Half(nodeSize));
    SliceIs(r, 18, e, 2, 4, Half(maxKeyLength));
    SliceIs(r, 18, e, 4, 8, Word(totalNodes));
    SliceIs(r, 18, e, 20, 24, Word(attributes));
    HalfAt(r, 18, nodeSize);
    HalfAt(r, 20, maxKeyLength);
    WordAt(r, 22, totalNodes);
    WordAt(r, 38, attributes);
  }

  /** The header read from a file is the one written behind the descriptor of its first node. */
  lemma HeaderWritten(file: seq<u8>, kind: u8, height: u8, fLink: u32, bLink: u32, count: u16, rest: seq<u8>,
                      treeDepth: u16, rootNode: u32, leafRecords: u32, firstLeafNode: u32, lastLeafNode: u32,
                      nodeSize: u16, maxKeyLength: u16, totalNodes: u32, freeNodes: u32, clumpSize: u32,
                      btreeType: u8, keyCompareType: u8, attributes: u32)
    requires count > 0
    requires file == DescriptorBytes(kind, height, fLink, bLink, count)
                     + HeaderBytes(treeDepth, rootNode, leafRecords, firstLeafNode, lastLeafNode, nodeSize,
                                   maxKeyLength, totalNodes, freeNodes, clumpSize, btreeType, keyCompareType,
                                   attributes)
                     + rest
    ensures HeaderOf(file)
         == Header(treeDepth, rootNode, firstLeafNode, nodeSize, maxKeyLength, totalNodes, attributes)
  {
    var d := DescriptorBytes(kind, height, fLink, bLink, count);
    var s := HeaderStart(treeDepth, rootNode, leafRecords, firstLeafNode, lastLeafNode);
    var e := HeaderEnd(nodeSize, maxKeyLength, totalNodes, freeNodes, clumpSize, btreeType, keyCompareType, attributes);
    assert file == d + (s + e) + rest;
    assert ReadAt(file, 0, 14) == d && ReadAt(file, 14, 106) == s + e;
    assert d[10..12] == Half(count);
    HalfAt(d, 10, count);
    StartWritten(s + e, treeDepth, rootNode, leafRecords, firstLeafNode, lastLeafNode);
    EndWritten(s + e, nodeSize, maxKeyLength, totalNodes, freeNodes, clumpSize, btreeType, keyCompareType, attributes);
  }
}
