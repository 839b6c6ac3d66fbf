/** The key comparators: `FastUnicodeCompare` (`src/hfs/Apple/hfs_unicode.c`), the two catalog orders
    (`src/hfs/catalog.c`) and the extent order (`src/hfs/extents.c`). */
module KeyOrders {
  import opened MachineTypes
  import opened Orders
  import opened Sequences
  import opened DiskFormat

  /** The two case-folding tables. `lower` starts with a 256-entry index by high byte: 0, or the offset of the
      256-entry subtable for that byte. The Latin table has no 0: it maps U+0000 to 0xFFFF. */
  datatype RawTables = FoldTables(latin: seq<u16>, lower: seq<u16>) {
    ghost predicate Valid() {
      && |latin| == 256 && (forall c :: 0 <= c < 256 ==> latin[c] != 0)
      && |lower| >= 256 && (forall h :: 0 <= h < 256 && lower[h] != 0 ==> lower[h] + 255 < |lower|)
    }
  }

  type FoldTables = t: RawTables | t.Valid() ghost witness FoldTables(seq(256, _ => 1), seq(256, _ => 0))

  // ----- the reference: fold, drop what folds to 0, compare lexicographically -----

  function Fold(t: FoldTables, c: u16): u16
  {
    if c < 0x100 then t.latin[c]
    else if t.lower[c / 256] != 0 then t.lower[t.lower[c / 256] + c % 256]
    else c
  }

  /** A character by its two bytes: the first 256 characters have a table of their own; for the others the index has,
      for the high byte, the offset of a table by low byte, or 0 where characters fold to themselves. */
  lemma FoldByBytes(t: FoldTables, high: u8, low: u8)
    ensures Fold(t, (high as int) * 0x100 + low)
         == if high == 0 then t.latin[low]
            else if t.lower[high] == 0 then (high as int) * 0x100 + low
            else t.lower[t.lower[high] + low]
  {
    assert ((high as int) * 0x100 + low) / 256 == high && ((high as int) * 0x100 + low) % 256 == low;
  }

  function Folded(t: FoldTables, s: seq<u16>): (r: seq<u16>)
  {
    if s == [] then []
    else (if Fold(t, s[0]) == 0 then [] else [Fold(t, s[0])]) + Folded(t, s[1..])
  }

  function CompareFolded(t: FoldTables, s1: seq<u16>, s2: seq<u16>): int
  {
    Lex(Folded(t, s1), Folded(t, s2))
  }

  // ----- the one-pass comparison -----

  /** The inner loop: the next character that is not ignorable, folded, and where it ends; 0 at the end of s. */
  method NextValid(t: FoldTables, s: seq<u16>, start: nat) returns (c: u16, i: nat)
    requires start <= |s|
    ensures start <= i <= |s|
    ensures c == 0 ==> Folded(t, s[start..]) == [] == Folded(t, s[i..])
    ensures c != 0 ==> start < i && Folded(t, s[start..]) == [c] + Folded(t, s[i..])
  {
    c, i := 0, start;
    while i < |s| && c == 0
      invariant start <= i <= |s|
      invariant c == 0 ==> Folded(t, s[start..]) == Folded(t, s[i..])
      invariant c != 0 ==> start < i && Folded(t, s[start..]) == [c] + Folded(t, s[i..])
    {
      assert s[i..][1..] == s[i + 1..];
      c := s[i];
      i := i + 1;
      if c < 0x100 {
        c := t.latin[c];
        break;
      }
      var temp := t.lower[c / 256];
      if temp != 0 {
        c := t.lower[temp + c % 256];
      }
    }
  }

  method FastUnicodeCompare(t: FoldTables, str1: seq<u16>, str2: seq<u16>) returns (r: int)
    ensures r == CompareFolded(t, str1, str2)
  {
    var i1, i2 := 0, 0;
    var c1, c2;
    while true
      invariant i1 <= |str1| && i2 <= |str2|
      invariant CompareFolded(t, str1[i1..], str2[i2..]) == CompareFolded(t, str1, str2)
      decreases |str1| - i1
    {
      ghost var f1, f2 := Folded(t, str1[i1..]), Folded(t, str2[i2..]);
      c1, i1 := NextValid(t, str1, i1);
      c2, i2 := NextValid(t, str2, i2);
      if c1 != c2 {
        break;
      }
      if c1 == 0 {
        return 0;
      }
      assert f1[1..] == Folded(t, str1[i1..]) && f2[1..] == Folded(t, str2[i2..]);
    }
    return if c1 < c2 then -1 else 1;
  }

  lemma {:induction false} FoldedAppend(t: FoldTables, a: seq<u16>, b: seq<u16>)
    ensures Folded(t, a + b) == Folded(t, a) + Folded(t, b)
  {
    if a == [] {
      assert a + b == b;
    } else {
      assert (a + b)[1..] == a[1..] + b;
      FoldedAppend(t, a[1..], b);
    }
  }

  /** An ignorable character anywhere in a name never changes a comparison. */
  lemma IgnorableIgnored(t: FoldTables, a: seq<u16>, z: u16, b: seq<u16>, other: seq<u16>)
    requires Fold(t, z) == 0
    ensures CompareFolded(t, a + [z] + b, other) == CompareFolded(t, a + b, other)
    ensures CompareFolded(t, other, a + [z] + b) == CompareFolded(t, other, a + b)
  {
    FoldedAppend(t, a + [z], b);
    FoldedAppend(t, a, [z]);
    FoldedAppend(t, a, b);
    assert Folded(t, [z]) == [];
    assert Folded(t, a) + [] == Folded(t, a);
  }

  // ----- the fields of a key on disk -----

  /** A byte of a key; the fields of a key cut short read as 0. */
  function KeyByte(body: seq<u8>, i: nat): u8 { if i < |body| then body[i] else 0 }

  function KeyHalf(body: seq<u8>, i: nat): u16 { (KeyByte(body, i) as int) * 0x100 + KeyByte(body, i + 1) }

  function KeyWord(body: seq<u8>, i: nat): u32 {
    ((KeyByte(body, i) * 0x100 + KeyByte(body, i + 1)) * 0x100 + KeyByte(body, i + 2)) * 0x100 + KeyByte(body, i + 3)
  }

  // ----- catalog keys -----

  datatype CatalogKey = CatalogKey(parentID: u32, name: seq<u16>)

  const MAX_NAME := 255

  /** A catalog key behind its length: parent, length of the name, name. A length above 255 is taken for 255. */
  function CatalogKeyOf(body: seq<u8>): (key: CatalogKey)
    ensures |key.name| <= MAX_NAME
  {
    var length := KeyHalf(body, 4);
    var n: nat := if length > MAX_NAME then MAX_NAME else length;
    CatalogKey(KeyWord(body, 0), seq(n, i requires 0 <= i < n => KeyHalf(body, 6 + 2 * i)))
  }

  lemma HalfReads(body: seq<u8>, i: nat, x: u16)
    requires i + 2 <= |body| && body[i..i + 2] == Half(x)
    ensures KeyHalf(body, i) == x
  {
    assert body[i] == Half(x)[0] && body[i + 1] == Half(x)[1];
  }

  lemma WordReads(body: seq<u8>, i: nat, x: u32)
    requires i + 4 <= |body| && body[i..i + 4] == Word(x)
    ensures KeyWord(body, i) == x
  {
    var w, a, b := Word(x), x / 0x1_0000, x % 0x1_0000;
    assert body[i] == w[0] && body[i + 1] == w[1] && body[i + 2] == w[2] && body[i + 3] == w[3];
    assert w[0] == a / 0x100 && w[1] == a % 0x100 && w[2] == b / 0x100 && w[3] == b % 0x100;
  }

  lemma {:induction false} UnitWritten(name: seq<u16>, i: nat)
    requires i < |name|
    ensures NameBytes(name)[2 * i..2 * i + 2] == Half(name[i])
    decreases |name|
  {
    var n := |name| - 1;
    if i < n {
      UnitWritten(name[..n], i);
      assert NameBytes(name)[2 * i..2 * i + 2] == NameBytes(name[..n])[2 * i..2 * i + 2];
    }
  }

  lemma CatalogKeyParts(parentID: u32, name: seq<u16>, more: seq<u8>)
    requires |name| < 0x1_0000
    ensures var body, end := CatalogKeyBytes(parentID, name) + more, 6 + |NameBytes(name)|;
            && end <= |body| && body[0..4] == Word(parentID) && body[4..6] == Half(|name|)
            && body[6..end] == NameBytes(name)
  {}

  lemma UnitReads(body: seq<u8>, name: seq<u16>, i: nat)
    requires i < |name| && 6 + |NameBytes(name)| <= |body| && body[6..6 + |NameBytes(name)|] == NameBytes(name)
    ensures KeyHalf(body, 6 + 2 * i) == name[i]
  {
    UnitWritten(name, i);
    SliceOfSlice(body, 6, 6 + |NameBytes(name)|, 2 * i, 2 * i + 2);
    HalfReads(body, 6 + 2 * i, name[i]);
  }

  /** A catalog key read is the one written, whatever follows it; of a name of more than 255 units the first 255. */
  lemma CatalogKeyReads(parentID: u32, name: seq<u16>, more: seq<u8>)
    requires |name| < 0x1_0000
    ensures CatalogKeyOf(CatalogKeyBytes(parentID, name) + more)
         == CatalogKey(parentID, if |name| > 255 then name[..255] else name)
  {
    var body := CatalogKeyBytes(parentID, name) + more;
    CatalogKeyParts(parentID, name, more);
    WordReads(body, 0, parentID);
    HalfReads(body, 4, |name|);
    forall i | 0 <= i < |name| ensures KeyHalf(body, 6 + 2 * i) == name[i] {
      UnitReads(body, name, i);
    }
  }

  /** The case-folding order: parent first, then the folded names. */
  function CatalogOrderCF(t: FoldTables, key1: CatalogKey, key2: CatalogKey): int
  {
    Then(Cmp(key1.parentID, key2.parentID), CompareFolded(t, key1.name, key2.name))
  }

  /** The binary order: parent first, then the names code unit by code unit. */
  function CatalogOrderBC(key1: CatalogKey, key2: CatalogKey): int {
    Then(Cmp(key1.parentID, key2.parentID), Lex(key1.name, key2.name))
  }

  method CompareKeysCF(t: FoldTables, key1: CatalogKey, key2: CatalogKey) returns (result: int)
    ensures result == CatalogOrderCF(t, key1, key2)
  {
    result := Cmp(key1.parentID, key2.parentID);
    if result != 0 {
      return;
    }
    result := FastUnicodeCompare(t, key1.name, key2.name);
  }

  method CompareKeysBC(key1: CatalogKey, key2: CatalogKey) returns (result: int)
    ensures result == CatalogOrderBC(key1, key2)
  {
    result := Cmp(key1.parentID, key2.parentID);
    if result != 0 {
      return;
    }
    var len := if |key1.name| < |key2.name| then |key1.name| else |key2.name|;
    var i := 0;
    while i < len
      invariant 0 <= i <= len
      invariant result == 0 && key1.name[..i] == key2.name[..i]
    {
      result := Cmp(key1.name[i], key2.name[i]);
      if result != 0 {
        LexDrop(key1.name, key2.name, i);
        break;
      }
      i := i + 1;
    }
    if result == 0 {
      LexDrop(key1.name, key2.name, len);
      result := Cmp(|key1.name|, |key2.name|);
    }
  }

  /** Which of two catalog keys comes first: the one with the smaller parent, or else the one whose name, folded, has
      the smaller unit at the first difference or ends there. */
  lemma CatalogCFMeaning(t: FoldTables, a: CatalogKey, b: CatalogKey)
    ensures CatalogOrderCF(t, a, b) < 0
       <==> a.parentID < b.parentID
            || (a.parentID == b.parentID && ComesFirst(Folded(t, a.name), Folded(t, b.name)))
  {
    LexFirst(Folded(t, a.name), Folded(t, b.name));
  }

  lemma CatalogBCMeaning(a: CatalogKey, b: CatalogKey)
    ensures CatalogOrderBC(a, b) < 0
       <==> a.parentID < b.parentID || (a.parentID == b.parentID && ComesFirst(a.name, b.name))
  {
    LexFirst(a.name, b.name);
  }

  lemma CatalogCFIsOrder(t: FoldTables)
    ensures IsOrder((a: CatalogKey, b: CatalogKey) => CatalogOrderCF(t, a, b))
  {
    LexIsOrder();
    forall a: CatalogKey, b: CatalogKey
      ensures -1 <= CatalogOrderCF(t, a, b) <= 1 && CatalogOrderCF(t, a, b) == -CatalogOrderCF(t, b, a)
    {
      LexAntisymmetric(Folded(t, a.name), Folded(t, b.name));
    }
    forall a: CatalogKey, b: CatalogKey, c: CatalogKey | CatalogOrderCF(t, a, b) <= 0 && CatalogOrderCF(t, b, c) <= 0
      ensures CatalogOrderCF(t, a, c) <= 0
    {
      if a.parentID == b.parentID == c.parentID {
        LexTransitive(Folded(t, a.name), Folded(t, b.name), Folded(t, c.name));
      }
    }
  }

  /** Two catalog keys are the same to the case-folding order exactly when they have the same parent and fold alike. */
  lemma CatalogCFEqual(t: FoldTables, a: CatalogKey, b: CatalogKey)
    ensures CatalogOrderCF(t, a, b) == 0 <==> a.parentID == b.parentID && Folded(t, a.name) == Folded(t, b.name)
  {
    LexMeaning(Folded(t, a.name), Folded(t, b.name));
  }

  lemma CatalogBCIsOrder()
    ensures IsOrder(CatalogOrderBC)
    ensures forall a, b :: CatalogOrderBC(a, b) == 0 <==> a == b
  {
    LexIsOrder();
    forall a: CatalogKey, b: CatalogKey ensures CatalogOrderBC(a, b) == 0 <==> a == b {
      LexMeaning(a.name, b.name);
    }
  }

  // ----- extent keys -----

  datatype ExtentKey = ExtentKey(fileID: u32, forkType: u8, startBlock: u32)

  /** An extent key behind its length: fork type, padding, file id, start block. */
  function ExtentKeyOf(body: seq<u8>): ExtentKey {
    ExtentKey(KeyWord(body, 2), KeyByte(body, 0), KeyWord(body, 6))
  }

  /** An extent key read is the one written. */
  lemma ExtentKeyReads(forkType: u8, fileID: u32, startBlock: u32, more: seq<u8>)
    ensures ExtentKeyOf(ExtentKeyBytes(forkType, fileID, startBlock) + more) == ExtentKey(fileID, forkType, startBlock)
  {
    var body := ExtentKeyBytes(forkType, fileID, startBlock) + more;
    assert body[2..6] == Word(fileID) && body[6..10] == Word(startBlock);
    WordReads(body, 2, fileID);
    WordReads(body, 6, startBlock);
  }

  /** `hfsplus_extents_compare_keys`; the key length is not compared. */
  function ExtentOrder(key1: ExtentKey, key2: ExtentKey): int {
    Then(Cmp(key1.fileID, key2.fileID),
         Then(Cmp(key1.forkType, key2.forkType), Cmp(key1.startBlock, key2.startBlock)))
  }

  lemma ExtentMeaning(a: ExtentKey, b: ExtentKey)
    ensures ExtentOrder(a, b) < 0
       <==> a.fileID < b.fileID
            || (a.fileID == b.fileID && a.forkType < b.forkType)
            || (a.fileID == b.fileID && a.forkType == b.forkType && a.startBlock < b.startBlock)
  {}

  lemma ExtentIsOrder()
    ensures IsOrder(ExtentOrder)
    ensures forall a, b :: ExtentOrder(a, b) == 0 <==> a == b
  {}
}
