# A verified model of hfsinspect's algorithmic cores

hfsinspect reads HFS+ volumes (Apple Technote 1150). Below its printing code lie five algorithmic cores, which this
project models in Dafny and proves things about:

1. **B-tree lookup.** `btree_search` descends from the root, with a binary search in each node, over nodes fetched
   through a least-recently-used cache and byte-swapped in a private copy. The model has the cache as a doubly linked
   list behind a sentinel with an index beside it (`NodeCache`), its meaning as recency of use (`Recency`), the byte
   swap in place and the accessors that read a swapped node (`NodeFormat`), trees as values (`TreeModel`,
   `TreeRecords`), the invariant of the descent (`TreeSearch`), the reader itself (`BTree`), the walk along the leaf
   chain (`LeafChain`) and a small file that holds a tree (`TreeExample`). What is on disk is said by writers that share
   no definition with the readers: `DiskFormat` writes nodes, bitmaps, header records, keys and extents field by field,
   with literal positions and byte orders, and `BuiltNodes` and `WrittenLeaves` prove that the program reads what was
   written. The main results: fetching through the cache is a function of the file alone, whatever was fetched before;
   the byte swap preserves what a node says, and a node written to a file is fetched exactly if it is in use and has
   records, and says what was written; and on a well-formed tree the search gives the answer a scan of all records would
   give, stopping in `critical()` exactly for keys below every record of a tree with index nodes.
2. **Key orders.** The comparators of catalog and extent keys are total preorders (`Orders`, `KeyOrders`), and the
   one-pass `FastUnicodeCompare` is folding, dropping ignorable characters and comparing lexicographically. A catalog
   lookup through core 1 finds a record exactly if there is one with the parent and, up to the comparison, the name,
   among the keys as they are read and among the records as they were written (`Catalog`).
3. **UTF-8 and UTF-16.** The decoder and the validator accept exactly the octets section 4 of RFC 3629 allows (`Utf8`,
   `Utf8Decoder`), the encoder writes whole characters and the length predictor agrees with it on well-formed text
   (`Utf8Encoder`), the in-place sort computes the unique canonical ordering of section 3.11 of the Unicode Standard
   (`CanonicalOrder`), decoding gives a canonically equivalent string, and the canonical one, or the input, exactly
   under conditions on the string (`Transcoding`), and encoding, decoding, decomposing and composing undo each other
   (`RoundTrips`).
4. **Extent maps.** The run-length list refines the flat map from logical to physical blocks (`ExtentLists`), the
   collector builds it from the fork record and a chain of overflow records found through core 1 (`Extents`,
   `ExtentCollection`), and the block arithmetic of reads is right exactly under a stated condition (`BlockReads`).
5. **CRC-32.** The generator's table loop and the table-driven CRC are the bit-serial register of clause 3.2.9 of
   IEEE 802.3, and bursts of up to 32 bits are always detected (`Crc32`, over `Folds`).

The volume summary (`CatalogSummary`, `VolumeSummaries`) follows the leaf chain of core 1. `Checks`, `MachineTypes` and
`Sequences` are shared by all.

Code that updates state step by step is modelled as methods over arrays, classes and loops, each proved against a
function of its inputs or of the old state; what the source promises is then proved about those functions. The large
Unicode and case-folding tables are function parameters, with hypotheses only where a proof needs them. A file is an
immutable byte sequence. Words of the CRC are sequences of bits; other machine words are integers in range, with
wrap-around written out where the code relies on it or could run into it.

Some statements of the source's documentation, or natural expectations of it, turn out not to hold of the code. The
model keeps the code and states when it does what is expected:

* A search for a key below all records of a tree with index nodes ends in `critical()`
  (`src/hfs/btree/btree.c:475-477`): `BTree.BTree.Search` says exactly when, `TreeExample.BelowAllIsCritical` shows
  one.
* A surrogate pair does not end the run of combining characters being tracked (`src/hfs/Apple/utfconv.c:504-513`), and
  characters with a combining class that are not marked in the combining bitmap are never sorted:
  `Transcoding.PairDelaysOrdering`, `Transcoding.UnmarkedStaysPut`. `Transcoding.DecodeOrders` says exactly for which
  strings the result is the canonical ordering, by a scan of the string with its pending run, and
  `Transcoding.OrderlyDecodes` gives a condition that is easier to see.
* Composing can make that run longer than the output, and the sort then starts before the buffer:
  `Transcoding.SortFromOutside`. `Transcoding.OutsideExactly` says for which strings, by a scan that neither stores nor
  sorts; `Transcoding.NeverOutside` excludes it where no mark composes with a combining character.
* The block count of `vol_read` and `hfs_read_fork_range` is one short when the parts of the request beyond whole
  blocks do not fit one block; `vol_read` may then return the size without having read anything:
  `BlockReads.CountIsTouched`, `BlockReads.DeliveredWhole`, `BlockReads.ReadForkRange`, and one byte at offset 511 in
  `BlockReads.OneByteMissed`.
* `utf8_encodelen` falls short by one octet for every surrogate without its other half:
  `Utf8Encoder.EncodeLen`, `Utf8Encoder.LoneSurrogateMiscounted`.
* `cache_init` is given the number of records to keep, and one more is kept, because the count is compared before the
  new record is counted (`src/hfs/btree/cache.c:84-91`): `Recency.TraceIsRecent`.
* `btree_walk` takes forward links as signed numbers and stops at the first id of 2^31 or more
  (`src/hfs/btree/btree.c:364`): `LeafChain.Walk`; it visits all leaves exactly if no later one has such an id,
  `LeafChain.WalkTree`, `LeafChain.StopsShort`.

## Model

| member | source | states |
|---|---|---|
| Crc32.AssemblePattern | tools/makecrc.c:37-43 | Or-ing in the polynomial's terms gives the exclusive-or pattern. |
| Crc32.PatternValue | tools/makecrc.c:40 | The pattern is 0xedb88320. |
| Crc32.ShiftEight | tools/makecrc.c:53-54 | The inner loop is eight register shifts. |
| Crc32.MakeTable | tools/makecrc.c:45-56 | The generated table has, for every byte, the register after eight shifts of that byte. |
| Crc32.FeedIsShift | tools/makecrc.c:15-24 | Adding k bits to the register ahead of time and shifting k times is feeding them one by one. |
| Crc32.TableStep | src/volumes/crc32/crc32.c:74 | With a table as generated, one iteration of the table loop is eight steps of the bit-serial register. |
| Crc32.Crc32 | src/volumes/crc32/crc32.c:67-77 | For every buffer the table loop returns the bit-serial CRC. |
| Crc32.CrcAppend | src/volumes/crc32/crc32.c:67-77 | The CRC of a buffer can be computed in pieces. |
| Crc32.BurstChangesRegister | src/volumes/crc32/crc32.c:72-74 | Bit strings that differ inside a burst of at most 32 bits leave different registers, whatever follows. |
| Crc32.BurstDetected | src/volumes/crc32/crc32.c:67-77 | Buffers of equal length that differ only inside four consecutive bytes have different CRCs. |
| Crc32.CrcOfOnes | src/volumes/crc32/crc32.c:67-77 | From 0, the CRC of four bytes FF is FFFFFFFF. |
| Crc32.Residue | src/volumes/crc32/crc32.c:67-77 | A buffer with its CRC behind it has the same CRC whatever the buffer is. |
| CanonicalOrder.PrioritySort | src/hfs/Apple/utfconv.c:1025-1063 | Passes until nothing changes leave the stretch in the reference order and touch nothing outside it; termination by inversions. |
| CanonicalOrder.OnePass | src/hfs/Apple/utfconv.c:1035-1061 | A pass keeps the ordered form; if it changes anything there are fewer inversions, if not the stretch is canonical. |
| CanonicalOrder.SwapNeighbours | src/hfs/Apple/utfconv.c:1042-1048 | One exchange keeps the ordered form and removes an inversion. |
| CanonicalOrder.FewerInversions | src/hfs/Apple/utfconv.c:1042-1048 | An exchange of reorderable neighbours removes exactly one inversion. |
| CanonicalOrder.OrderCanonical | src/hfs/Apple/utfconv.c:1025-1063 | The result has no reorderable neighbours left. |
| CanonicalOrder.OrderUnique | src/hfs/Apple/utfconv.c:1025-1063 | Whatever exchanges are made, in whatever order, when none is left the result is the same. |
| CanonicalOrder.OrderIdempotent | src/hfs/Apple/utfconv.c:1025-1063 | Sorting twice is sorting once. |
| CanonicalOrder.OrderStable | src/hfs/Apple/utfconv.c:1042 | Characters of equal class keep their relative order. |
| CanonicalOrder.OrderMultiset | src/hfs/Apple/utfconv.c:1045-1047 | The result is a permutation of the input. |
| CanonicalOrder.OrderBarrier | src/hfs/Apple/utfconv.c:1042 | A character of class 0 stays where it is and nothing crosses it. |
| CanonicalOrder.ZeroStays | src/hfs/Apple/utfconv.c:1042 | A character of class 0 keeps its position. |
| CanonicalOrder.ClassesAscend | src/hfs/Apple/utfconv.c:1042 | Between characters of class 0 the classes ascend. |
| CanonicalOrder.EndOrderedEquivalent | src/hfs/Apple/utfconv.c:566-567 | Sorting the end of a string does not change the canonical ordering of the whole. |
| KeyOrders.NextValid | src/hfs/Apple/hfs_unicode.c:414-426 | The inner loop finds the next character of the folded string, or its end. |
| KeyOrders.FastUnicodeCompare | src/hfs/Apple/hfs_unicode.c:400-454 | The one-pass comparison is lexicographic comparison of the folded strings without ignorable characters. |
| KeyOrders.IgnorableIgnored | src/hfs/Apple/hfs_unicode.c:414-426 | An ignorable character anywhere in a name changes no comparison. |
| KeyOrders.CompareKeysCF | src/hfs/catalog.c:195-208 | Parent first, then the folded names. |
| KeyOrders.CompareKeysBC | src/hfs/catalog.c:210-243 | Parent first, then lexicographic comparison of the code units. |
| KeyOrders.CatalogCFIsOrder | src/hfs/catalog.c:195-208 | The case-folding order is a total preorder. |
| KeyOrders.CatalogCFEqual | src/hfs/catalog.c:195-208 | It is 0 exactly on keys with the same parent and names that fold alike. |
| KeyOrders.CatalogBCIsOrder | src/hfs/catalog.c:210-243 | The binary order is a total preorder, 0 only on equal keys. |
| KeyOrders.ExtentIsOrder | src/hfs/extents.c:173-190 | The extent order is a total preorder, 0 only on equal keys. |
| KeyOrders.CatalogCFMeaning | src/hfs/catalog.c:195-208 | A key comes first exactly if its parent is smaller, or the parents are equal and its folded name comes first. |
| KeyOrders.CatalogBCMeaning | src/hfs/catalog.c:210-243 | The same with the code units of the names. |
| KeyOrders.ExtentMeaning | src/hfs/extents.c:173-190 | File, then fork, then start block decide. |
| KeyOrders.FoldByBytes | src/hfs/Apple/hfs_unicode.c:414-426 | Folding looks a character up by its two bytes. |
| KeyOrders.CatalogKeyReads | src/hfs/hfs_endian.c:167-176 | A catalog key written field by field is read as its parent and name; of a longer name the first 255 units. |
| KeyOrders.ExtentKeyReads | src/hfs/hfs_endian.c:159-165 | An extent key written field by field is read as that key. |
| Catalog.FindRecord | src/hfs/catalog.c:161-193 | Found exactly if the catalog has a record with the parent and, as far as the comparison goes, the name, both among the keys read and, for every way the leaves can have been written with names of up to 255 units, among the records written; the node and index name such a record; a stop is for keys below every record. |
| Catalog.EntriesWritten | src/hfs/hfs_endian.c:167-176 | The keys of the catalog are the parents and names its leaves were written with. |
| Catalog.LookedUpWritten | src/hfs/catalog.c:161-193 | What a lookup says of the keys read it says of the records written. |
| Catalog.SearchedCatalog | src/hfs/catalog.c:183-192 | The result of the tree search, in terms of the keys of the catalog, for both comparisons. |
| Catalog.EntryUnique | src/hfs/catalog.c:183-192 | At most one record has the parent and the name. |
| Orders.LexMeaning | src/hfs/catalog.c:228-240 | A lexicographic comparison is 0 exactly on equal sequences and -1 exactly if the first difference, or the end of the first sequence, says so. |
| Recency.GetKeeps | src/hfs/btree/cache.c:166-186 | A lookup loses no record and keeps the cache well formed. |
| Recency.SetReplaces | src/hfs/btree/cache.c:193-207 | Storing a key that is there replaces its data and drops nothing. |
| Recency.SetAdds | src/hfs/btree/cache.c:72-94 | Storing a new key drops the least recently used record if the cache is full, and nothing else. |
| Recency.SetKeeps | src/hfs/btree/cache.c:188-212 | A store keeps keys distinct, the data those of the listed keys, and at most max + 1 records. |
| Recency.RecentMeaning | src/hfs/btree/cache.c:176-178 | The recency stack lists exactly the keys used, each once, in falling order of last use. |
| Recency.TraceIsRecent | src/hfs/btree/cache.c:72-94 | After any trace of accesses the cache holds exactly the max + 1 most recently used keys, in order, with the data fetched for them. |
| Recency.StackInclusion | src/hfs/btree/cache.c:72-94 | On the same trace the list of a smaller cache is a prefix of a larger one's, so its hits are hits there with the same data. |
| NodeCache.Cache.constructor | src/hfs/btree/cache.c:131-148 | A new cache is empty and well linked. |
| NodeCache.Cache.Insque | src/hfs/btree/cache.c:80 | The record becomes the first behind the sentinel; all links stay right. |
| NodeCache.Cache.Remque | src/hfs/btree/cache.c:113 | The record leaves the list; all links stay right. |
| NodeCache.Cache.RecordGet | src/hfs/btree/cache.c:59-70 | The index finds the record of the key exactly if the cache holds the key. |
| NodeCache.Cache.RecordRemove | src/hfs/btree/cache.c:100-127 | The record leaves list, index and count; everything else stays. |
| NodeCache.Cache.LastRecord | src/hfs/btree/cache.c:86-87 | The loop along the list ends at its last record. |
| NodeCache.Cache.EvictLast | src/hfs/btree/cache.c:84-89 | Over the limit the least recently used record is removed, never the one being added. |
| NodeCache.Cache.RecordNew | src/hfs/btree/cache.c:72-94 | A blank record at the front, after an eviction if the count is over the limit. |
| NodeCache.Cache.Rem | src/hfs/btree/cache.c:214-221 | The key is gone, everything else stays. |
| NodeCache.Cache.Set | src/hfs/btree/cache.c:188-212 | The contents are those of the abstract store, with a copy of the data. |
| NodeCache.Cache.Get | src/hfs/btree/cache.c:166-186 | 1 exactly on a hit, which copies the data and moves the record to the front. |
| NodeCache.OverlayAt | src/hfs/btree/cache.c:180-183 | Byte i of the buffer is the record's if i is below both lengths, and otherwise untouched. |
| NodeFormat.SwapHeaderRecAt | src/hfs/btree/btree_endian.c:39-56 | After the swap in place every field of the header record reads in host order as it does on disk, and the other bytes are untouched. |
| NodeFormat.SwapTableAt | src/hfs/btree/btree_endian.c:107-108 | The table of record offsets is swapped in place. |
| NodeFormat.SwapRecordAt | src/hfs/btree/btree_endian.c:139-181 | One iteration of the record loop swaps what belongs to that record: of a header node the first record, of an index node or leaf the key length, and in an index node the child pointer. |
| NodeFormat.SwapNode | src/hfs/btree/btree_endian.c:58-183 | 1 for a node on disk, 0 and no change for a swapped one, -1 for what is not a node. After a swap the descriptor and the offset table read in host order as on disk; so do the header record of a header node, and the key length and child pointer of every record of an index node or leaf; every other byte, with all other records of header and map nodes, is the one on disk. |
| NodeFormat.SwappedHeader | src/hfs/btree/btree_endian.c:148-152 | In the swapped image of a header node every field of the header record reads in host order as on disk. |
| NodeFormat.SwappedImage | src/hfs/btree/btree_endian.c:58-183 | The swapped image of every node is such a host image. |
| NodeFormat.SwapOnce | src/hfs/btree/btree_endian.c:65-67 | A swapped node is recognised as such. |
| NodeFormat.SwappedRecord | src/hfs/btree/btree_endian.c:128-181 | After the swap every record has in host order the key length and child pointer it has on disk, and its other bytes untouched. |
| NodeFormat.SwappedHostFormed | src/hfs/btree/btree.c:137-208 | The accessors can read every record of a swapped node without leaving it. |
| NodeFormat.RecordBounds | src/hfs/btree/btree_endian.c:110-126 | Records in order of their offsets lie between the descriptor and the table. |
| BuiltNodes.KnownAttributes | src/hfs/Apple/hfs_format.h:751-755 | Attributes 2 say 16-bit key lengths, 6 also index keys of variable length, 4 the latter only and 0 neither. |
| BuiltNodes.DecodeBuilt | src/hfs/btree/btree.c:110-208 | An index node or leaf written with any list of keys and data, for any attributes, is well-formed and read as exactly these keys, children and data. |
| BuiltNodes.NodeInFile | src/hfs/btree/btree.c:285-306 | Node n is what the file has behind n nodes, with zeros behind a short end. |
| BuiltNodes.BitmapReads | src/hfs/btree/btree.c:101-108 | The program takes a node to be in use exactly if the bitmap was written so, most significant bit first. |
| BuiltNodes.FetchBuilt | src/hfs/btree/btree.c:253-321 | A node written to a file is fetched exactly if it is below the total, in use and has records; what is fetched, on disk and swapped, says what was written. |
| BuiltNodes.KindsRecognised | src/hfs/btree/btree_endian.c:64-101 | Nodes of the four kinds are recognised, and no others. |
| BuiltNodes.PlainRecords | src/hfs/btree/btree_endian.c:139-181 | In the swapped image of a written map node every record, and of a written header node every record behind the first, is delimited and reads as written; the bitmap is such a record. |
| BuiltNodes.HeaderWritten | src/hfs/Apple/hfs_format.h:730-748 | The header a reader starts with is the one written behind the descriptor. |
| BTree.Volume.SwapPreserves | src/hfs/btree/btree_endian.c:58-183 | A swapped node says the same as the node on disk: kind, height, link, keys, children, data. |
| BTree.Volume.FetchedFacts | src/hfs/btree/btree.c:308-318 | A node fetched has records and can be read, and says what it says on disk. |
| BTree.ReadHeader | src/hfs/btree/btree.c:208-241 | The two reads and swaps at the start of the file give the header on disk, or zeros if the header node has no records. |
| BTree.Init | src/hfs/btree/btree.c:208-250 | A reader starts with that header and an empty cache. |
| BTree.BTree.constructor | src/hfs/btree/btree.c:246-247 | A reader starts with an empty cache of 100 records. |
| BTree.BTree.Load | src/hfs/btree/btree.c:285-306 | The raw node, from the cache or the file, is the file's; complete reads are cached raw. |
| BTree.BTree.GetNode | src/hfs/btree/btree.c:253-321 | Whatever was fetched before, the result is one uncached read and one byte swap of the file; only the node fetched has to be laid out as a node. |
| BTree.BTree.GetRecordKey | src/hfs/btree/btree.c:335-350 | The accessor returns the key of the node's record. |
| BTree.BTree.GetRecordValue | src/hfs/btree/btree.c:335-350 | The accessor returns the data of the leaf's record. |
| BTree.BTree.FollowRecord | src/hfs/btree/btree.c:461-469 | The value of an index record is the child pointer. |
| BTree.BTree.SearchNode | src/hfs/btree/btree.c:501-549 | On sorted keys and a total preorder: found with an equal record, or the last record below the key (0 if none). |
| BTree.BTree.Visit | src/hfs/btree/btree.c:409-485 | In any file a visit ends in an error exactly as the node at hand says: not fetched, of the wrong height or kind. On a sound node it ends with the node's answer or leads to the child of the answer; it stops only at a null pointer or a key below the record. |
| BTree.BTree.SearchLevel | src/hfs/btree/btree.c:409-485 | One turn of the loop stops, in any file, at a node above the total or visited before, and otherwise records the node in the history and visits it; it keeps the invariant of the search, or ends it correctly. |
| BTree.BTree.Search | src/hfs/btree/btree.c:377-492 | On a well-formed tree, whatever else the file holds, the search ends with the answer over all records of the leaf chain; it stops in critical() exactly if the tree has index nodes and the key is below every record. |
| TreeExample.SmallHoldsTree | src/hfs/btree/btree.c:377-492 | An extents overflow file of 384 bytes with attributes 2, written by the node builder, meets all requirements on a tree. |
| TreeExample.SmallLookup | src/hfs/extents.c:99-171 | A lookup of that file's record gives the eight descriptors written. |
| TreeExample.BelowAllIsCritical | src/hfs/btree/btree.c:475-477 | In that file a search for a key below its only record ends in critical(). |
| TreeModel.AnswerUnique | src/hfs/btree/btree.c:501-549 | The answer to a search in sorted keys is unique. |
| TreeModel.FirstKey | src/hfs/btree/btree.c:452-477 | The first key below a node is, up to the order, the node's first key. |
| TreeModel.IndexSorted | src/hfs/btree/btree.c:501 | Index nodes of a tree with sorted leaves are sorted. |
| TreeModel.Descend | src/hfs/btree/btree.c:461-477 | Following the record a node search answers loses nothing: records to the left are below the key, those to the right above. |
| TreeModel.LeafAnswer | src/hfs/btree/btree.c:455-459 | At the leaf reached, the node's answer is the whole tree's. |
| TreeSearch.Tree.SearchSound | src/hfs/btree/btree.c:416-423 | Every node the search reaches is sound and was not visited before. |
| TreeSearch.Tree.SearchVisited | src/hfs/btree/btree.c:409-485 | From an invariant state, a visit ends correctly or leads to an invariant state one level down. |
| TreeRecords.DoneEntry | src/hfs/btree/btree.c:487-491 | A search that ended at a leaf names an entry of the tree: the one with the key if found, and otherwise no entry has the key. |
| TreeRecords.SearchedKeys | src/hfs/btree/btree.c:487-491 | For any order: a search that found names a key of the tree that compares equal; otherwise none of them does. |
| TreeRecords.RecordAt | src/hfs/btree/btree.c:335-350 | Record r of leaf p is a definite entry of the list of all records. |
| TreeRecords.LeavesAreLeaves | src/hfs/btree/btree.c:441-449 | All nodes at level 1 of a well-formed tree are leaves. |
| LeafChain.Walk | src/hfs/btree/btree.c:353-375 | The walk visits the chain of forward links in order, up to the first id that is negative as a signed number. |
| LeafChain.WalkTree | src/hfs/btree/btree.c:353-375 | From the first leaf of a well-formed tree it visits leaves left to right, and all of them exactly if no later one has an id of 2^31 or more. |
| LeafChain.FollowedToTheEnd | src/hfs/btree/btree.c:364 | A chain is followed to its end exactly if no id behind the first is 2^31 or more. |
| LeafChain.StopsShort | src/hfs/btree/btree.c:364 | A chain whose second id is 2^31 is followed to its first node only. |
| WrittenLeaves.LeavesRead | src/hfs/btree/btree.c:335-350 | Leaves written with lists of records read, in order, as the keys and data of these records. |
| Utf8.ScanIsGrammar | src/hfs/Apple/utfconv.c:447-517 | The subtractions and their wrap-around let through exactly the characters of section 4 of RFC 3629 but U+FFFE and U+FFFF, and yield the character's number or its surrogate pair. |
| Utf8.TextGoesOn | src/hfs/Apple/utfconv.c:639-706 | The octets before the NUL are text exactly if the next character is legal and the rest is text. |
| Utf8.LegalHasNoNul | src/hfs/Apple/utfconv.c:450-517 | A legal character never reaches across a NUL. |
| Utf8.Validate | src/hfs/Apple/utfconv.c:631-710 | 0 exactly if the part before the first NUL is UTF8-octets without U+FFFE and U+FFFF. |
| Utf8.UnitRoundTrip | src/hfs/Apple/utfconv.c:313-327 | One code unit, written and read, is the unit. |
| Utf8.PairRoundTrip | src/hfs/Apple/utfconv.c:343-354 | A surrogate pair, written as four octets and read, is the pair. |
| Utf8.ScanSpells | src/hfs/Apple/utfconv.c:453-517 | Writing a character that was read gives its octets back. |
| Utf8Encoder.EncodeChar | src/hfs/Apple/utfconv.c:313-375 | The next character is written whole, refused if U+FFFE or U+FFFF, or not written when it does not fit. |
| Utf8Encoder.EncodeStr | src/hfs/Apple/utfconv.c:263-383 | The output is the encoding of a whole-character prefix within the buffer; the result says whether it is all, a slash was replaced, a character was refused or the next did not fit. |
| Utf8Encoder.LongestPrefix | src/hfs/Apple/utfconv.c:313-375 | When the next character does not fit, no longer whole-character prefix would. |
| Utf8Encoder.AllWritten | src/hfs/Apple/utfconv.c:263-383 | With an alternate slash, nothing to refuse and enough room, everything is written and the result is 0. |
| Utf8Encoder.EncodingAppend | src/hfs/Apple/utfconv.c:286-376 | Text split between characters is encoded part by part. |
| Utf8Encoder.EncodingIsText | src/hfs/Apple/utfconv.c:263-383 | What is written for well-formed UTF-16 without U+FFFE and U+FFFF is text of RFC 3629. |
| Utf8Encoder.NothingForbidden | src/hfs/Apple/utfconv.c:301-311 | The output never has a NUL, and no slash unless that is the alternate. |
| Utf8Encoder.LengthsOfEncoding | src/hfs/Apple/utfconv.c:62-63 | The predicted lengths add up to the encoding's length less one for every lone surrogate. |
| Utf8Encoder.EncodeLen | src/hfs/Apple/utfconv.c:196-235 | The prediction is the length written exactly if the text is well-formed UTF-16. |
| Utf8Encoder.LoneSurrogateMiscounted | src/hfs/Apple/utfconv.c:62-63 | For one high surrogate alone two octets are predicted and three written. |
| Utf8Decoder.PlaceUnit | src/hfs/Apple/utfconv.c:563-572 | A combining character prolongs the pending run, any other settles it. |
| Utf8Decoder.PlaceDecomposition | src/hfs/Apple/utfconv.c:519-541 | A decomposition follows the settled run, part by part until the buffer is full. |
| Utf8Decoder.StoreUnit | src/hfs/Apple/utfconv.c:542-572 | A composite replaces the last unit; U+2400 and the alternate are shown as NUL and slash. |
| Utf8Decoder.DecodeChar | src/hfs/Apple/utfconv.c:438-573 | One turn of the loop is one step of the specified decoder. |
| Utf8Decoder.DecodeStr | src/hfs/Apple/utfconv.c:414-625 | Result and output are those of the specified decoder; nothing beyond the buffer is written. |
| Transcoding.DecodeAccepts | src/hfs/Apple/utfconv.c:437-589 | With room for a unit per octet, flags 0: 0 exactly for accepted text, EINVAL for all other. |
| Transcoding.ValidatorAgrees | src/hfs/Apple/utfconv.c:631-710 | The validator accepts exactly what the decoder accepts. |
| Transcoding.OutsideExactly | src/hfs/Apple/utfconv.c:518-616 | In every form and with every table the sort starts before the buffer exactly for the strings a scan of lengths, last units and run counts says. |
| Transcoding.NeverOutside | src/hfs/Apple/utfconv.c:566-567 | The sort stays inside the buffer without composing, and with composing if no mark composes with a last unit that is a combining character. |
| Transcoding.DecodeEquivalent | src/hfs/Apple/utfconv.c:414-625 | Decoding, decomposed or not, gives a string with the same canonical ordering as the characters read. |
| Transcoding.DecodeCanonical | src/hfs/Apple/utfconv.c:560-616 | A string in canonical order is decoded as it is. |
| Transcoding.DecodeOrders | src/hfs/Apple/utfconv.c:560-616 | What is decoded is in canonical order, and then is the canonical ordering of the characters read, exactly for the strings a scan of the input with its last settled unit and pending run says. |
| Transcoding.DecodeInOrder | src/hfs/Apple/utfconv.c:560-616 | The same from any state of the decoder. |
| Transcoding.OrderlyDecodes | src/hfs/Apple/utfconv.c:560-616 | A string from whose runs nothing escapes is such a string. |
| Transcoding.DecodeUnchanged | src/hfs/Apple/utfconv.c:560-616 | The characters come out as they were read exactly if no run is settled out of order. |
| Transcoding.DecodeSucceeds | src/hfs/Apple/utfconv.c:437-589 | Text is decoded, decomposed or not, if there is room for the units read. |
| Transcoding.PairDelaysOrdering | src/hfs/Apple/utfconv.c:504-513 | A string with a surrogate pair comes out unordered. |
| Transcoding.UnmarkedStaysPut | src/hfs/Apple/utfconv.c:563-570 | A string with an unmarked character of class 230 comes out unordered. |
| Transcoding.SortFromOutside | src/hfs/Apple/utfconv.c:545-552 | A composed string asks for a sort from before the buffer. |
| RoundTrips.DecodeOfEncoding | src/hfs/Apple/utfconv.c:263-625 | Decode after encode, with the same alternate for the slash: accepted, canonically equivalent to the original, and equal to it if it was in canonical order. |
| RoundTrips.RoundTripExactly | src/hfs/Apple/utfconv.c:263-625 | The original comes back exactly if no run is settled out of order; it was in canonical order exactly if, besides, everything is settled in order with what came before. |
| RoundTrips.RoundTripNeedsOrder | src/hfs/Apple/utfconv.c:263-625 | Where ordering catches everything, the original comes back exactly if it was in canonical order. |
| RoundTrips.EncodingOfDecode | src/hfs/Apple/utfconv.c:263-625 | Encode after decode, with the same alternate for the slash, gives back every accepted string without NUL in which no run is settled out of order, such as those whose characters are in canonical order. |
| RoundTrips.PartsCompose | src/hfs/Apple/utfconv.c:948-1004 | Composing the jamo of a Hangul syllable, first two and then the third, gives the syllable. |
| RoundTrips.ComposeUndoesDecompose | src/hfs/Apple/utfconv.c:518-552 | For text in canonical order of characters whose decompositions compose to them again, of inert characters, marks that stay apart and surrogate pairs: decomposed decoding gives the full decomposition exactly if no run is settled out of order, and precomposed decoding of that gives the text back exactly if the sort stays inside the buffer, as it does where no combining character is a base or composite. |
| RoundTrips.Decomposes | src/hfs/Apple/utfconv.c:518-541 | Decomposed decoding gives the full decomposition exactly if no run is settled out of order, as when the decomposition is in canonical order. |
| RoundTrips.HangulRoundTrip | src/hfs/Apple/utfconv.c:518-552 | Decomposing and then composing is the identity on strings of Hangul syllables. |
| RoundTrips.AcuteRoundTrip | src/hfs/Apple/utfconv.c:518-552 | U+00E9 comes apart as U+0065 U+0301 and together again. |
| RoundTrips.DecomposesByTable | src/hfs/Apple/utfconv.c:518-541 | With the bitmaps starting at U+00C0 and U+0300: text whose decomposition by the tables' own fields is in canonical order decodes to exactly that decomposition. |
| RoundTrips.HangulByNumber | src/hfs/Apple/utfconv.c:927-961 | The jamo of a syllable by the numbers of section 3.12 of the Unicode Standard; U+D7A4, one past the last syllable, comes apart as well. |
| RoundTrips.JamoByNumber | src/hfs/Apple/utfconv.c:974-1004 | Jamo compose by the same numbers. |
| RoundTrips.OtherByTable | src/hfs/Apple/utfconv.c:974-1004 | All other pairs compose by the table, except a trailing jamo behind a syllable that has one. |
| RoundTrips.UpperAcute | src/hfs/Apple/utfconv.c:518-541 | The octets C3 89 decode decomposed to U+0045 U+0301. |
| RoundTrips.NulAlternate | src/hfs/Apple/utfconv.c:301-311 | NUL is written E2 90 80, and that is read as NUL. |
| RoundTrips.SlashAlternate | src/hfs/Apple/utfconv.c:301-311 | A slash is written as the alternate, a colon or an underscore, and a colon read back as the slash. |
| ExtentLists.ExtentList.Add | src/hfs/hfs_extentlist.c:36-62 | The flat map grows by the blocks of the extent; an empty extent is dropped; logical starts stay prefix sums. |
| ExtentLists.ExtentList.Renumber | src/hfs/hfs_extentlist.c:53-60 | The loop over all extents makes logical starts the sums of the counts before, for totals below 2^31. |
| ExtentLists.ExtentList.AddRecord | src/hfs/hfs_extentlist.c:70-76 | The flat map grows by the blocks of the eight descriptors in order. |
| ExtentLists.ExtentList.Find | src/hfs/hfs_extentlist.c:78-109 | Found exactly below the total, with the physical block and what is left of its extent. |
| ExtentLists.AnswerIsFlat | src/hfs/hfs_extentlist.c:96-106 | All along the run reported, the answer agrees with the flat map. |
| ExtentLists.SmallRange | src/hfs/range.c:32-45 | For small totals the range test is the half-open interval. |
| Extents.SearchedRecord | src/hfs/extents.c:131-158 | A search of the overflow tree that ended at a leaf answers from its records; any other stopped at a key below all of them. |
| Extents.DoneRecord | src/hfs/extents.c:131-158 | A search that ended at a leaf gives a record of the overflow tree; found exactly if it is the one with the key. |
| Extents.FindRecord | src/hfs/extents.c:99-171 | The record that begins at the block, if the tree has it, with the eight descriptors its bytes were written from, both in the table of the tree and, for every way its leaves can have been written, among the records written; a stop only for a key below all records. |
| Extents.DescriptorsRead | src/hfs/hfs_endian.c:145-157 | Eight descriptors written field by field, start before count, are read as they were. |
| Extents.DescriptorsWrite | src/hfs/hfs_endian.c:145-157 | Every 64 bytes are those written from the descriptors read. |
| Extents.TableWritten | src/hfs/extents.c:131-158 | The table of the tree has exactly the keys and bytes of the records its leaves were written with. |
| Extents.LookedUpWritten | src/hfs/extents.c:99-171 | What a lookup says of the table it says of the records written. |
| ExtentCollection.AddCounts | src/hfs/extents.c:226-227 | The counts are added in 32 bits. |
| ExtentCollection.AddFound | src/hfs/extents.c:218-230 | A record that begins where the list ends passes both checks and is added whole. |
| ExtentCollection.TakeRecord | src/hfs/extents.c:204-231 | One turn of the loop keeps the list equal to blocks [0, blocks), or ends for a good reason. |
| ExtentCollection.GetExtentList | src/hfs/extents.c:192-234 | The loop terminates; the list maps to the blocks of the fork's extents and of a chain of records, each beginning where the one before ends, whose bytes in the tree are those written from their descriptors; "Bad extent" and "We already have this record" never happen; the list covers exactly the total if and only if the tree has a chain that does. |
| ExtentCollection.ChainsAgree | src/hfs/extents.c:204-231 | There is only one chain of records of a given length. |
| ExtentCollection.WholeForkCovered | src/hfs/extents.c:192-234 | If the tree has a chain that covers the total, that chain is the one taken, and the search never stops it. |
| BlockReads.CountIsTouched | src/volumes/volume.c:201 | The block count is the number of blocks touched exactly if offset and size leave less than one block together; otherwise it is one short. |
| BlockReads.RequestFits | src/volumes/volume.c:200-204 | The buffer holds the request under the same condition. |
| BlockReads.VolBlkGet | src/volumes/volume.c:134-154 | Whole blocks read are counted, and the bytes are those of the source. |
| BlockReads.VolRead | src/volumes/volume.c:156-227 | The clamped request gets the bytes of the source at its offset, as far as whole blocks were read; without any, what is returned depends on alignment only. |
| BlockReads.DeliveredWhole | src/volumes/volume.c:200-226 | With enough source, the request is delivered whole under the condition; otherwise it comes out short, or is reported whole with nothing read. |
| BlockReads.OneByteMissed | src/volumes/volume.c:200-226 | One byte at offset 511 of 512-byte blocks is reported read, and nothing is. |
| BlockReads.ClampedIsInside | src/volumes/volume.c:171-180 | The clamped request has exactly the bytes of the request that the source has. |
| BlockReads.BlockSizes | src/volumes/volume.c:188-197 | The physical sector size, else the sector size, else 512. |
| BlockReads.ReadForkRange | src/hfs/hfs_io.c:326-376 | The slice of the fork, copied from inside the block buffer exactly under the condition. |
| CatalogSummary.FilesSplit | src/operations/hfs_summary.c:55-91 | The file count is the sum of the seven disjoint buckets. |
| CatalogSummary.WhichBucket | src/operations/hfs_summary.c:59-75 | A file is in the bucket of the first test it passes. |
| CatalogSummary.KindsByCode | src/operations/hfs_summary.c:59-75 | Which creator, type and flag bits make a file a hard link, symbolic link, alias or invisible. |
| CatalogSummary.SizeIsSum | src/operations/hfs_summary.c:83 | The size of a file is the sum of its forks, in 64 bits. |
| CatalogSummary.VolumeSummary.AddRecord | src/operations/hfs_summary.c:52-106 | Every counter and the ten largest stay right with one more record. |
| CatalogSummary.VolumeSummary.CountRecord | src/operations/hfs_summary.c:52-103 | The counters change as the record's bucket says. |
| CatalogSummary.KeepLargest | src/operations/hfs_summary.c:83-89 | Replacing the smallest and sorting keeps the ten largest. |
| CatalogSummary.TopTenUnique | src/operations/hfs_summary.c:83-89 | The ten largest sizes are determined by the files, whatever the sort does with equal ones. |
| VolumeSummaries.AddLeaf | src/operations/hfs_summary.c:38-113 | All records of a leaf are counted, and its link followed. |
| VolumeSummaries.GenerateVolumeSummary | src/operations/hfs_summary.c:22-143 | Over the leaf chain of a catalog tree the summary counts every record of the tree once; the counters and the ten largest files are those of these records. |

## Left out

- Files, devices, standard I/O, privileges, options, logging and all printing: input and output only.
- Partition maps, journal, hot files, `hfs_open`, `hfsplus_find` and the field swaps of `hfs_endian.c`: wrappers, tables
  or printing, with no state or branching of interest. The swaps of catalog and extent keys are `KeyOrders.CatalogKeyOf`
  and `KeyOrders.ExtentKeyOf`, that of catalog records stands behind the function parameter `recordOf`.
- `hfs_attributes_compare_keys`: marked in the source as almost certainly not right, so it is not used as an order.
- `cache_destroy` and allocation failures: teardown and error exits.
- NodeCache.Cache.Set: a record's data is a value of the record's own, so aliasing of cache buffers and the zeroing of
  freed memory are not captured. `tsearch`, `tfind`, `tdelete`, `insque`, `remque` and `qsort` are modelled by what they
  promise, the index as a map.
- NodeFormat.SwapNode: a node accepted by its sentinel and kind is required to have its record table and records inside
  it, in order; the source only warns when they are not. What a refused node's bytes are left as is not stated.
- BTree.BTree.constructor: nodes are required to have at least 16 bytes, room for a descriptor and one offset.
- BTree.BTree.GetNode: the node fetched, if in use and recognised, is required to be laid out as a node, as in
  NodeFormat.SwapNode. The allocation bitmap is taken as loaded: how `BTIsNodeUsed` puts it together from the header
  node and the map nodes is not modelled, only that their records are read as written. A failed assertion is a result,
  and the host is little-endian. `BTIsBlockUsed` lets the byte just past the bitmap through
  (`src/hfs/btree/btree.c:104`); it is 0 while the buffer is the zeroed first one, and lies behind the buffer once map
  nodes are appended (`src/hfs/btree/btree.c:79`), where the model takes it to be 0.
- BTree.BTree.Search: `treeDepth` of at most 256 is required, the size of the history array, and, in a file that holds
  no tree, that all its nodes are laid out as nodes; comparing ids with 64-bit loads in `lfind` is modelled as equality
  of ids; `critical()` is a result.
- BTree.ReadHeader: `keyCompareType` and the fields the searches do not use are not kept, and a read that fails is not
  modelled.
- BuiltNodes.DecodeBuilt: records fill the node from the front without gaps, as the format has them, and keys do not
  exceed the maximum length.
- Catalog.FindRecord: keys cut short are read as if continued by zeros, and of names of more than 255 units, which the
  format does not have, the first 255 are read, where the C reads on behind the array; a comparison type that is
  neither of the two leaves the C without a comparator and is not modelled.
- LeafChain.Walk: the walk is required to meet only nodes that can be fetched; for others the C begins again at the
  first leaf and does not end.
- `UTF_ESCAPE_ILLEGAL`, SFM conversions, byte swapping inside the converters, `utf8_normalizestr`, and decomposition in
  the encoder and the length predictor.
- Utf8Decoder.DecodeStr: the tables for characters outside Hangul are parameters, whose decompositions are required not
  to be empty.
- Transcoding.DecodeOrders: precomposed output is not covered, except by RoundTrips.ComposeUndoesDecompose where
  decompositions compose again; what composing does to other text is not stated.
- The 128-unit limit of `str_to_hfsuc`: conversions are stated with buffers of any size.
- Extents.FindRecord: keys are taken to have their full length, and records 64 bytes of data; the file is required to
  hold an overflow tree or an empty one.
- ExtentCollection.GetExtentList: totals of the fork and its records below 2^31 are required, for the integers that add
  them up.
- BlockReads.ReadForkRange: forks of one extent only; reads across extents in `hfs_read_fork` subtract bytes from a
  block count and do not advance the buffer, and nothing is claimed of them.
- BlockReads.VolRead: a failing seek is not modelled, and sums of offset, size and block size are below 2^64.
- CatalogSummary.VolumeSummary.AddRecord: counters are unbounded; `generateForkSummary` only adds up fork fields.
- VolumeSummaries.GenerateVolumeSummary: the data and resource fork summaries are not part of the model, and every leaf
  of the chain is required to be one that can be fetched, where the C dies.
- The 256 literals of the CRC table in `src/volumes/crc32/crc32.c`: the table is the one the generator makes.
- The Unicode and case-folding tables as literals.
