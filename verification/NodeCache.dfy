/** The node cache itself (`src/hfs/btree/cache.c`): a doubly linked list behind a sentinel, and an index by key.
    `insque` and `remque` are written out; the search tree behind `tfind`, `tsearch` and `tdelete` is a map. */
module NodeCache {
  import opened MachineTypes
  import opened Checks
  import opened Recency

  class CacheRecord {
    var next: CacheRecord?
    var prev: CacheRecord?
    var key: nat
    var data: seq<u8>                 // the private copy memcpy makes

    constructor ()
      ensures next == null && prev == null && key == 0 && data == []
    {
      next, prev, key, data := null, null, 0, [];
    }
  }

  ghost function KeptCheck(index: map<nat, CacheRecord>, data: map<nat, seq<u8>>, records: set<CacheRecord>): Check
    reads records`key, records`data
  {
    if
      && index.Keys == data.Keys
      && forall k <- index :: index[k] in records && index[k].key == k && index[k].data == data[k]
    then Holds else Fails
  }

  /** The index leads from each key to the record that has it and holds its data. */
  ghost predicate Kept(index: map<nat, CacheRecord>, data: map<nat, seq<u8>>, records: set<CacheRecord>)
    reads records`key, records`data
  {
    KeptCheck(index, data, records) == Holds
  }

  /** The records, in list order, are those of the keys in that order. */
  ghost predicate Ordered(index: map<nat, CacheRecord>, order: seq<nat>, nodes: seq<CacheRecord>) {
    && |order| == |nodes|
    && forall i :: 0 <= i < |order| ==> order[i] in index && index[order[i]] == nodes[i]
  }

  ghost function Tracking(index: map<nat, CacheRecord>, c: State, max: nat, live: seq<CacheRecord>,
                          records: set<CacheRecord>): Check
    reads records`key, records`data
  {
    if Kept(index, c.data, records) && Ordered(index, c.order, live) && Wellformed(c, max) then Holds else Fails
  }

  // ----- facts about lists of records -----

  lemma CutOut<T>(s: seq<T>, at: nat)
    requires Distinct(s) && at < |s|
    ensures s[at] !in Cut(s, at) && Distinct(Cut(s, at))
  {}

  lemma ConsFacts<T>(first: T, s: seq<T>)
    requires Distinct([first] + s)
    ensures first !in s
    ensures s != [] ==> Cut([first] + s, |s|) == [first] + s[..|s| - 1]
  {
    forall i | 0 <= i < |s| ensures s[i] != first {
      assert ([first] + s)[i + 1] != ([first] + s)[0];
    }
  }

  lemma OrderedCut(index: map<nat, CacheRecord>, order: seq<nat>, nodes: seq<CacheRecord>, at: nat)
    requires Ordered(index, order, nodes) && Distinct(order) && at < |order|
    ensures Remove(order, order[at]) == Cut(order, at)
    ensures Ordered(index, Cut(order, at), Cut(nodes, at))
    ensures Ordered(index - {order[at]}, Cut(order, at), Cut(nodes, at))
  {
    RemoveIsCut(order, at);
    CutOut(order, at);
  }

  lemma OrderedCons(index: map<nat, CacheRecord>, order: seq<nat>, nodes: seq<CacheRecord>, key: nat)
    requires Ordered(index, order, nodes) && key in index
    ensures Ordered(index, [key] + order, [index[key]] + nodes)
  {}

  lemma KeptWithout(index: map<nat, CacheRecord>, data: map<nat, seq<u8>>, records: set<CacheRecord>, key: nat)
    requires Kept(index, data, records)
    ensures Kept(index - {key}, data - {key}, records)
  {}

  lemma KeptWith(index: map<nat, CacheRecord>, data: map<nat, seq<u8>>, records: set<CacheRecord>, r: CacheRecord)
    requires Kept(index, data, records) && r in records
    ensures Kept(index[r.key := r], data[r.key := r.data], records)
  {}

  lemma KeptAmongMore(index: map<nat, CacheRecord>, data: map<nat, seq<u8>>, records: set<CacheRecord>,
                      more: set<CacheRecord>)
    requires Kept(index, data, records) && records <= more
    ensures Kept(index, data, more)
  {}

  lemma OrderedWith(index: map<nat, CacheRecord>, order: seq<nat>, nodes: seq<CacheRecord>, key: nat, r: CacheRecord)
    requires Ordered(index, order, nodes) && key !in index
    ensures Ordered(index[key := r], [key] + order, [r] + nodes)
  {
    OrderedCons(index[key := r], order, nodes, key);
  }

  /** memcpy of at most len bytes to the start of a buffer. */
  function Overlay(buf: seq<u8>, data: seq<u8>, len: nat): (r: seq<u8>)
    requires len <= |buf|
    ensures |r| == |buf|
  {
    var n := if |data| < len then |data| else len;
    data[..n] + buf[n..]
  }

  lemma OverlayAt(buf: seq<u8>, data: seq<u8>, len: nat, i: nat)
    requires len <= |buf| && i < |buf|
    ensures Overlay(buf, data, len)[i] == if i < len && i < |data| then data[i] else buf[i]
  {}

  /** The memcpy in cache_get. */
  method CopyOut(data: seq<u8>, buf: array<u8>, len: nat)
    requires len <= buf.Length
    modifies buf
    ensures buf[..] == Overlay(old(buf[..]), data, len)
  {
    var n := if |data| < len then |data| else len;
    forall i | 0 <= i < n {
      buf[i] := data[i];
    }
  }

  class Cache {
    const maxRecords: nat
    const records: CacheRecord        // the sentinel: it holds no data
    var recordCount: nat
    var index: map<nat, CacheRecord>

    ghost var Nodes: seq<CacheRecord> // the records behind the sentinel, in list order
    ghost var Live: seq<CacheRecord>  // those of them that are counted and indexed
    ghost var Contents: State         // what these hold
    ghost var Repr: set<CacheRecord>  // every record ever linked, and the sentinel

    ghost function LinkCheck(): Check
      reads this`Nodes, this`Repr, Repr`next, Repr`prev
    {
      if
        && records in Repr && (forall n <- Nodes :: n in Repr)
        && records !in Nodes && Distinct(Nodes)
        && records.prev == null
        && records.next == (if Nodes == [] then null else Nodes[0])
        && (forall i {:trigger Nodes[i].next} :: 0 <= i < |Nodes| ==>
              Nodes[i].next == if i + 1 < |Nodes| then Nodes[i + 1] else null)
        && (forall i {:trigger Nodes[i].prev} :: 0 <= i < |Nodes| ==>
              Nodes[i].prev == if i == 0 then records else Nodes[i - 1])
      then Holds else Fails
    }

    /** The list: every link and back link, starting from the sentinel. */
    ghost predicate Linked()
      reads this`Nodes, this`Repr, Repr`next, Repr`prev
    {
      LinkCheck() == Holds
    }

    /** The live records are indexed and hold the contents. */
    ghost predicate Tracked()
      reads this`Live, this`index, this`Contents, this`Repr, Repr`key, Repr`data
    {
      Tracking(index, Contents, maxRecords, Live, Repr) == Holds
    }

    ghost predicate Valid()
      reads this, Repr
    {
      && Linked()
      && Tracked()
      && Live == Nodes
      && recordCount == |Live|
    }

    lemma WellformedContents()
      requires Valid()
      ensures Wellformed(Contents, maxRecords)
    {}

    /** cache_init */
    constructor (numRecords: nat)
      ensures Valid() && fresh(Repr)
      ensures maxRecords == numRecords && Contents == EMPTY
    {
      maxRecords := numRecords;
      recordCount := 0;
      index := map[];
      records := new CacheRecord();
      Nodes, Live, Contents := [], [], EMPTY;
      new;
      Repr := {records};
    }

    /** insque(record, records): the record becomes the first one behind the sentinel. */
    method Insque(record: CacheRecord)
      requires Linked() && record !in Nodes && record != records
      modifies this`Nodes, this`Repr, Repr`next, Repr`prev, record`next, record`prev
      ensures Linked() && Nodes == [record] + old(Nodes)
      ensures Repr == old(Repr) + {record}
    {
      record.next := records.next;
      record.prev := records;
      if records.next != null {
        records.next.prev := record;
      }
      records.next := record;
      Nodes := [record] + Nodes;
      Repr := Repr + {record};
    }

    /** remque(record): its neighbours are joined. */
    method Remque(record: CacheRecord, ghost at: nat)
      requires Linked() && at < |Nodes| && Nodes[at] == record
      modifies this`Nodes, Repr`next, Repr`prev
      ensures Linked() && Nodes == Cut(old(Nodes), at)
    {
      record.prev.next := record.next;
      if record.next != null {
        record.next.prev := record.prev;
      }
      Nodes := Cut(Nodes, at);
    }

    /** cache_record_get_ */
    method RecordGet(key: nat) returns (record: CacheRecord?, ghost at: nat)
      requires Valid()
      ensures record == null <==> key !in Contents.data
      ensures record != null ==> at < |Nodes| && Nodes[at] == record && Contents.order[at] == key
    {
      at := 0;
      if key in index {
        record := index[key];
        at :| 0 <= at < |Contents.order| && Contents.order[at] == key;
      } else {
        record := null;
      }
    }

    lemma TrackedKey(at: nat)
      requires Tracked() && at < |Live|
      ensures at < |Contents.order| && Contents.order[at] == Live[at].key && Live[at].key in index
    {}

    lemma TrackedWithout(at: nat)
      requires Tracked() && at < |Live|
      ensures var k := Live[at].key;
              Tracking(index - {k}, Without(Contents, k), maxRecords, Cut(Live, at), Repr) == Holds
    {
      var k := Live[at].key;
      OrderedCut(index, Contents.order, Live, at);
      KeptWithout(index, Contents.data, Repr, k);
      WithoutKeeps(Contents, maxRecords, k);
    }

    /** The first half of cache_record_remove_: out of the count and the index. */
    method Forget(record: CacheRecord, ghost at: nat)
      requires Tracked() && at < |Live| && Live[at] == record
      modifies this`recordCount, this`index, this`Contents, this`Live
      ensures Tracked() && Live == Cut(old(Live), at)
      ensures recordCount == if old(recordCount) > 0 then old(recordCount) - 1 else 0
      ensures Contents == Without(old(Contents), old(Contents.order)[at])
      ensures index == old(index) - {old(Contents.order)[at]}
    {
      if recordCount > 0 {
        recordCount := recordCount - 1;
      }
      TrackedKey(at);
      TrackedWithout(at);
      ghost var live, c := Cut(Live, at), Without(Contents, record.key);
      index := index - {record.key};
      Live, Contents := live, c;
    }

    /** cache_record_remove_ */
    method RecordRemove(record: CacheRecord, ghost at: nat, ghost liveAt: nat)
      requires Linked() && at < |Nodes| && Nodes[at] == record
      requires Tracked() && liveAt < |Live| && Live[liveAt] == record
      modifies this`recordCount, this`index, this`Contents, this`Live, this`Nodes, Repr`next, Repr`prev
      ensures Linked() && Nodes == Cut(old(Nodes), at)
      ensures Tracked() && Live == Cut(old(Live), liveAt)
      ensures recordCount == if old(recordCount) > 0 then old(recordCount) - 1 else 0
      ensures Contents == Without(old(Contents), old(Contents.order)[liveAt])
      ensures index == old(index) - {old(Contents.order)[liveAt]}
    {
      Forget(record, liveAt);
      Remque(record, at);
    }

    /** The last record of the list. */
    method LastRecord() returns (r: CacheRecord)
      requires Linked() && Nodes != []
      ensures r == Nodes[|Nodes| - 1]
    {
      r := records;
      ghost var seen := 0;
      while r.next != null
        invariant 0 <= seen <= |Nodes|
        invariant r == if seen == 0 then records else Nodes[seen - 1]
        decreases |Nodes| - seen
      {
        r := r.next;
        seen := seen + 1;
      }
    }

    /** The eviction in cache_record_new_: the least recently used record goes, the one being added stays. */
    method EvictLast(ghost added: CacheRecord)
      requires Linked() && Tracked() && Nodes == [added] + Live && recordCount == |Live| > maxRecords
      modifies this`recordCount, this`index, this`Contents, this`Live, this`Nodes, Repr`next, Repr`prev
      ensures Linked() && Tracked() && Nodes == [added] + Live && recordCount == |Live|
      ensures Contents == Evict(old(Contents), maxRecords)
      ensures index.Values <= old(index.Values)
    {
      ghost var last := |Live| - 1;
      ConsFacts(added, Live);
      RemoveIsCut(Contents.order, last);
      var r := LastRecord();
      RecordRemove(r, last + 1, last);
    }

    /** A blank record at the front, not counted yet. */
    method Enlist() returns (record: CacheRecord)
      requires Valid()
      modifies this`Nodes, this`Repr, Repr`next, Repr`prev
      ensures Linked() && Tracked() && Nodes == [record] + Live
      ensures fresh(record) && Repr == old(Repr) + {record} && record !in index.Values
    {
      record := new CacheRecord();
      ghost var before := Repr;
      Insque(record);
      KeptAmongMore(index, Contents.data, before, Repr);
    }

    /** The last record goes if the count is over the limit, and the new one is counted. */
    method CountIn(ghost added: CacheRecord)
      requires Linked() && Tracked() && Nodes == [added] + Live && recordCount == |Live|
      modifies this`recordCount, this`index, this`Contents, this`Live, this`Nodes, Repr`next, Repr`prev
      ensures Linked() && Tracked() && Nodes == [added] + Live && recordCount == |Live| + 1
      ensures Contents == Evict(old(Contents), maxRecords)
      ensures index.Values <= old(index.Values)
    {
      assert |Contents.order| == |Live|;
      if recordCount > maxRecords {
        EvictLast(added);
      }
      recordCount := recordCount + 1;
    }

    /** cache_record_new_: a blank record at the front; the last record goes if the count is over the limit. */
    method RecordNew() returns (record: CacheRecord)
      requires Valid()
      modifies this`recordCount, this`index, this`Contents, this`Live, this`Nodes, this`Repr, Repr`next, Repr`prev
      ensures Linked() && Tracked() && Nodes == [record] + Live
      ensures fresh(record) && Repr == old(Repr) + {record} && record !in index.Values
      ensures recordCount == |Live| + 1
      ensures Contents == Evict(old(Contents), maxRecords)
    {
      record := Enlist();
      CountIn(record);
    }

    /** cache_rem */
    method Rem(key: nat)
      requires Valid()
      modifies this`recordCount, this`index, this`Contents, this`Live, this`Nodes, Repr`next, Repr`prev
      ensures Valid()
      ensures Contents == Without(old(Contents), key)
    {
      var record, at := RecordGet(key);
      if record != null {
        RecordRemove(record, at, at);
      } else {
        WithoutAbsent(Contents, maxRecords, key);
      }
    }

    /** cache_set: the data is copied into a buffer of the record's own. */
    method Set(buf: array<u8>, len: nat, key: nat)
      requires Valid() && len <= buf.Length
      modifies this`recordCount, this`index, this`Contents, this`Live, this`Nodes, this`Repr, Repr`next, Repr`prev
      ensures Valid() && fresh(Repr - old(Repr))
      ensures Contents == AfterSet(old(Contents), maxRecords, key, old(buf[..len]))
    {
      var data := buf[..len];
      SetSteps(Contents, maxRecords, key, data);
      Rem(key);
      Store(data, key);
    }

    /** cache_set once the key is free. */
    method Store(data: seq<u8>, key: nat)
      requires Valid() && key !in Contents.data && |Evict(Contents, maxRecords).order| <= maxRecords
      modifies this`recordCount, this`index, this`Contents, this`Live, this`Nodes, this`Repr, Repr`next, Repr`prev
      ensures Valid() && fresh(Repr - old(Repr))
      ensures Contents == Prepend(Evict(old(Contents), maxRecords), key, data)
    {
      EvictAbsent(Contents, maxRecords, key);
      var record := RecordNew();
      Fill(record, data, key);
    }

    /** The rest of cache_set: the new record gets its key and its copy of the data, and a place in the index. */
    method Fill(record: CacheRecord, data: seq<u8>, key: nat)
      requires Linked() && Tracked() && Nodes == [record] + Live && recordCount == |Live| + 1 <= maxRecords + 1
      requires key !in Contents.data && record !in index.Values
      modifies this`index, this`Contents, this`Live, record`key, record`data
      ensures Valid()
      ensures Contents == Prepend(old(Contents), key, data)
    {
      record.key := key;
      record.data := data;
      Register(record);
    }

    /** tsearch: the filled record becomes a live one. */
    method Register(record: CacheRecord)
      requires Linked() && Tracked() && Nodes == [record] + Live && recordCount == |Live| + 1 <= maxRecords + 1
      requires record.key !in Contents.data
      modifies this`index, this`Contents, this`Live
      ensures Valid()
      ensures Contents == Prepend(old(Contents), record.key, record.data)
    {
      PrependKeeps(Contents, maxRecords, record.key, record.data);
      KeptWith(index, Contents.data, Repr, record);
      OrderedWith(index, Contents.order, Live, record.key, record);
      index := index[record.key := record];
      Live, Contents := Nodes, Prepend(Contents, record.key, record.data);
    }

    /** remque, then insque at the front. */
    method Relink(record: CacheRecord, ghost at: nat)
      requires Linked() && at < |Nodes| && Nodes[at] == record
      modifies this`Nodes, this`Repr, Repr`next, Repr`prev
      ensures Linked() && Repr == old(Repr)
      ensures Nodes == [record] + Cut(old(Nodes), at)
    {
      CutOut(Nodes, at);
      Remque(record, at);
      Insque(record);
    }

    lemma TrackedFront(at: nat)
      requires Tracked() && at < |Live|
      ensures at < |Contents.order|
      ensures Tracking(index, AfterGet(Contents, Contents.order[at]), maxRecords, [Live[at]] + Cut(Live, at), Repr)
           == Holds
    {
      var key := Contents.order[at];
      OrderedCut(index, Contents.order, Live, at);
      OrderedCons(index, Cut(Contents.order, at), Cut(Live, at), key);
      GetKeeps(Contents, maxRecords, key);
    }

    /** The contents follow the list. */
    ghost method Reorder(at: nat)
      requires Tracked() && at < |Live|
      modifies this`Contents, this`Live
      ensures Tracked() && Live == [old(Live)[at]] + Cut(old(Live), at)
      ensures Contents == AfterGet(old(Contents), old(Contents.order)[at])
    {
      TrackedFront(at);
      Live, Contents := [Live[at]] + Cut(Live, at), AfterGet(Contents, Contents.order[at]);
    }

    /** A record that has been used goes to the front. */
    method Touch(record: CacheRecord, ghost at: nat)
      requires Valid() && at < |Nodes| && Nodes[at] == record
      modifies this`Contents, this`Live, this`Nodes, this`Repr, Repr`next, Repr`prev
      ensures Valid() && Repr == old(Repr)
      ensures Contents == AfterGet(old(Contents), old(Contents.order)[at])
    {
      Relink(record, at);
      Reorder(at);
    }

    /** cache_get: 1 and a copy of the record's data, or 0. */
    method Get(buf: array<u8>, len: nat, key: nat) returns (r: int)
      requires Valid() && len <= buf.Length
      modifies this`Contents, this`Live, this`Nodes, this`Repr, Repr`next, Repr`prev, buf
      ensures Valid() && Repr == old(Repr)
      ensures Contents == AfterGet(old(Contents), key)
      ensures r == if key in old(Contents.data) then 1 else 0
      ensures buf[..] == if r == 1 then Overlay(old(buf[..]), old(Contents.data)[key], len) else old(buf[..])
    {
      var record, at := RecordGet(key);
      r := 0;
      if record != null {
        Touch(record, at);
        if len > 0 {
          CopyOut(record.data, buf, len);
        }
        r := 1;
      }
    }
  }
}
