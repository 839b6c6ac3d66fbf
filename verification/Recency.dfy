/** The node cache as a value (`src/hfs/btree/cache.c`): the keys of the list behind the sentinel, most recently used
    first, and the data kept for each; and what least-recently-used replacement means for them. */
module Recency {
  import opened MachineTypes

  datatype State = State(order: seq<nat>, data: map<nat, seq<u8>>)

  const EMPTY: State := State([], map[])

  ghost predicate Distinct<T>(s: seq<T>) {
    forall i, j :: 0 <= i < j < |s| ==> s[i] != s[j]
  }

  /** The sequence without its element at i. */
  function Cut<T>(s: seq<T>, i: nat): (r: seq<T>)
    requires i < |s|
    ensures |r| == |s| - 1
    ensures forall j :: 0 <= j < |r| ==> r[j] == s[if j < i then j else j + 1]
  {
    s[..i] + s[i + 1..]
  }

  /** The sequence without its first occurrence of k. */
  function Remove(s: seq<nat>, k: nat): (r: seq<nat>) {
    if s == [] then [] else if s[0] == k then s[1..] else [s[0]] + Remove(s[1..], k)
  }

  lemma {:induction false} RemoveIsCut(s: seq<nat>, i: nat)
    requires i < |s| && Distinct(s)
    ensures Remove(s, s[i]) == Cut(s, i)
  {
    if i > 0 {
      RemoveIsCut(s[1..], i - 1);
      assert Cut(s, i) == [s[0]] + Cut(s[1..], i - 1);
    }
  }

  lemma {:induction false} RemoveAbsent(s: seq<nat>, k: nat)
    requires k !in s
    ensures Remove(s, k) == s
  {
    if s != [] {
      RemoveAbsent(s[1..], k);
    }
  }

  lemma {:induction false} RemoveElements(s: seq<nat>, k: nat)
    requires Distinct(s)
    ensures Distinct(Remove(s, k))
    ensures forall q :: q in Remove(s, k) <==> q in s && q != k
    ensures |Remove(s, k)| == |s| - if k in s then 1 else 0
  {
    if s != [] {
      var t := s[1..];
      assert s == [s[0]] + t;
      assert s[0] !in t;
      RemoveElements(t, k);
      assert s[0] != k ==> s[0] !in Remove(t, k);
    }
  }

  // ----- the operations -----

  function Without(c: State, key: nat): State {
    State(Remove(c.order, key), c.data - {key})
  }

  /** A hit moves the record to the front. */
  function AfterGet(c: State, key: nat): State {
    if key in c.data then c.(order := [key] + Remove(c.order, key)) else c
  }

  /** The record count is compared before the new record is counted, so max + 1 records fit. */
  function Evict(c: State, max: nat): State {
    if |c.order| > max then State(c.order[..|c.order| - 1], c.data - {c.order[|c.order| - 1]}) else c
  }

  function Prepend(c: State, key: nat, data: seq<u8>): State {
    State([key] + c.order, c.data[key := data])
  }

  function AfterSet(c: State, max: nat, key: nat, data: seq<u8>): State {
    Prepend(Evict(Without(c, key), max), key, data)
  }

  // ----- the invariant of every reachable state -----

  ghost predicate Wellformed(c: State, max: nat) {
    Distinct(c.order) && |c.order| <= max + 1 && (forall k :: k in c.data <==> k in c.order)
  }

  lemma WithoutKeeps(c: State, max: nat, key: nat)
    requires Wellformed(c, max)
    ensures Wellformed(Without(c, key), max)
    ensures key in c.data ==> |Without(c, key).order| <= max
  {
    RemoveElements(c.order, key);
  }

  lemma EvictKeeps(c: State, max: nat)
    requires Wellformed(c, max)
    ensures Wellformed(Evict(c, max), max) && |Evict(c, max).order| <= max
  {
    if |c.order| > max {
      var n := |c.order| - 1;
      assert c.order == c.order[..n] + [c.order[n]];
    }
  }

  /** A hit loses nothing. */
  lemma GetKeeps(c: State, max: nat, key: nat)
    requires Wellformed(c, max)
    ensures Wellformed(AfterGet(c, key), max)
    ensures AfterGet(c, key).data == c.data
  {
    RemoveElements(c.order, key);
  }

  lemma WithoutAbsent(c: State, max: nat, key: nat)
    requires Wellformed(c, max) && key !in c.data
    ensures Without(c, key) == c
  {
    RemoveAbsent(c.order, key);
    assert c.data - {key} == c.data;
  }

  /** Storing a key that is already there replaces its data. */
  lemma SetReplaces(c: State, max: nat, key: nat, data: seq<u8>)
    requires Wellformed(c, max) && key in c.data
    ensures AfterSet(c, max, key, data) == Prepend(Without(c, key), key, data)
    ensures AfterSet(c, max, key, data).data == c.data[key := data]
  {
    WithoutKeeps(c, max, key);
    assert (c.data - {key})[key := data] == c.data[key := data];
  }

  /** Storing a new key drops the least recently used record if the cache is full, and nothing else. */
  lemma SetAdds(c: State, max: nat, key: nat, data: seq<u8>)
    requires Wellformed(c, max) && key !in c.data
    ensures AfterSet(c, max, key, data) == Prepend(Evict(c, max), key, data)
    ensures |c.order| <= max ==> AfterSet(c, max, key, data).data == c.data[key := data]
    ensures |c.order| > max ==> AfterSet(c, max, key, data).data == (c.data - {c.order[max]})[key := data]
  {
    WithoutAbsent(c, max, key);
  }

  lemma SetKeeps(c: State, max: nat, key: nat, data: seq<u8>)
    requires Wellformed(c, max)
    ensures Wellformed(AfterSet(c, max, key, data), max)
  {
    var w := Without(c, key);
    WithoutKeeps(c, max, key);
    EvictKeeps(w, max);
    EvictAbsent(w, max, key);
    PrependKeeps(Evict(w, max), max, key, data);
  }

  lemma EvictAbsent(c: State, max: nat, key: nat)
    requires key !in c.data
    ensures key !in Evict(c, max).data
  {}

  lemma PrependKeeps(c: State, max: nat, key: nat, data: seq<u8>)
    requires Wellformed(c, max) && |c.order| <= max && key !in c.data
    ensures Wellformed(Prepend(c, key, data), max)
  {}

  /** The three steps of a store: between them there is room for the key. */
  lemma SetSteps(c: State, max: nat, key: nat, data: seq<u8>)
    requires Wellformed(c, max)
    ensures var e := Evict(Without(c, key), max);
            && key !in Without(c, key).data && |e.order| <= max
            && Prepend(e, key, data) == AfterSet(c, max, key, data)
  {
    WithoutKeeps(c, max, key);
    EvictKeeps(Without(c, key), max);
  }

  // ----- runs: the order is the recency stack, cut at max + 1 -----

  /** Fetch through the cache: a hit moves to the front, a miss stores what `fetch` gives. */
  function Access(c: State, max: nat, key: nat, fetch: nat -> seq<u8>): State {
    if key in c.data then AfterGet(c, key) else AfterSet(c, max, key, fetch(key))
  }

  function AfterTrace(max: nat, trace: seq<nat>, fetch: nat -> seq<u8>): State {
    if trace == [] then EMPTY else
      Access(AfterTrace(max, trace[..|trace| - 1], fetch), max, trace[|trace| - 1], fetch)
  }

  /** The keys of a trace by time of last use, latest first. */
  function Recent(trace: seq<nat>): seq<nat> {
    if trace == [] then [] else
      [trace[|trace| - 1]] + Remove(Recent(trace[..|trace| - 1]), trace[|trace| - 1])
  }

  /** The time of the last use of a key. */
  function LastUse(trace: seq<nat>, k: nat): (t: int)
    ensures -1 <= t < |trace|
    ensures t >= 0 ==> trace[t] == k
    ensures forall j :: t < j < |trace| ==> trace[j] != k
  {
    if trace == [] then -1
    else if trace[|trace| - 1] == k then |trace| - 1
    else LastUse(trace[..|trace| - 1], k)
  }

  /** Keys in falling order of last use. */
  ghost predicate ByLastUse(trace: seq<nat>, r: seq<nat>) {
    forall i, j :: 0 <= i < j < |r| ==> LastUse(trace, r[i]) > LastUse(trace, r[j])
  }

  lemma {:induction false} RemoveSorted(trace: seq<nat>, r: seq<nat>, k: nat)
    requires Distinct(r) && ByLastUse(trace, r)
    ensures ByLastUse(trace, Remove(r, k))
  {
    if k in r {
      var i :| 0 <= i < |r| && r[i] == k;
      RemoveIsCut(r, i);
    } else {
      RemoveAbsent(r, k);
    }
  }

  lemma UseAgain(trace: seq<nat>, k: nat, q: nat)
    ensures LastUse(trace + [k], q) == if q == k then |trace| else LastUse(trace, q)
  {
    assert (trace + [k])[..|trace|] == trace;
  }

  lemma MoveToFront(trace: seq<nat>, k: nat, r: seq<nat>)
    requires Distinct(r) && ByLastUse(trace, r)
    ensures ByLastUse(trace + [k], [k] + Remove(r, k))
  {
    var d := Remove(r, k);
    RemoveElements(r, k);
    RemoveSorted(trace, r, k);
    forall p, q | 0 <= p < q < |d| + 1 ensures LastUse(trace + [k], ([k] + d)[p]) > LastUse(trace + [k], ([k] + d)[q]) {
      assert d[q - 1] in d;
      UseAgain(trace, k, d[q - 1]);
      UseAgain(trace, k, ([k] + d)[p]);
      if p > 0 {
        assert d[p - 1] in d;
      }
    }
  }

  /** The recency stack lists exactly the keys used, each once, in falling order of last use. */
  lemma {:induction false} RecentMeaning(trace: seq<nat>)
    ensures forall k :: k in Recent(trace) <==> k in trace
    ensures ByLastUse(trace, Recent(trace)) && Distinct(Recent(trace))
  {
    if trace != [] {
      var t, k := trace[..|trace| - 1], trace[|trace| - 1];
      assert trace == t + [k];
      RecentMeaning(t);
      MoveToFront(t, k, Recent(t));
      RemoveElements(Recent(t), k);
    }
  }

  function Take(s: seq<nat>, n: nat): seq<nat> {
    if |s| <= n then s else s[..n]
  }

  /** Every record holds what `fetch` gives for its key. */
  ghost predicate Faithful(c: State, fetch: nat -> seq<u8>) {
    forall k :: k in c.data ==> c.data[k] == fetch(k)
  }

  lemma AccessFaithful(c: State, max: nat, k: nat, fetch: nat -> seq<u8>)
    requires Wellformed(c, max) && Faithful(c, fetch)
    ensures Wellformed(Access(c, max, k, fetch), max) && Faithful(Access(c, max, k, fetch), fetch)
  {
    GetKeeps(c, max, k);
    SetKeeps(c, max, k, fetch(k));
    if k !in c.data {
      SetAdds(c, max, k, fetch(k));
    }
  }

  /** The cache holds exactly the max + 1 most recently used keys, in that order, each with the data fetched for it. */
  lemma {:induction false} TraceIsRecent(max: nat, trace: seq<nat>, fetch: nat -> seq<u8>)
    ensures AfterTrace(max, trace, fetch).order == Take(Recent(trace), max + 1)
    ensures Wellformed(AfterTrace(max, trace, fetch), max) && Faithful(AfterTrace(max, trace, fetch), fetch)
  {
    if trace != [] {
      var t, k := trace[..|trace| - 1], trace[|trace| - 1];
      TraceIsRecent(max, t, fetch);
      RecentMeaning(t);
      AccessFaithful(AfterTrace(max, t, fetch), max, k, fetch);
      AccessOrder(AfterTrace(max, t, fetch), Recent(t), max, k, fetch);
    }
  }

  lemma TakeCons(k: nat, s: seq<nat>, n: nat)
    ensures Take([k] + s, n + 1) == [k] + Take(s, n)
  {}

  /** The recency stack, cut, moves as the list does. */
  lemma AccessOrder(c: State, r: seq<nat>, max: nat, k: nat, fetch: nat -> seq<u8>)
    requires Wellformed(c, max) && Distinct(r) && c.order == Take(r, max + 1)
    ensures Access(c, max, k, fetch).order == Take([k] + Remove(r, k), max + 1)
  {
    TakeCons(k, Remove(r, k), max);
    if k in c.order {
      TakeHit(r, max, k);
    } else {
      TakeMiss(r, max, k);
      RemoveAbsent(c.order, k);
    }
  }

  lemma TakeHit(r: seq<nat>, max: nat, k: nat)
    requires Distinct(r) && k in Take(r, max + 1)
    ensures Remove(Take(r, max + 1), k) == Take(Remove(r, k), max)
  {
    var s := Take(r, max + 1);
    var i :| 0 <= i < |s| && s[i] == k;
    RemoveIsCut(s, i);
    RemoveIsCut(r, i);
    CutTake(r, i, max);
  }

  lemma CutTake(r: seq<nat>, i: nat, max: nat)
    requires i < |r| && i <= max
    ensures Cut(Take(r, max + 1), i) == Take(Cut(r, i), max)
  {}

  lemma TakeMiss(r: seq<nat>, max: nat, k: nat)
    requires Distinct(r) && k !in Take(r, max + 1)
    ensures Take(Take(r, max + 1), max) == Take(Remove(r, k), max)
  {
    if k in r {
      var i :| 0 <= i < |r| && r[i] == k;
      assert forall j :: 0 <= j < |Take(r, max + 1)| ==> r[j] == Take(r, max + 1)[j] != k;
      RemoveIsCut(r, i);
      assert Take(Cut(r, i), max) == r[..max];
    } else {
      RemoveAbsent(r, k);
    }
  }

  /** Inclusion: whatever the trace, the list of the smaller cache is a prefix of the larger one's, so every hit in the
      smaller is a hit in the larger, with the same data. */
  lemma StackInclusion(m: nat, n: nat, trace: seq<nat>, fetch: nat -> seq<u8>)
    requires m <= n
    ensures AfterTrace(m, trace, fetch).order <= AfterTrace(n, trace, fetch).order
    ensures forall k :: k in AfterTrace(m, trace, fetch).data ==>
              k in AfterTrace(n, trace, fetch).data
              && AfterTrace(m, trace, fetch).data[k] == AfterTrace(n, trace, fetch).data[k]
  {
    TraceIsRecent(m, trace, fetch);
    TraceIsRecent(n, trace, fetch);
    var a, b := AfterTrace(m, trace, fetch), AfterTrace(n, trace, fetch);
    forall k | k in a.data ensures k in b.data && a.data[k] == b.data[k] {
      var i :| 0 <= i < |a.order| && a.order[i] == k;
      assert b.order[i] == k;
    }
  }
}
