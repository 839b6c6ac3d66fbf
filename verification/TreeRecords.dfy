/** The records of a tree, key and data, leaf by leaf. */
module TreeRecords {
  import opened MachineTypes
  import opened Sequences
  import opened Orders
  import opened TreeModel
  import opened TreeSearch

  /** The data of some leaves, in order. */
  function Values<K>(nodes: nat -> Node<K>, leaves: seq<nat>): seq<seq<u8>> {
    if leaves == [] then [] else nodes(leaves[0]).values + Values(nodes, leaves[1..])
  }

  /** With one more leaf. */
  lemma {:induction false} ValuesNext<K>(nodes: nat -> Node<K>, leaves: seq<nat>, i: nat)
    requires i < |leaves|
    ensures Values(nodes, leaves[..i + 1]) == Values(nodes, leaves[..i]) + nodes(leaves[i]).values
    decreases i
  {
    if i > 0 {
      var more := leaves[1..];
      assert leaves[..i + 1][1..] == more[..i] && leaves[..i][1..] == more[..i - 1];
      ValuesNext(nodes, more, i - 1);
      Associative(nodes(leaves[0]).values, Values(nodes, more[..i - 1]), nodes(leaves[i]).values);
    }
  }

  ghost predicate SameCounts<K>(nodes: nat -> Node<K>, leaves: seq<nat>) {
    forall i :: 0 <= i < |leaves| ==> |nodes(leaves[i]).values| == |nodes(leaves[i]).keys|
  }

  /** Record r of leaf p, among all records. */
  lemma {:induction false} RecordAt<K>(nodes: nat -> Node<K>, leaves: seq<nat>, p: nat, r: nat)
    requires SameCounts(nodes, leaves) && p < |leaves| && r < |nodes(leaves[p]).keys|
    ensures |Keys(nodes, leaves)| == |Values(nodes, leaves)|
    ensures var i := |Keys(nodes, leaves[..p])| + r;
            && i < |Keys(nodes, leaves)| && Keys(nodes, leaves)[i] == nodes(leaves[p]).keys[r]
            && Values(nodes, leaves)[i] == nodes(leaves[p]).values[r]
    decreases p
  {
    CountsMatch(nodes, leaves[1..]);
    if p > 0 {
      RecordAt(nodes, leaves[1..], p - 1, r);
      assert leaves[..p][1..] == leaves[1..][..p - 1];
    }
  }

  lemma {:induction false} CountsMatch<K>(nodes: nat -> Node<K>, leaves: seq<nat>)
    requires SameCounts(nodes, leaves)
    ensures |Keys(nodes, leaves)| == |Values(nodes, leaves)|
  {
    if leaves != [] {
      CountsMatch(nodes, leaves[1..]);
    }
  }

  /** The leaves of a well-formed tree are leaves. */
  lemma {:induction false} LeavesAreLeaves<K>(cmp: (K, K) -> int, nodes: nat -> Node<K>, readable: nat -> bool,
                                              n: nat, level: nat, i: nat)
    requires Shape(cmp, nodes, readable, n, level) && i < |Leaves(nodes, n, level)|
    ensures Shape(cmp, nodes, readable, Leaves(nodes, n, level)[i], 1)
    decreases level, 0
  {
    if level > 1 {
      LeavesOfAreLeaves(cmp, nodes, readable, nodes(n).children, level - 1, i);
    }
  }

  lemma {:induction false} LeavesOfAreLeaves<K>(cmp: (K, K) -> int, nodes: nat -> Node<K>, readable: nat -> bool,
                                                ns: seq<nat>, level: nat, i: nat)
    requires forall j :: 0 <= j < |ns| ==> Shape(cmp, nodes, readable, ns[j], level)
    requires i < |LeavesOf(nodes, ns, level)|
    ensures Shape(cmp, nodes, readable, LeavesOf(nodes, ns, level)[i], 1)
    decreases level, |ns| + 1
  {
    var first := |Leaves(nodes, ns[0], level)|;
    if i < first {
      LeavesAreLeaves(cmp, nodes, readable, ns[0], level, i);
    } else {
      LeavesOfAreLeaves(cmp, nodes, readable, ns[1..], level, i - first);
    }
  }

  /** Key r of leaf p, among all keys. */
  lemma {:induction false} KeyAt<K>(nodes: nat -> Node<K>, leaves: seq<nat>, p: nat, r: nat)
    requires p < |leaves| && r < |nodes(leaves[p]).keys|
    ensures var i := |Keys(nodes, leaves[..p])| + r;
            i < |Keys(nodes, leaves)| && Keys(nodes, leaves)[i] == nodes(leaves[p]).keys[r]
    decreases p
  {
    if p > 0 {
      KeyAt(nodes, leaves[1..], p - 1, r);
      assert leaves[..p][1..] == leaves[1..][..p - 1];
    }
  }

  /** What a search says about the keys that compare equal to x, whatever the order. */
  lemma SearchedKeys<K(!new)>(t: Tree<K>, x: K, r: SearchResult)
    requires t.WellFormed() && t.Correct(x, r)
    ensures r.Done? || r == Critical
    ensures r.Done? ==> r.node in t.AllLeaves() && r.index < |t.nodes(r.node).keys|
    ensures r.Done? && r.found ==>
              t.cmp(x, t.nodes(r.node).keys[r.index]) == 0 && t.nodes(r.node).keys[r.index] in t.AllKeys()
    ensures !(r.Done? && r.found) ==> forall k :: k in t.AllKeys() ==> t.cmp(x, k) != 0
  {
    if r.Done? {
      var p :| 0 <= p < |t.AllLeaves()| && t.AnswersAt(x, r, p);
      KeyAt(t.nodes, t.AllLeaves(), p, r.index);
    } else {
      BelowFirst(t.cmp, t.AllKeys(), x);
    }
  }

  lemma BelowFirst<K(!new)>(cmp: (K, K) -> int, keys: seq<K>, x: K)
    requires IsOrder(cmp) && Sorted(cmp, keys) && keys != [] && cmp(x, keys[0]) < 0
    ensures forall k :: k in keys ==> cmp(x, k) < 0
  {
    forall i | 0 <= i < |keys| ensures cmp(x, keys[i]) < 0 {
      if i > 0 {
        OrderTransitive(cmp, x, keys[0], keys[i]);
      }
    }
  }

  /** Entry i of a list of keys and a list of data. */
  ghost predicate Entry<K>(keys: seq<K>, values: seq<seq<u8>>, i: nat, key: K, value: seq<u8>) {
    i < |keys| && i < |values| && keys[i] == key && values[i] == value
  }

  ghost predicate HasEntry<K>(keys: seq<K>, values: seq<seq<u8>>, key: K, value: seq<u8>) {
    exists i: nat :: Entry(keys, values, i, key, value)
  }

  /** With a comparator that is 0 only on equal keys, the answer to a search says whether the key is there. */
  lemma AnswerIsMembership<K(!new)>(cmp: (K, K) -> int, keys: seq<K>, x: K, i: nat, found: bool)
    requires Answer(cmp, keys, x, i, found) && forall a, b :: cmp(a, b) == 0 <==> a == b
    ensures if found then keys[i] == x else x !in keys
  {}

  /** A search that ended at a leaf, in terms of all records of the tree. */
  lemma DoneEntry<K(!new)>(t: Tree<K>, x: K, r: SearchResult) returns (p: nat)
    requires t.Correct(x, r) && r.Done? && SameCounts(t.nodes, t.AllLeaves())
    requires forall a, b :: t.cmp(a, b) == 0 <==> a == b
    ensures p < |t.AllLeaves()| && t.AllLeaves()[p] == r.node
    ensures r.index < |t.nodes(r.node).keys| == |t.nodes(r.node).values|
    ensures HasEntry(t.AllKeys(), Values(t.nodes, t.AllLeaves()),
                     t.nodes(r.node).keys[r.index], t.nodes(r.node).values[r.index])
    ensures if r.found then t.nodes(r.node).keys[r.index] == x else x !in t.AllKeys()
  {
    p :| 0 <= p < |t.AllLeaves()| && t.AnswersAt(x, r, p);
    RecordAt(t.nodes, t.AllLeaves(), p, r.index);
    var i := |Keys(t.nodes, t.AllLeaves()[..p])| + r.index;
    AnswerIsMembership(t.cmp, t.AllKeys(), x, i, r.found);
    assert Entry(t.AllKeys(), Values(t.nodes, t.AllLeaves()), i,
                 t.nodes(r.node).keys[r.index], t.nodes(r.node).values[r.index]);
  }
}
