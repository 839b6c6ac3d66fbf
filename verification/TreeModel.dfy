/** B-trees as values, after sections "B-Trees" and "Keyed Records" of Apple Technote 1150: what a well-formed tree is,
    which records it holds and in which order, and how a search for a key narrows down the records left. */
module TreeModel {
  import opened MachineTypes
  import opened Orders

  datatype Node<K> = Node(leaf: bool, height: nat, fLink: nat, keys: seq<K>, children: seq<nat>,
                          values: seq<seq<u8>>)

  // ----- sorted sequences and what a search in one should answer -----

  ghost predicate Sorted<K>(cmp: (K, K) -> int, s: seq<K>) {
    forall i, j :: 0 <= i < j < |s| ==> cmp(s[i], s[j]) < 0
  }

  /** Found: the record at i compares equal. Not found: no record does, and i is the last record below x, or 0. */
  ghost predicate Answer<K>(cmp: (K, K) -> int, s: seq<K>, x: K, i: nat, found: bool) {
    && i < |s|
    && (found ==> cmp(x, s[i]) == 0)
    && (!found ==> && (forall j :: 0 <= j < i ==> cmp(x, s[j]) > 0)
                   && (forall j :: i < j < |s| ==> cmp(x, s[j]) < 0)
                   && cmp(x, s[i]) != 0 && (i > 0 ==> cmp(x, s[i]) > 0))
  }

  /** The answer is the only one. */
  lemma AnswerUnique<K(!new)>(cmp: (K, K) -> int, s: seq<K>, x: K, i: nat, found: bool, j: nat, found': bool)
    requires IsOrder(cmp) && Sorted(cmp, s)
    requires Answer(cmp, s, x, i, found) && Answer(cmp, s, x, j, found')
    ensures i == j && found == found'
  {
    if found && found' && i != j {
      OrderTransitive(cmp, x, s[i], s[j]);
    }
  }

  // ----- trees -----

  /** A subtree of uniform depth: index nodes above, leaves at level 1, every index key equal to the first key of the
      node it points to, and every node one the program can read. */
  ghost predicate Shape<K>(cmp: (K, K) -> int, nodes: nat -> Node<K>, readable: nat -> bool, n: nat, level: nat)
    decreases level
  {
    && level > 0 && readable(n) && n != 0
    && nodes(n).height == level && nodes(n).keys != []
    && nodes(n).leaf == (level == 1)
    && (level > 1 ==>
          && |nodes(n).children| == |nodes(n).keys|
          && forall i :: 0 <= i < |nodes(n).children| ==>
               && Shape(cmp, nodes, readable, nodes(n).children[i], level - 1)
               && cmp(nodes(n).keys[i], nodes(nodes(n).children[i]).keys[0]) == 0)
  }

  /** The leaves below a node, left to right. */
  function Leaves<K>(nodes: nat -> Node<K>, n: nat, level: nat): seq<nat>
    decreases level, 0
  {
    if level <= 1 then [n] else LeavesOf(nodes, nodes(n).children, level - 1)
  }

  function LeavesOf<K>(nodes: nat -> Node<K>, ns: seq<nat>, level: nat): seq<nat>
    decreases level, |ns| + 1
  {
    if ns == [] then [] else Leaves(nodes, ns[0], level) + LeavesOf(nodes, ns[1..], level)
  }

  /** The records of some leaves, in order. */
  function Keys<K>(nodes: nat -> Node<K>, leaves: seq<nat>): seq<K> {
    if leaves == [] then [] else nodes(leaves[0]).keys + Keys(nodes, leaves[1..])
  }

  lemma {:induction false} LeavesOfAppend<K>(nodes: nat -> Node<K>, a: seq<nat>, b: seq<nat>, level: nat)
    ensures LeavesOf(nodes, a + b, level) == LeavesOf(nodes, a, level) + LeavesOf(nodes, b, level)
  {
    if a == [] {
      assert a + b == b;
    } else {
      assert (a + b)[1..] == a[1..] + b;
      LeavesOfAppend(nodes, a[1..], b, level);
    }
  }

  lemma {:induction false} KeysAppend<K>(nodes: nat -> Node<K>, a: seq<nat>, b: seq<nat>)
    ensures Keys(nodes, a + b) == Keys(nodes, a) + Keys(nodes, b)
  {
    if a == [] {
      assert a + b == b;
    } else {
      assert (a + b)[1..] == a[1..] + b;
      KeysAppend(nodes, a[1..], b);
    }
  }

  /** The leaves below an index node, seen from child i. */
  lemma SplitLeaves<K>(nodes: nat -> Node<K>, n: nat, level: nat, i: nat)
    requires level > 1 && i < |nodes(n).children|
    ensures var cs := nodes(n).children;
            Leaves(nodes, n, level)
            == LeavesOf(nodes, cs[..i], level - 1) + Leaves(nodes, cs[i], level - 1)
               + LeavesOf(nodes, cs[i + 1..], level - 1)
  {
    var cs := nodes(n).children;
    assert cs == cs[..i] + ([cs[i]] + cs[i + 1..]);
    LeavesOfAppend(nodes, cs[..i], [cs[i]] + cs[i + 1..], level - 1);
  }

  lemma SplitKeys<K>(nodes: nat -> Node<K>, n: nat, level: nat, i: nat)
    requires level > 1 && i < |nodes(n).children|
    ensures var cs := nodes(n).children;
            Keys(nodes, Leaves(nodes, n, level))
            == Keys(nodes, LeavesOf(nodes, cs[..i], level - 1)) + Keys(nodes, Leaves(nodes, cs[i], level - 1))
               + Keys(nodes, LeavesOf(nodes, cs[i + 1..], level - 1))
  {
    var cs := nodes(n).children;
    var a, b, c := LeavesOf(nodes, cs[..i], level - 1), Leaves(nodes, cs[i], level - 1),
                   LeavesOf(nodes, cs[i + 1..], level - 1);
    SplitLeaves(nodes, n, level, i);
    KeysAppend(nodes, a + b, c);
    KeysAppend(nodes, a, b);
  }

  /** The first key of a subtree is, up to the order, the first key of its root node. */
  lemma {:induction false} FirstKey<K(!new)>(cmp: (K, K) -> int, nodes: nat -> Node<K>, readable: nat -> bool,
                                             n: nat, level: nat)
    requires IsOrder(cmp) && Shape(cmp, nodes, readable, n, level)
    ensures Keys(nodes, Leaves(nodes, n, level)) != []
    ensures cmp(nodes(n).keys[0], Keys(nodes, Leaves(nodes, n, level))[0]) == 0
    decreases level
  {
    if level == 1 {
      assert Keys(nodes, [n]) == nodes(n).keys + Keys(nodes, []);
      assert cmp(nodes(n).keys[0], nodes(n).keys[0]) == -cmp(nodes(n).keys[0], nodes(n).keys[0]);
    } else {
      var c := nodes(n).children[0];
      FirstKey(cmp, nodes, readable, c, level - 1);
      SplitKeys(nodes, n, level, 0);
      assert nodes(n).children[..0] == [];
      OrderTransitive(cmp, nodes(n).keys[0], nodes(c).keys[0], Keys(nodes, Leaves(nodes, c, level - 1))[0]);
    }
  }

  /** The first key among the leaves of some sibling subtrees. */
  lemma FirstKeyOf<K(!new)>(cmp: (K, K) -> int, nodes: nat -> Node<K>, readable: nat -> bool, ns: seq<nat>, level: nat)
    requires IsOrder(cmp) && ns != [] && Shape(cmp, nodes, readable, ns[0], level)
    ensures var ks := Keys(nodes, LeavesOf(nodes, ns, level));
            ks != [] && cmp(nodes(ns[0]).keys[0], ks[0]) == 0
  {
    FirstKey(cmp, nodes, readable, ns[0], level);
    KeysAppend(nodes, Leaves(nodes, ns[0], level), LeavesOf(nodes, ns[1..], level));
  }

  // ----- going down one level -----

  lemma {:induction false} AdjacentSorted<K(!new)>(cmp: (K, K) -> int, s: seq<K>, i: nat, j: nat)
    requires IsOrder(cmp) && i < j < |s|
    requires forall k, l :: 0 <= k < l < |s| && l == k + 1 ==> cmp(s[k], s[l]) < 0
    ensures cmp(s[i], s[j]) < 0
  {
    if i + 1 < j {
      AdjacentSorted(cmp, s, i, j - 1);
      assert cmp(s[j - 1], s[j]) < 0;
      OrderTransitive(cmp, s[i], s[j - 1], s[j]);
    }
  }

  /** The keys of an index node next to each other are in order, because the first keys of the subtrees are. */
  lemma IndexNeighbours<K(!new)>(cmp: (K, K) -> int, nodes: nat -> Node<K>, readable: nat -> bool,
                                 n: nat, level: nat, i: nat)
    requires IsOrder(cmp) && Shape(cmp, nodes, readable, n, level) && level > 1
    requires Sorted(cmp, Keys(nodes, Leaves(nodes, n, level))) && i + 1 < |nodes(n).keys|
    ensures cmp(nodes(n).keys[i], nodes(n).keys[i + 1]) < 0
  {
    var cs, ks, l := nodes(n).children, nodes(n).keys, Keys(nodes, Leaves(nodes, n, level));
    var a := Keys(nodes, LeavesOf(nodes, cs[..i], level - 1));
    var b := Keys(nodes, Leaves(nodes, cs[i], level - 1));
    var c := Keys(nodes, LeavesOf(nodes, cs[i + 1..], level - 1));
    SplitKeys(nodes, n, level, i);
    FirstKey(cmp, nodes, readable, cs[i], level - 1);
    FirstKeyOf(cmp, nodes, readable, cs[i + 1..], level - 1);
    assert l[|a|] == b[0] && l[|a| + |b|] == c[0];
    BelowThrough(cmp, ks[i], nodes(cs[i]).keys[0], b[0], ks[i + 1], nodes(cs[i + 1]).keys[0], c[0]);
  }

  lemma BelowThrough<K(!new)>(cmp: (K, K) -> int, k: K, x: K, b: K, l: K, y: K, c: K)
    requires IsOrder(cmp) && cmp(k, x) == 0 && cmp(x, b) == 0 && cmp(l, y) == 0 && cmp(y, c) == 0 && cmp(b, c) < 0
    ensures cmp(k, l) < 0
  {
    OrderTransitive(cmp, k, x, b);
    OrderTransitive(cmp, l, y, c);
    OrderTransitive(cmp, k, b, c);
    OrderTransitive(cmp, l, c, k);
    assert cmp(k, l) == -cmp(l, k) && cmp(k, c) == -cmp(c, k);
  }

  lemma IndexSorted<K(!new)>(cmp: (K, K) -> int, nodes: nat -> Node<K>, readable: nat -> bool, n: nat, level: nat)
    requires IsOrder(cmp) && Shape(cmp, nodes, readable, n, level)
    requires Sorted(cmp, Keys(nodes, Leaves(nodes, n, level)))
    ensures Sorted(cmp, nodes(n).keys)
  {
    var ks := nodes(n).keys;
    if level == 1 {
      assert Keys(nodes, [n]) == ks + Keys(nodes, []) == ks;
    } else {
      forall k, l | 0 <= k < l < |ks| && l == k + 1 ensures cmp(ks[k], ks[l]) < 0 {
        IndexNeighbours(cmp, nodes, readable, n, level, k);
      }
      forall k, l | 0 <= k < l < |ks| ensures cmp(ks[k], ks[l]) < 0 {
        AdjacentSorted(cmp, ks, k, l);
      }
    }
  }

  /** Every key of s is below x (above x). */
  ghost predicate AllBelow<K>(cmp: (K, K) -> int, s: seq<K>, x: K) { forall k :: 0 <= k < |s| ==> cmp(x, s[k]) > 0 }
  ghost predicate AllAbove<K>(cmp: (K, K) -> int, s: seq<K>, x: K) { forall k :: 0 <= k < |s| ==> cmp(x, s[k]) < 0 }

  lemma BelowFirst<K(!new)>(cmp: (K, K) -> int, a: seq<K>, b: seq<K>, x: K)
    requires IsOrder(cmp) && Sorted(cmp, a + b) && b != [] && cmp(b[0], x) <= 0
    ensures AllBelow(cmp, a, x)
  {
    forall k | 0 <= k < |a| ensures cmp(x, a[k]) > 0 {
      assert (a + b)[k] == a[k] && (a + b)[|a|] == b[0];
      OrderTransitive(cmp, a[k], b[0], x);
      assert cmp(x, a[k]) == -cmp(a[k], x);
    }
  }

  lemma AboveFirst<K(!new)>(cmp: (K, K) -> int, b: seq<K>, x: K)
    requires IsOrder(cmp) && Sorted(cmp, b) && b != [] && cmp(x, b[0]) < 0
    ensures AllAbove(cmp, b, x)
  {
    forall k | 0 <= k < |b| ensures cmp(x, b[k]) < 0 {
      if k > 0 {
        OrderTransitive(cmp, x, b[0], b[k]);
      }
    }
  }

  lemma SortedParts<K>(cmp: (K, K) -> int, a: seq<K>, b: seq<K>, c: seq<K>)
    requires Sorted(cmp, a + b + c)
    ensures Sorted(cmp, a + b) && Sorted(cmp, b) && Sorted(cmp, c)
  {
    var s := a + b + c;
    assert forall i :: 0 <= i < |a + b| ==> (a + b)[i] == s[i];
    assert forall i :: 0 <= i < |b| ==> b[i] == s[|a| + i];
    assert forall i :: 0 <= i < |c| ==> c[i] == s[|a| + |b| + i];
  }

  /** Following the record a node search answers loses nothing: all records to the left of the child's are below the
      key, all to its right are above it, and the key is not below the child's first key. */
  lemma Descend<K(!new)>(cmp: (K, K) -> int, nodes: nat -> Node<K>, readable: nat -> bool, n: nat, level: nat,
                         x: K, i: nat, found: bool)
    requires IsOrder(cmp) && Shape(cmp, nodes, readable, n, level) && level > 1
    requires Sorted(cmp, Keys(nodes, Leaves(nodes, n, level)))
    requires Answer(cmp, nodes(n).keys, x, i, found) && cmp(x, nodes(n).keys[i]) >= 0
    ensures var cs := nodes(n).children;
            && i < |cs| && Shape(cmp, nodes, readable, cs[i], level - 1)
            && Sorted(cmp, Keys(nodes, Leaves(nodes, cs[i], level - 1)))
            && cmp(x, nodes(cs[i]).keys[0]) >= 0
            && AllBelow(cmp, Keys(nodes, LeavesOf(nodes, cs[..i], level - 1)), x)
            && AllAbove(cmp, Keys(nodes, LeavesOf(nodes, cs[i + 1..], level - 1)), x)
  {
    var cs, ks := nodes(n).children, nodes(n).keys;
    var a := Keys(nodes, LeavesOf(nodes, cs[..i], level - 1));
    var b := Keys(nodes, Leaves(nodes, cs[i], level - 1));
    var c := Keys(nodes, LeavesOf(nodes, cs[i + 1..], level - 1));
    SplitKeys(nodes, n, level, i);
    SortedParts(cmp, a, b, c);
    FirstKey(cmp, nodes, readable, cs[i], level - 1);
    NotBelow(cmp, x, ks[i], nodes(cs[i]).keys[0], b[0]);
    BelowFirst(cmp, a, b, x);
    RightAbove(cmp, nodes, readable, n, level, x, i, found, c);
  }

  lemma RightAbove<K(!new)>(cmp: (K, K) -> int, nodes: nat -> Node<K>, readable: nat -> bool, n: nat, level: nat,
                            x: K, i: nat, found: bool, c: seq<K>)
    requires IsOrder(cmp) && Shape(cmp, nodes, readable, n, level) && level > 1
    requires Sorted(cmp, Keys(nodes, Leaves(nodes, n, level))) && Answer(cmp, nodes(n).keys, x, i, found)
    requires i < |nodes(n).children| && c == Keys(nodes, LeavesOf(nodes, nodes(n).children[i + 1..], level - 1))
    requires Sorted(cmp, c)
    ensures AllAbove(cmp, c, x)
  {
    var cs := nodes(n).children;
    if i + 1 < |cs| {
      var rest := cs[i + 1..];
      IndexSorted(cmp, nodes, readable, n, level);
      FirstKeyOf(cmp, nodes, readable, rest, level - 1);
      BelowNext(cmp, x, nodes(n).keys, i, found, nodes(cs[i + 1]).keys[0], c[0]);
      AboveFirst(cmp, c, x);
    }
  }

  /** The key is below the next record, and so below whatever is equal to it. */
  lemma BelowNext<K(!new)>(cmp: (K, K) -> int, x: K, ks: seq<K>, i: nat, found: bool, first: K, least: K)
    requires IsOrder(cmp) && Sorted(cmp, ks) && Answer(cmp, ks, x, i, found) && i + 1 < |ks|
    requires cmp(ks[i + 1], first) == 0 && cmp(first, least) == 0
    ensures cmp(x, least) < 0
  {
    if found {
      OrderTransitive(cmp, x, ks[i], ks[i + 1]);
    }
    OrderTransitive(cmp, ks[i + 1], first, x);
    OrderTransitive(cmp, first, least, x);
  }

  lemma NotBelow<K(!new)>(cmp: (K, K) -> int, x: K, k: K, first: K, least: K)
    requires IsOrder(cmp) && cmp(x, k) >= 0 && cmp(k, first) == 0 && cmp(first, least) == 0
    ensures cmp(x, first) >= 0 && cmp(least, x) <= 0
  {
    OrderTransitive(cmp, k, first, x);
    OrderTransitive(cmp, first, least, x);
    assert cmp(x, first) == -cmp(first, x) && cmp(x, k) == -cmp(k, x);
  }

  /** The answer in the part left over is the answer in the whole. */
  lemma AnswerInContext<K>(cmp: (K, K) -> int, a: seq<K>, b: seq<K>, c: seq<K>, x: K, i: nat, found: bool)
    requires AllBelow(cmp, a, x) && AllAbove(cmp, c, x)
    requires Answer(cmp, b, x, i, found) && (a != [] ==> cmp(x, b[0]) >= 0)
    ensures Answer(cmp, a + b + c, x, |a| + i, found)
  {
    var s := a + b + c;
    assert forall j :: 0 <= j < |s| ==>
             s[j] == if j < |a| then a[j] else if j < |a| + |b| then b[j - |a|] else c[j - |a| - |b|];
  }

  // ----- whole trees -----

  /** Uniform depth, strictly sorted records, and the leaves chained left to right. */
  ghost predicate WellFormedTree<K>(cmp: (K, K) -> int, nodes: nat -> Node<K>, readable: nat -> bool,
                                    root: nat, depth: nat, firstLeaf: nat)
  {
    && Shape(cmp, nodes, readable, root, depth)
    && Sorted(cmp, Keys(nodes, Leaves(nodes, root, depth)))
    && Chained(nodes, Leaves(nodes, root, depth), firstLeaf)
  }

  ghost predicate Chained<K>(nodes: nat -> Node<K>, leaves: seq<nat>, firstLeaf: nat) {
    && (leaves != [] ==> leaves[0] == firstLeaf)
    && forall i :: 0 <= i < |leaves| ==> nodes(leaves[i]).fLink == if i + 1 < |leaves| then leaves[i + 1] else 0
  }

  /** All records of the tree, in key order. */
  function Records<K>(nodes: nat -> Node<K>, root: nat, depth: nat): seq<K> {
    Keys(nodes, Leaves(nodes, root, depth))
  }

  /** The search is at a node with these leaves on either side, and the record sought is not among theirs. */
  ghost predicate Narrowed<K>(cmp: (K, K) -> int, nodes: nat -> Node<K>, readable: nat -> bool, root: nat, depth: nat,
                              x: K, n: nat, level: nat, left: seq<nat>, right: seq<nat>)
  {
    && Shape(cmp, nodes, readable, n, level)
    && Leaves(nodes, root, depth) == left + Leaves(nodes, n, level) + right
    && Sorted(cmp, Keys(nodes, Leaves(nodes, n, level)))
    && AllBelow(cmp, Keys(nodes, left), x) && AllAbove(cmp, Keys(nodes, right), x)
    && (level < depth ==> cmp(x, nodes(n).keys[0]) >= 0)
    && (level >= depth ==> left == [])
  }

  /** One step of the search keeps it narrowed. */
  lemma NarrowDown<K(!new)>(cmp: (K, K) -> int, nodes: nat -> Node<K>, readable: nat -> bool, root: nat, depth: nat,
                            x: K, n: nat, level: nat, left: seq<nat>, right: seq<nat>, i: nat, found: bool)
    requires IsOrder(cmp) && 1 < level <= depth
    requires Narrowed(cmp, nodes, readable, root, depth, x, n, level, left, right)
    requires Answer(cmp, nodes(n).keys, x, i, found) && cmp(x, nodes(n).keys[i]) >= 0
    ensures i < |nodes(n).children|
    ensures var cs := nodes(n).children;
            Narrowed(cmp, nodes, readable, root, depth, x, cs[i], level - 1,
                     left + LeavesOf(nodes, cs[..i], level - 1), LeavesOf(nodes, cs[i + 1..], level - 1) + right)
  {
    var cs := nodes(n).children;
    var a, b := LeavesOf(nodes, cs[..i], level - 1), LeavesOf(nodes, cs[i + 1..], level - 1);
    Descend(cmp, nodes, readable, n, level, x, i, found);
    SplitLeaves(nodes, n, level, i);
    KeysAppend(nodes, left, a);
    KeysAppend(nodes, b, right);
    AllBelowBoth(cmp, Keys(nodes, left), Keys(nodes, a), x);
    AllAboveBoth(cmp, Keys(nodes, b), Keys(nodes, right), x);
    Regroup(left, a, Leaves(nodes, cs[i], level - 1), b, right);
  }

  lemma Regroup<T>(l: seq<T>, a: seq<T>, m: seq<T>, b: seq<T>, r: seq<T>)
    ensures l + (a + m + b) + r == (l + a) + m + (b + r)
  {}

  lemma AllBelowBoth<K>(cmp: (K, K) -> int, a: seq<K>, b: seq<K>, x: K)
    requires AllBelow(cmp, a, x) && AllBelow(cmp, b, x)
    ensures AllBelow(cmp, a + b, x)
  {}

  lemma AllAboveBoth<K>(cmp: (K, K) -> int, a: seq<K>, b: seq<K>, x: K)
    requires AllAbove(cmp, a, x) && AllAbove(cmp, b, x)
    ensures AllAbove(cmp, a + b, x)
  {}

  /** At a leaf, the node's own answer is the tree's. */
  lemma LeafAnswer<K(!new)>(cmp: (K, K) -> int, nodes: nat -> Node<K>, readable: nat -> bool, root: nat, depth: nat,
                            x: K, n: nat, left: seq<nat>, right: seq<nat>, i: nat, found: bool)
    requires IsOrder(cmp) && depth >= 1
    requires Narrowed(cmp, nodes, readable, root, depth, x, n, 1, left, right)
    requires Answer(cmp, nodes(n).keys, x, i, found)
    ensures |left| < |Leaves(nodes, root, depth)| && Leaves(nodes, root, depth)[|left|] == n
    ensures Leaves(nodes, root, depth)[..|left|] == left
    ensures Answer(cmp, Records(nodes, root, depth), x, |Keys(nodes, left)| + i, found)
  {
    KeysAround(nodes, left, n, right);
    if left == [] {
      assert Keys(nodes, left) == [];
    }
    AnswerInContext(cmp, Keys(nodes, left), nodes(n).keys, Keys(nodes, right), x, i, found);
  }

  lemma KeysAround<K>(nodes: nat -> Node<K>, left: seq<nat>, n: nat, right: seq<nat>)
    ensures Keys(nodes, left + [n] + right) == Keys(nodes, left) + nodes(n).keys + Keys(nodes, right)
  {
    assert Keys(nodes, [n]) == nodes(n).keys + Keys(nodes, []) == nodes(n).keys;
    KeysAppend(nodes, left + [n], right);
    KeysAppend(nodes, left, [n]);
  }

  /** The whole tree is where the search starts. */
  lemma NarrowedAtRoot<K(!new)>(cmp: (K, K) -> int, nodes: nat -> Node<K>, readable: nat -> bool, root: nat, depth: nat,
                                firstLeaf: nat, x: K)
    requires WellFormedTree(cmp, nodes, readable, root, depth, firstLeaf)
    ensures Narrowed(cmp, nodes, readable, root, depth, x, root, depth, [], [])
  {
    assert [] + Leaves(nodes, root, depth) + [] == Leaves(nodes, root, depth);
    assert Keys(nodes, []) == [];
  }
}
