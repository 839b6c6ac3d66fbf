/** The search in a whole tree: its invariant from level to level, and what it promises at the end. */
module TreeSearch {
  import opened Checks
  import opened Orders
  import opened TreeModel

  /** What a search can come to: an answer at a leaf, the return for an unreadable node, or a critical() stop. */
  datatype SearchResult = Done(found: bool, node: nat, index: nat) | Unreadable | Critical

  /** What one level of a search can come to. */
  datatype Step = Stop(result: SearchResult) | AtLeaf(found: bool, index: nat) | Down(index: nat, child: nat)

  datatype Tree<!K(!new)> = Tree(nodes: nat -> Node<K>, readable: nat -> bool, root: nat, depth: nat, firstLeaf: nat,
                                 cmp: (K, K) -> int)
  {
    ghost predicate WellFormed() {
      IsOrder(cmp) && depth >= 1 && WellFormedTree(cmp, nodes, readable, root, depth, firstLeaf)
    }

    /** All keys, in key order. */
    function AllKeys(): seq<K> { Records(nodes, root, depth) }

    /** All leaves, left to right. */
    function AllLeaves(): seq<nat> { Leaves(nodes, root, depth) }

    // ----- what a search promises -----

    /** On a tree with index nodes a key below every record stops the search. Any other search ends at a leaf of the
        chain with the answer a scan of all records would give: a record that compares equal, or else the last record
        below the key (the first record when the key is below all). */
    ghost predicate Correct(x: K, r: SearchResult) {
      && AllKeys() != []
      && if depth > 1 && cmp(x, AllKeys()[0]) < 0 then r == Critical
         else r.Done? && exists p :: 0 <= p < |AllLeaves()| && AnswersAt(x, r, p)
    }

    /** The result is record r.index of leaf number p of the chain, and that record answers the search. */
    ghost predicate AnswersAt(x: K, r: SearchResult, p: nat)
      requires r.Done? && p < |AllLeaves()|
    {
      && AllLeaves()[p] == r.node && r.index < |nodes(r.node).keys|
      && Answer(cmp, AllKeys(), x, |Keys(nodes, AllLeaves()[..p])| + r.index, r.found)
    }

    // ----- one node -----

    /** A node as a well-formed tree has it at that level, except for what is below it. */
    ghost predicate Sound(n: nat, level: nat) {
      && IsOrder(cmp) && readable(n) && n != 0
      && nodes(n).height == level && nodes(n).leaf == (level == 1)
      && nodes(n).keys != [] && Sorted(cmp, nodes(n).keys)
      && (level > 1 ==> |nodes(n).children| == |nodes(n).keys|)
    }

    /** What visiting such a node comes to: the answer at a leaf, or the child the answer points to; a stop only where
        the pointer is 0 or the search key is below the key answered. */
    ghost predicate Visited(x: K, n: nat, level: nat, step: Step)
      requires level > 0 && Sound(n, level)
    {
      if level == 1 then
        step.AtLeaf? && Answer(cmp, nodes(n).keys, x, step.index, step.found)
      else
        exists i: nat, found :: WentBy(x, n, step, i, found)
    }

    ghost predicate WentBy(x: K, n: nat, step: Step, i: nat, found: bool)
      requires |nodes(n).children| == |nodes(n).keys|
    {
      && Answer(cmp, nodes(n).keys, x, i, found)
      && step == if nodes(n).children[i] == 0 || cmp(x, nodes(n).keys[i]) < 0 then Stop(Critical)
                 else Down(i, nodes(n).children[i])
    }

    // ----- the invariant -----

    ghost predicate Narrows(x: K, n: nat, level: nat, left: seq<nat>, right: seq<nat>) {
      Narrowed(cmp, nodes, readable, root, depth, x, n, level, left, right)
    }

    /** Ids recorded so far are those of nodes higher up. */
    ghost predicate HistoryAbove(history: seq<nat>, level: nat) {
      |history| == 256
      && forall i :: 0 <= i < 256 && history[i] != 0 ==> level <= i && nodes(history[i]).height == i + 1
    }

    ghost predicate Searching(x: K, n: nat, level: nat, left: seq<nat>, right: seq<nat>, history: seq<nat>) {
      && WellFormed() && 1 <= level <= depth <= 256
      && Narrows(x, n, level, left, right)
      && (level == depth ==> n == root)
      && AllKeys() != [] && (level < depth ==> cmp(x, AllKeys()[0]) >= 0)
      && HistoryAbove(history, level)
    }

    ghost function Progress(x: K, n: nat, level: nat, left: seq<nat>, right: seq<nat>, history: seq<nat>): Check {
      if Searching(x, n, level, left, right, history) then Holds else Fails
    }

    /** A search key is below the root's first key exactly if it is below every record. */
    lemma FirstRecord(x: K)
      requires WellFormed()
      ensures AllKeys() != [] && nodes(root).keys != []
      ensures cmp(x, nodes(root).keys[0]) == cmp(x, AllKeys()[0])
    {
      FirstKey(cmp, nodes, readable, root, depth);
      OrderTransitive(cmp, nodes(root).keys[0], AllKeys()[0], x);
    }

    lemma SearchStart(x: K, history: seq<nat>)
      requires WellFormed() && depth <= 256 && |history| == 256 && forall i :: 0 <= i < 256 ==> history[i] == 0
      ensures Progress(x, root, depth, [], [], history) == Holds
    {
      NarrowedAtRoot(cmp, nodes, readable, root, depth, firstLeaf, x);
      FirstRecord(x);
    }

    /** The node reached is a good one, and not seen before. */
    lemma SearchSound(x: K, n: nat, level: nat, left: seq<nat>, right: seq<nat>, history: seq<nat>)
      requires Progress(x, n, level, left, right, history) == Holds
      ensures Sound(n, level)
      ensures forall i :: 0 <= i < 256 ==> history[i] != n
    {
      IndexSorted(cmp, nodes, readable, n, level);
    }

    /** A node search that answers a record not above the key: everything else lies to the left or to the right. */
    lemma SearchDown(x: K, n: nat, level: nat, left: seq<nat>, right: seq<nat>, history: seq<nat>, i: nat, found: bool)
      returns (left': seq<nat>, right': seq<nat>)
      requires Searching(x, n, level, left, right, history) && level > 1 && Sound(n, level)
      requires Answer(cmp, nodes(n).keys, x, i, found) && cmp(x, nodes(n).keys[i]) >= 0
      ensures i < |nodes(n).children|
      ensures Searching(x, nodes(n).children[i], level - 1, left', right', history[level - 1 := n])
    {
      NarrowDown(cmp, nodes, readable, root, depth, x, n, level, left, right, i, found);
      left' := left + LeavesOf(nodes, nodes(n).children[..i], level - 1);
      right' := LeavesOf(nodes, nodes(n).children[i + 1..], level - 1) + right;
      if level == depth {
        FirstRecord(x);
        AnswerNotBelowFirst(cmp, nodes(n).keys, x, i, found);
      }
    }

    /** A visit goes down narrowed, stops rightly, or ends with the right answer. */
    lemma SearchVisited(x: K, n: nat, level: nat, left: seq<nat>, right: seq<nat>, history: seq<nat>, step: Step)
      returns (left': seq<nat>, right': seq<nat>)
      requires Progress(x, n, level, left, right, history) == Holds && 1 <= level <= |history|
      requires Sound(n, level) && Visited(x, n, level, step)
      ensures step.Stop? ==> Correct(x, step.result)
      ensures step.AtLeaf? ==> Correct(x, Done(step.found, n, step.index))
      ensures step.Down? ==>
                level > 1 && Progress(x, step.child, level - 1, left', right', history[level - 1 := n]) == Holds
    {
      left', right' := left, right;
      if level == 1 {
        SearchDone(x, n, left, right, history, step.index, step.found);
      } else {
        var i: nat, found :| WentBy(x, n, step, i, found);
        if step.Stop? {
          SearchStopped(x, n, level, left, right, history, step, i, found);
        } else {
          left', right' := SearchDown(x, n, level, left, right, history, i, found);
        }
      }
    }

    lemma SearchStopped(x: K, n: nat, level: nat, left: seq<nat>, right: seq<nat>, history: seq<nat>, step: Step,
                        i: nat, found: bool)
      requires Searching(x, n, level, left, right, history) && level > 1 && Sound(n, level)
      requires step.Stop? && WentBy(x, n, step, i, found)
      ensures Correct(x, step.result)
    {
      assert Shape(cmp, nodes, readable, nodes(n).children[i], level - 1);
      assert i == 0;
      FirstRecord(x);
    }

    /** The end of the search. */
    lemma SearchDone(x: K, n: nat, left: seq<nat>, right: seq<nat>, history: seq<nat>, index: nat, found: bool)
      requires Searching(x, n, 1, left, right, history)
      requires Answer(cmp, nodes(n).keys, x, index, found)
      ensures Correct(x, Done(found, n, index))
    {
      LeafAnswer(cmp, nodes, readable, root, depth, x, n, left, right, index, found);
      assert AnswersAt(x, Done(found, n, index), |left|);
    }
  }

  /** A key not below the record a search answers is not below the first record. */
  lemma AnswerNotBelowFirst<K(!new)>(cmp: (K, K) -> int, s: seq<K>, x: K, i: nat, found: bool)
    requires IsOrder(cmp) && Sorted(cmp, s) && Answer(cmp, s, x, i, found) && cmp(x, s[i]) >= 0
    ensures cmp(x, s[0]) >= 0
  {
    if i > 0 && found {
      OrderTransitive(cmp, x, s[i], s[0]);
      assert cmp(s[i], s[0]) == -cmp(s[0], s[i]);
    }
  }
}
