/** Canonical ordering of combining characters (`priortysort` in `src/hfs/Apple/utfconv.c`), section 3.11 of the
    Unicode Standard. The combining-class table is a parameter `ccc`. */
module CanonicalOrder {
  import opened MachineTypes
  import opened Sequences

  /** Two neighbours a conforming process may exchange. */
  predicate Reorderable(ccc: u16 -> nat, x: u16, y: u16) {
    ccc(x) > ccc(y) > 0
  }

  /** No neighbours are out of order. */
  ghost predicate Canonical(ccc: u16 -> nat, s: seq<u16>) {
    forall i, j :: 0 <= i < j < |s| && j == i + 1 ==> !Reorderable(ccc, s[i], s[j])
  }

  // ----- the reference: insertion from the right, past every greater class -----

  function Insert(ccc: u16 -> nat, s: seq<u16>, c: u16): (r: seq<u16>)
    ensures |r| == |s| + 1
  {
    if s == [] || !Reorderable(ccc, s[|s| - 1], c) then s + [c]
    else Insert(ccc, s[..|s| - 1], c) + [s[|s| - 1]]
  }

  function Order(ccc: u16 -> nat, s: seq<u16>): (r: seq<u16>)
    ensures |r| == |s|
  {
    if s == [] then [] else Insert(ccc, Order(ccc, s[..|s| - 1]), s[|s| - 1])
  }

  lemma InsertSnoc(ccc: u16 -> nat, s: seq<u16>, z: u16, c: u16)
    ensures Insert(ccc, s + [z], c) == if Reorderable(ccc, z, c) then Insert(ccc, s, c) + [z] else s + [z] + [c]
  {
    assert (s + [z])[..|s|] == s;
  }

  lemma OrderSnoc(ccc: u16 -> nat, s: seq<u16>, c: u16)
    ensures Order(ccc, s + [c]) == Insert(ccc, Order(ccc, s), c)
  {
    assert (s + [c])[..|s|] == s;
  }

  /** Inserting two reorderable characters gives the same string either way round. */
  lemma {:induction false} InsertExchange(ccc: u16 -> nat, s: seq<u16>, x: u16, y: u16)
    requires Reorderable(ccc, x, y)
    ensures Insert(ccc, Insert(ccc, s, x), y) == Insert(ccc, Insert(ccc, s, y), x)
  {
    if s == [] {
      InsertSnoc(ccc, [], x, y);
      InsertSnoc(ccc, [], y, x);
      assert [] + [x] == [x] && [] + [y] == [y];
    } else {
      var t, z := s[..|s| - 1], s[|s| - 1];
      assert s == t + [z];
      InsertSnoc(ccc, t, z, x);
      InsertSnoc(ccc, t, z, y);
      if Reorderable(ccc, z, x) {
        InsertExchange(ccc, t, x, y);
        InsertSnoc(ccc, Insert(ccc, t, x), z, y);
        InsertSnoc(ccc, Insert(ccc, t, y), z, x);
      } else {
        InsertSnoc(ccc, s, x, y);
        if Reorderable(ccc, z, y) {
          InsertSnoc(ccc, Insert(ccc, t, y), z, x);
        } else {
          InsertSnoc(ccc, s, y, x);
        }
      }
    }
  }

  /** Exchanging a reorderable pair anywhere does not change the ordered string. */
  lemma {:induction false} OrderExchange(ccc: u16 -> nat, a: seq<u16>, x: u16, y: u16, b: seq<u16>)
    requires Reorderable(ccc, x, y)
    ensures Order(ccc, a + [x] + [y] + b) == Order(ccc, a + [y] + [x] + b)
    decreases |b|
  {
    if b == [] {
      assert a + [x] + [y] + b == a + [x] + [y] && a + [y] + [x] + b == a + [y] + [x];
      OrderSnoc(ccc, a + [x], y);
      OrderSnoc(ccc, a + [y], x);
      OrderSnoc(ccc, a, x);
      OrderSnoc(ccc, a, y);
      InsertExchange(ccc, Order(ccc, a), x, y);
    } else {
      var t, z := b[..|b| - 1], b[|b| - 1];
      assert a + [x] + [y] + b == (a + [x] + [y] + t) + [z];
      assert a + [y] + [x] + b == (a + [y] + [x] + t) + [z];
      OrderSnoc(ccc, a + [x] + [y] + t, z);
      OrderSnoc(ccc, a + [y] + [x] + t, z);
      OrderExchange(ccc, a, x, y, t);
    }
  }

  lemma {:induction false} OrderOfCanonical(ccc: u16 -> nat, s: seq<u16>)
    requires Canonical(ccc, s)
    ensures Order(ccc, s) == s
  {
    if s != [] {
      var t, z := s[..|s| - 1], s[|s| - 1];
      assert s == t + [z];
      OrderOfCanonical(ccc, t);
      OrderSnoc(ccc, t, z);
      assert t != [] ==> !Reorderable(ccc, t[|t| - 1], z);
    }
  }

  lemma {:induction false} InsertCanonical(ccc: u16 -> nat, s: seq<u16>, c: u16)
    requires Canonical(ccc, s)
    ensures Canonical(ccc, Insert(ccc, s, c))
    ensures var r := Insert(ccc, s, c);
            r[|s|] == c || (s != [] && r[|s|] == s[|s| - 1] && Reorderable(ccc, s[|s| - 1], c))
  {
    if s != [] && Reorderable(ccc, s[|s| - 1], c) {
      var n := |s| - 1;
      InsertCanonical(ccc, s[..n], c);
      var r := Insert(ccc, s[..n], c);
      assert Canonical(ccc, r + [s[n]]);
    }
  }

  lemma {:induction false} OrderCanonical(ccc: u16 -> nat, s: seq<u16>)
    ensures Canonical(ccc, Order(ccc, s))
  {
    if s != [] {
      OrderCanonical(ccc, s[..|s| - 1]);
      InsertCanonical(ccc, Order(ccc, s[..|s| - 1]), s[|s| - 1]);
    }
  }

  // ----- the standard's definition: exchange reorderable neighbours until none are left -----

  /** One exchange at position i. */
  function Exchange(s: seq<u16>, i: nat): (r: seq<u16>)
    requires i + 1 < |s|
    ensures |r| == |s|
  {
    s[i := s[i + 1]][i + 1 := s[i]]
  }

  /** Every position names a reorderable pair when its turn comes. */
  ghost predicate Exchanges(ccc: u16 -> nat, s: seq<u16>, at: seq<nat>)
    decreases |at|
  {
    at == [] || (at[0] + 1 < |s| && Reorderable(ccc, s[at[0]], s[at[0] + 1])
                 && Exchanges(ccc, Exchange(s, at[0]), at[1..]))
  }

  function Exchanged(ccc: u16 -> nat, s: seq<u16>, at: seq<nat>): seq<u16>
    requires Exchanges(ccc, s, at)
    decreases |at|
  {
    if at == [] then s else Exchanged(ccc, Exchange(s, at[0]), at[1..])
  }

  lemma AroundPair(s: seq<u16>, i: nat)
    requires i + 1 < |s|
    ensures s == s[..i] + [s[i]] + [s[i + 1]] + s[i + 2..]
    ensures Exchange(s, i) == s[..i] + [s[i + 1]] + [s[i]] + s[i + 2..]
  {}

  lemma OrderAfterExchange(ccc: u16 -> nat, s: seq<u16>, i: nat)
    requires i + 1 < |s| && Reorderable(ccc, s[i], s[i + 1])
    ensures Order(ccc, Exchange(s, i)) == Order(ccc, s)
  {
    AroundPair(s, i);
    OrderExchange(ccc, s[..i], s[i], s[i + 1], s[i + 2..]);
  }

  /** Whatever order the exchanges are made in, when none is left the string is the reference one. */
  lemma {:induction false} OrderUnique(ccc: u16 -> nat, s: seq<u16>, at: seq<nat>)
    requires Exchanges(ccc, s, at) && Canonical(ccc, Exchanged(ccc, s, at))
    ensures Exchanged(ccc, s, at) == Order(ccc, s)
    decreases |at|
  {
    if at == [] {
      OrderOfCanonical(ccc, s);
    } else {
      OrderUnique(ccc, Exchange(s, at[0]), at[1..]);
      OrderAfterExchange(ccc, s, at[0]);
    }
  }

  lemma OrderIdempotent(ccc: u16 -> nat, s: seq<u16>)
    ensures Order(ccc, Order(ccc, s)) == Order(ccc, s)
  {
    OrderCanonical(ccc, s);
    OrderOfCanonical(ccc, Order(ccc, s));
  }

  // ----- ordering a stretch of a longer string -----

  /** Strings with the same ordered form still have it with more behind them. */
  lemma {:induction false} OrderExtend(ccc: u16 -> nat, s: seq<u16>, t: seq<u16>, more: seq<u16>)
    requires Order(ccc, s) == Order(ccc, t)
    ensures Order(ccc, s + more) == Order(ccc, t + more)
    decreases |more|
  {
    if more == [] {
      assert s + more == s && t + more == t;
    } else {
      var m, c := more[..|more| - 1], more[|more| - 1];
      OrderExtend(ccc, s, t, m);
      OrderSnoc(ccc, s + m, c);
      OrderSnoc(ccc, t + m, c);
      Snoc(more);
      Associative(s, m, [c]);
      Associative(t, m, [c]);
    }
  }

  lemma {:induction false} OrderInsertion(ccc: u16 -> nat, p: seq<u16>, s: seq<u16>, c: u16)
    ensures Order(ccc, p + Insert(ccc, s, c)) == Order(ccc, p + (s + [c]))
    decreases |s|
  {
    if s != [] && Reorderable(ccc, s[|s| - 1], c) {
      var t, z := s[..|s| - 1], s[|s| - 1];
      OrderInsertion(ccc, p, t, c);
      OrderExtend(ccc, p + Insert(ccc, t, c), p + (t + [c]), [z]);
      OrderExchange(ccc, p + t, z, c, []);
      assert p + Insert(ccc, s, c) == p + Insert(ccc, t, c) + [z];
      assert p + (s + [c]) == p + t + [z] + [c] + [];
      assert p + (t + [c]) + [z] == p + t + [c] + [z] + [];
    }
  }

  /** Ordering the end of a string first does not change the ordered string. */
  lemma {:induction false} OrderEnd(ccc: u16 -> nat, p: seq<u16>, s: seq<u16>)
    ensures Order(ccc, p + Order(ccc, s)) == Order(ccc, p + s)
    decreases |s|
  {
    if s != [] {
      var t, c := s[..|s| - 1], s[|s| - 1];
      OrderEnd(ccc, p, t);
      OrderInsertion(ccc, p, Order(ccc, t), c);
      OrderExtend(ccc, p + Order(ccc, t), p + t, [c]);
      Snoc(s);
      OrderSnoc(ccc, t, c);
      Associative(p, Order(ccc, t), [c]);
      Associative(p, t, [c]);
    }
  }

  /** The string with its last n characters ordered. */
  function EndOrdered(ccc: u16 -> nat, s: seq<u16>, n: nat): (r: seq<u16>)
    requires n <= |s|
    ensures |r| == |s|
  {
    s[..|s| - n] + Order(ccc, s[|s| - n..])
  }

  lemma EndOrderedEquivalent(ccc: u16 -> nat, s: seq<u16>, n: nat)
    requires n <= |s|
    ensures Order(ccc, EndOrdered(ccc, s, n)) == Order(ccc, s)
  {
    OrderEnd(ccc, s[..|s| - n], s[|s| - n..]);
    Halves(s, |s| - n);
  }

  // ----- nothing is lost, nothing crosses a starter, equal classes keep their order -----

  function OfClass(ccc: u16 -> nat, s: seq<u16>, k: nat): seq<u16> {
    if s == [] then [] else
      OfClass(ccc, s[..|s| - 1], k) + if ccc(s[|s| - 1]) == k then [s[|s| - 1]] else []
  }

  lemma {:induction false} InsertStable(ccc: u16 -> nat, s: seq<u16>, c: u16, k: nat)
    ensures OfClass(ccc, Insert(ccc, s, c), k) == OfClass(ccc, s + [c], k)
  {
    assert (s + [c])[..|s|] == s;
    if s != [] && Reorderable(ccc, s[|s| - 1], c) {
      var n, z := |s| - 1, s[|s| - 1];
      InsertStable(ccc, s[..n], c, k);
      var r := Insert(ccc, s[..n], c);
      assert (r + [z])[..|r|] == r;
      assert (s[..n] + [c])[..n] == s[..n];
    }
  }

  /** The sort is stable: the characters of each class keep their relative order. */
  lemma {:induction false} OrderStable(ccc: u16 -> nat, s: seq<u16>, k: nat)
    ensures OfClass(ccc, Order(ccc, s), k) == OfClass(ccc, s, k)
  {
    if s != [] {
      var n := |s| - 1;
      OrderStable(ccc, s[..n], k);
      var t := Order(ccc, s[..n]);
      InsertStable(ccc, t, s[n], k);
      assert (t + [s[n]])[..n] == t;
    }
  }

  lemma {:induction false} InsertMultiset(ccc: u16 -> nat, s: seq<u16>, c: u16)
    ensures multiset(Insert(ccc, s, c)) == multiset(s) + multiset{c}
  {
    if s != [] && Reorderable(ccc, s[|s| - 1], c) {
      InsertMultiset(ccc, s[..|s| - 1], c);
      assert s == s[..|s| - 1] + [s[|s| - 1]];
    }
  }

  lemma {:induction false} OrderMultiset(ccc: u16 -> nat, s: seq<u16>)
    ensures multiset(Order(ccc, s)) == multiset(s)
  {
    if s != [] {
      OrderMultiset(ccc, s[..|s| - 1]);
      InsertMultiset(ccc, Order(ccc, s[..|s| - 1]), s[|s| - 1]);
      assert s == s[..|s| - 1] + [s[|s| - 1]];
    }
  }

  lemma {:induction false} InsertBehind(ccc: u16 -> nat, a: seq<u16>, z: u16, b: seq<u16>, c: u16)
    requires ccc(z) == 0
    ensures Insert(ccc, a + [z] + b, c) == a + [z] + Insert(ccc, b, c)
  {
    var s := a + [z] + b;
    if b != [] && Reorderable(ccc, b[|b| - 1], c) {
      assert s[..|s| - 1] == a + [z] + b[..|b| - 1];
      InsertBehind(ccc, a, z, b[..|b| - 1], c);
    }
  }

  /** A character of class 0 stays where it is, and the two sides are ordered independently. */
  lemma {:induction false} OrderBarrier(ccc: u16 -> nat, a: seq<u16>, z: u16, b: seq<u16>)
    requires ccc(z) == 0
    ensures Order(ccc, a + [z] + b) == Order(ccc, a) + [z] + Order(ccc, b)
  {
    if b == [] {
      OrderSnoc(ccc, a, z);
      assert a + [z] + b == a + [z] && Order(ccc, a) + [z] + [] == Order(ccc, a) + [z];
    } else {
      var m, c := b[..|b| - 1], b[|b| - 1];
      Snoc(b);
      Associative(a + [z], m, [c]);
      OrderSnoc(ccc, a + [z] + m, c);
      OrderBarrier(ccc, a, z, m);
      InsertBehind(ccc, Order(ccc, a), z, Order(ccc, m), c);
    }
  }

  lemma Middle(a: seq<u16>, z: u16, b: seq<u16>)
    ensures (a + [z] + b)[|a|] == z
  {}

  /** Characters of class 0 stay where they are. */
  lemma ZeroStays(ccc: u16 -> nat, s: seq<u16>, i: nat)
    requires i < |s| && ccc(s[i]) == 0
    ensures Order(ccc, s)[i] == s[i]
  {
    var a, b := s[..i], s[i + 1..];
    Around(s, i);
    OrderBarrier(ccc, a, s[i], b);
    Middle(Order(ccc, a), s[i], Order(ccc, b));
  }

  /** Between them classes ascend. */
  lemma {:induction false} ClassesAscend(ccc: u16 -> nat, s: seq<u16>, i: nat, j: nat)
    requires i <= j < |s| && forall k :: i <= k <= j ==> ccc(Order(ccc, s)[k]) > 0
    ensures ccc(Order(ccc, s)[i]) <= ccc(Order(ccc, s)[j])
    decreases j
  {
    if i < j {
      ClassesAscend(ccc, s, i, j - 1);
      OrderCanonical(ccc, s);
      assert !Reorderable(ccc, Order(ccc, s)[j - 1], Order(ccc, s)[j]);
    }
  }

  // ----- the sort terminates because every exchange removes one inversion -----

  /** How many characters of s a character c would have to pass. */
  function Passed(ccc: u16 -> nat, s: seq<u16>, c: u16): nat {
    if s == [] then 0 else Passed(ccc, s[..|s| - 1], c) + if Reorderable(ccc, s[|s| - 1], c) then 1 else 0
  }

  function Inversions(ccc: u16 -> nat, s: seq<u16>): nat {
    if s == [] then 0 else Inversions(ccc, s[..|s| - 1]) + Passed(ccc, s[..|s| - 1], s[|s| - 1])
  }

  lemma InversionsSnoc(ccc: u16 -> nat, s: seq<u16>, z: u16, c: u16)
    ensures Passed(ccc, s + [z], c) == Passed(ccc, s, c) + if Reorderable(ccc, z, c) then 1 else 0
    ensures Inversions(ccc, s + [z]) == Inversions(ccc, s) + Passed(ccc, s, z)
  {
    assert (s + [z])[..|s|] == s;
  }

  lemma {:induction false} InversionsExchange(ccc: u16 -> nat, a: seq<u16>, x: u16, y: u16, b: seq<u16>, c: u16)
    requires Reorderable(ccc, x, y)
    ensures Passed(ccc, a + [y] + [x] + b, c) == Passed(ccc, a + [x] + [y] + b, c)
    ensures Inversions(ccc, a + [y] + [x] + b) + 1 == Inversions(ccc, a + [x] + [y] + b)
    decreases |b|
  {
    if b == [] {
      assert a + [x] + [y] + b == a + [x] + [y] && a + [y] + [x] + b == a + [y] + [x];
      InversionsSnoc(ccc, a + [x], y, c);
      InversionsSnoc(ccc, a + [y], x, c);
      InversionsSnoc(ccc, a, x, c);
      InversionsSnoc(ccc, a, y, c);
      InversionsSnoc(ccc, a, x, y);
      InversionsSnoc(ccc, a, y, x);
    } else {
      var t, z := b[..|b| - 1], b[|b| - 1];
      assert a + [x] + [y] + b == (a + [x] + [y] + t) + [z];
      assert a + [y] + [x] + b == (a + [y] + [x] + t) + [z];
      InversionsSnoc(ccc, a + [x] + [y] + t, z, c);
      InversionsSnoc(ccc, a + [y] + [x] + t, z, c);
      InversionsExchange(ccc, a, x, y, t, c);
      InversionsExchange(ccc, a, x, y, t, z);
    }
  }

  lemma FewerInversions(ccc: u16 -> nat, s: seq<u16>, i: nat)
    requires i + 1 < |s| && Reorderable(ccc, s[i], s[i + 1])
    ensures Inversions(ccc, Exchange(s, i)) + 1 == Inversions(ccc, s)
  {
    AroundPair(s, i);
    InversionsExchange(ccc, s[..i], s[i], s[i + 1], s[i + 2..], 0);
  }

  // ----- the sort in place -----

  /** An exchange brings the run closer to the same ordered form. */
  method SwapNeighbours(ccc: u16 -> nat, a: array<u16>, start: nat, end: nat, i: nat)
    requires start <= i && i + 1 < end <= a.Length && Reorderable(ccc, a[i], a[i + 1])
    modifies a
    ensures Order(ccc, a[start..end]) == Order(ccc, old(a[start..end]))
    ensures Inversions(ccc, a[start..end]) < Inversions(ccc, old(a[start..end]))
    ensures a[..start] == old(a[..start]) && a[end..] == old(a[end..])
    ensures a[i + 1] == old(a[i])
  {
    ghost var before := a[start..end];
    OrderAfterExchange(ccc, before, i - start);
    FewerInversions(ccc, before, i - start);
    var tmp := a[i];
    a[i] := a[i + 1];
    a[i + 1] := tmp;
    assert a[start..end] == Exchange(before, i - start);
  }

  lemma CanonicalSnoc(ccc: u16 -> nat, s: seq<u16>, c: u16)
    requires Canonical(ccc, s) && (s != [] ==> !Reorderable(ccc, s[|s| - 1], c))
    ensures Canonical(ccc, s + [c])
  {}

  /** One pass; p1 and p2 hold the classes of the characters at ch1 and ch2. */
  method OnePass(ccc: u16 -> nat, a: array<u16>, start: nat, end: nat) returns (changes: bool)
    requires start < end <= a.Length
    modifies a
    ensures Order(ccc, a[start..end]) == Order(ccc, old(a[start..end]))
    ensures a[..start] == old(a[..start]) && a[end..] == old(a[end..])
    ensures changes ==> Inversions(ccc, a[start..end]) < Inversions(ccc, old(a[start..end]))
    ensures !changes ==> a[start..end] == old(a[start..end]) && Canonical(ccc, a[start..end])
  {
    changes := false;
    var ch1, ch2 := start, start + 1;
    var p2 := ccc(a[ch1]);
    ghost var form, inversions := Order(ccc, a[start..end]), Inversions(ccc, a[start..end]);
    while ch2 < end
      invariant start <= ch1 < end && ch2 == ch1 + 1
      invariant p2 == ccc(a[ch1])
      invariant Order(ccc, a[start..end]) == form
      invariant a[..start] == old(a[..start]) && a[end..] == old(a[end..])
      invariant changes ==> Inversions(ccc, a[start..end]) < inversions
      invariant !changes ==> a[start..end] == old(a[start..end]) && Canonical(ccc, a[start..ch2])
    {
      var p1 := p2;
      p2 := ccc(a[ch2]);
      if p1 > p2 && p2 != 0 {
        SwapNeighbours(ccc, a, start, end, ch1);
        changes := true;
        p2 := p1;
      } else if !changes {
        CanonicalSnoc(ccc, a[start..ch2], a[ch2]);
        assert a[start..ch2 + 1] == a[start..ch2] + [a[ch2]];
      }
      ch1 := ch1 + 1;
      ch2 := ch2 + 1;
    }
  }

  /** Passes over the run, exchanging neighbours, until a pass changes nothing. */
  method PrioritySort(ccc: u16 -> nat, a: array<u16>, start: nat, count: nat)
    requires 0 < count && start + count <= a.Length
    modifies a
    ensures a[start..start + count] == Order(ccc, old(a[start..start + count]))
    ensures a[..start] == old(a[..start]) && a[start + count..] == old(a[start + count..])
  {
    var end := start + count;
    var changes := true;
    ghost var form, before, behind := Order(ccc, a[start..end]), a[..start], a[end..];
    while changes
      invariant Order(ccc, a[start..end]) == form
      invariant !changes ==> Canonical(ccc, a[start..end])
      invariant a[..start] == before && a[end..] == behind
      decreases Inversions(ccc, a[start..end]), changes
    {
      changes := OnePass(ccc, a, start, end);
    }
    OrderOfCanonical(ccc, a[start..end]);
  }
}
