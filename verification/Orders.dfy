/** Three-way comparators: what the B-tree search assumes of one, and the lexicographic order on sequences. */
module Orders {

  /** The `cmp` macro (`src/hfs/btree/btree.h`, `src/hfs/btree/cache.c`). */
  function Cmp(a: int, b: int): int {
    if a > b then 1 else if a < b then -1 else 0
  }

  /** A total preorder in three-way form. */
  ghost predicate IsOrder<K(!new)>(cmp: (K, K) -> int) {
    && (forall a, b :: -1 <= cmp(a, b) <= 1)
    && (forall a, b :: cmp(a, b) == -cmp(b, a))
    && (forall a, b, c :: cmp(a, b) <= 0 && cmp(b, c) <= 0 ==> cmp(a, c) <= 0)
  }

  /** Strict and mixed transitivity, which follow. */
  lemma OrderTransitive<K(!new)>(cmp: (K, K) -> int, a: K, b: K, c: K)
    requires IsOrder(cmp)
    ensures cmp(a, b) <= 0 && cmp(b, c) < 0 ==> cmp(a, c) < 0
    ensures cmp(a, b) < 0 && cmp(b, c) <= 0 ==> cmp(a, c) < 0
    ensures cmp(a, b) == 0 ==> cmp(a, c) == cmp(b, c) && cmp(c, a) == cmp(c, b)
  {
    assert cmp(a, c) == -cmp(c, a) && cmp(a, b) == -cmp(b, a) && cmp(b, c) == -cmp(c, b);
    assert cmp(c, a) <= 0 && cmp(a, b) <= 0 ==> cmp(c, b) <= 0;
    assert cmp(b, c) <= 0 && cmp(c, a) <= 0 ==> cmp(b, a) <= 0;
    assert cmp(a, b) <= 0 && cmp(b, c) <= 0 ==> cmp(a, c) <= 0;
    assert cmp(b, a) <= 0 && cmp(a, c) <= 0 ==> cmp(b, c) <= 0;
    assert cmp(c, b) <= 0 && cmp(b, a) <= 0 ==> cmp(c, a) <= 0;
  }

  /** The first comparison that is not 0 decides. */
  function Then(first: int, second: int): int {
    if first != 0 then first else second
  }

  // ----- the lexicographic order -----

  function Lex(a: seq<int>, b: seq<int>): (r: int) {
    if a == [] || b == [] then Cmp(|a|, |b|)
    else Then(Cmp(a[0], b[0]), Lex(a[1..], b[1..]))
  }

  /** a comes before b: at the first difference a has the smaller element, or a ends there. */
  ghost predicate Before(a: seq<int>, b: seq<int>, k: nat) {
    k <= |a| && k < |b| && a[..k] == b[..k] && (k == |a| || a[k] < b[k])
  }

  lemma {:induction false} LexAntisymmetric(a: seq<int>, b: seq<int>)
    ensures -1 <= Lex(a, b) <= 1 && Lex(a, b) == -Lex(b, a)
  {
    if a != [] && b != [] {
      LexAntisymmetric(a[1..], b[1..]);
    }
  }

  lemma {:induction false} LexTransitive(a: seq<int>, b: seq<int>, c: seq<int>)
    requires Lex(a, b) <= 0 && Lex(b, c) <= 0
    ensures Lex(a, c) <= 0
  {
    if a != [] && b != [] && c != [] && a[0] == b[0] == c[0] {
      LexTransitive(a[1..], b[1..], c[1..]);
    }
  }

  lemma LexIsOrder()
    ensures IsOrder(Lex)
  {
    forall a, b ensures -1 <= Lex(a, b) <= 1 && Lex(a, b) == -Lex(b, a) {
      LexAntisymmetric(a, b);
    }
    forall a, b, c | Lex(a, b) <= 0 && Lex(b, c) <= 0 ensures Lex(a, c) <= 0 {
      LexTransitive(a, b, c);
    }
  }

  /** What the three answers mean. */
  lemma {:induction false} LexMeaning(a: seq<int>, b: seq<int>)
    ensures Lex(a, b) == 0 <==> a == b
    ensures Lex(a, b) == -1 <==> exists k: nat :: Before(a, b, k)
  {
    if a == [] || b == [] {
      if a == [] && b != [] {
        assert Before(a, b, 0);
      }
    } else {
      var a', b' := a[1..], b[1..];
      LexMeaning(a', b');
      assert a == [a[0]] + a' && b == [b[0]] + b';
      if a[0] < b[0] {
        assert Before(a, b, 0);
      }
      if a[0] == b[0] && Lex(a', b') == -1 {
        var k: nat :| Before(a', b', k);
        assert a[..k + 1] == [a[0]] + a'[..k] && b[..k + 1] == [b[0]] + b'[..k];
        assert Before(a, b, k + 1);
      }
      forall k: nat | Before(a, b, k) ensures Lex(a, b) == -1 {
        if k > 0 {
          assert a[0] == a[..k][0] == b[..k][0] == b[0];
          assert a'[..k - 1] == a[..k][1..] && b'[..k - 1] == b[..k][1..];
          assert Before(a', b', k - 1);
        }
      }
    }
  }

  /** A common prefix does not matter. */
  lemma {:induction false} LexDrop(a: seq<int>, b: seq<int>, k: nat)
    requires k <= |a| && k <= |b| && a[..k] == b[..k]
    ensures Lex(a, b) == Lex(a[k..], b[k..])
  {
    if k > 0 {
      assert a[0] == a[..k][0] == b[..k][0] == b[0];
      assert a[1..][..k - 1] == a[..k][1..] == b[..k][1..] == b[1..][..k - 1];
      LexDrop(a[1..], b[1..], k - 1);
      assert a[1..][k - 1..] == a[k..] && b[1..][k - 1..] == b[k..];
    } else {
      assert a[0..] == a && b[0..] == b;
    }
  }

  ghost predicate ComesFirst(a: seq<int>, b: seq<int>) { exists k: nat :: Before(a, b, k) }

  lemma LexFirst(a: seq<int>, b: seq<int>)
    ensures Lex(a, b) < 0 <==> ComesFirst(a, b)
  {
    LexMeaning(a, b);
    LexAntisymmetric(a, b);
  }
}
