/** Order-preserving subsequences and duplicate-free lists, the shapes the
    list filters of the core produce. */
module Sequences {

  /** `a` is `b` with some elements removed, order kept. */
  predicate Subsequence<T(==)>(a: seq<T>, b: seq<T>)
    decreases |b|
  {
    if |a| == 0 then true
    else if |b| == 0 then false
    else
      (a[|a| - 1] == b[|b| - 1] && Subsequence(a[..|a| - 1], b[..|b| - 1]))
      || Subsequence(a, b[..|b| - 1])
  }

  predicate NoDuplicates<T(==)>(s: seq<T>)
  {
    forall i, j | 0 <= i < j < |s| :: s[i] != s[j]
  }

  /** Dropping the last element of `b` keeps a subsequence. */
  lemma SubsequenceSkip<T>(a: seq<T>, b: seq<T>, x: T)
    requires Subsequence(a, b)
    ensures Subsequence(a, b + [x])
  {
    assert (b + [x])[..|b|] == b;
  }

  /** Keeping the last element of `b` on both sides keeps a subsequence. */
  lemma SubsequenceKeep<T>(a: seq<T>, b: seq<T>, x: T)
    requires Subsequence(a, b)
    ensures Subsequence(a + [x], b + [x])
  {
    assert (b + [x])[..|b|] == b;
    assert (a + [x])[..|a|] == a;
  }

  /** Every element of a subsequence is an element of the whole. */
  lemma {:induction false} SubsequenceMembers<T>(a: seq<T>, b: seq<T>)
    requires Subsequence(a, b)
    ensures forall x | x in a :: x in b
    decreases |b|
  {
    if |a| != 0 {
      if a[|a| - 1] == b[|b| - 1] && Subsequence(a[..|a| - 1], b[..|b| - 1]) {
        SubsequenceMembers(a[..|a| - 1], b[..|b| - 1]);
        assert a == a[..|a| - 1] + [a[|a| - 1]];
        assert b == b[..|b| - 1] + [b[|b| - 1]];
      } else {
        SubsequenceMembers(a, b[..|b| - 1]);
        assert b == b[..|b| - 1] + [b[|b| - 1]];
      }
    }
  }

  /** A subsequence of a subsequence is a subsequence. */
  lemma {:induction false} SubsequenceTrans<T>(a: seq<T>, b: seq<T>, c: seq<T>)
    requires Subsequence(a, b) && Subsequence(b, c)
    ensures Subsequence(a, c)
    decreases |c|
  {
    if |a| != 0 {
      assert |b| != 0;
      assert |c| != 0;
      var a0, b0, c0 := a[..|a| - 1], b[..|b| - 1], c[..|c| - 1];
      if b[|b| - 1] == c[|c| - 1] && Subsequence(b0, c0) {
        if a[|a| - 1] == b[|b| - 1] && Subsequence(a0, b0) {
          SubsequenceTrans(a0, b0, c0);
        } else {
          assert Subsequence(a, b0);
          SubsequenceTrans(a, b0, c0);
        }
      } else {
        assert Subsequence(b, c0);
        SubsequenceTrans(a, b, c0);
      }
    }
  }

  /** A list without repeats has as many distinct elements as entries. */
  lemma {:induction false} DistinctElements<T>(s: seq<T>)
    requires NoDuplicates(s)
    ensures |set x | x in s| == |s|
    decreases |s|
  {
    if |s| != 0 {
      var init := s[..|s| - 1];
      assert NoDuplicates(init);
      DistinctElements(init);
      assert (set x | x in s) == (set x | x in init) + {s[|s| - 1]};
      assert s[|s| - 1] !in (set x | x in init);
    }
  }

  /** A set of naturals below n has at most n elements. */
  lemma {:induction false} BoundedSet(a: set<nat>, n: nat)
    requires forall x | x in a :: x < n
    ensures |a| <= n
    decreases n
  {
    if n == 0 {
      assert a == {};
    } else {
      var rest := a - {n - 1};
      BoundedSet(rest, n - 1);
      if n - 1 in a {
        assert a == rest + {n - 1};
      } else {
        assert a == rest;
      }
    }
  }

  /** Pigeonhole: a list without repeats of naturals below n has at most
      n entries. */
  lemma DistinctBounded(s: seq<nat>, n: nat)
    requires NoDuplicates(s)
    requires forall k | 0 <= k < |s| :: s[k] < n
    ensures |s| <= n
  {
    DistinctElements(s);
    BoundedSet((set x | x in s), n);
  }
}
