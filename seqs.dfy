/**
 * Order-preserving selection over sequences. The views build their lists by
 * walking a list front to back and appending the entries that pass a test;
 * `Filter` is that loop's meaning, defined from the back so that one more
 * loop step is one more unfolding.
 */
module Seqs {

  /** The entries of `s` that satisfy `p`, in the order `s` has them. */
  function Filter<T(!new)>(s: seq<T>, p: T -> bool): (r: seq<T>)
    ensures |r| <= |s|
    ensures forall x :: x in r <==> x in s && p(x)
    decreases |s|
  {
    if s == [] then []
    else
      var front := s[..|s| - 1];
      assert s == front + [s[|s| - 1]];
      Filter(front, p) + (if p(s[|s| - 1]) then [s[|s| - 1]] else [])
  }

  /** One more step of a front-to-back loop over `s` appends the next entry if it passes. */
  lemma FilterStep<T(!new)>(s: seq<T>, k: nat, p: T -> bool)
    requires k < |s|
    ensures Filter(s[..k + 1], p) == Filter(s[..k], p) + (if p(s[k]) then [s[k]] else [])
  {
    assert s[..k + 1][..k] == s[..k];
  }

  /** A one-entry list keeps its entry exactly when it passes. */
  lemma FilterSingleton<T(!new)>(x: T, p: T -> bool)
    ensures Filter([x], p) == if p(x) then [x] else []
  {
    assert [x][..0] == [];
  }

  /** Nothing passes, nothing is kept. */
  lemma FilterNone<T(!new)>(s: seq<T>, p: T -> bool)
    requires forall x :: x in s ==> !p(x)
    ensures Filter(s, p) == []
  {
  }

  /** Two tests that agree on every entry keep the same entries. */
  lemma {:induction false} FilterCongruent<T(!new)>(s: seq<T>, p: T -> bool, q: T -> bool)
    requires forall x :: x in s ==> p(x) == q(x)
    ensures Filter(s, p) == Filter(s, q)
    decreases |s|
  {
    if s != [] {
      FilterCongruent(s[..|s| - 1], p, q);
    }
  }

  /** `sub` can be obtained from `s` by deleting entries: its entries occur in `s` in the same order. */
  predicate IsSubsequence<T(==)>(sub: seq<T>, s: seq<T>)
    decreases |s|
  {
    if sub == [] then true
    else if s == [] then false
    else IsSubsequence(sub, s[..|s| - 1])
         || (sub[|sub| - 1] == s[|s| - 1] && IsSubsequence(sub[..|sub| - 1], s[..|s| - 1]))
  }

  /** Both tests at once. */
  function Both<T>(p: T -> bool, q: T -> bool): T -> bool
  {
    x => p(x) && q(x)
  }

  /** Filtering keeps the order of the list it walks. */
  lemma {:induction false} FilterIsSubsequence<T(!new)>(s: seq<T>, p: T -> bool)
    ensures IsSubsequence(Filter(s, p), s)
    decreases |s|
  {
    if s != [] {
      var front := s[..|s| - 1];
      FilterIsSubsequence(front, p);
      var f := Filter(front, p);
      if p(s[|s| - 1]) {
        var r := f + [s[|s| - 1]];
        assert Filter(s, p) == r;
        assert r[..|r| - 1] == f;
      } else {
        assert Filter(s, p) == f;
      }
    }
  }

  /** Filtering a filtered list is filtering once with both tests. */
  lemma {:induction false} FilterFilter<T(!new)>(s: seq<T>, p: T -> bool, q: T -> bool)
    ensures Filter(Filter(s, p), q) == Filter(s, Both(p, q))
    decreases |s|
  {
    if s != [] {
      var front := s[..|s| - 1];
      var x := s[|s| - 1];
      FilterFilter(front, p, q);
      if p(x) {
        var f := Filter(front, p) + [x];
        assert Filter(s, p) == f;
        assert f[..|f| - 1] == Filter(front, p);
        assert Filter(f, q) == Filter(Filter(front, p), q) + (if q(x) then [x] else []);
      } else {
        assert Filter(s, p) == Filter(front, p);
      }
    }
  }

  /** A filtered list with two entries comes from two different positions that pass the test. */
  lemma {:induction false} FilterHasTwo<T(!new)>(s: seq<T>, p: T -> bool)
    requires |Filter(s, p)| >= 2
    ensures exists i, j :: 0 <= i < j < |s| && p(s[i]) && p(s[j])
    decreases |s|
  {
    var front := s[..|s| - 1];
    if p(s[|s| - 1]) {
      var f := Filter(front, p);
      assert f[0] in f;
      var i :| 0 <= i < |front| && front[i] == f[0];
      assert p(s[i]) && p(s[|s| - 1]);
    } else {
      FilterHasTwo(front, p);
      var i, j :| 0 <= i < j < |front| && p(front[i]) && p(front[j]);
      assert s[i] == front[i] && s[j] == front[j];
    }
  }
}
