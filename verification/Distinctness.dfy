/** Sequences without repeats, and with the same elements. */
module Distinctness {

  predicate Distinct<T(==)>(s: seq<T>) { forall i, j :: 0 <= i < j < |s| ==> s[i] != s[j] }

  lemma {:induction false} CountOnce<T>(s: seq<T>, x: T)
    requires Distinct(s)
    ensures multiset(s)[x] <= 1
  {
    if s != [] {
      assert s == [s[0]] + s[1..];
      CountOnce(s[1..], x);
      if s[0] == x { assert x !in s[1..]; }
    }
  }

  lemma CountTwice<T>(s: seq<T>, i: nat, j: nat)
    requires i < j < |s| && s[i] == s[j]
    ensures multiset(s)[s[i]] >= 2
  {
    assert s == s[..i] + [s[i]] + s[i + 1..j] + [s[j]] + s[j + 1..];
  }

  /** Reordering keeps a sequence without repeats. */
  lemma DistinctPerm<T>(s: seq<T>, t: seq<T>)
    requires Distinct(s) && multiset(s) == multiset(t)
    ensures Distinct(t)
  {
    forall i, j | 0 <= i < j < |t| ensures t[i] != t[j] {
      CountOnce(s, t[i]);
      if t[i] == t[j] { CountTwice(t, i, j); }
    }
  }

  /** Pigeonhole: there are only `n` numbers below `n`. */
  lemma {:induction false} DistinctFit(s: seq<nat>, n: nat)
    requires Distinct(s) && forall i :: 0 <= i < |s| ==> s[i] < n
    ensures |s| <= n
    decreases n
  {
    if s != [] {
      assert s[0] < n;
      if k: nat :| k < |s| && s[k] == n - 1 {
        var rest := s[..k] + s[k + 1..];
        forall i | 0 <= i < |rest| ensures rest[i] < n - 1 {
          assert rest[i] == s[if i < k then i else i + 1];
        }
        DistinctFit(rest, n - 1);
      } else {
        DistinctFit(s, n - 1);
      }
    }
  }

  /** Two sequences with the same elements still have them after one element is taken from each. */
  lemma SameRest<T>(xs: seq<T>, ys: seq<T>, k: nat)
    requires multiset(xs) == multiset(ys) && xs != [] && k < |ys| && ys[k] == xs[0]
    ensures multiset(xs[1..]) == multiset(ys[..k] + ys[k + 1..])
  {
    assert ys == ys[..k] + [ys[k]] + ys[k + 1..] && xs == [xs[0]] + xs[1..];
    assert multiset(xs) == multiset{xs[0]} + multiset(xs[1..]);
    assert multiset(ys) == multiset(ys[..k]) + multiset{ys[k]} + multiset(ys[k + 1..]);
    assert multiset(xs[1..]) == multiset(xs) - multiset{xs[0]};
  }

  /** Where the first element of one stands in the other. */
  lemma FindHead<T>(xs: seq<T>, ys: seq<T>) returns (k: nat)
    requires multiset(xs) == multiset(ys)
    ensures |xs| == |ys| && (xs != [] ==> k < |ys| && ys[k] == xs[0])
  {
    assert |multiset(xs)| == |xs| && |multiset(ys)| == |ys|;
    k := 0;
    if xs != [] {
      assert xs[0] in multiset(ys);
      k :| 0 <= k < |ys| && ys[k] == xs[0];
    }
  }
}
