/** Stable sorting by a total preorder: what `sort_by` promises, and what follows from it. */
module Sorting {
  import opened Wrappers

  ghost predicate TotalPreorder<T(!new)>(le: (T, T) -> bool) {
    && (forall x: T, y: T :: le(x, y) || le(y, x))
    && forall x: T, y: T, z: T :: le(x, y) && le(y, z) ==> le(x, z)
  }

  predicate InOrder<T>(s: seq<T>, le: (T, T) -> bool) {
    forall i, j :: 0 <= i < j < |s| ==> le(s[i], s[j])
  }

  /** In front of the first element not before it: an element keeps ahead of its equals. */
  function Insert<T>(x: T, s: seq<T>, le: (T, T) -> bool): (r: seq<T>)
    ensures |r| == |s| + 1
  {
    if s == [] || le(x, s[0]) then [x] + s else [s[0]] + Insert(x, s[1..], le)
  }

  function Sort<T>(s: seq<T>, le: (T, T) -> bool): (r: seq<T>)
    ensures |r| == |s|
  {
    if s == [] then [] else Insert(s[0], Sort(s[1..], le), le)
  }

  lemma {:induction false} InsertMultiset<T>(x: T, s: seq<T>, le: (T, T) -> bool)
    ensures multiset(Insert(x, s, le)) == multiset(s) + multiset{x}
  {
    if s != [] && !le(x, s[0]) {
      InsertMultiset(x, s[1..], le);
      assert s == [s[0]] + s[1..];
    }
  }

  lemma {:induction false} InsertSorted<T(!new)>(x: T, s: seq<T>, le: (T, T) -> bool)
    requires TotalPreorder(le) && InOrder(s, le)
    ensures InOrder(Insert(x, s, le), le)
  {
    if s != [] {
      if le(x, s[0]) {
        forall j | 0 <= j < |s| ensures le(x, s[j]) {
          if j > 0 { assert le(s[0], s[j]); }
        }
      } else {
        InsertSorted(x, s[1..], le);
        var r := Insert(x, s[1..], le);
        forall y | y in r ensures le(s[0], y) {
          InsertMultiset(x, s[1..], le);
          assert y in multiset(r);
          if y != x {
            assert y in multiset(s[1..]) && y in s[1..];
          }
        }
      }
    }
  }

  /** The result is in order and has the same elements. */
  lemma {:induction false} SortSorts<T(!new)>(s: seq<T>, le: (T, T) -> bool)
    requires TotalPreorder(le)
    ensures InOrder(Sort(s, le), le) && multiset(Sort(s, le)) == multiset(s)
  {
    if s != [] {
      SortSorts(s[1..], le);
      InsertSorted(s[0], Sort(s[1..], le), le);
      InsertMultiset(s[0], Sort(s[1..], le), le);
      assert s == [s[0]] + s[1..];
    }
  }

  /** The first element with property `p`. */
  function First<T>(s: seq<T>, p: T -> bool): Option<T> {
    if s == [] then None else if p(s[0]) then Some(s[0]) else First(s[1..], p)
  }

  lemma {:induction false} InsertFirst<T(!new)>(x: T, s: seq<T>, le: (T, T) -> bool, p: T -> bool)
    requires forall y: T, z: T :: p(y) && p(z) ==> le(y, z)
    ensures First(Insert(x, s, le), p) == if p(x) then Some(x) else First(s, p)
  {
    if s == [] || le(x, s[0]) {
      assert ([x] + s)[1..] == s;
    } else {
      InsertFirst(x, s[1..], le, p);
      assert ([s[0]] + Insert(x, s[1..], le))[1..] == Insert(x, s[1..], le);
    }
  }

  /** Stability: among elements that compare equal the first stays first. */
  lemma {:induction false} SortFirst<T(!new)>(s: seq<T>, le: (T, T) -> bool, p: T -> bool)
    requires forall y: T, z: T :: p(y) && p(z) ==> le(y, z)
    ensures First(Sort(s, le), p) == First(s, p)
  {
    if s != [] {
      SortFirst(s[1..], le, p);
      InsertFirst(s[0], Sort(s[1..], le), le, p);
    }
  }

  lemma HeadsEqual<T(!new)>(s: seq<T>, t: seq<T>, le: (T, T) -> bool)
    requires forall x: T, y: T :: le(x, y) && le(y, x) ==> x == y
    requires InOrder(s, le) && InOrder(t, le) && s != [] && t != [] && s[0] in t && t[0] in s
    ensures s[0] == t[0]
  {
    var i :| 0 <= i < |t| && t[i] == s[0];
    var j :| 0 <= j < |s| && s[j] == t[0];
    if i > 0 && j > 0 {
      assert le(t[0], t[i]) && le(s[0], s[j]);
    }
  }

  lemma TailMultiset<T>(s: seq<T>)
    requires s != []
    ensures multiset(s[1..]) == multiset(s) - multiset{s[0]}
  {
    assert s == [s[0]] + s[1..];
  }

  /** Under an order that tells all elements apart a sorted list is determined by its elements. */
  lemma {:induction false} OrderedOnce<T(!new)>(s: seq<T>, t: seq<T>, le: (T, T) -> bool)
    requires forall x: T, y: T :: le(x, y) && le(y, x) ==> x == y
    requires InOrder(s, le) && InOrder(t, le) && multiset(s) == multiset(t)
    ensures s == t
  {
    assert |multiset(s)| == |s| && |multiset(t)| == |t|;
    if s != [] {
      assert s[0] in multiset(t) && t[0] in multiset(s);
      HeadsEqual(s, t, le);
      TailMultiset(s);
      TailMultiset(t);
      OrderedOnce(s[1..], t[1..], le);
      assert s == [s[0]] + s[1..] && t == [t[0]] + t[1..];
    }
  }
}
