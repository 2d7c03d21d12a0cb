/** Runs of a labelled transition system: reachability, and when all runs agree. */
module Runs {
  import opened Wrappers

  ghost predicate ReachIn<S(!new), L(!new)>(step: (S, L) -> Option<S>, c: S, d: S, n: nat)
    decreases n
  {
    if n == 0 then c == d
    else exists lab: L :: step(c, lab).Some? && ReachIn(step, step(c, lab).value, d, n - 1)
  }

  /** Some order of steps takes `c` to `d`. */
  ghost predicate Reach<S(!new), L(!new)>(step: (S, L) -> Option<S>, c: S, d: S) {
    exists n: nat :: ReachIn(step, c, d, n)
  }

  lemma ReachRefl<S(!new), L(!new)>(step: (S, L) -> Option<S>, c: S)
    ensures Reach(step, c, c)
  {
    assert ReachIn(step, c, c, 0);
  }

  lemma ReachStep<S(!new), L(!new)>(step: (S, L) -> Option<S>, c: S, lab: L)
    requires step(c, lab).Some?
    ensures Reach(step, c, step(c, lab).value)
  {
    var n := OneStep(step, c, lab, step(c, lab).value);
  }

  lemma OneStep<S(!new), L(!new)>(step: (S, L) -> Option<S>, c: S, lab: L, d: S)
    returns (n: nat)
    requires step(c, lab) == Some(d)
    ensures n == 1 && ReachIn(step, c, d, n)
  {
    n := 1;
    assert ReachIn(step, step(c, lab).value, d, 0);
  }

  lemma {:induction false} ReachInTrans<S(!new), L(!new)>(step: (S, L) -> Option<S>, c: S, d: S, e: S, m: nat, n: nat)
    requires ReachIn(step, c, d, m) && ReachIn(step, d, e, n)
    ensures ReachIn(step, c, e, m + n)
    decreases m
  {
    if m > 0 {
      var lab: L :| step(c, lab).Some? && ReachIn(step, step(c, lab).value, d, m - 1);
      ReachInTrans(step, step(c, lab).value, d, e, m - 1, n);
    }
  }

  lemma ReachTrans<S(!new), L(!new)>(step: (S, L) -> Option<S>, c: S, d: S, e: S)
    requires Reach(step, c, d) && Reach(step, d, e)
    ensures Reach(step, c, e)
  {
    var m: nat :| ReachIn(step, c, d, m);
    var n: nat :| ReachIn(step, d, e, n);
    ReachInTrans(step, c, d, e, m, n);
  }

  /** What every step keeps, every run keeps; what every step only extends, every run extends. */
  lemma {:induction false} RunKeeps<S(!new), L(!new)>(step: (S, L) -> Option<S>, good: S -> bool,
      grows: (S, S) -> bool, c: S, d: S, n: nat)
    requires forall x: S, lab: L :: good(x) && step(x, lab).Some? ==>
             good(step(x, lab).value) && grows(x, step(x, lab).value)
    requires forall x: S :: grows(x, x)
    requires forall x: S, y: S, z: S :: grows(x, y) && grows(y, z) ==> grows(x, z)
    requires good(c) && ReachIn(step, c, d, n)
    ensures good(d) && grows(c, d)
    decreases n
  {
    if n > 0 {
      var lab: L :| step(c, lab).Some? && ReachIn(step, step(c, lab).value, d, n - 1);
      RunKeeps(step, good, grows, step(c, lab).value, d, n - 1);
    }
  }

  /** Two different steps from a good state can be taken in either order, and stay in good states. */
  ghost predicate Commuting<S(!new), L(!new)>(step: (S, L) -> Option<S>, good: S -> bool) {
    && (forall c: S, x: L :: good(c) && step(c, x).Some? ==> good(step(c, x).value))
    && (forall c: S, x: L, y: L :: good(c) && x != y && step(c, x).Some? && step(c, y).Some? ==>
          step(step(c, x).value, y).Some? && step(step(c, y).value, x) == step(step(c, x).value, y))
  }

  ghost predicate NoStep<S(!new), L(!new)>(step: (S, L) -> Option<S>, c: S) {
    forall lab: L :: step(c, lab).None?
  }

  /** Where steps commute no first step loses the way to the end. */
  lemma {:induction false} AnyFirstStep<S(!new), L(!new)>(step: (S, L) -> Option<S>, good: S -> bool, c: S, d: S,
      n: nat, lab: L)
    requires Commuting(step, good) && good(c)
    requires ReachIn(step, c, d, n) && NoStep(step, d) && step(c, lab).Some?
    ensures n > 0 && ReachIn(step, step(c, lab).value, d, n - 1)
    decreases n
  {
    assert step(d, lab).None?;
    if n > 0 {
      var first: L :| step(c, first).Some? && ReachIn(step, step(c, first).value, d, n - 1);
      if first != lab {
        AnyFirstStep(step, good, step(c, first).value, d, n - 1, lab);
        assert ReachIn(step, step(step(c, lab).value, first).value, d, n - 2);
      }
    }
  }

  /** If one run ends after `n` steps in `d`, every run can be carried on to `d`, `n` steps long in
      all, and one that cannot go on is there. */
  lemma {:induction false} RunsAgree<S(!new), L(!new)>(step: (S, L) -> Option<S>, good: S -> bool, c: S, d: S, n: nat,
      e: S, m: nat)
    requires Commuting(step, good) && good(c)
    requires ReachIn(step, c, d, n) && NoStep(step, d) && ReachIn(step, c, e, m)
    ensures m <= n && ReachIn(step, e, d, n - m)
    ensures NoStep(step, e) ==> e == d
    decreases m
  {
    if m > 0 {
      var first: L :| step(c, first).Some? && ReachIn(step, step(c, first).value, e, m - 1);
      AnyFirstStep(step, good, c, d, n, first);
      RunsAgree(step, good, step(c, first).value, d, n - 1, e, m - 1);
    }
  }
}
