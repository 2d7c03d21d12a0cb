/** What a launched kernel may hold, said of the statements at any depth of it. */
module Admission {
  import opened ThreadMachine
  import opened ThreadLoop
  import opened DevicePhases

  /** `s` is one of the statements or stands inside one of them, at any depth. */
  ghost predicate Within(s: Stmt, ss: seq<Stmt>)
    decreases ss, 0
  {
    ss != [] && (WithinOne(s, ss[0]) || Within(s, ss[1..]))
  }

  ghost predicate WithinOne(s: Stmt, t: Stmt)
    decreases t, 1
  {
    s == t ||
    match t
    case If(_, thn, els) => Within(s, thn) || Within(s, els)
    case For(_, _, _, _, body) => Within(s, body)
    case While(_, body) => Within(s, body)
    case _ => false
  }

  ghost predicate IsBarrier(s: Stmt) { s.Sync? || s.DeviceBarrier? }

  /** A statement holds a barrier if and only if one stands in it. */
  lemma {:induction false} BarrierWithin(ss: seq<Stmt>)
    ensures AnyBarrier(ss) <==> exists s :: IsBarrier(s) && Within(s, ss)
    decreases ss, 0
  {
    if ss != [] {
      BarrierWithinOne(ss[0]);
      BarrierWithin(ss[1..]);
    }
  }

  lemma {:induction false} BarrierWithinOne(t: Stmt)
    ensures HoldsBarrier(t) <==> exists s :: IsBarrier(s) && WithinOne(s, t)
    decreases t, 1
  {
    match t
    case If(_, thn, els) =>
      BarrierWithin(thn);
      BarrierWithin(els);
    case For(_, _, _, _, body) => BarrierWithin(body);
    case While(_, body) => BarrierWithin(body);
    case Sync(_) => assert IsBarrier(t) && WithinOne(t, t);
    case DeviceBarrier => assert IsBarrier(t) && WithinOne(t, t);
    case _ =>
  }

  lemma {:induction false} ReturnWithin(ss: seq<Stmt>)
    ensures HasReturn(ss) <==> Within(Return, ss)
    decreases ss, 0
  {
    if ss != [] {
      ReturnWithinOne(ss[0]);
      ReturnWithin(ss[1..]);
    }
  }

  lemma {:induction false} ReturnWithinOne(t: Stmt)
    ensures Returns(t) <==> WithinOne(Return, t)
    decreases t, 1
  {
    match t
    case If(_, thn, els) =>
      ReturnWithin(thn);
      ReturnWithin(els);
    case For(_, _, _, _, body) => ReturnWithin(body);
    case While(_, body) => ReturnWithin(body);
    case _ =>
  }

  /** What no admitted code holds: a device barrier below the top level, a `While` around a barrier, and
      a `Return` beside a barrier. */
  ghost predicate Allowed(s: Stmt, barriers: bool) {
    !s.DeviceBarrier? && (s.While? ==> !HoldsBarrier(s)) && (s.Return? ==> !barriers)
  }

  /** Statements are admitted if and only if everything in them, at any depth, is allowed. */
  lemma {:induction false} AdmittedExactly(ss: seq<Stmt>, barriers: bool)
    ensures Admitted(ss, barriers) <==> forall s :: Within(s, ss) ==> Allowed(s, barriers)
    decreases ss, 0
  {
    if ss != [] {
      AdmittedOneExactly(ss[0], barriers);
      AdmittedExactly(ss[1..], barriers);
    }
  }

  lemma {:induction false} AdmittedOneExactly(t: Stmt, barriers: bool)
    ensures AdmittedOne(t, barriers) <==> forall s :: WithinOne(s, t) ==> Allowed(s, barriers)
    decreases t, 1
  {
    assert WithinOne(t, t);
    match t
    case If(_, thn, els) =>
      AdmittedExactly(thn, barriers);
      AdmittedExactly(els, barriers);
    case For(_, _, _, _, body) => AdmittedExactly(body, barriers);
    case While(_, body) =>
      AdmittedExactly(body, barriers);
      if AdmittedOne(t, barriers) {
        forall s | WithinOne(s, t) ensures Allowed(s, barriers) {
          assert s == t || Within(s, body);
        }
      }
      if forall s :: WithinOne(s, t) ==> Allowed(s, barriers) {
        assert Allowed(t, barriers);
        forall s | Within(s, body) ensures Allowed(s, barriers) { assert WithinOne(s, t); }
      }
    case _ => assert AdmittedOne(t, barriers) <==> Allowed(t, barriers);
  }

  lemma {:induction false} CutsCounted(body: seq<Stmt>)
    ensures |Segments(body)| > 1 <==> exists i :: 0 <= i < |body| && body[i].DeviceBarrier?
  {
    if body != [] {
      CutsCounted(body[1..]);
      if i :| 0 <= i < |body| && body[i].DeviceBarrier? && i > 0 {
        assert body[1..][i - 1].DeviceBarrier?;
      }
      if j :| 0 <= j < |body[1..]| && body[1..][j].DeviceBarrier? {
        assert body[j + 1].DeviceBarrier?;
      }
    }
  }

  /** Every statement between the cuts is admitted. */
  predicate BetweenCuts(body: seq<Stmt>, barriers: bool) {
    body == [] || ((body[0].DeviceBarrier? || AdmittedOne(body[0], barriers)) && BetweenCuts(body[1..], barriers))
  }

  lemma {:induction false} SegmentsAdmitted(body: seq<Stmt>, barriers: bool)
    ensures (forall i :: 0 <= i < |Segments(body)| ==> Admitted(Segments(body)[i], barriers)) <==>
            BetweenCuts(body, barriers)
  {
    if body != [] {
      SegmentsAdmitted(body[1..], barriers);
      var (all, r) := (Segments(body), Segments(body[1..]));
      if body[0].DeviceBarrier? {
        assert all[0] == [] && all[1..] == r;
        assert forall i :: 0 <= i < |r| ==> r[i] == all[i + 1];
      } else {
        assert all[0] == [body[0]] + r[0] && all[1..] == r[1..] && all[0][1..] == r[0];
        assert forall i :: 1 <= i < |r| ==> r[i] == all[i];
      }
    }
  }

  lemma {:induction false} CutsAllowed(body: seq<Stmt>, barriers: bool)
    ensures BetweenCuts(body, barriers) <==>
            forall i, s :: 0 <= i < |body| && !body[i].DeviceBarrier? && WithinOne(s, body[i]) ==> Allowed(s, barriers)
  {
    if body != [] {
      CutsAllowed(body[1..], barriers);
      AdmittedOneExactly(body[0], barriers);
      assert forall i :: 0 < i < |body| ==> body[i] == body[1..][i - 1];
    }
  }

  /** A launch is admitted if and only if the block has 1 to 1024 threads, a grid with a device barrier
      at the top level has at most 65536, and everything between those barriers is allowed. */
  lemma LaunchAdmitted(body: seq<Stmt>, blocks: nat, threads: nat, barriers: bool)
    requires barriers <==> exists b :: IsBarrier(b) && Within(b, body)
    ensures AdmitsLaunch(body, blocks, threads) <==>
              1 <= threads <= 1024 &&
              ((exists i :: 0 <= i < |body| && body[i].DeviceBarrier?) ==> blocks * threads <= 65536) &&
              forall i, s :: 0 <= i < |body| && !body[i].DeviceBarrier? && WithinOne(s, body[i]) ==>
                             Allowed(s, barriers)
  {
    BarrierWithin(body);
    CutsCounted(body);
    SegmentsAdmitted(body, barriers);
    CutsAllowed(body, barriers);
  }
}
