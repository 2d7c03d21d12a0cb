/** The emitted program ends whenever the kernel does: when some schedule of a kernel without races
    runs to its end, the emitted program does too, in as many rounds, unless the threads of a block
    disagree on a block-level condition. */
module EmittedEnds {
  import opened Wrappers
  import opened Runs
  import opened ThreadMachine
  import opened ThreadLoop
  import opened ThreadLoopRefines
  import opened DevicePhases

  /** A race-free kernel some schedule of which ends after `n` more steps. */
  ghost predicate Bounded(c: Grid, n: nat) {
    RaceFree(c) && exists d :: ReachIn(Step, c, d, n) && Ended(d)
  }

  lemma BoundedAfter(c: Grid, n: nat, e: Grid, m: nat)
    requires Bounded(c, n) && ReachIn(Step, c, e, m)
    ensures m <= n && Bounded(e, n - m)
  {
    var d :| ReachIn(Step, c, d, n) && Ended(d);
    SchedulesAgree(c, d, n, e, m);
    forall f | Reach(Step, e, f) ensures ConflictFree(f) {
      assert Reach(Step, c, e);
      ReachTrans(Step, c, e, f);
    }
  }

  /** Getting anywhere else takes some of the steps there are. */
  lemma BoundedReach(c: Grid, n: nat, e: Grid) returns (left: nat)
    requires Bounded(c, n) && Reach(Step, c, e)
    ensures left <= n && Bounded(e, left) && (c != e ==> left < n)
  {
    var m: nat :| ReachIn(Step, c, e, m);
    BoundedAfter(c, n, e, m);
    left := n - m;
  }

  // ---- what never ends

  ghost predicate Faulty(c: Grid, b: nat, t: nat, code: int) {
    HasThread(c, b, t) && StepThread(Tid(b, t), c.blocks[b][t], c.mem) == Fault(code)
  }

  lemma FaultStays(c: Grid, lab: Label, e: Grid, b: nat, t: nat, code: int)
    requires Faulty(c, b, t, code) && Step(c, lab) == Some(e)
    ensures Faulty(e, b, t, code)
  {
  }

  lemma FaultNeverEnds(c: Grid, d: Grid, n: nat, b: nat, t: nat, code: int)
    requires Faulty(c, b, t, code) && ReachIn(Step, c, d, n)
    ensures !Ended(d)
  {
    forall x: Grid, lab: Label | Faulty(x, b, t, code) && Step(x, lab).Some?
      ensures Faulty(Step(x, lab).value, b, t, code)
    {
      FaultStays(x, lab, Step(x, lab).value, b, t, code);
    }
    RunKeeps(Step, x => Faulty(x, b, t, code), (x, y) => true, c, d, n);
    assert HasThread(d, b, t) && d.blocks[b][t].todo != [];
  }

  lemma FaultyUnbounded(c: Grid, n: nat, code: int)
    requires Bounded(c, n)
    ensures !FaultsAt(c, code)
  {
    if FaultsAt(c, code) {
      var b: nat, t: nat :| HasThread(c, b, t) && StepThread(Tid(b, t), c.blocks[b][t], c.mem) == Fault(code);
      var d :| ReachIn(Step, c, d, n) && Ended(d);
      FaultNeverEnds(c, d, n, b, t, code);
    }
  }

  lemma BoundedNoFault(c: Grid, n: nat, code: int)
    requires Bounded(c, n)
    ensures !CanFault(c, code)
  {
    forall e | Reach(Step, c, e) ensures !FaultsAt(e, code) {
      var m := BoundedReach(c, n, e);
      FaultyUnbounded(e, m, code);
    }
  }

  /** A block whose threads all wait for a rendezvous that cannot be had. */
  ghost predicate Deadlocked(c: Grid, b: nat) {
    b < |c.blocks| && Meets(c.blocks[b]) && Meet(b, c.blocks[b]).None?
  }

  lemma DeadlockStays(c: Grid, lab: Label, e: Grid, b: nat)
    requires Deadlocked(c, b) && Step(c, lab) == Some(e)
    ensures Deadlocked(e, b)
  {
    assert HasThread(c, b, 0);
    match lab
    case T(b', t) =>
      if b' == b {
        MeetingBlocks(c, b, t);
      }
    case S(b') =>
    case D => MeetingBlocks(c, b, 0);
  }

  lemma NeverMeets(c: Grid, d: Grid, n: nat, b: nat)
    requires Deadlocked(c, b) && ReachIn(Step, c, d, n)
    ensures !Ended(d)
  {
    forall x: Grid, lab: Label | Deadlocked(x, b) && Step(x, lab).Some? ensures Deadlocked(Step(x, lab).value, b) {
      DeadlockStays(x, lab, Step(x, lab).value, b);
    }
    RunKeeps(Step, x => Deadlocked(x, b), (x, y) => true, c, d, n);
    assert HasThread(d, b, 0) && d.blocks[b][0].todo != [];
  }

  // ---- a run of statements is never left waiting

  /** Code of one thread loop: no barrier, and no jump out of it. */
  ghost predicate Alone(fs: seq<Frame>) {
    fs == [] || (AloneFrame(fs[0], fs[1..]) && Alone(fs[1..]))
  }

  ghost predicate AloneFrame(f: Frame, rest: seq<Frame>) {
    match f
    case Do(s) => !HoldsBarrier(s) && (EscapesOne(s) ==> Innermost(rest) != [])
    case ForLoop(_, _, _, _, body) => !AnyBarrier(body)
    case WhileLoop(_, body) => !AnyBarrier(body)
  }

  lemma {:induction false} AloneInnermost(fs: seq<Frame>)
    requires Alone(fs)
    ensures Alone(Innermost(fs))
    ensures Innermost(fs) != [] ==> !Innermost(fs)[0].Do?
  {
    if fs != [] && fs[0].Do? {
      AloneInnermost(fs[1..]);
    }
  }

  lemma {:induction false} AlonePush(ss: seq<Stmt>, rest: seq<Frame>)
    requires !AnyBarrier(ss) && Alone(rest) && (Escapes(ss) ==> Innermost(rest) != [])
    ensures Alone(Doing(ss) + rest) && Innermost(Doing(ss) + rest) == Innermost(rest)
  {
    var all := Doing(ss) + rest;
    if ss == [] {
      assert all == rest;
    } else {
      AlonePush(ss[1..], rest);
      assert all[1..] == Doing(ss[1..]) + rest && all[0] == Do(ss[0]);
    }
  }

  /** A loop's body in front of the loop again. */
  lemma AlonePass(body: seq<Stmt>, again: Frame, rest: seq<Frame>)
    requires !AnyBarrier(body) && !again.Do? && AloneFrame(again, rest) && Alone(rest)
    ensures Alone((Doing(body) + [again]) + rest) && Alone([again] + rest)
  {
    assert ([again] + rest)[1..] == rest && ([again] + rest)[0] == again;
    AlonePush(body, [again] + rest);
    assert Doing(body) + ([again] + rest) == (Doing(body) + [again]) + rest;
  }

  lemma AloneLoop(who: Tid, f: Frame, rest: seq<Frame>, l: Locals)
    requires AloneFrame(f, rest) && Alone(rest) && !f.Do?
    ensures Head(who, f, l).Push? && Alone(Head(who, f, l).front + rest)
  {
    assert [] + rest == rest;
    match f
    case ForLoop(local, next, end, step, body) => AlonePass(body, ForLoop(local, next + step, end, step, body), rest);
    case WhileLoop(_, body) => AlonePass(body, f, rest);
  }

  lemma AloneStmt(who: Tid, s: Stmt, rest: seq<Frame>, l: Locals)
    requires AloneFrame(Do(s), rest) && Alone(rest)
    ensures var r := Head(who, Do(s), l);
            r != Wait && (r.Push? ==> Alone(r.front + rest)) && (r.LeaveLoop? ==> Innermost(rest) != [])
  {
    assert [] + rest == rest;
    match s
    case If(cond, thn, els) => AlonePush(if cond(who, l) != 0 then thn else els, rest);
    case For(local, start, end, step, body) =>
      AlonePass(body, ForLoop(local, start(who, l), end(who, l), step(who, l), body), rest);
    case While(cond, body) => AlonePass(body, WhileLoop(cond, body), rest);
    case _ =>
  }

  lemma AloneHead(who: Tid, f: Frame, rest: seq<Frame>, l: Locals)
    requires AloneFrame(f, rest) && Alone(rest)
    ensures var r := Head(who, f, l);
            r != Wait && (r.Push? ==> Alone(r.front + rest)) && (r.LeaveLoop? ==> Innermost(rest) != [])
  {
    match f
    case Do(s) => AloneStmt(who, s, rest, l);
    case _ => AloneLoop(who, f, rest, l);
  }

  lemma AloneStep(who: Tid, fs: seq<Frame>, l: Locals, mem: Memory)
    requires fs != [] && Alone(fs)
    ensures !Answer(Ask(who, fs, l), mem).Blocked?
    ensures Answer(Ask(who, fs, l), mem).Moved? ==> Alone(Answer(Ask(who, fs, l), mem).thread.todo)
  {
    var rest := fs[1..];
    AloneHead(who, fs[0], rest, l);
    AloneInnermost(rest);
    if Head(who, fs[0], l).LeaveLoop? {
      assert Alone(Innermost(rest)[1..]);
    }
  }

  lemma OneStepLess(c: Grid, b: nat, t: nat, th: Thread, mem: Memory, n: nat)
    requires HasThread(c, b, t) && StepThread(Tid(b, t), c.blocks[b][t], c.mem) == Moved(th, mem) && Bounded(c, n)
    ensures n > 0 && Bounded(PutThread(c, b, t, th, mem), n - 1)
  {
    var d := PutThread(c, b, t, th, mem);
    assert Step(c, T(b, t)) == Some(d);
    var m := OneStep(Step, c, T(b, t), d);
    BoundedAfter(c, n, d, m);
  }

  /** After a step of a thread there is one less to take. */
  lemma MoveLeft(c: Grid, b: nat, t: nat, todo: seq<Frame>, rest: seq<Frame>, l: Locals, n: nat, th: Thread, m: Memory)
    returns (d: Grid)
    requires HasThread(c, b, t) && c.blocks[b][t] == Thread(todo + rest, l) && todo != [] && Bounded(c, n)
    requires (rest == [] || NoReturn(todo)) && Answer(Ask(Tid(b, t), todo, l), c.mem) == Moved(th, m)
    ensures n > 0 && Bounded(d, n - 1) && (rest == [] || NoReturn(th.todo)) && d.mem == m
    ensures HasThread(d, b, t) && d.blocks[b][t] == Thread(th.todo + rest, th.locals)
  {
    var next := Thread(th.todo + rest, th.locals);
    ThreadMoves(c, b, t, todo, rest, l, th, m);
    OneStepLess(c, b, t, next, m, n);
    PutThreadAt(c, b, t, next, m);
    d := PutThread(c, b, t, next, m);
  }

  lemma {:induction false} ThreadEnds(c: Grid, b: nat, t: nat, todo: seq<Frame>, rest: seq<Frame>, l: Locals,
      fuel: nat, n: nat)
    requires HasThread(c, b, t) && c.blocks[b][t] == Thread(todo + rest, l)
    requires (rest == [] || NoReturn(todo)) && Alone(todo) && Bounded(c, n) && n < fuel
    ensures !RunThread(Tid(b, t), todo, l, c.mem, fuel).Blocked?
    decreases fuel
  {
    if todo != [] {
      AloneStep(Tid(b, t), todo, l, c.mem);
      var o := Answer(Ask(Tid(b, t), todo, l), c.mem);
      if o.Moved? {
        ThreadEndsLater(c, b, t, todo, rest, l, fuel, n, o.thread, o.mem);
        RunMoves(Tid(b, t), todo, l, c.mem, o.thread, o.mem, fuel);
      } else {
        assert RunThread(Tid(b, t), todo, l, c.mem, fuel) == o;
      }
    } else {
      assert RunThread(Tid(b, t), todo, l, c.mem, fuel) == Moved(Thread([], l), c.mem);
    }
  }

  lemma {:induction false} ThreadEndsLater(c: Grid, b: nat, t: nat, todo: seq<Frame>, rest: seq<Frame>, l: Locals,
      fuel: nat, n: nat, th: Thread, m: Memory)
    requires HasThread(c, b, t) && c.blocks[b][t] == Thread(todo + rest, l) && todo != []
    requires (rest == [] || NoReturn(todo)) && Bounded(c, n) && n < fuel
    requires Answer(Ask(Tid(b, t), todo, l), c.mem) == Moved(th, m) && Alone(th.todo)
    ensures !RunThread(Tid(b, t), th.todo, th.locals, m, fuel - 1).Blocked?
    decreases fuel, 0
  {
    var d := MoveLeft(c, b, t, todo, rest, l, n, th, m);
    ThreadEnds(d, b, t, th.todo, rest, th.locals, fuel - 1, n - 1);
  }

  lemma RunMoves(who: Tid, todo: seq<Frame>, l: Locals, mem: Memory, th: Thread, m: Memory, fuel: nat)
    requires todo != [] && Answer(Ask(who, todo, l), mem) == Moved(th, m) && fuel > 0
    ensures RunThread(who, todo, l, mem, fuel) == RunThread(who, th.todo, th.locals, m, fuel - 1)
  {
  }

  /** Where the block stands when the next thread has its turn. */
  lemma NextTurn(c: Grid, b: nat, todo: seq<Frame>, k: seq<Frame>, t: nat, ls: seq<Locals>, n: nat, l: Locals,
      m: Memory)
    returns (d: Grid, left: nat)
    requires b < |c.blocks| && t < |ls| && c.blocks[b] == Mixed(t, k, todo, ls) && Bounded(c, n)
    requires Reach(Step, c, PutThread(c, b, t, Thread(k, l), m))
    ensures left <= n && Bounded(d, left) && d.mem == m
    ensures b < |d.blocks| && d.blocks[b] == Mixed(t + 1, k, todo, ls[t := l])
  {
    PutThreadAt(c, b, t, Thread(k, l), m);
    d := PutThread(c, b, t, Thread(k, l), m);
    left := BoundedReach(c, n, d);
  }

  lemma {:induction false} LoopEnds(c: Grid, b: nat, run: seq<Stmt>, k: seq<Frame>, t: nat, ls: seq<Locals>,
      fuel: nat, n: nat)
    requires b < |c.blocks| && t <= |ls| && c.blocks[b] == Mixed(t, k, Doing(run) + k, ls)
    requires (k == [] || !HasReturn(run)) && Alone(Doing(run)) && Bounded(c, n) && n < fuel
    ensures !RunLoop(b, run, t, ls, c.mem, fuel).Unfinished?
    decreases |ls| - t
  {
    if t < |ls| {
      if k != [] {
        DoingNoReturn(run);
      }
      ThreadEnds(c, b, t, Doing(run), k, ls[t], fuel, n);
      ThreadSim(c, b, t, Doing(run), k, ls[t], fuel);
      match RunThread(Tid(b, t), Doing(run), ls[t], c.mem, fuel)
      case Moved(th, m) =>
        var d, left := NextTurn(c, b, Doing(run) + k, k, t, ls, n, th.locals, m);
        LoopEnds(d, b, run, k, t + 1, ls[t := th.locals], fuel, left);
      case _ =>
    }
  }

  // ---- nor is a block

  lemma FlushEnds(c: Grid, b: nat, run: seq<Stmt>, k: seq<Frame>, ls: seq<Locals>, fuel: nat, n: nat)
    requires b < |c.blocks| && ls != [] && c.blocks[b] == Threads(Doing(run) + k, ls)
    requires Flush(run).Some? && !AnyBarrier(run) && (k == [] || !HasReturn(run)) && Bounded(c, n) && n < fuel
    ensures !Exec(b, Flush(run).value, ls, c.mem, fuel).Unfinished?
  {
    if run != [] {
      assert c.blocks[b] == Mixed(0, k, Doing(run) + k, ls);
      AlonePush(run, []);
      assert Doing(run) + [] == Doing(run);
      LoopEnds(c, b, run, k, 0, ls, fuel, n);
      LoopSim(c, b, run, k, 0, ls, fuel);
      OneEmit(b, ThreadRun(run), ls, c.mem, fuel);
    }
  }

  lemma {:induction false} AnyBarrierPush(run: seq<Stmt>, s: Stmt)
    ensures AnyBarrier(run + [s]) <==> AnyBarrier(run) || HoldsBarrier(s)
  {
    if run == [] {
      assert [] + [s] == [s] && [s][1..] == [];
    } else {
      assert (run + [s])[1..] == run[1..] + [s];
      AnyBarrierPush(run[1..], s);
    }
  }

  lemma {:induction false} PhasesEnd(c: Grid, b: nat, ss: seq<Stmt>, run: seq<Stmt>, k: seq<Frame>, ls: seq<Locals>,
      fuel: nat, n: nat)
    requires b < |c.blocks| && ls != [] && c.blocks[b] == Threads(Doing(run + ss) + k, ls)
    requires Phases(ss, run).Some? && MaySplit(ss, run, k) && !AnyBarrier(run) && Bounded(c, n) && n < fuel
    ensures !Exec(b, Phases(ss, run).value, ls, c.mem, fuel).Unfinished?
    decreases fuel, ss, 2
  {
    HasReturnConcat(run, ss);
    if ss == [] {
      assert run + ss == run;
      FlushEnds(c, b, run, k, ls, fuel, n);
    } else if !HoldsBarrier(ss[0]) {
      assert (run + [ss[0]]) + ss[1..] == run + ss;
      AnyBarrierPush(run, ss[0]);
      PhasesEnd(c, b, ss[1..], run + [ss[0]], k, ls, fuel, n);
    } else {
      PhasesSplitEnd(c, b, ss, run, k, ls, fuel, n);
    }
  }

  /** Where a piece that comes to its end leaves the block. */
  lemma PieceLeft(c: Grid, b: nat, r: Ending, k: seq<Frame>, n: nat) returns (left: nat)
    requires b < |c.blocks| && Simulates(c, b, r, k) && r.Ran? && Bounded(c, n)
    ensures left <= n && Bounded(PutBlock(c, b, Threads(k, r.locals), r.mem), left) && |r.locals| == |c.blocks[b]|
    ensures c.blocks[b] != Threads(k, r.locals) ==> left < n
  {
    var d := PutBlock(c, b, Threads(k, r.locals), r.mem);
    left := BoundedReach(c, n, d);
    assert d.blocks[b] == Threads(k, r.locals);
  }

  lemma {:induction false} PhasesSplitEnd(c: Grid, b: nat, ss: seq<Stmt>, run: seq<Stmt>, k: seq<Frame>,
      ls: seq<Locals>, fuel: nat, n: nat)
    requires b < |c.blocks| && ls != [] && c.blocks[b] == Threads(Doing(run + ss) + k, ls)
    requires ss != [] && HoldsBarrier(ss[0]) && Phases(ss, run).Some? && !HasReturn(run) && !HasReturn(ss)
    requires !AnyBarrier(run) && Bounded(c, n) && n < fuel
    ensures !Exec(b, Phases(ss, run).value, ls, c.mem, fuel).Unfinished?
    decreases fuel, ss, 1
  {
    var x, y := Flush(run).value, Split(ss[0]).value + Phases(ss[1..], []).value;
    var todo := Doing(ss) + k;
    DoingConcat(run, ss, k);
    assert todo == [Do(ss[0])] + (Doing(ss[1..]) + k);
    FlushEnds(c, b, run, todo, ls, fuel, n);
    FlushSim(c, b, run, todo, ls, fuel);
    assert Phases(ss, run).value == x + y;
    ExecConcat(b, x, y, ls, c.mem, fuel);
    var r := Exec(b, x, ls, c.mem, fuel);
    if r.Ran? {
      var m := PieceLeft(c, b, r, todo, n);
      SplitRestEnd(PutBlock(c, b, Threads(todo, r.locals), r.mem), b, ss, k, r.locals, fuel, m);
    }
  }

  /** A barrier-holding statement, and the phases of the statements behind it. */
  lemma {:induction false} SplitRestEnd(c: Grid, b: nat, ss: seq<Stmt>, k: seq<Frame>, ls: seq<Locals>,
      fuel: nat, n: nat)
    requires b < |c.blocks| && ls != [] && c.blocks[b] == Threads(Doing(ss) + k, ls)
    requires ss != [] && HoldsBarrier(ss[0]) && Split(ss[0]).Some? && Phases(ss[1..], []).Some? && !HasReturn(ss)
    requires Bounded(c, n) && n < fuel
    ensures !Exec(b, Split(ss[0]).value + Phases(ss[1..], []).value, ls, c.mem, fuel).Unfinished?
    decreases fuel, ss, 0
  {
    var s, rest := ss[0], ss[1..];
    var y, z, k1 := Split(s).value, Phases(rest, []).value, Doing(rest) + k;
    assert Doing(ss) + k == [Do(s)] + k1;
    SplitEnds(c, b, s, k1, ls, fuel, n);
    SplitSim(c, b, s, k1, ls, fuel);
    ExecConcat(b, y, z, ls, c.mem, fuel);
    var q := Exec(b, y, ls, c.mem, fuel);
    if q.Ran? {
      var j := PieceLeft(c, b, q, k1, n);
      assert [] + rest == rest;
      PhasesEnd(PutBlock(c, b, Threads(k1, q.locals), q.mem), b, rest, [], k, q.locals, fuel, j);
    }
  }

  lemma {:induction false} SplitEnds(c: Grid, b: nat, s: Stmt, k: seq<Frame>, ls: seq<Locals>, fuel: nat, n: nat)
    requires b < |c.blocks| && ls != [] && c.blocks[b] == Threads([Do(s)] + k, ls)
    requires Split(s).Some? && !Returns(s) && HoldsBarrier(s) && Bounded(c, n) && n < fuel
    ensures !Exec(b, Split(s).value, ls, c.mem, fuel).Unfinished?
    decreases fuel, s, 3
  {
    var e := Split(s).value[0];
    assert Split(s).value == [e];
    OneEmit(b, e, ls, c.mem, fuel);
    match s
    case Sync(effect) => PointEnds(c, b, effect, k, ls, n);
    case If(_, _, _) =>
      IfEnds(c, b, s, k, ls, fuel, n);
      IfSim(c, b, s, k, ls, fuel);
    case For(_, _, _, _, _) =>
      ForEnds(c, b, s, k, ls, fuel, n);
      ForSim(c, b, s, k, ls, fuel);
  }

  /** A rendezvous that could not give every thread its locals would be the end of all schedules. */
  lemma PointEnds(c: Grid, b: nat, effect: (nat, seq<Locals>) -> seq<Locals>, k: seq<Frame>, ls: seq<Locals>, n: nat)
    requires b < |c.blocks| && ls != [] && c.blocks[b] == Threads([Do(Sync(effect))] + k, ls) && Bounded(c, n)
    ensures |effect(b, ls)| == |ls|
  {
    if |effect(b, ls)| != |ls| {
      assert Meets(c.blocks[b]);
      assert LocalsOf(c.blocks[b]) == ls;
      assert Meet(b, c.blocks[b]).None?;
      var d :| ReachIn(Step, c, d, n) && Ended(d);
      NeverMeets(c, d, n, b);
    }
  }

  lemma {:induction false} IfEnds(c: Grid, b: nat, s: Stmt, k: seq<Frame>, ls: seq<Locals>, fuel: nat, n: nat)
    requires b < |c.blocks| && ls != [] && c.blocks[b] == Threads([Do(s)] + k, ls)
    requires s.If? && Split(s).Some? && !Returns(s) && Bounded(c, n) && n < fuel
    ensures !ExecOne(b, Split(s).value[0], ls, c.mem, fuel).Unfinished?
    decreases fuel, s, 2
  {
    if UniformTruth(b, s.cond, ls) {
      var taken := if s.cond(Tid(b, 0), ls[0]) != 0 then s.thn else s.els;
      var todo := [Do(s)] + k;
      assert todo[1..] == k && [] + taken == taken;
      var left := StepTogether(c, b, todo, Doing(taken) + k, ls, ls, n);
      PhasesEnd(PutBlock(c, b, Threads(Doing(taken) + k, ls), c.mem), b, taken, [], k, ls, fuel, left);
    }
  }

  /** A step all threads of the block take on their own uses some of the steps there are. */
  lemma StepTogether(c: Grid, b: nat, todo: seq<Frame>, next: seq<Frame>, ls: seq<Locals>, ls': seq<Locals>, n: nat)
    returns (left: nat)
    requires b < |c.blocks| && |ls| == |ls'| && c.blocks[b] == Threads(todo, ls) && Bounded(c, n)
    requires forall t :: 0 <= t < |ls| ==>
               StepThread(Tid(b, t), Thread(todo, ls[t]), c.mem) == Moved(Thread(next, ls'[t]), c.mem)
    ensures left <= n && Bounded(PutBlock(c, b, Threads(next, ls'), c.mem), left)
    ensures Threads(todo, ls) != Threads(next, ls') ==> left < n
  {
    var d := PutBlock(c, b, Threads(next, ls'), c.mem);
    assert ls'[..0] + ls[0..] == ls;
    assert Mixed(0, next, todo, ls) == Threads(todo, ls);
    AllStep(c, b, 0, todo, next, ls, ls');
    left := BoundedReach(c, n, d);
    assert d.blocks[b] == Threads(next, ls');
  }

  lemma {:induction false} ForEnds(c: Grid, b: nat, s: Stmt, k: seq<Frame>, ls: seq<Locals>, fuel: nat, n: nat)
    requires b < |c.blocks| && ls != [] && c.blocks[b] == Threads([Do(s)] + k, ls)
    requires s.For? && Split(s).Some? && !Returns(s) && HoldsBarrier(s) && Bounded(c, n) && n < fuel
    ensures !ExecOne(b, Split(s).value[0], ls, c.mem, fuel).Unfinished?
    decreases fuel, s, 2
  {
    if Uniform(b, s.start, ls) && Uniform(b, s.end, ls) && Uniform(b, s.step, ls) {
      var (from, to, by') := (s.start(Tid(b, 0), ls[0]), s.end(Tid(b, 0), ls[0]), s.step(Tid(b, 0), ls[0]));
      var todo := [Do(s)] + k;
      assert todo[1..] == k;
      if by' != 0 {
        var k' := [ForLoop(s.local, from, to, by', s.body)] + k;
        var left := StepTogether(c, b, todo, k', ls, ls, n);
        PassesEnd(PutBlock(c, b, Threads(k', ls), c.mem), b, s.local, from, to, by', s.body, k, ls, fuel, left);
      }
    }
  }

  lemma {:induction false} PassesEnd(c: Grid, b: nat, local: nat, next: int, end: int, step: int, body: seq<Stmt>,
      k: seq<Frame>, ls: seq<Locals>, fuel: nat, n: nat)
    requires b < |c.blocks| && ls != [] && c.blocks[b] == Threads([ForLoop(local, next, end, step, body)] + k, ls)
    requires Phases(body, []).Some? && !HasReturn(body) && body != [] && Bounded(c, n) && n < fuel
    ensures !ExecPasses(b, local, next, end, step, Phases(body, []).value, ls, c.mem, fuel).Unfinished?
    decreases fuel, body, 2
  {
    if InRange(next, end, step) {
      var k1 := [ForLoop(local, next + step, end, step, body)] + k;
      var left := PassBegins(c, b, local, next, end, step, body, k, ls, n);
      var d := PutBlock(c, b, Threads(Doing(body) + k1, SetAll(ls, local, next)), c.mem);
      PassesEndLater(d, b, local, next + step, end, step, body, k, SetAll(ls, local, next), fuel - 1, left);
    }
  }

  /** A pass whose threads have entered the body, and the passes after it. */
  lemma {:induction false} PassesEndLater(d: Grid, b: nat, local: nat, next: int, end: int, step: int,
      body: seq<Stmt>, k: seq<Frame>, ls: seq<Locals>, fuel: nat, n: nat)
    requires b < |d.blocks| && ls != []
    requires d.blocks[b] == Threads(Doing(body) + ([ForLoop(local, next, end, step, body)] + k), ls)
    requires Phases(body, []).Some? && !HasReturn(body) && body != [] && Bounded(d, n) && n < fuel
    ensures var r := Exec(b, Phases(body, []).value, ls, d.mem, fuel);
            !r.Unfinished? &&
            (r.Ran? ==>
               |r.locals| == |ls| &&
               !ExecPasses(b, local, next, end, step, Phases(body, []).value, r.locals, r.mem, fuel).Unfinished?)
    decreases fuel, body, 4
  {
    var k1 := [ForLoop(local, next, end, step, body)] + k;
    var m := PassLeft(d, b, body, k1, ls, fuel, n);
    var r := Exec(b, Phases(body, []).value, ls, d.mem, fuel);
    if r.Ran? {
      PassesEnd(PutBlock(d, b, Threads(k1, r.locals), r.mem), b, local, next, end, step, body, k, r.locals, fuel, m);
    }
  }

  lemma {:induction false} PassLeft(d: Grid, b: nat, body: seq<Stmt>, k: seq<Frame>, ls: seq<Locals>, fuel: nat, n: nat)
    returns (left: nat)
    requires b < |d.blocks| && ls != [] && d.blocks[b] == Threads(Doing(body) + k, ls)
    requires Phases(body, []).Some? && !HasReturn(body) && Bounded(d, n) && n < fuel
    ensures var r := Exec(b, Phases(body, []).value, ls, d.mem, fuel);
            !r.Unfinished? && left <= n &&
            (r.Ran? ==> |r.locals| == |ls| && Bounded(PutBlock(d, b, Threads(k, r.locals), r.mem), left))
    decreases fuel, body, 3
  {
    left := 0;
    assert [] + body == body;
    PhasesEnd(d, b, body, [], k, ls, fuel, n);
    PhasesSim(d, b, body, [], k, ls, fuel);
    var r := Exec(b, Phases(body, []).value, ls, d.mem, fuel);
    if r.Ran? {
      left := PieceLeft(d, b, r, k, n);
    }
  }

  /** Every thread binds the counter and enters the body. */
  lemma PassBegins(c: Grid, b: nat, local: nat, next: int, end: int, step: int, body: seq<Stmt>, k: seq<Frame>,
      ls: seq<Locals>, n: nat) returns (left: nat)
    requires b < |c.blocks| && ls != [] && c.blocks[b] == Threads([ForLoop(local, next, end, step, body)] + k, ls)
    requires body != [] && Bounded(c, n) && InRange(next, end, step)
    ensures var k1 := [ForLoop(local, next + step, end, step, body)] + k;
            left < n && Bounded(PutBlock(c, b, Threads(Doing(body) + k1, SetAll(ls, local, next)), c.mem), left)
  {
    var todo := [ForLoop(local, next, end, step, body)] + k;
    var loop, bound := [ForLoop(local, next + step, end, step, body)], SetAll(ls, local, next);
    var into := Doing(body) + (loop + k);
    assert todo[1..] == k && (Doing(body) + loop) + k == into;
    left := StepTogether(c, b, todo, into, ls, bound, n);
    assert |into| > |todo|;
    assert Threads(todo, ls)[0] != Threads(into, bound)[0];
  }

  // ---- nor is the grid

  lemma {:induction false} BlocksEnd(c: Grid, seg: seq<Stmt>, k: seq<Frame>, b: nat, lss: seq<seq<Locals>>,
      fuel: nat, n: nat)
    requires Shaped(lss) && b <= |lss| && c.blocks == Partly(b, k, Doing(seg) + k, lss)
    requires Phases(seg, []).Some? && MaySplit(seg, [], k) && Bounded(c, n) && n < fuel
    ensures !ExecBlocks(Phases(seg, []).value, b, lss, c.mem, fuel).GridUnfinished?
    decreases |lss| - b
  {
    if b < |lss| {
      assert [] + seg == seg;
      PhasesEnd(c, b, seg, [], k, lss[b], fuel, n);
      PhasesSim(c, b, seg, [], k, lss[b], fuel);
      var r := Exec(b, Phases(seg, []).value, lss[b], c.mem, fuel);
      if r.Ran? {
        var left := PieceLeft(c, b, r, k, n);
        var d := PutBlock(c, b, Threads(k, r.locals), r.mem);
        assert d.blocks == Partly(b + 1, k, Doing(seg) + k, lss[b := r.locals]);
        BlocksEnd(d, seg, k, b + 1, lss[b := r.locals], fuel, left);
      }
    }
  }

  lemma {:induction false} GridEnds(c: Grid, segs: seq<seq<Stmt>>, lss: seq<seq<Locals>>, fuel: nat, n: nat)
    requires Shaped(lss) && Cuttable(segs) && Lower(segs).Some?
    requires c.blocks == Grids(Doing(Glue(segs)), lss) && Bounded(c, n) && n < fuel
    ensures !ExecGrid(Lower(segs).value, lss, c.mem, fuel).GridUnfinished?
    decreases |segs|
  {
    var phases := Lower(segs).value;
    var rest := segs[1..];
    var k := if rest == [] then [] else [Do(DeviceBarrier)] + Doing(Glue(rest));
    assert phases[1..] == Lower(rest).value;
    assert [] + segs[0] == segs[0];
    assert c.blocks == Partly(0, k, Doing(segs[0]) + k, lss) by {
      assert Doing(Glue(segs)) == Doing(segs[0]) + k;
    }
    BlocksEnd(c, segs[0], k, 0, lss, fuel, n);
    BlocksSim(c, segs[0], k, 0, lss, fuel);
    ExecBlocksShape(phases[0], 0, lss, c.mem, fuel);
    match ExecBlocks(phases[0], 0, lss, c.mem, fuel)
    case GridRan(l, m) =>
      if rest != [] {
        PassSim(Grid(Grids(k, l), m), Doing(Glue(rest)), l);
        var e := Grid(Grids(Doing(Glue(rest)), l), m);
        ReachTrans(Step, c, Grid(Grids(k, l), m), e);
        var left := BoundedReach(c, n, e);
        GridEnds(e, rest, l, fuel, left);
      }
    case _ =>
  }

  /** The emitted program neither waits forever nor fails. */
  lemma EmittedComesToAnEnd(body: seq<Stmt>, threads: nat, lss: seq<seq<Locals>>, mem: Memory, n: nat)
    requires Launchable(body, threads, lss) && Bounded(Launched(body, lss, mem), n)
    ensures var r := ExecGrid(Lower(Segments(body)).value, lss, mem, n + 1);
            r.GridRan? || r.GridDiverged?
  {
    var c := Launched(body, lss, mem);
    var r := ExecGrid(Lower(Segments(body)).value, lss, mem, n + 1);
    AdmittedCuttable(body, |lss|, threads);
    GlueSegments(body);
    GridEnds(c, Segments(body), lss, n + 1, n);
    EmittedIsInterleaving(body, threads, lss, mem, n + 1);
    if r.GridFailed? {
      BoundedNoFault(c, n, r.code);
    }
  }

  /** When some schedule of a race-free kernel ends after `n` steps, the emitted program ends, with one
      more unit of fuel than that at most and in the same state, unless it finds the threads of a
      block in disagreement. */
  lemma EmittedEnds(body: seq<Stmt>, threads: nat, lss: seq<seq<Locals>>, mem: Memory, d: Grid, n: nat)
    requires Launchable(body, threads, lss) && RaceFree(Launched(body, lss, mem))
    requires ReachIn(Step, Launched(body, lss, mem), d, n) && Ended(d)
    ensures var r := ExecGrid(Lower(Segments(body)).value, lss, mem, n + 1);
            !r.GridDiverged? ==> r.GridRan? && d == Grid(Grids([], r.locals), r.mem)
  {
    EmittedComesToAnEnd(body, threads, lss, mem, n);
    if ExecGrid(Lower(Segments(body)).value, lss, mem, n + 1).GridRan? {
      EndedNoStep(d);
      EmittedIsTheOutcome(body, threads, lss, mem, n + 1, d);
    }
  }
}
