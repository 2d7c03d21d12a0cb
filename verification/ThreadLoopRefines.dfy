/** Every run of the emitted thread loops is an interleaving the machine allows. */
module ThreadLoopRefines {
  import opened Wrappers
  import opened Runs
  import opened ThreadMachine
  import opened ThreadLoop

  /** Every thread of a block at the same point, with its own locals. */
  function Threads(todo: seq<Frame>, ls: seq<Locals>): (ths: seq<Thread>)
    ensures |ths| == |ls| && forall t :: 0 <= t < |ls| ==> ths[t] == Thread(todo, ls[t])
  {
    seq(|ls|, t requires 0 <= t < |ls| => Thread(todo, ls[t]))
  }

  /** The first `n` threads at `done`, the others at `todo`. */
  function Mixed(n: nat, done: seq<Frame>, todo: seq<Frame>, ls: seq<Locals>): (ths: seq<Thread>)
    ensures |ths| == |ls| && forall t :: 0 <= t < |ls| ==> ths[t] == Thread(if t < n then done else todo, ls[t])
  {
    seq(|ls|, t requires 0 <= t < |ls| => Thread(if t < n then done else todo, ls[t]))
  }

  /** Block `b` of `c` can get, by steps of the machine, to where the result says it is: all threads
      at `k` with those locals and that memory, or some thread failing with that status. */
  ghost predicate Simulates(c: Grid, b: nat, r: Ending, k: seq<Frame>)
    requires b < |c.blocks|
  {
    match r
    case Ran(ls, mem) => |ls| == |c.blocks[b]| && Reach(Step, c, PutBlock(c, b, Threads(k, ls), mem))
    case Failed(code) => CanFault(c, code)
    case _ => true
  }

  lemma CanFaultLater(c: Grid, d: Grid, code: int)
    requires Reach(Step, c, d) && CanFault(d, code)
    ensures CanFault(c, code)
  {
    var e :| Reach(Step, d, e) && FaultsAt(e, code);
    ReachTrans(Step, c, d, e);
  }

  lemma SimulatesAfter(c: Grid, d: Grid, b: nat, r: Ending, k: seq<Frame>)
    requires b < |c.blocks| && Reach(Step, c, d) && |d.blocks| == |c.blocks| && |d.blocks[b]| == |c.blocks[b]|
    requires forall i :: 0 <= i < |c.blocks| && i != b ==> d.blocks[i] == c.blocks[i]
    requires Simulates(d, b, r, k)
    ensures Simulates(c, b, r, k)
  {
    match r
    case Ran(ls, mem) =>
      assert PutBlock(d, b, Threads(k, ls), mem).blocks == PutBlock(c, b, Threads(k, ls), mem).blocks;
      ReachTrans(Step, c, d, PutBlock(d, b, Threads(k, ls), mem));
    case Failed(code) => CanFaultLater(c, d, code);
    case _ =>
  }

  // ---- one thread alone

  /** A step alone is a step in place. */
  lemma ThreadMoves(c: Grid, b: nat, t: nat, todo: seq<Frame>, rest: seq<Frame>, l: Locals, th: Thread, m: Memory)
    requires HasThread(c, b, t) && c.blocks[b][t] == Thread(todo + rest, l) && todo != []
    requires (rest == [] || NoReturn(todo)) && Answer(Ask(Tid(b, t), todo, l), c.mem) == Moved(th, m)
    ensures StepThread(Tid(b, t), c.blocks[b][t], c.mem) == Moved(Thread(th.todo + rest, th.locals), m)
    ensures rest == [] || NoReturn(th.todo)
  {
    AskExtends(Tid(b, t), todo, rest, l, c.mem);
    if rest != [] {
      AskNoReturn(Tid(b, t), todo, l, c.mem);
    }
  }

  lemma PutThreadAt(c: Grid, b: nat, t: nat, th: Thread, m: Memory)
    requires HasThread(c, b, t)
    ensures var d := PutThread(c, b, t, th, m);
            HasThread(d, b, t) && d.blocks[b][t] == th && d.mem == m && d.blocks == c.blocks[b := c.blocks[b][t := th]]
  {
  }

  /** Some order of steps takes the thread where running it alone does, with `rest` left to do. */
  ghost predicate Leads(c: Grid, b: nat, t: nat, rest: seq<Frame>, o: Outcome)
    requires HasThread(c, b, t)
  {
    match o
    case Moved(th, m) => Reach(Step, c, PutThread(c, b, t, Thread(rest, th.locals), m))
    case Fault(code) => CanFault(c, code)
    case Blocked => true
  }

  lemma {:induction false} ThreadSim(c: Grid, b: nat, t: nat, todo: seq<Frame>, rest: seq<Frame>, l: Locals, fuel: nat)
    requires HasThread(c, b, t) && c.blocks[b][t] == Thread(todo + rest, l)
    requires rest == [] || NoReturn(todo)
    ensures Leads(c, b, t, rest, RunThread(Tid(b, t), todo, l, c.mem, fuel))
    decreases fuel
  {
    var who := Tid(b, t);
    if todo == [] {
      assert todo + rest == rest;
      ThreadDone(c, b, t);
    } else if fuel > 0 {
      match Answer(Ask(who, todo, l), c.mem)
      case Moved(th, m) =>
        var d := ThreadMovesTo(c, b, t, todo, rest, l, th, m);
        ThreadSim(d, b, t, th.todo, rest, th.locals, fuel - 1);
        ThreadSimAfter(c, d, b, t, rest, RunThread(who, th.todo, th.locals, m, fuel - 1));
      case Fault(code) =>
        AskExtends(who, todo, rest, l, c.mem);
        ThreadFaults(c, b, t, code);
      case Blocked =>
    }
  }

  lemma ThreadDone(c: Grid, b: nat, t: nat)
    requires HasThread(c, b, t)
    ensures Reach(Step, c, PutThread(c, b, t, c.blocks[b][t], c.mem))
  {
    assert c.blocks[b][t := c.blocks[b][t]] == c.blocks[b];
    assert PutThread(c, b, t, c.blocks[b][t], c.mem).blocks == c.blocks;
    ReachRefl(Step, c);
  }

  lemma ThreadFaults(c: Grid, b: nat, t: nat, code: int)
    requires HasThread(c, b, t) && StepThread(Tid(b, t), c.blocks[b][t], c.mem) == Fault(code)
    ensures CanFault(c, code)
  {
    ReachRefl(Step, c);
    assert FaultsAt(c, code);
  }

  lemma ThreadStep(c: Grid, b: nat, t: nat, th: Thread, m: Memory)
    requires HasThread(c, b, t) && StepThread(Tid(b, t), c.blocks[b][t], c.mem) == Moved(th, m)
    ensures Reach(Step, c, PutThread(c, b, t, th, m))
  {
    ReachStep(Step, c, T(b, t));
  }

  lemma ThreadMovesTo(c: Grid, b: nat, t: nat, todo: seq<Frame>, rest: seq<Frame>, l: Locals, th: Thread, m: Memory)
    returns (d: Grid)
    requires HasThread(c, b, t) && c.blocks[b][t] == Thread(todo + rest, l) && todo != []
    requires (rest == [] || NoReturn(todo)) && Answer(Ask(Tid(b, t), todo, l), c.mem) == Moved(th, m)
    ensures Reach(Step, c, d) && (rest == [] || NoReturn(th.todo)) && HasThread(d, b, t) && d.mem == m
    ensures d.blocks[b][t] == Thread(th.todo + rest, th.locals)
    ensures d.blocks == c.blocks[b := c.blocks[b][t := d.blocks[b][t]]]
  {
    var next := Thread(th.todo + rest, th.locals);
    ThreadMoves(c, b, t, todo, rest, l, th, m);
    ThreadStep(c, b, t, next, m);
    PutThreadAt(c, b, t, next, m);
    d := PutThread(c, b, t, next, m);
  }

  lemma ThreadSimAfter(c: Grid, d: Grid, b: nat, t: nat, rest: seq<Frame>, o: Outcome)
    requires HasThread(c, b, t) && HasThread(d, b, t) && Reach(Step, c, d)
    requires d.blocks == c.blocks[b := c.blocks[b][t := d.blocks[b][t]]]
    requires Leads(d, b, t, rest, o)
    ensures Leads(c, b, t, rest, o)
  {
    match o
    case Moved(th, m) =>
      var e := Thread(rest, th.locals);
      assert d.blocks[b][t := e] == c.blocks[b][t := e];
      assert PutThread(d, b, t, e, m).blocks == PutThread(c, b, t, e, m).blocks;
      ReachTrans(Step, c, d, PutThread(d, b, t, e, m));
    case Fault(code) => CanFaultLater(c, d, code);
    case Blocked =>
  }

  // ---- the loop over the threads

  lemma {:induction false} LoopSim(c: Grid, b: nat, run: seq<Stmt>, k: seq<Frame>, t: nat, ls: seq<Locals>, fuel: nat)
    requires b < |c.blocks| && t <= |ls| && c.blocks[b] == Mixed(t, k, Doing(run) + k, ls)
    requires k == [] || !HasReturn(run)
    ensures Simulates(c, b, RunLoop(b, run, t, ls, c.mem, fuel), k)
    decreases |ls| - t
  {
    if t == |ls| {
      assert c.blocks[b] == Threads(k, ls);
      assert PutBlock(c, b, Threads(k, ls), c.mem).blocks == c.blocks;
      ReachRefl(Step, c);
    } else {
      if k != [] {
        DoingNoReturn(run);
      }
      ThreadSim(c, b, t, Doing(run), k, ls[t], fuel);
      match RunThread(Tid(b, t), Doing(run), ls[t], c.mem, fuel)
      case Moved(th, m) =>
        var ls' := ls[t := th.locals];
        var d := PutThread(c, b, t, Thread(k, th.locals), m);
        assert d.blocks[b] == Mixed(t + 1, k, Doing(run) + k, ls');
        LoopSim(d, b, run, k, t + 1, ls', fuel);
        SimulatesAfter(c, d, b, RunLoop(b, run, t + 1, ls', m, fuel), k);
      case _ =>
    }
  }

  /** Thread `n` of a block takes its step; the threads before it have taken theirs. */
  lemma NextSteps(c: Grid, b: nat, n: nat, k: seq<Frame>, k': seq<Frame>, ls: seq<Locals>, ls': seq<Locals>)
    requires b < |c.blocks| && |ls| == |ls'| && n < |ls|
    requires StepThread(Tid(b, n), Thread(k, ls[n]), c.mem) == Moved(Thread(k', ls'[n]), c.mem)
    requires c.blocks[b] == Mixed(n, k', k, ls'[..n] + ls[n..])
    ensures var d := PutBlock(c, b, Mixed(n + 1, k', k, ls'[..n + 1] + ls[n + 1..]), c.mem);
            Reach(Step, c, d)
  {
    assert c.blocks[b][n] == Thread(k, ls[n]);
    ThreadStep(c, b, n, Thread(k', ls'[n]), c.mem);
    assert c.blocks[b][n := Thread(k', ls'[n])] == Mixed(n + 1, k', k, ls'[..n + 1] + ls[n + 1..]);
  }

  /** A step every thread of the block can take on its own, without touching memory. */
  lemma {:induction false} AllStep(c: Grid, b: nat, n: nat, k: seq<Frame>, k': seq<Frame>, ls: seq<Locals>,
      ls': seq<Locals>)
    requires b < |c.blocks| && |ls| == |ls'| && n <= |ls|
    requires forall t :: 0 <= t < |ls| ==>
             StepThread(Tid(b, t), Thread(k, ls[t]), c.mem) == Moved(Thread(k', ls'[t]), c.mem)
    requires c.blocks[b] == Mixed(n, k', k, ls'[..n] + ls[n..])
    ensures Reach(Step, c, PutBlock(c, b, Threads(k', ls'), c.mem))
    decreases |ls| - n
  {
    if n == |ls| {
      assert ls'[..n] + ls[n..] == ls';
      assert c.blocks[b] == Threads(k', ls');
      assert PutBlock(c, b, Threads(k', ls'), c.mem).blocks == c.blocks;
      ReachRefl(Step, c);
    } else {
      NextSteps(c, b, n, k, k', ls, ls');
      var d := PutBlock(c, b, Mixed(n + 1, k', k, ls'[..n + 1] + ls[n + 1..]), c.mem);
      AllStep(d, b, n + 1, k, k', ls, ls');
      assert d.blocks[b := Threads(k', ls')] == c.blocks[b := Threads(k', ls')];
      ReachTrans(Step, c, d, PutBlock(c, b, Threads(k', ls'), c.mem));
    }
  }

  /** The same, followed by what the block does next. */
  lemma AllStepThen(c: Grid, b: nat, k: seq<Frame>, k': seq<Frame>, ls: seq<Locals>, ls': seq<Locals>, r: Ending,
      last: seq<Frame>)
    requires b < |c.blocks| && |ls| == |ls'| && c.blocks[b] == Threads(k, ls)
    requires forall t :: 0 <= t < |ls| ==>
             StepThread(Tid(b, t), Thread(k, ls[t]), c.mem) == Moved(Thread(k', ls'[t]), c.mem)
    requires Simulates(PutBlock(c, b, Threads(k', ls'), c.mem), b, r, last)
    ensures Simulates(c, b, r, last)
  {
    assert ls'[..0] + ls[0..] == ls;
    assert Mixed(0, k', k, ls) == Threads(k, ls);
    AllStep(c, b, 0, k, k', ls, ls');
    SimulatesAfter(c, PutBlock(c, b, Threads(k', ls'), c.mem), b, r, last);
  }

  // ---- whole phases

  lemma {:induction false} ExecLength(b: nat, es: seq<Emit>, ls: seq<Locals>, mem: Memory, fuel: nat)
    requires ls != []
    ensures Exec(b, es, ls, mem, fuel).Ran? ==> |Exec(b, es, ls, mem, fuel).locals| == |ls|
    decreases |es|
  {
    if es != [] {
      var r := ExecOne(b, es[0], ls, mem, fuel);
      if r.Ran? && |r.locals| == |ls| {
        ExecLength(b, es[1..], r.locals, r.mem, fuel);
      }
    }
  }

  lemma {:induction false} ExecConcat(b: nat, xs: seq<Emit>, ys: seq<Emit>, ls: seq<Locals>, mem: Memory, fuel: nat)
    requires ls != []
    ensures Exec(b, xs, ls, mem, fuel).Ran? ==> Exec(b, xs, ls, mem, fuel).locals != []
    ensures Exec(b, xs + ys, ls, mem, fuel) ==
            match Exec(b, xs, ls, mem, fuel)
            case Ran(l, m) => Exec(b, ys, l, m, fuel)
            case r => r
    decreases |xs|
  {
    ExecLength(b, xs, ls, mem, fuel);
    if xs == [] {
      assert xs + ys == ys;
    } else {
      assert (xs + ys)[1..] == xs[1..] + ys;
      var r := ExecOne(b, xs[0], ls, mem, fuel);
      if r.Ran? && |r.locals| == |ls| {
        ExecConcat(b, xs[1..], ys, r.locals, r.mem, fuel);
      }
    }
  }

  /** Two pieces of emitted code, one after the other. */
  lemma ExecThen(c: Grid, b: nat, xs: seq<Emit>, ys: seq<Emit>, ls: seq<Locals>, fuel: nat, k: seq<Frame>,
      last: seq<Frame>)
    requires b < |c.blocks| && ls != [] && |c.blocks[b]| == |ls| && Simulates(c, b, Exec(b, xs, ls, c.mem, fuel), k)
    requires var r := Exec(b, xs, ls, c.mem, fuel);
             r.Ran? && |r.locals| == |ls| ==>
               Simulates(PutBlock(c, b, Threads(k, r.locals), r.mem), b, Exec(b, ys, r.locals, r.mem, fuel), last)
    ensures Simulates(c, b, Exec(b, xs + ys, ls, c.mem, fuel), last)
  {
    ExecLength(b, xs, ls, c.mem, fuel);
    ExecConcat(b, xs, ys, ls, c.mem, fuel);
    match Exec(b, xs, ls, c.mem, fuel)
    case Ran(l, m) => SimulatesAfter(c, PutBlock(c, b, Threads(k, l), m), b, Exec(b, ys, l, m, fuel), last);
    case _ =>
  }

  lemma FlushSim(c: Grid, b: nat, run: seq<Stmt>, k: seq<Frame>, ls: seq<Locals>, fuel: nat)
    requires b < |c.blocks| && ls != [] && c.blocks[b] == Threads(Doing(run) + k, ls)
    requires Flush(run).Some? && (k == [] || !HasReturn(run))
    ensures Simulates(c, b, Exec(b, Flush(run).value, ls, c.mem, fuel), k)
  {
    if run == [] {
      assert Doing(run) + k == k;
      assert PutBlock(c, b, Threads(k, ls), c.mem).blocks == c.blocks;
      ReachRefl(Step, c);
    } else {
      assert c.blocks[b] == Mixed(0, k, Doing(run) + k, ls);
      LoopSim(c, b, run, k, 0, ls, fuel);
      OneEmit(b, ThreadRun(run), ls, c.mem, fuel);
    }
  }

  lemma OneEmit(b: nat, e: Emit, ls: seq<Locals>, mem: Memory, fuel: nat)
    requires ls != []
    ensures var r := ExecOne(b, e, ls, mem, fuel);
            Exec(b, [e], ls, mem, fuel) == if r.Ran? && |r.locals| != |ls| then Unfinished else r
  {
    assert [e][1..] == [];
  }

  lemma DoingConcat(xs: seq<Stmt>, ys: seq<Stmt>, k: seq<Frame>)
    ensures Doing(xs + ys) + k == Doing(xs) + (Doing(ys) + k)
  {
  }

  lemma {:induction false} HasReturnConcat(xs: seq<Stmt>, ys: seq<Stmt>)
    ensures HasReturn(xs + ys) <==> HasReturn(xs) || HasReturn(ys)
  {
    if xs == [] {
      assert xs + ys == ys;
    } else {
      assert (xs + ys)[1..] == xs[1..] + ys;
      HasReturnConcat(xs[1..], ys);
    }
  }

  /** What `admit_stmts` guarantees: no `Return` in a kernel with a barrier, where one thread would
      have to skip the barriers after it. */
  ghost predicate MaySplit(ss: seq<Stmt>, run: seq<Stmt>, k: seq<Frame>) {
    !HasReturn(run + ss) || (k == [] && !AnyBarrier(ss))
  }

  lemma {:induction false} PhasesSim(c: Grid, b: nat, ss: seq<Stmt>, run: seq<Stmt>, k: seq<Frame>, ls: seq<Locals>,
      fuel: nat)
    requires b < |c.blocks| && ls != [] && c.blocks[b] == Threads(Doing(run + ss) + k, ls)
    requires Phases(ss, run).Some? && MaySplit(ss, run, k)
    ensures Simulates(c, b, Exec(b, Phases(ss, run).value, ls, c.mem, fuel), k)
    decreases fuel, ss, 1
  {
    HasReturnConcat(run, ss);
    if ss == [] {
      assert run + ss == run;
      FlushSim(c, b, run, k, ls, fuel);
    } else if !HoldsBarrier(ss[0]) {
      assert (run + [ss[0]]) + ss[1..] == run + ss;
      PhasesSim(c, b, ss[1..], run + [ss[0]], k, ls, fuel);
    } else {
      PhasesSplit(c, b, ss, run, k, ls, fuel);
    }
  }

  lemma {:induction false} PhasesSplit(c: Grid, b: nat, ss: seq<Stmt>, run: seq<Stmt>, k: seq<Frame>, ls: seq<Locals>,
      fuel: nat)
    requires b < |c.blocks| && ls != [] && c.blocks[b] == Threads(Doing(run + ss) + k, ls)
    requires ss != [] && HoldsBarrier(ss[0]) && Phases(ss, run).Some? && !HasReturn(run) && !HasReturn(ss)
    ensures Simulates(c, b, Exec(b, Phases(ss, run).value, ls, c.mem, fuel), k)
    decreases fuel, ss, 0
  {
    var s, rest := ss[0], ss[1..];
    var x, y, z := Flush(run).value, Split(s).value, Phases(rest, []).value;
    var k1 := Doing(rest) + k;
    DoingConcat(run, ss, k);
    assert Doing(ss) + k == [Do(s)] + k1;
    FlushSim(c, b, run, [Do(s)] + k1, ls, fuel);
    var r := Exec(b, x, ls, c.mem, fuel);
    if r.Ran? && |r.locals| == |ls| {
      SplitSim(PutBlock(c, b, Threads([Do(s)] + k1, r.locals), r.mem), b, s, k1, r.locals, fuel);
    }
    ExecThen(c, b, x, y, ls, fuel, [Do(s)] + k1, k1);
    var q := Exec(b, x + y, ls, c.mem, fuel);
    if q.Ran? && |q.locals| == |ls| {
      assert [] + rest == rest;
      PhasesSim(PutBlock(c, b, Threads(k1, q.locals), q.mem), b, rest, [], k, q.locals, fuel);
    }
    ExecThen(c, b, x + y, z, ls, fuel, k1, k);
  }

  lemma {:induction false} SplitSim(c: Grid, b: nat, s: Stmt, k: seq<Frame>, ls: seq<Locals>, fuel: nat)
    requires b < |c.blocks| && ls != [] && c.blocks[b] == Threads([Do(s)] + k, ls)
    requires Split(s).Some? && !Returns(s)
    ensures Simulates(c, b, Exec(b, Split(s).value, ls, c.mem, fuel), k)
    decreases fuel, s, 3
  {
    OneEmit(b, Split(s).value[0], ls, c.mem, fuel);
    match s
    case Sync(effect) => if |effect(b, ls)| == |ls| { PointSim(c, b, effect, k, ls); }
    case If(cond, thn, els) => IfSim(c, b, s, k, ls, fuel);
    case For(local, start, end, step, body) => ForSim(c, b, s, k, ls, fuel);
  }

  lemma PointSim(c: Grid, b: nat, effect: (nat, seq<Locals>) -> seq<Locals>, k: seq<Frame>, ls: seq<Locals>)
    requires b < |c.blocks| && ls != [] && c.blocks[b] == Threads([Do(Sync(effect))] + k, ls)
    requires |effect(b, ls)| == |ls|
    ensures Simulates(c, b, Ran(effect(b, ls), c.mem), k)
  {
    assert Meets(c.blocks[b]);
    assert LocalsOf(c.blocks[b]) == ls;
    var ths := Meet(b, c.blocks[b]).value;
    assert ths == Threads(k, effect(b, ls)) by {
      forall t | 0 <= t < |ls| ensures ths[t] == Thread(k, effect(b, ls)[t]) {
        assert ([Do(Sync(effect))] + k)[1..] == k;
      }
    }
    ReachStep(Step, c, S(b));
  }

  lemma {:induction false} IfSim(c: Grid, b: nat, s: Stmt, k: seq<Frame>, ls: seq<Locals>, fuel: nat)
    requires b < |c.blocks| && ls != [] && c.blocks[b] == Threads([Do(s)] + k, ls)
    requires s.If? && Split(s).Some? && !Returns(s)
    ensures Simulates(c, b, ExecOne(b, Split(s).value[0], ls, c.mem, fuel), k)
    decreases fuel, s, 2
  {
    if UniformTruth(b, s.cond, ls) {
      var taken := if s.cond(Tid(b, 0), ls[0]) != 0 then s.thn else s.els;
      var todo := [Do(s)] + k;
      assert todo[1..] == k && [] + taken == taken;
      var d := PutBlock(c, b, Threads(Doing(taken) + k, ls), c.mem);
      PhasesSim(d, b, taken, [], k, ls, fuel);
      AllStepThen(c, b, todo, Doing(taken) + k, ls, ls, Exec(b, Phases(taken, []).value, ls, c.mem, fuel), k);
    }
  }

  lemma {:induction false} ForSim(c: Grid, b: nat, s: Stmt, k: seq<Frame>, ls: seq<Locals>, fuel: nat)
    requires b < |c.blocks| && ls != [] && c.blocks[b] == Threads([Do(s)] + k, ls)
    requires s.For? && Split(s).Some? && !Returns(s)
    ensures Simulates(c, b, ExecOne(b, Split(s).value[0], ls, c.mem, fuel), k)
    decreases fuel, s, 2
  {
    if Uniform(b, s.start, ls) && Uniform(b, s.end, ls) && Uniform(b, s.step, ls) {
      var (from, to, by') := (s.start(Tid(b, 0), ls[0]), s.end(Tid(b, 0), ls[0]), s.step(Tid(b, 0), ls[0]));
      var todo := [Do(s)] + k;
      assert todo[1..] == k;
      if by' == 0 {
        assert StepThread(Tid(b, 0), c.blocks[b][0], c.mem) == Fault(2);
        assert HasThread(c, b, 0);
        ReachRefl(Step, c);
        assert FaultsAt(c, 2);
      } else {
        var k' := [ForLoop(s.local, from, to, by', s.body)] + k;
        var d := PutBlock(c, b, Threads(k', ls), c.mem);
        PassesSim(d, b, s.local, from, to, by', s.body, k, ls, fuel);
        AllStepThen(c, b, todo, k', ls, ls,
            ExecPasses(b, s.local, from, to, by', Phases(s.body, []).value, ls, c.mem, fuel), k);
      }
    }
  }

  lemma {:induction false} PassesSim(c: Grid, b: nat, local: nat, next: int, end: int, step: int, body: seq<Stmt>,
      k: seq<Frame>, ls: seq<Locals>, fuel: nat)
    requires b < |c.blocks| && ls != [] && c.blocks[b] == Threads([ForLoop(local, next, end, step, body)] + k, ls)
    requires Phases(body, []).Some? && !HasReturn(body)
    ensures Simulates(c, b, ExecPasses(b, local, next, end, step, Phases(body, []).value, ls, c.mem, fuel), k)
    decreases fuel, body, 2
  {
    var todo := [ForLoop(local, next, end, step, body)] + k;
    var es := Phases(body, []).value;
    assert todo[1..] == k;
    if !InRange(next, end, step) {
      LoopLeft(c, b, todo, k, ls);
    } else if fuel > 0 {
      var ls1 := SetAll(ls, local, next);
      var loop := [ForLoop(local, next + step, end, step, body)];
      var d := PutBlock(c, b, Threads(Doing(body) + (loop + k), ls1), c.mem);
      OnePass(d, b, local, next + step, end, step, body, k, ls1, fuel);
      assert (Doing(body) + loop) + k == Doing(body) + (loop + k);
      var r := ExecPasses(b, local, next, end, step, es, ls, c.mem, fuel);
      AllStepThen(c, b, todo, Doing(body) + (loop + k), ls, ls1, r, k);
    }
  }

  lemma LoopLeft(c: Grid, b: nat, todo: seq<Frame>, k: seq<Frame>, ls: seq<Locals>)
    requires b < |c.blocks| && ls != [] && c.blocks[b] == Threads(todo, ls)
    requires todo != [] && todo[0].ForLoop? && !InRange(todo[0].next, todo[0].end, todo[0].step) && todo[1..] == k
    ensures Simulates(c, b, Ran(ls, c.mem), k)
  {
    var d := PutBlock(c, b, Threads(k, ls), c.mem);
    assert [] + k == k;
    assert PutBlock(d, b, Threads(k, ls), c.mem) == d;
    ReachRefl(Step, d);
    AllStepThen(c, b, todo, k, ls, ls, Ran(ls, c.mem), k);
  }

  /** One pass over the loop's body, then the passes after it. */
  lemma {:induction false} OnePass(d: Grid, b: nat, local: nat, next: int, end: int, step: int, body: seq<Stmt>,
      k: seq<Frame>, ls: seq<Locals>, fuel: nat)
    requires b < |d.blocks| && ls != [] && fuel > 0
    requires d.blocks[b] == Threads(Doing(body) + ([ForLoop(local, next, end, step, body)] + k), ls)
    requires Phases(body, []).Some? && !HasReturn(body)
    ensures var es := Phases(body, []).value;
            Simulates(d, b,
              match Exec(b, es, ls, d.mem, fuel - 1)
              case Ran(l, m) => if |l| == |ls| then ExecPasses(b, local, next, end, step, es, l, m, fuel - 1)
                  else Unfinished
              case r => r, k)
    decreases fuel, body, 1
  {
    var es := Phases(body, []).value;
    var k1 := [ForLoop(local, next, end, step, body)] + k;
    assert [] + body == body;
    PhasesSim(d, b, body, [], k1, ls, fuel - 1);
    ExecLength(b, es, ls, d.mem, fuel - 1);
    var r := Exec(b, es, ls, d.mem, fuel - 1);
    if r.Ran? {
      var e := PutBlock(d, b, Threads(k1, r.locals), r.mem);
      PassesSim(e, b, local, next, end, step, body, k, r.locals, fuel - 1);
      SimulatesAfter(d, e, b, ExecPasses(b, local, next, end, step, es, r.locals, r.mem, fuel - 1), k);
    }
  }
}
