/** The serialized thread loop: barrier-free runs become loops over the threads, a construct that
    holds a barrier is spelled once around the loops of its body, and a device barrier cuts the
    body into phases of the whole grid. Every run of the emitted program is one of the
    interleavings the machine allows. */
module ThreadLoop {
  import opened Wrappers
  import opened Runs
  import opened ThreadMachine

  // ---- the emitted program

  datatype Emit =
    | ThreadRun(run: seq<Stmt>)
    | Point(effect: (nat, seq<Locals>) -> seq<Locals>)
    | BlockIf(cond: Expr, thn: seq<Emit>, els: seq<Emit>)
    | BlockFor(local: nat, start: Expr, end: Expr, step: Expr, body: seq<Emit>)

  predicate HoldsBarrier(s: Stmt)
    decreases s, 1
  {
    match s
    case Sync(_) => true
    case DeviceBarrier => true
    case If(_, thn, els) => AnyBarrier(thn) || AnyBarrier(els)
    case For(_, _, _, _, body) => AnyBarrier(body)
    case While(_, body) => AnyBarrier(body)
    case _ => false
  }

  predicate AnyBarrier(ss: seq<Stmt>)
    decreases ss, 0
  {
    ss != [] && (HoldsBarrier(ss[0]) || AnyBarrier(ss[1..]))
  }

  predicate HasReturn(ss: seq<Stmt>)
    decreases ss, 0
  {
    ss != [] && (Returns(ss[0]) || HasReturn(ss[1..]))
  }

  predicate Returns(s: Stmt)
    decreases s, 1
  {
    match s
    case Return => true
    case If(_, thn, els) => HasReturn(thn) || HasReturn(els)
    case For(_, _, _, _, body) => HasReturn(body)
    case While(_, body) => HasReturn(body)
    case _ => false
  }

  /** `admit_stmts`: what a launched kernel may hold, given whether it has any barrier. */
  predicate Admitted(ss: seq<Stmt>, barriers: bool)
    decreases ss, 0
  {
    ss == [] || (AdmittedOne(ss[0], barriers) && Admitted(ss[1..], barriers))
  }

  predicate AdmittedOne(s: Stmt, barriers: bool)
    decreases s, 1
  {
    match s
    case DeviceBarrier => false
    case Return => !barriers
    case While(_, body) => !AnyBarrier(body) && Admitted(body, barriers)
    case If(_, thn, els) => Admitted(thn, barriers) && Admitted(els, barriers)
    case For(_, _, _, _, body) => Admitted(body, barriers)
    case _ => true
  }

  /** A `Break` or `Continue` with no loop of the run around it cannot be spelled. */
  predicate Escapes(ss: seq<Stmt>)
    decreases ss, 0
  {
    ss != [] && (EscapesOne(ss[0]) || Escapes(ss[1..]))
  }

  predicate EscapesOne(s: Stmt)
    decreases s, 1
  {
    match s
    case Break => true
    case Continue => true
    case If(_, thn, els) => Escapes(thn) || Escapes(els)
    case _ => false
  }

  /** `flush_run`: the pending statements as one loop over the threads. */
  function Flush(run: seq<Stmt>): Option<seq<Emit>> {
    if run == [] then Some([]) else if Escapes(run) then None else Some([ThreadRun(run)])
  }

  function Join(x: Option<seq<Emit>>, y: Option<seq<Emit>>): Option<seq<Emit>> {
    if x.Some? && y.Some? then Some(x.value + y.value) else None
  }

  /** `phases`, with the statements still pending in `run`. */
  function Phases(ss: seq<Stmt>, run: seq<Stmt>): Option<seq<Emit>>
    decreases ss, 1
  {
    if ss == [] then Flush(run)
    else if !HoldsBarrier(ss[0]) then Phases(ss[1..], run + [ss[0]])
    else Join(Join(Flush(run), Split(ss[0])), Phases(ss[1..], []))
  }

  /** One statement that holds a barrier. */
  function Split(s: Stmt): Option<seq<Emit>>
    decreases s, 0
  {
    match s
    case Sync(effect) => Some([Point(effect)])
    case If(cond, thn, els) =>
      var (t, e) := (Phases(thn, []), Phases(els, []));
      if t.Some? && e.Some? then Some([BlockIf(cond, t.value, e.value)]) else None
    case For(local, start, end, step, body) =>
      var b := Phases(body, []);
      if b.Some? then Some([BlockFor(local, start, end, step, b.value)]) else None
    case _ => None
  }

  /** `Emitter::phases` as the loop it is: a pending run, flushed before every statement that holds
      a barrier and at the end. */
  method EmitPhases(ss: seq<Stmt>) returns (r: Option<seq<Emit>>)
    ensures r == Phases(ss, [])
    ensures forall barriers :: Admitted(ss, barriers) ==> (r.Some? <==> !Loose(ss))
    decreases ss, 1
  {
    forall barriers | Admitted(ss, barriers) ensures Phases(ss, []).Some? <==> !Loose(ss) {
      SpelledUnlessLoose(ss, [], barriers);
    }
    var run: seq<Stmt> := [];
    var out: seq<Emit> := [];
    ghost var whole := Phases(ss, []);
    assert ss[0..] == ss && (whole.Some? ==> [] + whole.value == whole.value);
    for i := 0 to |ss|
      invariant whole == Join(Some(out), Phases(ss[i..], run))
    {
      var s := ss[i];
      assert ss[i..][0] == s && ss[i..][1..] == ss[i + 1..];
      if !HoldsBarrier(s) {
        run := run + [s];
      } else {
        var flushed := Flush(run);
        var split := EmitSplit(s);
        JoinAssoc(Some(out), flushed, split, Phases(ss[i + 1..], []));
        if flushed.None? || split.None? { return None; }
        out := out + flushed.value + split.value;
        run := [];
      }
    }
    assert ss[|ss|..] == [];
    r := Join(Some(out), Flush(run));
  }

  method EmitSplit(s: Stmt) returns (r: Option<seq<Emit>>)
    ensures r == Split(s)
    decreases s, 0
  {
    match s
    case Sync(effect) => r := Some([Point(effect)]);
    case If(cond, thn, els) =>
      var t := EmitPhases(thn);
      var e := EmitPhases(els);
      r := if t.Some? && e.Some? then Some([BlockIf(cond, t.value, e.value)]) else None;
    case For(local, start, end, step, body) =>
      var b := EmitPhases(body);
      r := if b.Some? then Some([BlockFor(local, start, end, step, b.value)]) else None;
    case _ => r := None;
  }

  lemma JoinAssoc(x: Option<seq<Emit>>, y: Option<seq<Emit>>, z: Option<seq<Emit>>, w: Option<seq<Emit>>)
    ensures Join(x, Join(Join(y, z), w)) == Join(Join(Join(x, y), z), w)
  {
    if x.Some? && y.Some? && z.Some? && w.Some? {
      assert x.value + (y.value + z.value + w.value) == x.value + y.value + z.value + w.value;
    }
  }

  // ---- what cannot be spelled

  /** A `Break` or `Continue` that no barrier-free loop is around. */
  predicate Loose(ss: seq<Stmt>)
    decreases ss, 0
  {
    ss != [] && (LooseOne(ss[0]) || Loose(ss[1..]))
  }

  predicate LooseOne(s: Stmt)
    decreases s, 1
  {
    match s
    case Break => true
    case Continue => true
    case If(_, thn, els) => Loose(thn) || Loose(els)
    case For(_, _, _, _, body) => AnyBarrier(body) && Loose(body)
    case _ => false
  }

  lemma {:induction false} LooseEscapes(ss: seq<Stmt>)
    requires !AnyBarrier(ss)
    ensures Loose(ss) <==> Escapes(ss)
    decreases ss, 0
  {
    if ss != [] {
      LooseEscapesOne(ss[0]);
      LooseEscapes(ss[1..]);
    }
  }

  lemma {:induction false} LooseEscapesOne(s: Stmt)
    requires !HoldsBarrier(s)
    ensures LooseOne(s) <==> EscapesOne(s)
    decreases s, 1
  {
    if s.If? {
      LooseEscapes(s.thn);
      LooseEscapes(s.els);
    }
  }

  lemma {:induction false} EscapesPush(run: seq<Stmt>, s: Stmt)
    ensures Escapes(run + [s]) <==> Escapes(run) || EscapesOne(s)
  {
    if run == [] {
      assert [] + [s] == [s] && [s][1..] == [];
    } else {
      assert (run + [s])[1..] == run[1..] + [s];
      EscapesPush(run[1..], s);
    }
  }

  /** Admitted statements are emitted unless one of them jumps out of a thread loop. */
  lemma {:induction false} SpelledUnlessLoose(ss: seq<Stmt>, run: seq<Stmt>, barriers: bool)
    requires Admitted(ss, barriers)
    ensures Phases(ss, run).Some? <==> !Escapes(run) && !Loose(ss)
    decreases ss, 0
  {
    if ss != [] {
      if HoldsBarrier(ss[0]) {
        SplitUnlessLoose(ss[0], barriers);
        SpelledUnlessLoose(ss[1..], [], barriers);
      } else {
        LooseEscapesOne(ss[0]);
        EscapesPush(run, ss[0]);
        SpelledUnlessLoose(ss[1..], run + [ss[0]], barriers);
      }
    }
  }

  lemma {:induction false} SplitUnlessLoose(s: Stmt, barriers: bool)
    requires HoldsBarrier(s) && AdmittedOne(s, barriers)
    ensures Split(s).Some? <==> !LooseOne(s)
    decreases s, 1
  {
    match s
    case If(_, thn, els) =>
      SpelledUnlessLoose(thn, [], barriers);
      SpelledUnlessLoose(els, [], barriers);
    case For(_, _, _, _, body) => SpelledUnlessLoose(body, [], barriers);
    case _ =>
  }

  // ---- running it

  /** How a run of emitted code ends. `Diverged` is outside what `check_kernel` admits: the threads
      of the block disagree on a block-level condition or bound. */
  datatype Ending = Ran(locals: seq<Locals>, mem: Memory) | Failed(code: int) | Diverged | Unfinished

  /** One thread, alone, from `todo` until it has nothing left. */
  function RunThread(who: Tid, todo: seq<Frame>, l: Locals, mem: Memory, fuel: nat): Outcome
    decreases fuel
  {
    if todo == [] then Moved(Thread([], l), mem)
    else if fuel == 0 then Blocked
    else
      match Answer(Ask(who, todo, l), mem)
      case Moved(th, m) => RunThread(who, th.todo, th.locals, m, fuel - 1)
      case o => o
  }

  /** `for (t = 0; t < nt; ++t) { run }`, from thread `t` on. */
  function RunLoop(b: nat, run: seq<Stmt>, t: nat, ls: seq<Locals>, mem: Memory, fuel: nat): Ending
    decreases |ls| - t
  {
    if t >= |ls| then Ran(ls, mem) else
      match RunThread(Tid(b, t), Doing(run), ls[t], mem, fuel)
      case Moved(th, m) => RunLoop(b, run, t + 1, ls[t := th.locals], m, fuel)
      case Fault(code) => Failed(code)
      case Blocked => Unfinished
  }

  /** All threads of the block see the same value. */
  predicate Uniform(b: nat, e: Expr, ls: seq<Locals>)
    requires ls != []
  {
    forall t :: 0 <= t < |ls| ==> e(Tid(b, t), ls[t]) == e(Tid(b, 0), ls[0])
  }

  predicate UniformTruth(b: nat, e: Expr, ls: seq<Locals>)
    requires ls != []
  {
    forall t :: 0 <= t < |ls| ==> (e(Tid(b, t), ls[t]) != 0) == (e(Tid(b, 0), ls[0]) != 0)
  }

  function SetAll(ls: seq<Locals>, local: nat, v: int): (r: seq<Locals>)
    ensures |r| == |ls| && forall t :: 0 <= t < |ls| ==> r[t] == ls[t][local := v]
  {
    seq(|ls|, t requires 0 <= t < |ls| => ls[t][local := v])
  }

  function Exec(b: nat, es: seq<Emit>, ls: seq<Locals>, mem: Memory, fuel: nat): Ending
    requires ls != []
    decreases fuel, es, 0
  {
    if es == [] then Ran(ls, mem) else
      match ExecOne(b, es[0], ls, mem, fuel)
      case Ran(l, m) => if |l| == |ls| then Exec(b, es[1..], l, m, fuel) else Unfinished
      case r => r
  }

  /** Conditions and bounds are read at thread 0, and a loop's counter is copied to every thread. */
  function ExecOne(b: nat, e: Emit, ls: seq<Locals>, mem: Memory, fuel: nat): Ending
    requires ls != []
    decreases fuel, e, 1
  {
    match e
    case ThreadRun(run) => RunLoop(b, run, 0, ls, mem, fuel)
    case Point(effect) => if |effect(b, ls)| == |ls| then Ran(effect(b, ls), mem) else Unfinished
    case BlockIf(cond, thn, els) =>
      if !UniformTruth(b, cond, ls) then Diverged
      else if cond(Tid(b, 0), ls[0]) != 0 then Exec(b, thn, ls, mem, fuel)
      else Exec(b, els, ls, mem, fuel)
    case BlockFor(local, start, end, step, body) =>
      if !Uniform(b, start, ls) || !Uniform(b, end, ls) || !Uniform(b, step, ls) then Diverged
      else
        var (s, e, st) := (start(Tid(b, 0), ls[0]), end(Tid(b, 0), ls[0]), step(Tid(b, 0), ls[0]));
        if st == 0 then Failed(2) else ExecPasses(b, local, s, e, st, body, ls, mem, fuel)
  }

  function ExecPasses(b: nat, local: nat, next: int, end: int, step: int, body: seq<Emit>, ls: seq<Locals>,
      mem: Memory, fuel: nat): Ending
    requires ls != []
    decreases fuel, body, 1
  {
    if !InRange(next, end, step) then Ran(ls, mem)
    else if fuel == 0 then Unfinished
    else
      match Exec(b, body, SetAll(ls, local, next), mem, fuel - 1)
      case Ran(l, m) => if |l| == |ls| then ExecPasses(b, local, next + step, end, step, body, l, m, fuel - 1)
          else Unfinished
      case r => r
  }

  // ---- a thread's run inside a longer program

  ghost predicate NoReturn(fs: seq<Frame>) {
    forall i :: 0 <= i < |fs| ==> FrameNoReturn(fs[i])
  }

  ghost predicate FrameNoReturn(f: Frame) {
    match f
    case Do(s) => !Returns(s)
    case ForLoop(_, _, _, _, body) => !HasReturn(body)
    case WhileLoop(_, body) => !HasReturn(body)
  }

  lemma {:induction false} DoingNoReturn(ss: seq<Stmt>)
    requires !HasReturn(ss)
    ensures NoReturn(Doing(ss))
  {
    if ss != [] {
      DoingNoReturn(ss[1..]);
      forall i | 0 <= i < |ss| ensures FrameNoReturn(Doing(ss)[i]) {
        assert i > 0 ==> Doing(ss)[i] == Doing(ss[1..])[i - 1];
      }
    }
  }

  lemma {:induction false} InnermostSuffix(fs: seq<Frame>, rest: seq<Frame>)
    ensures NoReturn(fs) ==> NoReturn(Innermost(fs))
    ensures Innermost(fs) != [] ==> Innermost(fs + rest) == Innermost(fs) + rest
  {
    if fs != [] && fs[0].Do? {
      assert (fs + rest)[1..] == fs[1..] + rest;
      InnermostSuffix(fs[1..], rest);
    }
  }

  function Extend(r: Request, rest: seq<Frame>): Request {
    match r
    case Silent(todo, l) => Silent(todo + rest, l)
    case Access(at, writes, update, bind, todo) => Access(at, writes, update, bind, todo + rest)
    case _ => r
  }

  /** A thread steps the same whatever waits behind it, unless it returns. */
  lemma AskExtends(who: Tid, fs: seq<Frame>, rest: seq<Frame>, l: Locals, mem: Memory)
    requires fs != [] && (rest == [] || NoReturn(fs))
    ensures var alone, here := Answer(Ask(who, fs, l), mem), Answer(Ask(who, fs + rest, l), mem);
            (alone.Moved? ==> here == Moved(Thread(alone.thread.todo + rest, alone.thread.locals), alone.mem)) &&
            (alone.Fault? ==> here == alone)
  {
    if rest == [] {
      assert fs + rest == fs;
      ExtendNothing(Ask(who, fs, l));
    } else if !Ask(who, fs, l).Stuck? {
      assert FrameNoReturn(fs[0]);
      assert (fs + rest)[1..] == fs[1..] + rest && (fs + rest)[0] == fs[0];
      PlaceBehind(Head(who, fs[0], l), fs[1..], rest, l);
    }
  }

  /** A step of code without `Return` leaves code without `Return`. */
  lemma AskNoReturn(who: Tid, fs: seq<Frame>, l: Locals, mem: Memory)
    requires fs != [] && NoReturn(fs) && Answer(Ask(who, fs, l), mem).Moved?
    ensures NoReturn(Answer(Ask(who, fs, l), mem).thread.todo)
  {
    assert FrameNoReturn(fs[0]);
    InnermostSuffix(fs[1..], []);
    HeadNoReturn(who, fs[0], l);
  }

  lemma HeadNoReturn(who: Tid, f: Frame, l: Locals)
    requires FrameNoReturn(f)
    ensures Head(who, f, l) != End
    ensures Head(who, f, l).Push? ==> NoReturn(Head(who, f, l).front)
  {
    match f
    case ForLoop(_, _, _, _, body) => DoingNoReturn(body);
    case WhileLoop(_, body) => DoingNoReturn(body);
    case Do(s) =>
      match s
      case If(cond, thn, els) => DoingNoReturn(if cond(who, l) != 0 then thn else els);
      case _ =>
  }

  lemma PlaceBehind(r: Reply, tail: seq<Frame>, rest: seq<Frame>, l: Locals)
    requires r != End && !Place(r, tail, l).Stuck?
    ensures Place(r, tail + rest, l) == Extend(Place(r, tail, l), rest)
  {
    InnermostSuffix(tail, rest);
    if r.Push? {
      assert r.front + (tail + rest) == (r.front + tail) + rest;
    } else if r.LeaveLoop? {
      assert (Innermost(tail) + rest)[1..] == Innermost(tail)[1..] + rest;
    }
  }

  lemma ExtendNothing(r: Request)
    ensures Extend(r, []) == r
  {
    if r.Silent? || r.Access? {
      assert r.todo + [] == r.todo;
    }
  }
}
