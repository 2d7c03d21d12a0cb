/** What a thread's code means, in the terms it is written in: statements one after the other, loops
    over a list of counters, jumps out of the innermost loop. The machine's small steps over frames
    come to the same end, and so do the passes of the emitted loops. */
module ThreadMeaning {
  import opened Wrappers
  import opened Arith
  import opened ThreadMachine
  import opened ThreadLoop

  // ---- the counters of a loop

  /** The counters of `for (k = s; st > 0 ? k < e : k > e; k += st)`. */
  function Counters(s: int, e: int, st: int): (ks: seq<int>)
    requires st != 0
  {
    var n: nat :=
      if st > 0 && s < e then CeilDiv(e - s, st) else if st < 0 && e < s then CeilDiv(s - e, -st) else 0;
    seq(n, j => s + j * st)
  }

  /** A loop with counters left takes the first and goes on with the rest. */
  lemma CountersNext(s: int, e: int, st: int)
    requires st != 0
    ensures Counters(s, e, st) != [] <==> if st > 0 then s < e else s > e
    ensures Counters(s, e, st) != [] ==>
              Counters(s, e, st)[0] == s && Counters(s, e, st)[1..] == Counters(s + st, e, st)
  {
    var ks, more := Counters(s, e, st), Counters(s + st, e, st);
    if ks != [] {
      var left: pos, width: pos := if st > 0 then e - s else s - e, if st > 0 then st else -st;
      CountLess(left, width);
      assert |more| == |ks| - 1;
      forall j: nat | j < |more| ensures ks[1..][j] == more[j] {
        MulDistrib(j, 1, st);
      }
    }
  }

  lemma CountLess(left: pos, width: pos)
    ensures CeilDiv(left, width) == 1 + if left > width then CeilDiv(left - width, width) else 0
  {
    var n: pos := CeilDiv(left, width);
    if left > width {
      MulDistrib(1, CeilDiv(left - width, width), width);
      CeilIs(left, width, 1 + CeilDiv(left - width, width));
    } else {
      CeilIs(left, width, 1);
    }
  }

  /** The counters are the whole steps from `s` on that have not come to `e`, for either sign. */
  lemma CountersExact(s: int, e: int, st: int, k: int)
    requires st != 0
    ensures k in Counters(s, e, st) <==> exists j: nat :: k == s + j * st && (if st > 0 then k < e else k > e)
  {
    var ks := Counters(s, e, st);
    var left: int, width: pos := if st > 0 then e - s else s - e, if st > 0 then st else -st;
    forall j: nat ensures j < |ks| <==> if st > 0 then s + j * st < e else s + j * st > e {
      assert j * st == if st > 0 then j * width else -(j * width) by { MulDistribLeft(j, 0, width); }
      CountedBelow(left, width, j, |ks|);
    }
    if k in ks {
      var j :| 0 <= j < |ks| && ks[j] == k;
      assert k == s + j * st;
    }
    if j: nat :| k == s + j * st && (if st > 0 then k < e else k > e) {
      assert ks[j] == k;
    }
  }

  lemma CountedBelow(left: int, width: pos, j: nat, n: nat)
    requires n == if left > 0 then CeilDiv(left, width) else 0
    ensures j < n <==> j * width < left
  {
    MulMono(0, j, width);
    if left > 0 {
      MulDistrib(n, 1, width);
      if j < n { MulMono(j + 1, n, width); MulDistrib(j, 1, width); } else { MulMono(n, j, width); }
    }
  }

  // ---- the emitted loop

  /** One pass of the emitted body for each of the counters. */
  function PassesOver(b: nat, local: nat, ks: seq<int>, body: seq<Emit>, ls: seq<Locals>, mem: Memory,
      fuel: nat): Ending
    requires ls != []
    decreases |ks|
  {
    if ks == [] then Ran(ls, mem)
    else if fuel == 0 then Unfinished
    else
      match Exec(b, body, SetAll(ls, local, ks[0]), mem, fuel - 1)
      case Ran(l, m) => if |l| == |ls| then PassesOver(b, local, ks[1..], body, l, m, fuel - 1) else Unfinished
      case r => r
  }

  /** An emitted loop makes a pass for each counter, in order, and no other. */
  lemma {:induction false} EmittedCounters(b: nat, local: nat, s: int, e: int, st: int, body: seq<Emit>,
      ls: seq<Locals>, mem: Memory, fuel: nat)
    requires ls != [] && st != 0
    ensures ExecPasses(b, local, s, e, st, body, ls, mem, fuel)
         == PassesOver(b, local, Counters(s, e, st), body, ls, mem, fuel)
    decreases fuel
  {
    CountersNext(s, e, st);
    if Counters(s, e, st) != [] && fuel > 0 {
      match Exec(b, body, SetAll(ls, local, s), mem, fuel - 1)
      case Ran(l, m) => if |l| == |ls| { EmittedCounters(b, local, s + st, e, st, body, l, m, fuel - 1); }
      case _ =>
    }
  }

  /** Where all threads find the condition true, or all find it false, the emitted `If` runs that branch. */
  lemma BlockIfRuns(b: nat, cond: Expr, thn: seq<Emit>, els: seq<Emit>, ls: seq<Locals>, mem: Memory, fuel: nat)
    requires ls != []
    ensures (forall t :: 0 <= t < |ls| ==> cond(Tid(b, t), ls[t]) != 0) ==>
              ExecOne(b, BlockIf(cond, thn, els), ls, mem, fuel) == Exec(b, thn, ls, mem, fuel)
    ensures (forall t :: 0 <= t < |ls| ==> cond(Tid(b, t), ls[t]) == 0) ==>
              ExecOne(b, BlockIf(cond, thn, els), ls, mem, fuel) == Exec(b, els, ls, mem, fuel)
  {
  }

  /** Where all threads agree on its bounds, the emitted `For` passes over the counters, or reports a step
      of zero. */
  lemma BlockForRuns(b: nat, local: nat, start: Expr, end: Expr, step: Expr, body: seq<Emit>, ls: seq<Locals>,
      mem: Memory, fuel: nat, s: int, e: int, st: int)
    requires ls != []
    requires forall t :: 0 <= t < |ls| ==>
               start(Tid(b, t), ls[t]) == s && end(Tid(b, t), ls[t]) == e && step(Tid(b, t), ls[t]) == st
    ensures ExecOne(b, BlockFor(local, start, end, step, body), ls, mem, fuel) ==
            if st == 0 then Failed(2) else PassesOver(b, local, Counters(s, e, st), body, ls, mem, fuel)
  {
    if st != 0 { EmittedCounters(b, local, s, e, st, body, ls, mem, fuel); }
  }

  /** An element counted up by one thread. */
  function Bump(): Stmt { Atomic((_, _) => 0, (was, v) => was + v, (_, _) => 1, None) }

  /** What `[Bump(), barrier]` is emitted as. */
  function BumpPass(): seq<Emit> { [ThreadRun([Bump()]), Point((_, ls) => ls)] }

  lemma BumpPassRuns(l: Locals, mem: Memory, fuel: nat)
    requires 0 in mem && fuel > 0
    ensures Exec(0, BumpPass(), [l], mem, fuel) == Ran([l], mem[0 := mem[0] + 1])
  {
    var todo := Doing([Bump()]);
    assert todo[0] == Do(Bump()) && todo[1..] == [];
    assert RunThread(Tid(0, 0), todo, l, mem, fuel) == Moved(Thread([], l), mem[0 := mem[0] + 1]);
    assert [l][0 := l] == [l];
    var mem' := mem[0 := mem[0] + 1];
    assert RunLoop(0, [Bump()], 1, [l], mem', fuel) == Ran([l], mem');
    assert ExecOne(0, BumpPass()[0], [l], mem, fuel) == Ran([l], mem');
    assert BumpPass()[1..][1..] == [];
    assert Exec(0, BumpPass()[1..], [l], mem', fuel) == Ran([l], mem');
  }

  /** A loop over it counts its passes. */
  lemma {:induction false} PassesCount(ks: seq<int>, l: Locals, mem: Memory, fuel: nat)
    requires 0 in mem && fuel > |ks|
    ensures var r := PassesOver(0, 0, ks, BumpPass(), [l], mem, fuel);
            r.Ran? && r.mem == mem[0 := mem[0] + |ks|]
  {
    if ks != [] {
      var l' := l[0 := ks[0]];
      assert SetAll([l], 0, ks[0]) == [l'];
      BumpPassRuns(l', mem, fuel - 1);
      PassesCount(ks[1..], l', mem[0 := mem[0] + 1], fuel - 1);
    }
  }

  lemma LoopCounts(s: int, e: int, st: int, ks: seq<int>, l: Locals, fuel: nat)
    requires st != 0 && ks == Counters(s, e, st) && fuel > |ks|
    ensures var r := ExecPasses(0, 0, s, e, st, BumpPass(), [l], map[0 := 0], fuel);
            r.Ran? && r.mem == map[0 := |ks|]
  {
    EmittedCounters(0, 0, s, e, st, BumpPass(), [l], map[0 := 0], fuel);
    PassesCount(ks, l, map[0 := 0], fuel);
  }

  /** From 0 to 4 by 1 there are four passes. */
  lemma CountsUp(l: Locals)
    ensures Counters(0, 4, 1) == [0, 1, 2, 3]
    ensures var r := ExecPasses(0, 0, 0, 4, 1, BumpPass(), [l], map[0 := 0], 5);
            r.Ran? && r.mem == map[0 := 4]
  {
    CeilIs(4, 1, 4);
    LoopCounts(0, 4, 1, [0, 1, 2, 3], l, 5);
  }

  /** From 5 down to 0 by 2 there are three. */
  lemma CountsDown(l: Locals)
    ensures Counters(5, 0, -2) == [5, 3, 1]
    ensures var r := ExecPasses(0, 0, 5, 0, -2, BumpPass(), [l], map[0 := 0], 4);
            r.Ran? && r.mem == map[0 := 3]
  {
    CeilIs(5, 2, 3);
    LoopCounts(5, 0, -2, [5, 3, 1], l, 4);
  }

  // ---- what a thread's code means

  datatype Flow = Through | Broken | Continued | Returned

  datatype Meaning = Went(flow: Flow, locals: Locals, mem: Memory) | Faulted(code: int) | Endless

  /** The statements in order, as long as the flow goes through. `fuel` bounds the passes of `While`
      loops; a rendezvous, which one thread cannot pass alone, has no end here. */
  function Means(who: Tid, ss: seq<Stmt>, l: Locals, mem: Memory, fuel: nat): Meaning
    decreases fuel, ss, 0, 0
  {
    if ss == [] then Went(Through, l, mem)
    else
      match MeansOne(who, ss[0], l, mem, fuel)
      case Went(Through, l', mem') => Means(who, ss[1..], l', mem', fuel)
      case r => r
  }

  function MeansOne(who: Tid, s: Stmt, l: Locals, mem: Memory, fuel: nat): Meaning
    decreases fuel, s, 1, 0
  {
    match s
    case Assign(local, value) => Went(Through, l[local := value(who, l)], mem)
    case Load(local, at) =>
      if at(who, l) in mem then Went(Through, l[local := mem[at(who, l)]], mem) else Faulted(1)
    case Store(at, value) =>
      if at(who, l) in mem then Went(Through, l, mem[at(who, l) := value(who, l)]) else Faulted(1)
    case Atomic(at, combine, value, prior) =>
      if at(who, l) !in mem then Faulted(1)
      else
        var was := mem[at(who, l)];
        Went(Through, if prior.Some? then l[prior.value := was] else l,
             mem[at(who, l) := combine(was, value(who, l))])
    case If(cond, thn, els) =>
      if cond(who, l) != 0 then Means(who, thn, l, mem, fuel) else Means(who, els, l, mem, fuel)
    case For(local, start, end, step, body) =>
      if step(who, l) == 0 then Faulted(2)
      else MeansPasses(who, local, Counters(start(who, l), end(who, l), step(who, l)), body, l, mem, fuel)
    case While(cond, body) => MeansWhile(who, cond, body, l, mem, fuel)
    case Break => Went(Broken, l, mem)
    case Continue => Went(Continued, l, mem)
    case Return => Went(Returned, l, mem)
    case _ => Endless
  }

  function MeansPasses(who: Tid, local: nat, ks: seq<int>, body: seq<Stmt>, l: Locals, mem: Memory,
      fuel: nat): Meaning
    decreases fuel, body, 2, |ks|
  {
    if ks == [] then Went(Through, l, mem)
    else
      match Means(who, body, l[local := ks[0]], mem, fuel)
      case Went(Broken, l', mem') => Went(Through, l', mem')
      case Went(Returned, l', mem') => Went(Returned, l', mem')
      case Went(_, l', mem') => MeansPasses(who, local, ks[1..], body, l', mem', fuel)
      case r => r
  }

  function MeansWhile(who: Tid, cond: Expr, body: seq<Stmt>, l: Locals, mem: Memory, fuel: nat): Meaning
    decreases fuel, body, 2, 0
  {
    if cond(who, l) == 0 then Went(Through, l, mem)
    else if fuel == 0 then Endless
    else
      match Means(who, body, l, mem, fuel - 1)
      case Went(Broken, l', mem') => Went(Through, l', mem')
      case Went(Returned, l', mem') => Went(Returned, l', mem')
      case Went(_, l', mem') => MeansWhile(who, cond, body, l', mem', fuel - 1)
      case r => r
  }

  // ---- the machine takes the steps of it

  /** `n` steps of one thread. */
  function Steps(who: Tid, t: Thread, mem: Memory, n: nat): Outcome
    decreases n
  {
    if n == 0 then Moved(t, mem)
    else
      match StepThread(who, t, mem)
      case Moved(t', mem') => Steps(who, t', mem', n - 1)
      case r => r
  }

  lemma {:induction false} StepsThen(who: Tid, t: Thread, mem: Memory, m: nat, n: nat)
    requires Steps(who, t, mem, m).Moved?
    ensures Steps(who, t, mem, m + n) == Steps(who, Steps(who, t, mem, m).thread, Steps(who, t, mem, m).mem, n)
    decreases m
  {
    if m > 0 {
      var r := StepThread(who, t, mem);
      StepsThen(who, r.thread, r.mem, m - 1, n);
    }
  }

  /** Where the code behind a piece goes on, for the way the flow leaves the piece. */
  function Behind(flow: Flow, rest: seq<Frame>): Option<seq<Frame>> {
    match flow
    case Through => Some(rest)
    case Broken => if Innermost(rest) == [] then None else Some(Innermost(rest)[1..])
    case Continued => if Innermost(rest) == [] then None else Some(Innermost(rest))
    case Returned => Some([])
  }

  /** `n` steps of the machine come to what a piece of code means, with `rest` behind it. */
  ghost predicate Comes(who: Tid, todo: seq<Frame>, l: Locals, mem: Memory, n: nat, want: Meaning, rest: seq<Frame>) {
    match want
    case Went(flow, l', mem') =>
      Behind(flow, rest).Some? ==>
        Steps(who, Thread(todo, l), mem, n) == Moved(Thread(Behind(flow, rest).value, l'), mem')
    case Faulted(code) => Steps(who, Thread(todo, l), mem, n) == Fault(code)
    case Endless => true
  }

  lemma {:induction false} InnermostBehind(ss: seq<Stmt>, rest: seq<Frame>)
    ensures Innermost(Doing(ss) + rest) == Innermost(rest)
  {
    if ss == [] {
      assert Doing(ss) + rest == rest;
    } else {
      InnermostBehind(ss[1..], rest);
      assert (Doing(ss) + rest)[1..] == Doing(ss[1..]) + rest;
    }
  }

  /** A first part that goes through, and then the second. */
  lemma ComesThen(who: Tid, todo: seq<Frame>, l: Locals, mem: Memory, m: nat, mid: seq<Frame>, l': Locals,
      mem': Memory, n: nat, want: Meaning, rest: seq<Frame>)
    requires Steps(who, Thread(todo, l), mem, m) == Moved(Thread(mid, l'), mem')
    requires Comes(who, mid, l', mem', n, want, rest)
    ensures Comes(who, todo, l, mem, m + n, want, rest)
  {
    StepsThen(who, Thread(todo, l), mem, m, n);
  }

  lemma OneStep(who: Tid, f: Frame, rest: seq<Frame>, l: Locals, mem: Memory) returns (r: Outcome)
    ensures r == Answer(Place(Head(who, f, l), rest, l), mem)
    ensures StepThread(who, Thread([f] + rest, l), mem) == r == Steps(who, Thread([f] + rest, l), mem, 1)
  {
    r := Answer(Place(Head(who, f, l), rest, l), mem);
    assert ([f] + rest)[1..] == rest && ([f] + rest)[0] == f;
    assert StepThread(who, Thread([f] + rest, l), mem) == r;
    if r.Moved? {
      assert Steps(who, r.thread, r.mem, 0) == r;
    }
  }

  /** The machine comes to what the statements mean, whatever waits behind them. */
  lemma {:induction false} MeansSteps(who: Tid, ss: seq<Stmt>, rest: seq<Frame>, l: Locals, mem: Memory, fuel: nat)
    returns (n: nat)
    ensures Comes(who, Doing(ss) + rest, l, mem, n, Means(who, ss, l, mem, fuel), rest)
    decreases fuel, ss, 0, 0
  {
    if ss == [] {
      n := 0;
      assert Doing(ss) + rest == rest;
    } else {
      var behind := Doing(ss[1..]) + rest;
      assert Doing(ss) + rest == [Do(ss[0])] + behind;
      n := MeansStepsOne(who, ss[0], behind, l, mem, fuel);
      InnermostBehind(ss[1..], rest);
      var r := MeansOne(who, ss[0], l, mem, fuel);
      if r.Went? && r.flow.Through? {
        var more := MeansSteps(who, ss[1..], rest, r.locals, r.mem, fuel);
        ComesThen(who, Doing(ss) + rest, l, mem, n, behind, r.locals, r.mem, more,
                  Means(who, ss[1..], r.locals, r.mem, fuel), rest);
        n := n + more;
      }
    }
  }

  lemma LeafSteps(who: Tid, s: Stmt, rest: seq<Frame>, l: Locals, mem: Memory, fuel: nat)
    requires !s.If? && !s.For? && !s.While?
    ensures Comes(who, [Do(s)] + rest, l, mem, 1, MeansOne(who, s, l, mem, fuel), rest)
  {
    var r := OneStep(who, Do(s), rest, l, mem);
    assert [] + rest == rest;
  }

  lemma {:induction false} MeansStepsOne(who: Tid, s: Stmt, rest: seq<Frame>, l: Locals, mem: Memory, fuel: nat)
    returns (n: nat)
    ensures Comes(who, [Do(s)] + rest, l, mem, n, MeansOne(who, s, l, mem, fuel), rest)
    decreases fuel, s, 1, 0
  {
    match s
    case If(cond, thn, els) => n := IfSteps(who, s, rest, l, mem, fuel);
    case For(local, start, end, step, body) => n := ForSteps(who, s, rest, l, mem, fuel);
    case While(cond, body) =>
      var more := WhileSteps(who, cond, body, rest, l, mem, fuel);
      Enters(who, s, [WhileLoop(cond, body)], rest, l, mem, more, MeansWhile(who, cond, body, l, mem, fuel));
      n := 1 + more;
    case _ =>
      LeafSteps(who, s, rest, l, mem, fuel);
      n := 1;
  }

  /** A statement whose first step only puts other code in its place. */
  lemma Enters(who: Tid, s: Stmt, front: seq<Frame>, rest: seq<Frame>, l: Locals, mem: Memory, more: nat,
      want: Meaning)
    requires Head(who, Do(s), l) == Push(front, l) && Comes(who, front + rest, l, mem, more, want, rest)
    ensures Comes(who, [Do(s)] + rest, l, mem, 1 + more, want, rest)
  {
    var r := OneStep(who, Do(s), rest, l, mem);
    ComesThen(who, [Do(s)] + rest, l, mem, 1, front + rest, l, mem, more, want, rest);
  }

  lemma {:induction false} IfSteps(who: Tid, s: Stmt, rest: seq<Frame>, l: Locals, mem: Memory, fuel: nat)
    returns (n: nat)
    requires s.If?
    ensures Comes(who, [Do(s)] + rest, l, mem, n, MeansOne(who, s, l, mem, fuel), rest)
    decreases fuel, s, 0, 0
  {
    var taken := if s.cond(who, l) != 0 then s.thn else s.els;
    var more := MeansSteps(who, taken, rest, l, mem, fuel);
    Enters(who, s, Doing(taken), rest, l, mem, more, Means(who, taken, l, mem, fuel));
    n := 1 + more;
  }

  lemma {:induction false} ForSteps(who: Tid, s: Stmt, rest: seq<Frame>, l: Locals, mem: Memory, fuel: nat)
    returns (n: nat)
    requires s.For?
    ensures Comes(who, [Do(s)] + rest, l, mem, n, MeansOne(who, s, l, mem, fuel), rest)
    decreases fuel, s, 0, 0
  {
    var (from, to, by') := (s.start(who, l), s.end(who, l), s.step(who, l));
    if by' == 0 {
      var r := OneStep(who, Do(s), rest, l, mem);
      n := 1;
    } else {
      var more := PassesSteps(who, s.local, from, to, by', s.body, rest, l, mem, fuel);
      Enters(who, s, [ForLoop(s.local, from, to, by', s.body)], rest, l, mem, more,
             MeansPasses(who, s.local, Counters(from, to, by'), s.body, l, mem, fuel));
      n := 1 + more;
    }
  }

  /** What a pass leaves to do: nothing of the loop after a `Break`, the loop itself otherwise. */
  function AfterPass(flow: Flow, again: Frame, rest: seq<Frame>): seq<Frame> {
    match flow
    case Broken => rest
    case Returned => []
    case _ => [again] + rest
  }

  ghost predicate Passes(who: Tid, todo: seq<Frame>, l: Locals, mem: Memory, n: nat, r: Meaning, again: Frame,
      rest: seq<Frame>) {
    match r
    case Went(flow, l', mem') =>
      Steps(who, Thread(todo, l), mem, n) == Moved(Thread(AfterPass(flow, again, rest), l'), mem')
    case Faulted(code) => Steps(who, Thread(todo, l), mem, n) == Fault(code)
    case Endless => true
  }

  lemma PassEnds(who: Tid, todo: seq<Frame>, l: Locals, mem: Memory, n: nat, r: Meaning, again: Frame, rest: seq<Frame>)
    requires !again.Do? && Comes(who, todo, l, mem, n, r, [again] + rest)
    ensures Passes(who, todo, l, mem, n, r, again, rest)
  {
    assert ([again] + rest)[1..] == rest && ([again] + rest)[0] == again;
    assert Innermost([again] + rest) == [again] + rest;
  }

  /** The head of a loop and one pass through its body. */
  lemma {:induction false} Pass(who: Tid, first: Frame, again: Frame, body: seq<Stmt>, rest: seq<Frame>, l: Locals,
      l1: Locals, mem: Memory, fuel: nat)
    returns (n: nat)
    requires Head(who, first, l) == Push(Doing(body) + [again], l1) && !again.Do?
    ensures n > 0 && Passes(who, [first] + rest, l, mem, n, Means(who, body, l1, mem, fuel), again, rest)
    decreases fuel, body, 1, 0
  {
    var into := Doing(body) + ([again] + rest);
    assert (Doing(body) + [again]) + rest == into;
    var r := OneStep(who, first, rest, l, mem);
    var pass := MeansSteps(who, body, [again] + rest, l1, mem, fuel);
    PassEnds(who, into, l1, mem, pass, Means(who, body, l1, mem, fuel), again, rest);
    StepsThen(who, Thread([first] + rest, l), mem, 1, pass);
    n := 1 + pass;
  }

  lemma LoopOver(who: Tid, f: Frame, rest: seq<Frame>, l: Locals, mem: Memory)
    requires Head(who, f, l) == Push([], l)
    ensures Comes(who, [f] + rest, l, mem, 1, Went(Through, l, mem), rest)
  {
    var r := OneStep(who, f, rest, l, mem);
    assert [] + rest == rest;
  }

  lemma {:induction false} PassesSteps(who: Tid, local: nat, next: int, end: int, step: int, body: seq<Stmt>,
      rest: seq<Frame>, l: Locals, mem: Memory, fuel: nat)
    returns (n: nat)
    requires step != 0
    ensures Comes(who, [ForLoop(local, next, end, step, body)] + rest, l, mem, n,
                  MeansPasses(who, local, Counters(next, end, step), body, l, mem, fuel), rest)
    decreases fuel, body, 2, |Counters(next, end, step)|
  {
    var first, again := ForLoop(local, next, end, step, body), ForLoop(local, next + step, end, step, body);
    CountersNext(next, end, step);
    if Counters(next, end, step) == [] {
      LoopOver(who, first, rest, l, mem);
      n := 1;
    } else {
      n := Pass(who, first, again, body, rest, l, l[local := next], mem, fuel);
      var p := Means(who, body, l[local := next], mem, fuel);
      if p.Went? && !p.flow.Broken? && !p.flow.Returned? {
        var more := PassesSteps(who, local, next + step, end, step, body, rest, p.locals, p.mem, fuel);
        ComesThen(who, [first] + rest, l, mem, n, [again] + rest, p.locals, p.mem, more,
                  MeansPasses(who, local, Counters(next + step, end, step), body, p.locals, p.mem, fuel), rest);
        n := n + more;
      }
    }
  }

  lemma {:induction false} WhileSteps(who: Tid, cond: Expr, body: seq<Stmt>, rest: seq<Frame>, l: Locals,
      mem: Memory, fuel: nat)
    returns (n: nat)
    ensures Comes(who, [WhileLoop(cond, body)] + rest, l, mem, n, MeansWhile(who, cond, body, l, mem, fuel), rest)
    decreases fuel, body, 2, 0
  {
    var loop := WhileLoop(cond, body);
    n := 1;
    if cond(who, l) == 0 {
      LoopOver(who, loop, rest, l, mem);
    } else if fuel > 0 {
      n := Pass(who, loop, loop, body, rest, l, l, mem, fuel - 1);
      var p := Means(who, body, l, mem, fuel - 1);
      if p.Went? && !p.flow.Broken? && !p.flow.Returned? {
        var more := WhileSteps(who, cond, body, rest, p.locals, p.mem, fuel - 1);
        ComesThen(who, [loop] + rest, l, mem, n, [loop] + rest, p.locals, p.mem, more,
                  MeansWhile(who, cond, body, p.locals, p.mem, fuel - 1), rest);
        n := n + more;
      }
    }
  }

  // ---- and no others

  lemma {:induction false} RunSteps(who: Tid, t: Thread, mem: Memory, n: nat, more: nat)
    ensures match Steps(who, t, mem, n)
            case Moved(t', mem') =>
              RunThread(who, t.todo, t.locals, mem, n + more) == RunThread(who, t'.todo, t'.locals, mem', more)
            case Fault(code) => RunThread(who, t.todo, t.locals, mem, n + more) == Fault(code)
            case Blocked => true
    decreases n
  {
    if n > 0 {
      match StepThread(who, t, mem)
      case Moved(t', mem') => RunSteps(who, t', mem', n - 1, more);
      case _ =>
    }
  }

  /** With less fuel than it takes to get somewhere a run has not come to an end. */
  lemma {:induction false} RunShort(who: Tid, t: Thread, mem: Memory, n: nat, fuel: nat)
    requires fuel < n && Steps(who, t, mem, n).Moved?
    ensures RunThread(who, t.todo, t.locals, mem, fuel).Blocked?
    decreases n
  {
    var r := StepThread(who, t, mem);
    if fuel > 0 {
      RunShort(who, r.thread, r.mem, n - 1, fuel - 1);
    }
  }

  /** A run of something that goes through and then on without an end. */
  lemma RunOn(who: Tid, todo: seq<Frame>, l: Locals, mem: Memory, n: nat, mid: seq<Frame>, l': Locals, mem': Memory,
      fuel: nat)
    requires Steps(who, Thread(todo, l), mem, n) == Moved(Thread(mid, l'), mem')
    requires n <= fuel ==> RunThread(who, mid, l', mem', fuel - n).Blocked?
    ensures RunThread(who, todo, l, mem, fuel).Blocked?
  {
    if n <= fuel {
      RunSteps(who, Thread(todo, l), mem, n, fuel - n);
    } else {
      RunShort(who, Thread(todo, l), mem, n, fuel);
    }
  }

  /** Where the meaning has no end within the fuel, neither has a run. */
  lemma {:induction false} EndlessRuns(who: Tid, ss: seq<Stmt>, rest: seq<Frame>, l: Locals, mem: Memory, g: nat,
      fuel: nat)
    requires Means(who, ss, l, mem, g) == Endless && fuel <= g
    ensures RunThread(who, Doing(ss) + rest, l, mem, fuel).Blocked?
    decreases g, ss, 0, 0
  {
    var behind := Doing(ss[1..]) + rest;
    assert Doing(ss) + rest == [Do(ss[0])] + behind;
    var r := MeansOne(who, ss[0], l, mem, g);
    if r.Endless? {
      EndlessOne(who, ss[0], behind, l, mem, g, fuel);
    } else {
      var n := MeansStepsOne(who, ss[0], behind, l, mem, g);
      if n <= fuel {
        EndlessRuns(who, ss[1..], rest, r.locals, r.mem, g, fuel - n);
      }
      RunOn(who, Doing(ss) + rest, l, mem, n, behind, r.locals, r.mem, fuel);
    }
  }

  lemma {:induction false} EndlessOne(who: Tid, s: Stmt, rest: seq<Frame>, l: Locals, mem: Memory, g: nat, fuel: nat)
    requires MeansOne(who, s, l, mem, g) == Endless && fuel <= g
    ensures RunThread(who, [Do(s)] + rest, l, mem, fuel).Blocked?
    decreases g, s, 1, 0
  {
    var r := OneStep(who, Do(s), rest, l, mem);
    if fuel > 0 && r.Moved? {
      match s
      case If(cond, thn, els) => EndlessRuns(who, if cond(who, l) != 0 then thn else els, rest, l, mem, g, fuel - 1);
      case For(local, start, end, step, body) =>
        EndlessPasses(who, local, start(who, l), end(who, l), step(who, l), body, rest, l, mem, g, fuel - 1);
      case While(cond, body) => EndlessWhile(who, cond, body, rest, l, mem, g, fuel - 1);
      case _ =>
    }
    EndlessStep(who, Do(s), rest, l, mem, r, fuel);
  }

  lemma EndlessStep(who: Tid, f: Frame, rest: seq<Frame>, l: Locals, mem: Memory, r: Outcome, fuel: nat)
    requires StepThread(who, Thread([f] + rest, l), mem) == r == Steps(who, Thread([f] + rest, l), mem, 1) && !r.Fault?
    requires fuel > 0 && r.Moved? ==> RunThread(who, r.thread.todo, r.thread.locals, r.mem, fuel - 1).Blocked?
    ensures RunThread(who, [f] + rest, l, mem, fuel).Blocked?
  {
    if r.Moved? {
      RunOn(who, [f] + rest, l, mem, 1, r.thread.todo, r.thread.locals, r.mem, fuel);
    }
  }

  lemma {:induction false} EndlessPasses(who: Tid, local: nat, next: int, end: int, step: int, body: seq<Stmt>,
      rest: seq<Frame>, l: Locals, mem: Memory, g: nat, fuel: nat)
    requires step != 0 && MeansPasses(who, local, Counters(next, end, step), body, l, mem, g) == Endless && fuel <= g
    ensures RunThread(who, [ForLoop(local, next, end, step, body)] + rest, l, mem, fuel).Blocked?
    decreases g, body, 2, |Counters(next, end, step)|
  {
    var first, again := ForLoop(local, next, end, step, body), ForLoop(local, next + step, end, step, body);
    CountersNext(next, end, step);
    var l1 := l[local := next];
    var p := Means(who, body, l1, mem, g);
    if p.Endless? {
      EndlessPass(who, first, again, body, rest, l, l1, mem, g, fuel);
    } else {
      var n := Pass(who, first, again, body, rest, l, l1, mem, g);
      if n <= fuel {
        EndlessPasses(who, local, next + step, end, step, body, rest, p.locals, p.mem, g, fuel - n);
      }
      RunOn(who, [first] + rest, l, mem, n, [again] + rest, p.locals, p.mem, fuel);
    }
  }

  /** A pass through a body that has no end. */
  lemma {:induction false} EndlessPass(who: Tid, first: Frame, again: Frame, body: seq<Stmt>, rest: seq<Frame>,
      l: Locals, l1: Locals, mem: Memory, g: nat, fuel: nat)
    requires Head(who, first, l) == Push(Doing(body) + [again], l1) && Means(who, body, l1, mem, g) == Endless
    requires fuel <= g + 1
    ensures RunThread(who, [first] + rest, l, mem, fuel).Blocked?
    decreases g, body, 1, 0
  {
    var into := Doing(body) + ([again] + rest);
    assert (Doing(body) + [again]) + rest == into;
    var r := OneStep(who, first, rest, l, mem);
    if fuel > 0 {
      EndlessRuns(who, body, [again] + rest, l1, mem, g, fuel - 1);
    }
    EndlessStep(who, first, rest, l, mem, r, fuel);
  }

  lemma {:induction false} EndlessWhile(who: Tid, cond: Expr, body: seq<Stmt>, rest: seq<Frame>, l: Locals,
      mem: Memory, g: nat, fuel: nat)
    requires MeansWhile(who, cond, body, l, mem, g) == Endless && fuel <= g
    ensures RunThread(who, [WhileLoop(cond, body)] + rest, l, mem, fuel).Blocked?
    decreases g, body, 2, 0
  {
    var loop := WhileLoop(cond, body);
    if fuel > 0 {
      var p := Means(who, body, l, mem, g - 1);
      if p.Endless? {
        EndlessPass(who, loop, loop, body, rest, l, l, mem, g - 1, fuel);
      } else {
        var n := Pass(who, loop, loop, body, rest, l, l, mem, g - 1);
        if n <= fuel {
          EndlessWhile(who, cond, body, rest, p.locals, p.mem, g - 1, fuel - n);
        }
        RunOn(who, [loop] + rest, l, mem, n, [loop] + rest, p.locals, p.mem, fuel);
      }
    }
  }

  // ---- the two are the same

  /** Code without a jump out of it goes through or returns. */
  lemma {:induction false} StaysInside(who: Tid, ss: seq<Stmt>, l: Locals, mem: Memory, fuel: nat)
    requires !Escapes(ss)
    ensures var r := Means(who, ss, l, mem, fuel);
            r.Went? ==> r.flow.Through? || r.flow.Returned?
    decreases ss, 0
  {
    if ss != [] {
      StaysInsideOne(who, ss[0], l, mem, fuel);
      var r := MeansOne(who, ss[0], l, mem, fuel);
      if r.Went? && r.flow.Through? {
        StaysInside(who, ss[1..], r.locals, r.mem, fuel);
      }
    }
  }

  lemma {:induction false} StaysInsideOne(who: Tid, s: Stmt, l: Locals, mem: Memory, fuel: nat)
    requires !EscapesOne(s)
    ensures var r := MeansOne(who, s, l, mem, fuel);
            r.Went? ==> r.flow.Through? || r.flow.Returned?
    decreases s, 1
  {
    match s
    case If(cond, thn, els) => StaysInside(who, if cond(who, l) != 0 then thn else els, l, mem, fuel);
    case For(local, start, end, step, body) =>
      if step(who, l) != 0 {
        PassesInside(who, local, Counters(start(who, l), end(who, l), step(who, l)), body, l, mem, fuel);
      }
    case While(cond, body) => WhileInside(who, cond, body, l, mem, fuel);
    case _ =>
  }

  lemma {:induction false} PassesInside(who: Tid, local: nat, ks: seq<int>, body: seq<Stmt>, l: Locals, mem: Memory,
      fuel: nat)
    ensures var r := MeansPasses(who, local, ks, body, l, mem, fuel);
            r.Went? ==> r.flow.Through? || r.flow.Returned?
    decreases |ks|
  {
    if ks != [] {
      var r := Means(who, body, l[local := ks[0]], mem, fuel);
      if r.Went? { PassesInside(who, local, ks[1..], body, r.locals, r.mem, fuel); }
    }
  }

  lemma {:induction false} WhileInside(who: Tid, cond: Expr, body: seq<Stmt>, l: Locals, mem: Memory, fuel: nat)
    ensures var r := MeansWhile(who, cond, body, l, mem, fuel);
            r.Went? ==> r.flow.Through? || r.flow.Returned?
    decreases fuel
  {
    if cond(who, l) != 0 && fuel > 0 {
      var r := Means(who, body, l, mem, fuel - 1);
      if r.Went? { WhileInside(who, cond, body, r.locals, r.mem, fuel - 1); }
    }
  }

  /** A thread that runs to its end, or to a fault, runs to what its code means. */
  lemma RunIsMeaning(who: Tid, ss: seq<Stmt>, l: Locals, mem: Memory, fuel: nat)
    requires !Escapes(ss)
    ensures match RunThread(who, Doing(ss), l, mem, fuel)
            case Moved(t, mem') =>
              var r := Means(who, ss, l, mem, fuel);
              r.Went? && t == Thread([], r.locals) && mem' == r.mem
            case Fault(code) => Means(who, ss, l, mem, fuel) == Faulted(code)
            case Blocked => true
  {
    assert Doing(ss) + [] == Doing(ss);
    var r := Means(who, ss, l, mem, fuel);
    if r.Endless? {
      EndlessRuns(who, ss, [], l, mem, fuel, fuel);
    } else {
      var n := MeaningRuns(who, ss, l, mem, fuel);
      if n <= fuel {
        RunMore(who, Doing(ss), l, mem, n, fuel);
      } else if !RunThread(who, Doing(ss), l, mem, fuel).Blocked? {
        RunMore(who, Doing(ss), l, mem, fuel, n);
      }
    }
  }

  /** A run that has come to an end comes to the same with more fuel. */
  lemma {:induction false} RunMore(who: Tid, todo: seq<Frame>, l: Locals, mem: Memory, fuel: nat, fuel': nat)
    requires fuel <= fuel' && !RunThread(who, todo, l, mem, fuel).Blocked?
    ensures RunThread(who, todo, l, mem, fuel') == RunThread(who, todo, l, mem, fuel)
    decreases fuel
  {
    if todo != [] {
      match Answer(Ask(who, todo, l), mem)
      case Moved(t, m) => RunMore(who, t.todo, t.locals, m, fuel - 1, fuel' - 1);
      case _ =>
    }
  }

  /** What the code means is what some run comes to. */
  lemma MeaningRuns(who: Tid, ss: seq<Stmt>, l: Locals, mem: Memory, fuel: nat) returns (n: nat)
    requires !Escapes(ss)
    ensures match Means(who, ss, l, mem, fuel)
            case Went(_, l', mem') => RunThread(who, Doing(ss), l, mem, n) == Moved(Thread([], l'), mem')
            case Faulted(code) => RunThread(who, Doing(ss), l, mem, n) == Fault(code)
            case Endless => true
  {
    assert Doing(ss) + [] == Doing(ss);
    StaysInside(who, ss, l, mem, fuel);
    n := MeansSteps(who, ss, [], l, mem, fuel);
    RunSteps(who, Thread(Doing(ss), l), mem, n, 0);
  }
}
