/** The meaning of a launched kernel: threads of a grid taking single steps in any order, meeting at
    barriers. A private array is part of its thread's locals; every other element is memory. */
module ThreadMachine {

  import opened Wrappers
  import opened Runs

  datatype Tid = Tid(block: nat, thread: nat)

  type Locals = map<nat, int>
  type Memory = map<int, int>
  type Expr = (Tid, Locals) -> int

  datatype Stmt =
    | Assign(local: nat, value: Expr)
    | Load(local: nat, at: Expr)
    | Store(at: Expr, value: Expr)
    | Atomic(at: Expr, combine: (int, int) -> int, value: Expr, prior: Option<nat>)
    | If(cond: Expr, thn: seq<Stmt>, els: seq<Stmt>)
    | For(local: nat, start: Expr, end: Expr, step: Expr, body: seq<Stmt>)
    | While(cond: Expr, body: seq<Stmt>)
    | Break
    | Continue
    | Return
    // A block-level rendezvous: a barrier changes no local, a collective or an MMA some.
    | Sync(effect: (nat, seq<Locals>) -> seq<Locals>)
    | DeviceBarrier

  /** What a thread still has to do, innermost first. */
  datatype Frame =
    | Do(s: Stmt)
    | ForLoop(local: nat, next: int, end: int, step: int, body: seq<Stmt>)
    | WhileLoop(cond: Expr, body: seq<Stmt>)

  datatype Thread = Thread(todo: seq<Frame>, locals: Locals)

  datatype Grid = Grid(blocks: seq<seq<Thread>>, mem: Memory)

  function Doing(ss: seq<Stmt>): (fs: seq<Frame>)
    ensures |fs| == |ss| && forall i :: 0 <= i < |ss| ==> fs[i] == Do(ss[i])
  {
    seq(|ss|, i requires 0 <= i < |ss| => Do(ss[i]))
  }

  /** The frames from the innermost open loop on; empty when no loop is open. */
  function Innermost(fs: seq<Frame>): (r: seq<Frame>)
    ensures |r| <= |fs|
  {
    if fs == [] || !fs[0].Do? then fs else Innermost(fs[1..])
  }

  function InRange(next: int, end: int, step: int): bool {
    if step > 0 then next < end else next > end
  }

  /** What the frame at the head does, whatever waits behind it. */
  datatype Reply =
    | Push(front: seq<Frame>, locals: Locals)
    | Touch(at: int, writes: bool, update: int -> int, bind: int -> Locals)
    | LeaveLoop(again: bool)
    | End
    | Trap(code: int)
    | Wait

  function Head(who: Tid, f: Frame, l: Locals): Reply {
    match f
    case ForLoop(local, next, end, step, body) =>
      if InRange(next, end, step) then Push(Doing(body) + [ForLoop(local, next + step, end, step, body)],
          l[local := next])
      else Push([], l)
    case WhileLoop(cond, body) => Push(if cond(who, l) != 0 then Doing(body) + [f] else [], l)
    case Do(s) =>
      match s
      case Assign(local, value) => Push([], l[local := value(who, l)])
      case Load(local, at) => Touch(at(who, l), false, v => v, v => l[local := v])
      case Store(at, value) => Touch(at(who, l), true, _ => value(who, l), _ => l)
      case Atomic(at, combine, value, prior) =>
        Touch(at(who, l), true, v => combine(v, value(who, l)), v => if prior.Some? then l[prior.value := v] else l)
      case If(cond, thn, els) => Push(Doing(if cond(who, l) != 0 then thn else els), l)
      case For(local, start, end, step, body) =>
        if step(who, l) == 0 then Trap(2)
        else Push([ForLoop(local, start(who, l), end(who, l), step(who, l), body)], l)
      case While(cond, body) => Push([WhileLoop(cond, body)], l)
      case Break => LeaveLoop(false)
      case Continue => LeaveLoop(true)
      case Return => End
      case Sync(_) => Wait
      case DeviceBarrier => Wait
  }

  /** What a thread's next step asks of memory. */
  datatype Request =
    | Silent(todo: seq<Frame>, locals: Locals)
    | Access(at: int, writes: bool, update: int -> int, bind: int -> Locals, todo: seq<Frame>)
    | Faulting(code: int)
    | Waiting
    | Stuck

  function Place(r: Reply, rest: seq<Frame>, l: Locals): Request {
    match r
    case Push(front, l') => Silent(front + rest, l')
    case Touch(at, writes, update, bind) => Access(at, writes, update, bind, rest)
    case LeaveLoop(again) =>
      if Innermost(rest) == [] then Stuck else Silent(if again then Innermost(rest) else Innermost(rest)[1..], l)
    case End => Silent([], l)
    case Trap(code) => Faulting(code)
    case Wait => Waiting
  }

  function Ask(who: Tid, todo: seq<Frame>, l: Locals): Request
    requires todo != []
  {
    Place(Head(who, todo[0], l), todo[1..], l)
  }

  /** The result of one thread's step: out-of-range accesses end the kernel with status 1, a zero
      loop step with status 2. */
  datatype Outcome = Moved(thread: Thread, mem: Memory) | Fault(code: int) | Blocked

  function Answer(r: Request, mem: Memory): Outcome {
    match r
    case Silent(todo, l) => Moved(Thread(todo, l), mem)
    case Access(at, writes, update, bind, todo) =>
      if at !in mem then Fault(1)
      else Moved(Thread(todo, bind(mem[at])), if writes then mem[at := update(mem[at])] else mem)
    case Faulting(code) => Fault(code)
    case Waiting => Blocked
    case Stuck => Blocked
  }

  function StepThread(who: Tid, t: Thread, mem: Memory): Outcome {
    if t.todo == [] then Blocked else Answer(Ask(who, t.todo, t.locals), mem)
  }

  // ---- the grid

  /** One step of the grid: of a thread, of a block meeting at a rendezvous, or of the whole grid
      passing a device barrier. */
  datatype Label = T(b: nat, t: nat) | S(b: nat) | D

  ghost predicate Meets(ths: seq<Thread>) {
    && ths != []
    && ths[0].todo != [] && ths[0].todo[0].Do? && ths[0].todo[0].s.Sync?
    && forall i :: 0 <= i < |ths| ==> ths[i].todo != [] && ths[i].todo[0] == ths[0].todo[0]
  }

  function LocalsOf(ths: seq<Thread>): (ls: seq<Locals>)
    ensures |ls| == |ths| && forall i :: 0 <= i < |ths| ==> ls[i] == ths[i].locals
  {
    seq(|ths|, i requires 0 <= i < |ths| => ths[i].locals)
  }

  function Meet(b: nat, ths: seq<Thread>): (r: Option<seq<Thread>>)
    requires forall i :: 0 <= i < |ths| ==> ths[i].todo != []
    requires ths != [] && ths[0].todo[0].Do? && ths[0].todo[0].s.Sync?
    ensures r.Some? ==> |r.value| == |ths|
  {
    var ls := ths[0].todo[0].s.effect(b, LocalsOf(ths));
    if |ls| != |ths| then None
    else Some(seq(|ths|, i requires 0 <= i < |ths| => Thread(ths[i].todo[1..], ls[i])))
  }

  ghost predicate AtDevice(t: Thread) { t.todo != [] && t.todo[0] == Do(DeviceBarrier) }

  ghost predicate AllAtDevice(c: Grid) {
    forall b :: 0 <= b < |c.blocks| ==> forall t :: 0 <= t < |c.blocks[b]| ==> AtDevice(c.blocks[b][t])
  }

  ghost function PassDevice(c: Grid): (r: Grid)
    requires AllAtDevice(c)
    ensures |r.blocks| == |c.blocks| && r.mem == c.mem
    ensures forall b :: 0 <= b < |c.blocks| ==> |r.blocks[b]| == |c.blocks[b]|
    ensures forall b :: 0 <= b < |c.blocks| ==> forall t :: 0 <= t < |c.blocks[b]| ==>
              r.blocks[b][t] == Thread(c.blocks[b][t].todo[1..], c.blocks[b][t].locals)
  {
    Grid(seq(|c.blocks|, b requires 0 <= b < |c.blocks| =>
      seq(|c.blocks[b]|, t requires 0 <= t < |c.blocks[b]| => Thread(c.blocks[b][t].todo[1..],
          c.blocks[b][t].locals))), c.mem)
  }

  function PutBlock(c: Grid, b: nat, ths: seq<Thread>, mem: Memory): Grid
    requires b < |c.blocks|
  {
    Grid(c.blocks[b := ths], mem)
  }

  function PutThread(c: Grid, b: nat, t: nat, th: Thread, mem: Memory): Grid
    requires b < |c.blocks| && t < |c.blocks[b]|
  {
    PutBlock(c, b, c.blocks[b][t := th], mem)
  }

  ghost predicate HasThread(c: Grid, b: nat, t: nat) {
    b < |c.blocks| && t < |c.blocks[b]|
  }

  /** The step a label names, if it can be taken. */
  ghost function Step(c: Grid, lab: Label): Option<Grid> {
    match lab
    case T(b, t) =>
      if !HasThread(c, b, t) then None else
        (match StepThread(Tid(b, t), c.blocks[b][t], c.mem)
         case Moved(th, mem) => Some(PutThread(c, b, t, th, mem))
         case _ => None)
    case S(b) =>
      if b >= |c.blocks| || !Meets(c.blocks[b]) then None else
        (match Meet(b, c.blocks[b])
         case Some(ths) => Some(PutBlock(c, b, ths, c.mem))
         case None => None)
    case D => if c.blocks != [] && AllAtDevice(c) && c.blocks[0] != [] then Some(PassDevice(c)) else None
  }

  /** Some thread's next step ends the kernel with `code`. */
  ghost predicate FaultsAt(c: Grid, code: int) {
    exists b: nat, t: nat :: HasThread(c, b, t) && StepThread(Tid(b, t), c.blocks[b][t], c.mem) == Fault(code)
  }

  ghost predicate CanFault(c: Grid, code: int) {
    exists d :: Reach(Step, c, d) && FaultsAt(d, code)
  }

  // ---- races and confluence

  function RequestOf(c: Grid, b: nat, t: nat): Request
    requires b < |c.blocks| && t < |c.blocks[b]|
  {
    var th := c.blocks[b][t];
    if th.todo == [] then Waiting else Ask(Tid(b, t), th.todo, th.locals)
  }

  /** Two threads are about to touch one element, at least one of them writing it. Two atomics
      count: they do not tear, but their order shows. */
  ghost predicate Conflict(c: Grid, b: nat, t: nat, b': nat, t': nat)
    requires HasThread(c, b, t) && HasThread(c, b', t')
  {
    var r, r' := RequestOf(c, b, t), RequestOf(c, b', t');
    (b, t) != (b', t') && r.Access? && r'.Access? && r.at == r'.at && (r.writes || r'.writes)
  }

  ghost predicate ConflictFree(c: Grid) {
    forall b: nat, t: nat, b': nat, t': nat :: HasThread(c, b, t) && HasThread(c, b', t') ==> !Conflict(c, b, t, b', t')
  }

  /** No state any schedule reaches has a conflict. */
  ghost predicate RaceFree(c: Grid) {
    forall d :: Reach(Step, c, d) ==> ConflictFree(d)
  }

  lemma RaceFreeStep(c: Grid, lab: Label)
    requires RaceFree(c) && Step(c, lab).Some?
    ensures RaceFree(Step(c, lab).value) && ConflictFree(c)
  {
    ReachRefl(Step, c);
    forall d | Reach(Step, Step(c, lab).value, d) ensures ConflictFree(d) {
      ReachStep(Step, c, lab);
      ReachTrans(Step, c, Step(c, lab).value, d);
    }
  }

  /** Steps of two threads that do not conflict can be taken in either order. */
  lemma AnswersCommute(r: Request, r': Request, mem: Memory)
    requires !(r.Access? && r'.Access? && r.at == r'.at && (r.writes || r'.writes))
    requires Answer(r, mem).Moved? && Answer(r', mem).Moved?
    ensures var m, m' := Answer(r, mem).mem, Answer(r', mem).mem;
            Answer(r, m').Moved? && Answer(r', m).Moved? &&
            Answer(r, m').thread == Answer(r, mem).thread && Answer(r', m).thread == Answer(r', mem).thread &&
            Answer(r, m').mem == Answer(r', m).mem
  {
  }

  lemma ThreadsCommute(c: Grid, b: nat, t: nat, b': nat, t': nat)
    requires Step(c, T(b, t)).Some? && Step(c, T(b', t')).Some? && (b, t) != (b', t')
    requires ConflictFree(c)
    ensures Step(Step(c, T(b, t)).value, T(b', t')).Some? && Step(Step(c, T(b', t')).value, T(b, t)).Some?
    ensures Step(Step(c, T(b, t)).value, T(b', t')) == Step(Step(c, T(b', t')).value, T(b, t))
  {
    assert !Conflict(c, b, t, b', t');
    AnswersCommute(RequestOf(c, b, t), RequestOf(c, b', t'), c.mem);
    var x, y := Step(c, T(b, t)).value, Step(c, T(b', t')).value;
    assert x.blocks[b'][t'] == c.blocks[b'][t'] && y.blocks[b][t] == c.blocks[b][t];
    var p, q := Step(x, T(b', t')).value, Step(y, T(b, t)).value;
    if b == b' {
      assert p.blocks[b] == q.blocks[b];
    }
    assert p.blocks == q.blocks;
  }

  /** A thread at a rendezvous takes no step of its own. */
  lemma MeetingBlocks(c: Grid, b: nat, t: nat)
    requires HasThread(c, b, t) && Meets(c.blocks[b])
    ensures Step(c, T(b, t)).None? && !AtDevice(c.blocks[b][t])
  {
    assert c.blocks[b][t].todo[0] == c.blocks[b][0].todo[0];
  }

  /** At a device barrier nothing else can happen. */
  lemma DeviceAlone(c: Grid, lab: Label)
    requires Step(c, D).Some?
    ensures lab != D ==> Step(c, lab).None?
  {
    match lab
    case T(b, t) => if HasThread(c, b, t) { assert AtDevice(c.blocks[b][t]); }
    case S(b) => if b < |c.blocks| && c.blocks[b] != [] { assert AtDevice(c.blocks[b][0]); }
    case D =>
  }

  /** A rendezvous and a step elsewhere can be taken in either order. */
  lemma MeetCommutes(c: Grid, b: nat, lab: Label)
    requires Step(c, S(b)).Some? && Step(c, lab).Some? && lab != S(b) && lab != D
    ensures Step(Step(c, S(b)).value, lab).Some? && Step(Step(c, lab).value, S(b)).Some?
    ensures Step(Step(c, S(b)).value, lab) == Step(Step(c, lab).value, S(b))
  {
    if lab.T? && lab.b == b {
      MeetingBlocks(c, b, lab.t);
    }
    var x, y := Step(c, S(b)).value, Step(c, lab).value;
    assert x.blocks[lab.b] == c.blocks[lab.b] && y.blocks[b] == c.blocks[b];
    assert Step(x, lab).value.blocks == Step(y, S(b)).value.blocks;
  }

  lemma Diamond(c: Grid, x: Label, y: Label)
    requires ConflictFree(c) && x != y && Step(c, x).Some? && Step(c, y).Some?
    ensures Step(Step(c, x).value, y).Some? && Step(Step(c, y).value, x).Some?
    ensures Step(Step(c, x).value, y) == Step(Step(c, y).value, x)
  {
    if x.D? {
      DeviceAlone(c, y);
    } else if y.D? {
      DeviceAlone(c, x);
    } else if x.S? {
      MeetCommutes(c, x.b, y);
    } else if y.S? {
      MeetCommutes(c, y.b, x);
    } else {
      ThreadsCommute(c, x.b, x.t, y.b, y.t);
    }
  }

  ghost predicate Ended(c: Grid) {
    forall b: nat, t: nat :: HasThread(c, b, t) ==> c.blocks[b][t].todo == []
  }

  lemma EndedNoStep(c: Grid)
    requires Ended(c)
    ensures NoStep(Step, c)
  {
    forall lab: Label ensures Step(c, lab).None? {
      match lab
      case T(b, t) =>
      case S(b) => assert HasThread(c, b, 0) ==> c.blocks[b][0].todo == [];
      case D => assert HasThread(c, 0, 0) ==> c.blocks[0][0].todo == [];
    }
  }

  lemma RaceFreeCommutes()
    ensures Commuting(Step, c => RaceFree(c))
  {
    forall c: Grid, x: Label | RaceFree(c) && Step(c, x).Some? ensures RaceFree(Step(c, x).value) {
      RaceFreeStep(c, x);
    }
    forall c: Grid, x: Label, y: Label | RaceFree(c) && x != y && Step(c, x).Some? && Step(c, y).Some?
      ensures Step(Step(c, x).value, y).Some? && Step(Step(c, y).value, x) == Step(Step(c, x).value, y)
    {
      RaceFreeStep(c, x);
      Diamond(c, x, y);
    }
  }

  /** All schedules of a race-free kernel agree: if one of them ends after `n` steps in `d`, every
      schedule can be carried on to `d`, `n` steps long in all, and one that cannot go on is there.
      So none runs forever, deadlocks or faults. */
  lemma SchedulesAgree(c: Grid, d: Grid, n: nat, e: Grid, m: nat)
    requires RaceFree(c) && ReachIn(Step, c, d, n) && Ended(d) && ReachIn(Step, c, e, m)
    ensures m <= n && ReachIn(Step, e, d, n - m)
    ensures NoStep(Step, e) ==> e == d
  {
    EndedNoStep(d);
    RaceFreeCommutes();
    RunsAgree(Step, c => RaceFree(c), c, d, n, e, m);
  }
}
