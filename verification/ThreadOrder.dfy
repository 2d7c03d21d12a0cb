/** The order in which the emitted program runs the threads of a block. It is documented as each
    thread running to the next barrier before the next thread starts; a block-level `If` or `For`
    that holds a barrier ends a thread loop as well, with no rendezvous there. */
module ThreadOrder {
  import opened Wrappers
  import opened ThreadMachine
  import opened ThreadLoop
  import opened ThreadLoopRefines

  /** What is seen of a block: a thread running a stretch of its code, or all threads meeting. */
  datatype Event = Turn(thread: nat) | Meeting

  /** With no meeting between them, a later stretch is never an earlier thread's. */
  ghost predicate ToNextBarrier(tr: seq<Event>) {
    forall i :: 0 <= i < |tr| - 1 && tr[i].Turn? && tr[i + 1].Turn? ==> tr[i].thread <= tr[i + 1].thread
  }

  // ---- what a run of the emitted code shows

  function LoopTrace(b: nat, run: seq<Stmt>, t: nat, ls: seq<Locals>, mem: Memory, fuel: nat): seq<Event>
    decreases |ls| - t
  {
    if t >= |ls| then [] else
      [Turn(t)] +
      match RunThread(Tid(b, t), Doing(run), ls[t], mem, fuel)
      case Moved(th, m) => LoopTrace(b, run, t + 1, ls[t := th.locals], m, fuel)
      case _ => []
  }

  function Trace(b: nat, es: seq<Emit>, ls: seq<Locals>, mem: Memory, fuel: nat): seq<Event>
    requires ls != []
    decreases fuel, es, 0
  {
    if es == [] then [] else
      TraceOne(b, es[0], ls, mem, fuel) +
      match ExecOne(b, es[0], ls, mem, fuel)
      case Ran(l, m) => if |l| == |ls| then Trace(b, es[1..], l, m, fuel) else []
      case _ => []
  }

  function TraceOne(b: nat, e: Emit, ls: seq<Locals>, mem: Memory, fuel: nat): seq<Event>
    requires ls != []
    decreases fuel, e, 1
  {
    match e
    case ThreadRun(run) => LoopTrace(b, run, 0, ls, mem, fuel)
    case Point(_) => [Meeting]
    case BlockIf(cond, thn, els) =>
      if !UniformTruth(b, cond, ls) then []
      else if cond(Tid(b, 0), ls[0]) != 0 then Trace(b, thn, ls, mem, fuel)
      else Trace(b, els, ls, mem, fuel)
    case BlockFor(local, start, end, step, body) =>
      if !Uniform(b, start, ls) || !Uniform(b, end, ls) || !Uniform(b, step, ls) then []
      else
        var (s, e, st) := (start(Tid(b, 0), ls[0]), end(Tid(b, 0), ls[0]), step(Tid(b, 0), ls[0]));
        if st == 0 then [] else TracePasses(b, local, s, e, st, body, ls, mem, fuel)
  }

  function TracePasses(b: nat, local: nat, next: int, end: int, step: int, body: seq<Emit>, ls: seq<Locals>,
      mem: Memory, fuel: nat): seq<Event>
    requires ls != []
    decreases fuel, body, 1
  {
    if !InRange(next, end, step) || fuel == 0 then [] else
      Trace(b, body, SetAll(ls, local, next), mem, fuel - 1) +
      match Exec(b, body, SetAll(ls, local, next), mem, fuel - 1)
      case Ran(l, m) =>
        if |l| == |ls| then TracePasses(b, local, next + step, end, step, body, l, m, fuel - 1) else []
      case _ => []
  }

  // ---- control paths

  /** The emitted loops and meetings along one way through the code. */
  datatype Mark = Loop | Meet

  /** A way through the code: conditions and trip counts decide which. */
  ghost predicate Path(es: seq<Emit>, p: seq<Mark>)
    decreases es, 0
  {
    if es == [] then p == []
    else exists k :: 0 <= k <= |p| && PathOne(es[0], p[..k]) && Path(es[1..], p[k..])
  }

  ghost predicate PathOne(e: Emit, p: seq<Mark>)
    decreases e, 2
  {
    match e
    case ThreadRun(_) => p == [Loop]
    case Point(_) => p == [Meet]
    case BlockIf(_, thn, els) => Path(thn, p) || Path(els, p)
    case BlockFor(_, _, _, _, body) => exists n: nat :: Passes(n, body, p)
  }

  ghost predicate Passes(n: nat, body: seq<Emit>, p: seq<Mark>)
    decreases body, 1, n
  {
    if n == 0 then p == []
    else exists k :: 0 <= k <= |p| && Path(body, p[..k]) && Passes(n - 1, body, p[k..])
  }

  lemma PathJoin(e: Emit, es: seq<Emit>, p: seq<Mark>, q: seq<Mark>)
    requires PathOne(e, p) && Path(es, q)
    ensures Path([e] + es, p + q)
  {
    assert ([e] + es)[1..] == es && (p + q)[..|p|] == p && (p + q)[|p|..] == q;
  }

  lemma PassesJoin(n: nat, body: seq<Emit>, p: seq<Mark>, q: seq<Mark>)
    requires Path(body, p) && Passes(n, body, q)
    ensures Passes(n + 1, body, p + q)
  {
    assert (p + q)[..|p|] == p && (p + q)[|p|..] == q;
  }

  /** There is always some way through. */
  lemma {:induction false} SomePath(es: seq<Emit>) returns (p: seq<Mark>)
    ensures Path(es, p)
    decreases es, 0
  {
    if es == [] {
      p := [];
    } else {
      var x := SomePathOne(es[0]);
      var y := SomePath(es[1..]);
      PathJoin(es[0], es[1..], x, y);
      assert [es[0]] + es[1..] == es;
      p := x + y;
    }
  }

  lemma {:induction false} SomePathOne(e: Emit) returns (p: seq<Mark>)
    ensures PathOne(e, p)
    decreases e, 1
  {
    match e
    case ThreadRun(_) => p := [Loop];
    case Point(_) => p := [Meet];
    case BlockIf(_, thn, _) => p := SomePath(thn);
    case BlockFor(_, _, _, _, body) =>
      p := [];
      assert Passes(0, body, p);
  }

  /** What `n` threads show along a path. */
  function Stretch(m: Mark, n: nat): (tr: seq<Event>)
    ensures m.Loop? ==> |tr| == n && forall t :: 0 <= t < n ==> tr[t] == Turn(t)
  {
    if m.Loop? then seq(n, t requires 0 <= t < n => Turn(t)) else [Meeting]
  }

  function Spell(p: seq<Mark>, n: nat): seq<Event> {
    if p == [] then [] else Stretch(p[0], n) + Spell(p[1..], n)
  }

  lemma {:induction false} SpellConcat(p: seq<Mark>, q: seq<Mark>, n: nat)
    ensures Spell(p + q, n) == Spell(p, n) + Spell(q, n)
  {
    if p == [] {
      assert p + q == q;
    } else {
      assert (p + q)[1..] == p[1..] + q;
      SpellConcat(p[1..], q, n);
    }
  }

  // ---- every run follows a path

  /** The turns of the threads from `t` on. */
  function Turns(t: nat, n: nat): (tr: seq<Event>)
    requires t <= n
    ensures |tr| == n - t && forall i :: 0 <= i < n - t ==> tr[i] == Turn(t + i)
  {
    seq(n - t, i requires 0 <= i < n - t => Turn(t + i))
  }

  lemma {:induction false} LoopTurns(b: nat, run: seq<Stmt>, t: nat, ls: seq<Locals>, mem: Memory, fuel: nat, n: nat)
    requires t <= |ls| == n
    ensures LoopTrace(b, run, t, ls, mem, fuel) <= Turns(t, n)
    ensures var r := RunLoop(b, run, t, ls, mem, fuel);
            r.Ran? ==> LoopTrace(b, run, t, ls, mem, fuel) == Turns(t, n) && |r.locals| == n
    decreases |ls| - t
  {
    if t < n {
      assert Turns(t, n) == [Turn(t)] + Turns(t + 1, n);
      var o := RunThread(Tid(b, t), Doing(run), ls[t], mem, fuel);
      if o.Moved? {
        var ls' := ls[t := o.thread.locals];
        LoopTurns(b, run, t + 1, ls', o.mem, fuel, n);
        assert LoopTrace(b, run, t, ls, mem, fuel) == [Turn(t)] + LoopTrace(b, run, t + 1, ls', o.mem, fuel);
        assert RunLoop(b, run, t, ls, mem, fuel) == RunLoop(b, run, t + 1, ls', o.mem, fuel);
      } else {
        assert LoopTrace(b, run, t, ls, mem, fuel) == [Turn(t)];
      }
    }
  }

  /** A trace and the path it follows: all of it if the run comes to its end. */
  ghost predicate Follows(tr: seq<Event>, p: seq<Mark>, n: nat, r: Ending) {
    && tr <= Spell(p, n)
    && (r.Ran? ==> tr == Spell(p, n) && |r.locals| == n)
  }

  lemma FollowsThen(x: seq<Event>, p: seq<Mark>, r: Ending, y: seq<Event>, q: seq<Mark>, last: Ending, n: nat)
    requires Follows(x, p, n, r) && (if r.Ran? then Follows(y, q, n, last) else y == [] && !last.Ran?)
    ensures Follows(x + y, p + q, n, last)
  {
    SpellConcat(p, q, n);
  }

  lemma {:induction false} TraceFollows(b: nat, es: seq<Emit>, ls: seq<Locals>, mem: Memory, fuel: nat)
    returns (p: seq<Mark>)
    requires ls != []
    ensures Path(es, p) && Follows(Trace(b, es, ls, mem, fuel), p, |ls|, Exec(b, es, ls, mem, fuel))
    decreases fuel, es, 0
  {
    if es == [] {
      p := [];
    } else {
      var x := TraceOneFollows(b, es[0], ls, mem, fuel);
      var r := ExecOne(b, es[0], ls, mem, fuel);
      var y: seq<Mark>;
      if r.Ran? {
        y := TraceFollows(b, es[1..], r.locals, r.mem, fuel);
      } else {
        y := SomePath(es[1..]);
      }
      var rest := if r.Ran? then Trace(b, es[1..], r.locals, r.mem, fuel) else [];
      FollowsThen(TraceOne(b, es[0], ls, mem, fuel), x, r, rest, y, Exec(b, es, ls, mem, fuel), |ls|);
      PathJoin(es[0], es[1..], x, y);
      assert [es[0]] + es[1..] == es;
      p := x + y;
    }
  }

  lemma {:induction false} TraceOneFollows(b: nat, e: Emit, ls: seq<Locals>, mem: Memory, fuel: nat)
    returns (p: seq<Mark>)
    requires ls != []
    ensures PathOne(e, p) && Follows(TraceOne(b, e, ls, mem, fuel), p, |ls|, ExecOne(b, e, ls, mem, fuel))
    decreases fuel, e, 1
  {
    p := SomePathOne(e);
    match e
    case ThreadRun(run) =>
      LoopTurns(b, run, 0, ls, mem, fuel, |ls|);
      assert Stretch(Loop, |ls|) == Turns(0, |ls|);
      assert p[1..] == [] && Stretch(Loop, |ls|) + [] == Stretch(Loop, |ls|);
    case Point(effect) =>
      assert p[1..] == [] && Stretch(Meet, |ls|) + [] == [Meeting];
    case BlockIf(cond, thn, els) =>
      if UniformTruth(b, cond, ls) {
        if cond(Tid(b, 0), ls[0]) != 0 {
          p := TraceFollows(b, thn, ls, mem, fuel);
        } else {
          p := TraceFollows(b, els, ls, mem, fuel);
        }
      }
    case BlockFor(local, start, end, step, body) =>
      if Uniform(b, start, ls) && Uniform(b, end, ls) && Uniform(b, step, ls) {
        var (s, e, st) := (start(Tid(b, 0), ls[0]), end(Tid(b, 0), ls[0]), step(Tid(b, 0), ls[0]));
        if st != 0 {
          var n, q := PassesFollow(b, local, s, e, st, body, ls, mem, fuel);
          p := q;
        }
      }
  }

  lemma {:induction false} PassesFollow(b: nat, local: nat, next: int, end: int, step: int, body: seq<Emit>,
      ls: seq<Locals>, mem: Memory, fuel: nat) returns (n: nat, p: seq<Mark>)
    requires ls != []
    ensures Passes(n, body, p)
    ensures Follows(TracePasses(b, local, next, end, step, body, ls, mem, fuel), p, |ls|,
              ExecPasses(b, local, next, end, step, body, ls, mem, fuel))
    decreases fuel, body, 1
  {
    n, p := 0, [];
    if InRange(next, end, step) && fuel > 0 {
      var bound := SetAll(ls, local, next);
      var x := TraceFollows(b, body, bound, mem, fuel - 1);
      var r := Exec(b, body, bound, mem, fuel - 1);
      var y: seq<Mark> := [];
      if r.Ran? {
        n, y := PassesFollow(b, local, next + step, end, step, body, r.locals, r.mem, fuel - 1);
      }
      var rest := if r.Ran? then TracePasses(b, local, next + step, end, step, body, r.locals, r.mem, fuel - 1) else [];
      FollowsThen(Trace(b, body, bound, mem, fuel - 1), x, r, rest, y,
        ExecPasses(b, local, next, end, step, body, ls, mem, fuel), |ls|);
      PassesJoin(n, body, x, y);
      n, p := n + 1, x + y;
    }
  }

  // ---- paths in order

  /** No loop follows a loop directly, counting one that is still open when the path begins. */
  ghost predicate Alternates(open: bool, p: seq<Mark>) {
    && !(open && p != [] && p[0].Loop?)
    && forall i :: 0 <= i < |p| - 1 ==> !(p[i].Loop? && p[i + 1].Loop?)
  }

  /** Whether a loop is open when the path ends. */
  predicate EndsOpen(open: bool, p: seq<Mark>) {
    if p == [] then open else p[|p| - 1].Loop?
  }

  lemma AlternatesConcat(open: bool, p: seq<Mark>, q: seq<Mark>)
    ensures Alternates(open, p + q) <==> Alternates(open, p) && Alternates(EndsOpen(open, p), q)
    ensures EndsOpen(open, p + q) == EndsOpen(EndsOpen(open, p), q)
  {
    var all := p + q;
    if p == [] {
      assert all == q;
    } else if q == [] {
      assert all == p;
    } else {
      if Alternates(open, all) {
        forall i | 0 <= i < |p| - 1 ensures !(p[i].Loop? && p[i + 1].Loop?) {
          assert all[i] == p[i] && all[i + 1] == p[i + 1];
        }
        forall i | 0 <= i < |q| - 1 ensures !(q[i].Loop? && q[i + 1].Loop?) {
          assert all[|p| + i] == q[i] && all[|p| + i + 1] == q[i + 1];
        }
        assert all[|p| - 1] == p[|p| - 1] && all[|p| - 1 + 1] == q[0];
      }
    }
  }

  lemma {:induction false} SpellInOrder(p: seq<Mark>, n: nat)
    ensures ToNextBarrier(Spell(p, n)) <==> n <= 1 || Alternates(false, p)
    ensures n > 0 && p != [] ==> Spell(p, n) != [] && Spell(p, n)[0] == if p[0].Loop? then Turn(0) else Meeting
  {
    if p != [] {
      var x, y := Stretch(p[0], n), Spell(p[1..], n);
      SpellInOrder(p[1..], n);
      StretchThen(p[0], n, y);
      AlternatesConcat(false, [p[0]], p[1..]);
      assert [p[0]] + p[1..] == p;
      if n <= 1 {
        OneThread(p, n);
      } else {
        if p[0].Loop? && p[1..] != [] && p[1].Loop? {
          assert (x + y)[n - 1] == Turn(n - 1) && (x + y)[n - 1 + 1] == Turn(0);
        }
        if Alternates(false, p[1..]) && p[0].Meet? {
          assert Alternates(EndsOpen(false, [p[0]]), p[1..]);
        }
      }
    }
  }

  /** A stretch in front: in order by itself, and it meets what follows at its last turn. */
  lemma StretchThen(m: Mark, n: nat, y: seq<Event>)
    ensures ToNextBarrier(Stretch(m, n) + y) <==>
              ToNextBarrier(y) && (m.Loop? && n > 0 && y != [] && y[0].Turn? ==> n - 1 <= y[0].thread)
  {
    var x := Stretch(m, n);
    var all := x + y;
    if ToNextBarrier(all) {
      forall i | 0 <= i < |y| - 1 && y[i].Turn? && y[i + 1].Turn? ensures y[i].thread <= y[i + 1].thread {
        assert all[|x| + i] == y[i] && all[|x| + i + 1] == y[i + 1];
      }
      if m.Loop? && n > 0 && y != [] && y[0].Turn? {
        assert all[n - 1] == Turn(n - 1) && all[n - 1 + 1] == y[0];
      }
    }
  }

  lemma {:induction false} OneThread(p: seq<Mark>, n: nat)
    requires n <= 1
    ensures forall e :: e in Spell(p, n) && e.Turn? ==> e.thread == 0
  {
    if p != [] {
      OneThread(p[1..], n);
    }
  }

  // ---- what can be seen from the emitted code

  /** Whether some way through ends with a loop open. */
  predicate Open(es: seq<Emit>, open: bool)
    decreases es, 0
  {
    if es == [] then open else Open(es[1..], OpenOne(es[0], open))
  }

  predicate OpenOne(e: Emit, open: bool)
    decreases e, 1
  {
    match e
    case ThreadRun(_) => true
    case Point(_) => false
    case BlockIf(_, thn, els) => Open(thn, open) || Open(els, open)
    case BlockFor(_, _, _, _, body) => open || Open(body, false)
  }

  /** No way through emits a loop while one is open. */
  predicate Orderly(es: seq<Emit>, open: bool)
    decreases es, 0
  {
    es == [] || (OrderlyOne(es[0], open) && Orderly(es[1..], OpenOne(es[0], open)))
  }

  predicate OrderlyOne(e: Emit, open: bool)
    decreases e, 1
  {
    match e
    case ThreadRun(_) => !open
    case Point(_) => true
    case BlockIf(_, thn, els) => Orderly(thn, open) && Orderly(els, open)
    case BlockFor(_, _, _, _, body) => Orderly(body, open || Open(body, false))
  }

  /** Every path starting with `open` at most is in order, and leaves at most `Open` open. */
  lemma {:induction false} OrderlyPaths(es: seq<Emit>, open: bool, start: bool, p: seq<Mark>)
    requires Path(es, p) && (start ==> open)
    ensures EndsOpen(start, p) ==> Open(es, open)
    ensures Orderly(es, open) ==> Alternates(start, p)
    decreases es, 0
  {
    if es != [] {
      var k :| 0 <= k <= |p| && PathOne(es[0], p[..k]) && Path(es[1..], p[k..]);
      OrderlyPathsOne(es[0], open, start, p[..k]);
      OrderlyPaths(es[1..], OpenOne(es[0], open), EndsOpen(start, p[..k]), p[k..]);
      AlternatesConcat(start, p[..k], p[k..]);
      assert p[..k] + p[k..] == p;
    }
  }

  lemma {:induction false} OrderlyPathsOne(e: Emit, open: bool, start: bool, p: seq<Mark>)
    requires PathOne(e, p) && (start ==> open)
    ensures EndsOpen(start, p) ==> OpenOne(e, open)
    ensures OrderlyOne(e, open) ==> Alternates(start, p)
    decreases e, 2
  {
    match e
    case ThreadRun(_) =>
    case Point(_) =>
    case BlockIf(_, thn, els) =>
      if Path(thn, p) {
        OrderlyPaths(thn, open, start, p);
      } else {
        OrderlyPaths(els, open, start, p);
      }
    case BlockFor(_, _, _, _, body) =>
      var n: nat :| Passes(n, body, p);
      OrderlyPasses(n, body, open || Open(body, false), start, p);
  }

  lemma {:induction false} OrderlyPasses(n: nat, body: seq<Emit>, open: bool, start: bool, p: seq<Mark>)
    requires Passes(n, body, p) && (start ==> open) && (Open(body, false) ==> open)
    ensures EndsOpen(start, p) ==> open
    ensures Orderly(body, open) ==> Alternates(start, p)
    decreases body, 1, n
  {
    if n > 0 {
      var k :| 0 <= k <= |p| && Path(body, p[..k]) && Passes(n - 1, body, p[k..]);
      OrderlyPaths(body, open, start, p[..k]);
      OrderlyPaths(body, false, false, p[..k]);
      OrderlyPasses(n - 1, body, open, EndsOpen(start, p[..k]), p[k..]);
      AlternatesConcat(start, p[..k], p[k..]);
      assert p[..k] + p[k..] == p;
    }
  }

  /** Where a loop may be left open, some path leaves it open. */
  lemma {:induction false} OpenPath(es: seq<Emit>, open: bool) returns (p: seq<Mark>)
    requires Open(es, open)
    ensures Path(es, p) && EndsOpen(open, p)
    decreases es, 0
  {
    if es == [] {
      p := [];
    } else {
      var x: seq<Mark>;
      if OpenOne(es[0], open) {
        x := OpenPathOne(es[0], open);
      } else {
        x := SomePathOne(es[0]);
        OrderlyPathsOne(es[0], open, open, x);
      }
      var y := OpenPath(es[1..], OpenOne(es[0], open));
      PathJoin(es[0], es[1..], x, y);
      AlternatesConcat(open, x, y);
      assert [es[0]] + es[1..] == es;
      p := x + y;
    }
  }

  lemma {:induction false} OpenPathOne(e: Emit, open: bool) returns (p: seq<Mark>)
    requires OpenOne(e, open)
    ensures PathOne(e, p) && EndsOpen(open, p)
    decreases e, 1
  {
    match e
    case ThreadRun(_) => p := [Loop];
    case BlockIf(_, thn, els) =>
      if Open(thn, open) {
        p := OpenPath(thn, open);
      } else {
        p := OpenPath(els, open);
      }
    case BlockFor(_, _, _, _, body) =>
      p := [];
      assert Passes(0, body, []);
      if !open {
        p := OpenPath(body, false);
        PassesJoin(0, body, p, []);
        assert p + [] == p;
      }
  }

  /** Where the code is not in order, some path is not. */
  lemma {:induction false} DisorderlyPath(es: seq<Emit>, open: bool) returns (p: seq<Mark>)
    requires !Orderly(es, open)
    ensures Path(es, p) && !Alternates(open, p)
    decreases es, 0
  {
    var x, y: seq<Mark>;
    if !OrderlyOne(es[0], open) {
      x := DisorderlyPathOne(es[0], open);
      y := SomePath(es[1..]);
    } else {
      if OpenOne(es[0], open) {
        x := OpenPathOne(es[0], open);
      } else {
        x := SomePathOne(es[0]);
        OrderlyPathsOne(es[0], open, open, x);
      }
      y := DisorderlyPath(es[1..], OpenOne(es[0], open));
    }
    PathJoin(es[0], es[1..], x, y);
    AlternatesConcat(open, x, y);
    assert [es[0]] + es[1..] == es;
    p := x + y;
  }

  lemma {:induction false} DisorderlyPathOne(e: Emit, open: bool) returns (p: seq<Mark>)
    requires !OrderlyOne(e, open)
    ensures PathOne(e, p) && !Alternates(open, p)
    decreases e, 1
  {
    match e
    case ThreadRun(_) => p := [Loop];
    case BlockIf(_, thn, els) =>
      if !Orderly(thn, open) {
        p := DisorderlyPath(thn, open);
      } else {
        p := DisorderlyPath(els, open);
      }
    case BlockFor(_, _, _, _, body) =>
      var x := DisorderlyPath(body, open || Open(body, false));
      assert Passes(0, body, []);
      PassesJoin(0, body, x, []);
      assert x + [] == x;
      p := x;
      if !open && Open(body, false) {
        var first := OpenPath(body, false);
        PassesJoin(1, body, first, x);
        AlternatesConcat(false, first, x);
        p := first + x;
      }
  }

  // ---- and from the kernel's own statements

  /** Whether some way through `ss` ends with a loop open; `pending` says statements wait for one. */
  predicate OpenAfter(ss: seq<Stmt>, pending: bool, open: bool)
    decreases ss, 0
  {
    if ss == [] then pending || open
    else if !HoldsBarrier(ss[0]) then OpenAfter(ss[1..], true, open)
    else OpenAfter(ss[1..], false, OpenAfterOne(ss[0], pending || open))
  }

  predicate OpenAfterOne(s: Stmt, open: bool)
    decreases s, 1
  {
    match s
    case If(_, thn, els) => OpenAfter(thn, false, open) || OpenAfter(els, false, open)
    case For(_, _, _, _, body) => open || OpenAfter(body, false, false)
    case _ => false
  }

  /** No barrier-free statements are reached, on any way through, with a loop open before them. */
  predicate Kept(ss: seq<Stmt>, pending: bool, open: bool)
    decreases ss, 0
  {
    if ss == [] then !(pending && open)
    else if !HoldsBarrier(ss[0]) then Kept(ss[1..], true, open)
    else
      !(pending && open) && KeptOne(ss[0], pending || open) &&
      Kept(ss[1..], false, OpenAfterOne(ss[0], pending || open))
  }

  predicate KeptOne(s: Stmt, open: bool)
    decreases s, 1
  {
    match s
    case If(_, thn, els) => Kept(thn, false, open) && Kept(els, false, open)
    case For(_, _, _, _, body) => Kept(body, false, open || OpenAfter(body, false, false))
    case _ => true
  }

  lemma {:induction false} OrderlyConcat(xs: seq<Emit>, ys: seq<Emit>, open: bool)
    ensures Open(xs + ys, open) == Open(ys, Open(xs, open))
    ensures Orderly(xs + ys, open) == (Orderly(xs, open) && Orderly(ys, Open(xs, open)))
  {
    if xs == [] {
      assert xs + ys == ys;
    } else {
      assert (xs + ys)[1..] == xs[1..] + ys;
      OrderlyConcat(xs[1..], ys, OpenOne(xs[0], open));
    }
  }

  lemma FlushOrderly(run: seq<Stmt>, open: bool)
    requires Flush(run).Some?
    ensures Open(Flush(run).value, open) == (run != [] || open)
    ensures Orderly(Flush(run).value, open) == !(run != [] && open)
  {
    assert [ThreadRun(run)][1..] == [];
  }

  lemma {:induction false} KeptIsOrderly(ss: seq<Stmt>, run: seq<Stmt>, open: bool)
    requires Phases(ss, run).Some?
    ensures Open(Phases(ss, run).value, open) == OpenAfter(ss, run != [], open)
    ensures Orderly(Phases(ss, run).value, open) == Kept(ss, run != [], open)
    decreases ss, 1
  {
    if ss == [] {
      FlushOrderly(run, open);
    } else if !HoldsBarrier(ss[0]) {
      KeptIsOrderly(ss[1..], run + [ss[0]], open);
    } else {
      var x, y, z := Flush(run).value, Split(ss[0]).value, Phases(ss[1..], []).value;
      FlushOrderly(run, open);
      KeptIsOrderlyOne(ss[0], run != [] || open);
      KeptIsOrderly(ss[1..], [], OpenAfterOne(ss[0], run != [] || open));
      OrderlyConcat(x, y, open);
      OrderlyConcat(x + y, z, open);
    }
  }

  lemma {:induction false} KeptIsOrderlyOne(s: Stmt, open: bool)
    requires HoldsBarrier(s) && Split(s).Some?
    ensures Open(Split(s).value, open) == OpenAfterOne(s, open)
    ensures Orderly(Split(s).value, open) == KeptOne(s, open)
    decreases s, 0
  {
    assert Split(s).value[1..] == [];
    match s
    case Sync(_) =>
    case If(_, thn, els) =>
      KeptIsOrderly(thn, [], open);
      KeptIsOrderly(els, [], open);
    case For(_, _, _, _, body) =>
      KeptIsOrderly(body, [], false);
      KeptIsOrderly(body, [], open || OpenAfter(body, false, false));
  }

  // ---- the order

  /** If no barrier-free statements of the body follow others without a rendezvous between them, every
      run of the emitted code takes each thread to the next barrier before the next thread starts. */
  lemma OrderKept(b: nat, ss: seq<Stmt>, ls: seq<Locals>, mem: Memory, fuel: nat)
    requires ls != [] && Phases(ss, []).Some? && (|ls| == 1 || Kept(ss, false, false))
    ensures ToNextBarrier(Trace(b, Phases(ss, []).value, ls, mem, fuel))
  {
    var es := Phases(ss, []).value;
    var p := TraceFollows(b, es, ls, mem, fuel);
    KeptIsOrderly(ss, [], false);
    OrderlyPaths(es, false, false, p);
    SpellInOrder(p, |ls|);
  }

  /** And only then: with two threads or more, all ways through the emitted code are in that order if
      and only if the body is so. */
  lemma OrderIffKept(ss: seq<Stmt>, threads: nat)
    requires Phases(ss, []).Some? && threads > 1
    ensures Kept(ss, false, false) <==>
              forall p :: Path(Phases(ss, []).value, p) ==> ToNextBarrier(Spell(p, threads))
  {
    var es := Phases(ss, []).value;
    KeptIsOrderly(ss, [], false);
    if Kept(ss, false, false) {
      forall p | Path(es, p) ensures ToNextBarrier(Spell(p, threads)) {
        OrderlyPaths(es, false, false, p);
        SpellInOrder(p, threads);
      }
    } else {
      var p := DisorderlyPath(es, false);
      SpellInOrder(p, threads);
    }
  }

  // ---- a body whose order is another

  function Always(v: int): Expr { (_, _) => v }

  function Stay(): (nat, seq<Locals>) -> seq<Locals> { (_, ls) => ls }

  function Set(v: int): Stmt { Assign(0, Always(v)) }

  /** A statement, then a block-level `If` that starts with another. */
  function SetTwice(): seq<Stmt> { [Set(0), If(Always(1), [Set(1), Sync(Stay())], [])] }

  lemma PhasesLast(s: Stmt, run: seq<Stmt>, es: seq<Emit>)
    requires HoldsBarrier(s) && Flush(run).Some? && Split(s).Some? && es == Flush(run).value + Split(s).value
    ensures Phases([s], run) == Some(es)
  {
    assert [s][1..] == [] && es + [] == es;
    assert Phases([s][1..], []) == Some([]);
  }

  lemma SetTwiceEmitted()
    ensures Phases(SetTwice(), [])
         == Some([ThreadRun([Set(0)]), BlockIf(Always(1), [ThreadRun([Set(1)]), Point(Stay())], [])])
    ensures !Kept(SetTwice(), false, false)
  {
    var inner, body := [Set(1), Sync(Stay())], SetTwice();
    assert inner[1..] == [Sync(Stay())] && inner[1..][1..] == [] && [] + [Set(1)] == [Set(1)];
    assert !Escapes([Set(1)]) && !Escapes([Set(0)]) by { assert [Set(1)][1..] == [] && [Set(0)][1..] == []; }
    assert Split(Sync(Stay())) == Some([Point(Stay())]);
    assert [ThreadRun([Set(1)])] + [Point(Stay())] == [ThreadRun([Set(1)]), Point(Stay())];
    var thn := [ThreadRun([Set(1)]), Point(Stay())];
    PhasesLast(Sync(Stay()), [Set(1)], thn);
    assert Phases(inner, []) == Some(thn);
    assert body[1..] == [If(Always(1), inner, [])] && body[1..][1..] == [] && [] + [Set(0)] == [Set(0)];
    assert HoldsBarrier(inner[1]);
    assert AnyBarrier(inner[1..]);
    assert AnyBarrier(inner);
    var i := body[1];
    assert HoldsBarrier(i);
    assert Split(i) == Some([BlockIf(Always(1), thn, [])]);
    PhasesLast(i, [Set(0)], [ThreadRun([Set(0)]), BlockIf(Always(1), thn, [])]);
    assert !Kept(inner[1..], true, true);
    assert !Kept(inner, false, true);
    assert !Kept(body[1..], true, false);
  }

  lemma SetRuns(b: nat, t: nat, v: int, l: Locals, mem: Memory)
    ensures RunThread(Tid(b, t), Doing([Set(v)]), l, mem, 1) == Moved(Thread([], l[0 := v]), mem)
  {
    var todo := Doing([Set(v)]);
    assert todo[0] == Do(Set(v)) && todo[1..] == [] && [] + todo[1..] == [];
  }

  lemma SetTurns(b: nat, v: int, ls: seq<Locals>, mem: Memory)
    requires |ls| == 2
    ensures LoopTrace(b, [Set(v)], 0, ls, mem, 1) == [Turn(0), Turn(1)]
    ensures RunLoop(b, [Set(v)], 0, ls, mem, 1) == Ran(SetAll(ls, 0, v), mem)
  {
    SetRuns(b, 0, v, ls[0], mem);
    SetRuns(b, 1, v, ls[1], mem);
    var one := ls[0 := ls[0][0 := v]];
    var two := one[1 := ls[1][0 := v]];
    assert LoopTrace(b, [Set(v)], 2, two, mem, 1) == [] && RunLoop(b, [Set(v)], 2, two, mem, 1) == Ran(two, mem);
    assert LoopTrace(b, [Set(v)], 1, one, mem, 1) == [Turn(1)];
    assert two == SetAll(ls, 0, v);
  }

  lemma InnerTrace(thn: seq<Emit>, l0: seq<Locals>, l1: seq<Locals>, mem: Memory)
    requires |l0| == 2 && l1 == SetAll(l0, 0, 1) && thn == [ThreadRun([Set(1)]), Point(Stay())]
    ensures Trace(0, thn, l0, mem, 1) == [Turn(0), Turn(1), Meeting] && Exec(0, thn, l0, mem, 1) == Ran(l1, mem)
  {
    SetTurns(0, 1, l0, mem);
    assert thn[1..] == [Point(Stay())] && thn[1..][1..] == [];
    assert Trace(0, thn[1..][1..], l1, mem, 1) == [] && Exec(0, thn[1..][1..], l1, mem, 1) == Ran(l1, mem);
    assert Trace(0, thn[1..], l1, mem, 1) == [Meeting] && Exec(0, thn[1..], l1, mem, 1) == Ran(l1, mem);
    assert Trace(0, thn, l0, mem, 1) == [Turn(0), Turn(1)] + [Meeting];
  }

  lemma OuterTrace(thn: seq<Emit>, l0: seq<Locals>, l1: seq<Locals>, mem: Memory)
    requires |l0| == 2 && |l1| == 2
    requires Trace(0, thn, l0, mem, 1) == [Turn(0), Turn(1), Meeting] && Exec(0, thn, l0, mem, 1) == Ran(l1, mem)
    ensures Trace(0, [BlockIf(Always(1), thn, [])], l0, mem, 1) == [Turn(0), Turn(1), Meeting]
  {
    var e := BlockIf(Always(1), thn, []);
    assert [e][1..] == [] && UniformTruth(0, Always(1), l0);
    assert TraceOne(0, e, l0, mem, 1) == Trace(0, thn, l0, mem, 1) && ExecOne(0, e, l0, mem, 1) == Ran(l1, mem);
    assert Trace(0, [e][1..], l1, mem, 1) == [];
  }

  lemma TraceHead(b: nat, es: seq<Emit>, ls: seq<Locals>, l1: seq<Locals>, mem: Memory, fuel: nat, x: seq<Event>,
      y: seq<Event>)
    requires ls != [] && |l1| == |ls| && es != []
    requires TraceOne(b, es[0], ls, mem, fuel) == x && ExecOne(b, es[0], ls, mem, fuel) == Ran(l1, mem)
    requires Trace(b, es[1..], l1, mem, fuel) == y
    ensures Trace(b, es, ls, mem, fuel) == x + y
  {
  }

  /** Thread 1 runs the first statement before thread 0 runs the second, and nobody has met. */
  lemma NotToNextBarrier(ls: seq<Locals>, mem: Memory)
    requires |ls| == 2
    ensures Phases(SetTwice(), []).Some?
    ensures Trace(0, Phases(SetTwice(), []).value, ls, mem, 1) == [Turn(0), Turn(1), Turn(0), Turn(1), Meeting]
    ensures !ToNextBarrier([Turn(0), Turn(1), Turn(0), Turn(1), Meeting])
  {
    SetTwiceEmitted();
    var thn := [ThreadRun([Set(1)]), Point(Stay())];
    var es := [ThreadRun([Set(0)]), BlockIf(Always(1), thn, [])];
    var l0 := SetAll(ls, 0, 0);
    SetTurns(0, 0, ls, mem);
    InnerTrace(thn, l0, SetAll(l0, 0, 1), mem);
    OuterTrace(thn, l0, SetAll(l0, 0, 1), mem);
    assert es[1..] == [BlockIf(Always(1), thn, [])];
    TraceHead(0, es, ls, l0, mem, 1, [Turn(0), Turn(1)], [Turn(0), Turn(1), Meeting]);
    var tr := [Turn(0), Turn(1), Turn(0), Turn(1), Meeting];
    assert tr[1] == Turn(1) && tr[1 + 1] == Turn(0);
  }
}
