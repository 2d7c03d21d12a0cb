/** A launched kernel as a whole: its body is cut at the top-level device barriers, each piece is one
    pass over the blocks, and what comes out is an interleaving the machine allows. */
module DevicePhases {
  import opened Wrappers
  import opened Runs
  import opened ThreadMachine
  import opened ThreadLoop
  import opened ThreadLoopRefines

  const MAX_THREADS := 1024
  const MAX_RESIDENT := 65536

  // ---- cutting the body

  /** `device_segments`: the runs of statements between top-level device barriers. */
  function Segments(body: seq<Stmt>): (r: seq<seq<Stmt>>)
    ensures r != []
  {
    if body == [] then [[]]
    else if body[0].DeviceBarrier? then [[]] + Segments(body[1..])
    else var r := Segments(body[1..]); [[body[0]] + r[0]] + r[1..]
  }

  predicate Uncut(ss: seq<Stmt>) { forall i :: 0 <= i < |ss| ==> !ss[i].DeviceBarrier? }

  /** The segments put back together. */
  function Glue(segs: seq<seq<Stmt>>): seq<Stmt>
    requires segs != []
  {
    if |segs| == 1 then segs[0] else segs[0] + ([DeviceBarrier] + Glue(segs[1..]))
  }

  lemma {:induction false} SegmentsOf(seg: seq<Stmt>, rest: seq<Stmt>)
    requires Uncut(seg)
    ensures Segments(seg) == [seg]
    ensures Segments(seg + ([DeviceBarrier] + rest)) == [seg] + Segments(rest)
  {
    var all := seg + ([DeviceBarrier] + rest);
    if seg == [] {
      assert all[1..] == rest;
    } else {
      SegmentsOf(seg[1..], rest);
      assert all[1..] == seg[1..] + ([DeviceBarrier] + rest);
      assert [seg[0]] + seg[1..] == seg;
    }
  }

  /** Cutting loses and invents nothing: the segments hold no top-level device barrier, and glued
      back together they are the body. */
  lemma {:induction false} GlueSegments(body: seq<Stmt>)
    ensures Glue(Segments(body)) == body
    ensures forall i :: 0 <= i < |Segments(body)| ==> Uncut(Segments(body)[i])
  {
    if body != [] {
      GlueSegments(body[1..]);
      var r := Segments(body[1..]);
      if body[0].DeviceBarrier? {
        assert ([[]] + r)[1..] == r;
        assert Glue([[]] + r) == [DeviceBarrier] + body[1..];
      } else {
        var q := [[body[0]] + r[0]] + r[1..];
        assert q[1..] == r[1..];
        assert Glue(q) == [body[0]] + body[1..];
      }
    }
  }

  /** And the cut is the only such list of segments. */
  lemma {:induction false} SegmentsGlue(segs: seq<seq<Stmt>>)
    requires segs != [] && forall i :: 0 <= i < |segs| ==> Uncut(segs[i])
    ensures Segments(Glue(segs)) == segs
  {
    if |segs| == 1 {
      SegmentsOf(segs[0], []);
    } else {
      SegmentsGlue(segs[1..]);
      SegmentsOf(segs[0], Glue(segs[1..]));
      assert [segs[0]] + segs[1..] == segs;
    }
  }

  lemma CutAt(body: seq<Stmt>, start: nat, i: nat, out: seq<seq<Stmt>>)
    requires start <= i < |body| && body[i].DeviceBarrier?
    requires forall k :: start <= k < i ==> !body[k].DeviceBarrier?
    ensures out + Segments(body[start..]) == (out + [body[start..i]]) + Segments(body[i + 1..])
  {
    assert body[start..] == body[start..i] + ([DeviceBarrier] + body[i + 1..]);
    SegmentsOf(body[start..i], body[i + 1..]);
  }

  /** The loop that cuts, remembering where the open segment starts. */
  method DeviceSegments(body: seq<Stmt>) returns (out: seq<seq<Stmt>>)
    ensures out == Segments(body)
    ensures Glue(out) == body && forall i :: 0 <= i < |out| ==> Uncut(out[i])
  {
    GlueSegments(body);
    out := [];
    var start := 0;
    assert body[0..] == body;
    ghost var whole := Segments(body);
    for i := 0 to |body|
      invariant start <= i && forall k :: start <= k < i ==> !body[k].DeviceBarrier?
      invariant whole == out + Segments(body[start..])
    {
      if body[i].DeviceBarrier? {
        CutAt(body, start, i, out);
        out := out + [body[start..i]];
        start := i + 1;
      }
    }
    SegmentsOf(body[start..], []);
    out := out + [body[start..]];
  }

  // ---- admission and lowering

  /** `admit_launch`, for a grid of `blocks` blocks of `threads` threads. */
  predicate AdmitsLaunch(body: seq<Stmt>, blocks: nat, threads: nat) {
    && 0 < threads <= MAX_THREADS
    && (|Segments(body)| > 1 ==> blocks * threads <= MAX_RESIDENT)
    && forall i :: 0 <= i < |Segments(body)| ==> Admitted(Segments(body)[i], AnyBarrier(body))
  }

  function Lower(segs: seq<seq<Stmt>>): Option<seq<seq<Emit>>> {
    if segs == [] then Some([]) else
      var (first, rest) := (Phases(segs[0], []), Lower(segs[1..]));
      if first.Some? && rest.Some? then Some([first.value] + rest.value) else None
  }

  function Before(out: seq<seq<Emit>>, rest: Option<seq<seq<Emit>>>): Option<seq<seq<Emit>>> {
    if rest.Some? then Some(out + rest.value) else None
  }

  lemma LowerNext(segs: seq<seq<Stmt>>, i: nat, out: seq<seq<Emit>>)
    requires i < |segs|
    ensures var first := Phases(segs[i], []);
            Before(out, Lower(segs[i..])) ==
                if first.Some? then Before(out + [first.value], Lower(segs[i + 1..])) else None
  {
    assert segs[i..][0] == segs[i] && segs[i..][1..] == segs[i + 1..];
    var first, rest := Phases(segs[i], []), Lower(segs[i + 1..]);
    if first.Some? && rest.Some? {
      assert out + ([first.value] + rest.value) == (out + [first.value]) + rest.value;
    }
  }

  lemma {:induction false} LooseConcat(xs: seq<Stmt>, ys: seq<Stmt>)
    ensures Loose(xs + ys) <==> Loose(xs) || Loose(ys)
  {
    if xs == [] {
      assert xs + ys == ys;
    } else {
      assert (xs + ys)[1..] == xs[1..] + ys;
      LooseConcat(xs[1..], ys);
    }
  }

  lemma {:induction false} LowerUnlessLoose(segs: seq<seq<Stmt>>, barriers: bool)
    requires segs != [] && forall i :: 0 <= i < |segs| ==> Admitted(segs[i], barriers)
    ensures Lower(segs).Some? <==> !Loose(Glue(segs))
  {
    SpelledUnlessLoose(segs[0], [], barriers);
    if |segs| == 1 {
      assert Lower(segs[1..]).Some?;
    } else {
      LowerUnlessLoose(segs[1..], barriers);
      var tail := [DeviceBarrier] + Glue(segs[1..]);
      assert tail[1..] == Glue(segs[1..]);
      LooseConcat(segs[0], tail);
    }
  }

  /** `launched_body` and `device_body`: the emitted phases of the whole grid. An admitted kernel has
      them unless a jump leaves a thread loop. */
  method LowerKernel(body: seq<Stmt>) returns (r: Option<seq<seq<Emit>>>)
    ensures r == Lower(Segments(body))
    ensures forall blocks, threads :: AdmitsLaunch(body, blocks, threads) ==> (r.Some? <==> !Loose(body))
  {
    GlueSegments(body);
    forall blocks, threads | AdmitsLaunch(body, blocks, threads) ensures Lower(Segments(body)).Some? <==> !Loose(body) {
      LowerUnlessLoose(Segments(body), AnyBarrier(body));
    }
    var segs := DeviceSegments(body);
    var out: seq<seq<Emit>> := [];
    ghost var whole := Lower(segs);
    assert segs[0..] == segs && (whole.Some? ==> out + whole.value == whole.value);
    for i := 0 to |segs|
      invariant whole == Before(out, Lower(segs[i..]))
    {
      LowerNext(segs, i, out);
      var phase := EmitPhases(segs[i]);
      if phase.None? { return None; }
      out := out + [phase.value];
    }
    assert segs[|segs|..] == [] && out + [] == out;
    r := Some(out);
  }

  // ---- running it

  datatype GridResult = GridRan(locals: seq<seq<Locals>>, mem: Memory) | GridFailed(code: int) | GridDiverged
      | GridUnfinished

  ghost predicate Shaped(lss: seq<seq<Locals>>) { forall b :: 0 <= b < |lss| ==> lss[b] != [] }

  /** One phase: the blocks in ascending order, from block `b` on. */
  function ExecBlocks(es: seq<Emit>, b: nat, lss: seq<seq<Locals>>, mem: Memory, fuel: nat): GridResult
    requires forall i :: 0 <= i < |lss| ==> lss[i] != []
    decreases |lss| - b
  {
    if b >= |lss| then GridRan(lss, mem) else
      match Exec(b, es, lss[b], mem, fuel)
      case Ran(l, m) => if |l| == |lss[b]| then ExecBlocks(es, b + 1, lss[b := l], m, fuel) else GridUnfinished
      case Failed(code) => GridFailed(code)
      case Diverged => GridDiverged
      case Unfinished => GridUnfinished
  }

  lemma {:induction false} ExecBlocksShape(es: seq<Emit>, b: nat, lss: seq<seq<Locals>>, mem: Memory, fuel: nat)
    requires Shaped(lss)
    ensures var r := ExecBlocks(es, b, lss, mem, fuel);
            r.GridRan? ==> |r.locals| == |lss| && forall i :: 0 <= i < |lss| ==> |r.locals[i]| == |lss[i]|
    decreases |lss| - b
  {
    if b < |lss| {
      var r := Exec(b, es, lss[b], mem, fuel);
      if r.Ran? && |r.locals| == |lss[b]| {
        ExecBlocksShape(es, b + 1, lss[b := r.locals], r.mem, fuel);
      }
    }
  }

  /** The phases one after the other, locals and memory carried over. */
  function ExecGrid(phases: seq<seq<Emit>>, lss: seq<seq<Locals>>, mem: Memory, fuel: nat): GridResult
    requires forall i :: 0 <= i < |lss| ==> lss[i] != []
    decreases |phases|
  {
    if phases == [] then GridRan(lss, mem) else
      ExecBlocksShape(phases[0], 0, lss, mem, fuel);
      match ExecBlocks(phases[0], 0, lss, mem, fuel)
      case GridRan(l, m) => ExecGrid(phases[1..], l, m, fuel)
      case r => r
  }

  // ---- refinement

  /** Every thread of the grid at the same point. */
  function Grids(todo: seq<Frame>, lss: seq<seq<Locals>>): (r: seq<seq<Thread>>)
    ensures |r| == |lss| && forall b :: 0 <= b < |lss| ==> r[b] == Threads(todo, lss[b])
  {
    seq(|lss|, b requires 0 <= b < |lss| => Threads(todo, lss[b]))
  }

  /** The first `n` blocks at `done`, the others at `todo`. */
  function Partly(n: nat, done: seq<Frame>, todo: seq<Frame>, lss: seq<seq<Locals>>): (r: seq<seq<Thread>>)
    ensures |r| == |lss| && forall b :: 0 <= b < |lss| ==> r[b] == Threads(if b < n then done else todo, lss[b])
  {
    seq(|lss|, b requires 0 <= b < |lss| => Threads(if b < n then done else todo, lss[b]))
  }

  ghost predicate GridSimulates(c: Grid, r: GridResult, k: seq<Frame>) {
    match r
    case GridRan(lss, mem) => Reach(Step, c, Grid(Grids(k, lss), mem))
    case GridFailed(code) => CanFault(c, code)
    case _ => true
  }

  lemma GridSimulatesAfter(c: Grid, d: Grid, r: GridResult, k: seq<Frame>)
    requires Reach(Step, c, d) && GridSimulates(d, r, k)
    ensures GridSimulates(c, r, k)
  {
    match r
    case GridRan(lss, mem) => ReachTrans(Step, c, d, Grid(Grids(k, lss), mem));
    case GridFailed(code) => CanFaultLater(c, d, code);
    case _ =>
  }

  lemma {:induction false} BlocksSim(c: Grid, seg: seq<Stmt>, k: seq<Frame>, b: nat, lss: seq<seq<Locals>>, fuel: nat)
    requires Shaped(lss) && b <= |lss| && c.blocks == Partly(b, k, Doing(seg) + k, lss)
    requires Phases(seg, []).Some? && MaySplit(seg, [], k)
    ensures GridSimulates(c, ExecBlocks(Phases(seg, []).value, b, lss, c.mem, fuel), k)
    decreases |lss| - b
  {
    var es := Phases(seg, []).value;
    if b == |lss| {
      assert c.blocks == Grids(k, lss);
      ReachRefl(Step, c);
    } else {
      assert [] + seg == seg;
      PhasesSim(c, b, seg, [], k, lss[b], fuel);
      match Exec(b, es, lss[b], c.mem, fuel)
      case Ran(l, m) =>
        if |l| == |lss[b]| {
          var d := PutBlock(c, b, Threads(k, l), m);
          assert d.blocks == Partly(b + 1, k, Doing(seg) + k, lss[b := l]);
          BlocksSim(d, seg, k, b + 1, lss[b := l], fuel);
          GridSimulatesAfter(c, d, ExecBlocks(es, b + 1, lss[b := l], m, fuel), k);
        }
      case _ =>
    }
  }

  /** The whole grid passes a device barrier together. */
  lemma PassSim(c: Grid, k: seq<Frame>, lss: seq<seq<Locals>>)
    requires Shaped(lss) && c.blocks == Grids([Do(DeviceBarrier)] + k, lss)
    ensures Reach(Step, c, Grid(Grids(k, lss), c.mem))
  {
    var d := Grid(Grids(k, lss), c.mem);
    if lss == [] {
      assert c == d;
      ReachRefl(Step, c);
    } else {
      assert AllAtDevice(c);
      assert PassDevice(c).blocks == Grids(k, lss) by {
        forall b | 0 <= b < |lss| ensures PassDevice(c).blocks[b] == Grids(k, lss)[b] {
          assert ([Do(DeviceBarrier)] + k)[1..] == k;
        }
      }
      assert c.blocks[0] != [];
      ReachStep(Step, c, D);
    }
  }

  /** Segment after segment; `Return` only where there is nothing to wait for. */
  ghost predicate Cuttable(segs: seq<seq<Stmt>>) {
    segs != [] && forall i :: 0 <= i < |segs| ==> !HasReturn(segs[i]) || (|segs| == 1 && !AnyBarrier(segs[i]))
  }

  lemma {:induction false} GridSim(c: Grid, segs: seq<seq<Stmt>>, lss: seq<seq<Locals>>, fuel: nat)
    requires Shaped(lss) && Cuttable(segs) && Lower(segs).Some?
    requires c.blocks == Grids(Doing(Glue(segs)), lss)
    ensures GridSimulates(c, ExecGrid(Lower(segs).value, lss, c.mem, fuel), [])
    decreases |segs|
  {
    var phases := Lower(segs).value;
    var rest := segs[1..];
    var k := if rest == [] then [] else [Do(DeviceBarrier)] + Doing(Glue(rest));
    assert phases[1..] == Lower(rest).value;
    assert [] + segs[0] == segs[0];
    assert c.blocks == Partly(0, k, Doing(segs[0]) + k, lss) by {
      assert Doing(Glue(segs)) == Doing(segs[0]) + k;
    }
    BlocksSim(c, segs[0], k, 0, lss, fuel);
    ExecBlocksShape(phases[0], 0, lss, c.mem, fuel);
    match ExecBlocks(phases[0], 0, lss, c.mem, fuel)
    case GridRan(l, m) =>
      if rest != [] {
        var d := Grid(Grids(k, l), m);
        PassSim(d, Doing(Glue(rest)), l);
        var e := Grid(Grids(Doing(Glue(rest)), l), m);
        ReachTrans(Step, c, d, e);
        GridSim(e, rest, l, fuel);
        GridSimulatesAfter(c, e, ExecGrid(phases[1..], l, m, fuel), []);
      }
    case _ =>
  }

  lemma {:induction false} AdmittedNoReturn(ss: seq<Stmt>)
    requires Admitted(ss, true)
    ensures !HasReturn(ss)
    decreases ss, 0
  {
    if ss != [] {
      AdmittedOneNoReturn(ss[0]);
      AdmittedNoReturn(ss[1..]);
    }
  }

  lemma {:induction false} AdmittedOneNoReturn(s: Stmt)
    requires AdmittedOne(s, true)
    ensures !Returns(s)
    decreases s, 1
  {
    match s
    case If(_, thn, els) =>
      AdmittedNoReturn(thn);
      AdmittedNoReturn(els);
    case For(_, _, _, _, body) => AdmittedNoReturn(body);
    case While(_, body) => AdmittedNoReturn(body);
    case _ =>
  }

  lemma {:induction false} NoBarrierOneSegment(body: seq<Stmt>)
    requires !AnyBarrier(body)
    ensures Segments(body) == [body]
  {
    if body != [] {
      NoBarrierOneSegment(body[1..]);
      assert [body[0]] + body[1..] == body;
    }
  }

  lemma AdmittedCuttable(body: seq<Stmt>, blocks: nat, threads: nat)
    requires AdmitsLaunch(body, blocks, threads)
    ensures Cuttable(Segments(body))
  {
    if AnyBarrier(body) {
      forall i | 0 <= i < |Segments(body)| ensures !HasReturn(Segments(body)[i]) {
        AdmittedNoReturn(Segments(body)[i]);
      }
    } else {
      NoBarrierOneSegment(body);
    }
  }

  /** A launched grid: every thread at the start of the body. */
  function Launched(body: seq<Stmt>, lss: seq<seq<Locals>>, mem: Memory): Grid {
    Grid(Grids(Doing(body), lss), mem)
  }

  ghost predicate Launchable(body: seq<Stmt>, threads: nat, lss: seq<seq<Locals>>) {
    && AdmitsLaunch(body, |lss|, threads) && Lower(Segments(body)).Some?
    && forall b :: 0 <= b < |lss| ==> |lss[b]| == threads
  }

  /** The emitted program is an interleaving of the kernel: where it ends, some schedule of the
      machine ends with the same locals and memory; where it returns an error status, some schedule
      meets that error. */
  lemma EmittedIsInterleaving(body: seq<Stmt>, threads: nat, lss: seq<seq<Locals>>, mem: Memory, fuel: nat)
    requires Launchable(body, threads, lss)
    ensures GridSimulates(Launched(body, lss, mem), ExecGrid(Lower(Segments(body)).value, lss, mem, fuel), [])
  {
    AdmittedCuttable(body, |lss|, threads);
    GlueSegments(body);
    GridSim(Launched(body, lss, mem), Segments(body), lss, fuel);
  }

  /** And for a kernel without races it is the only outcome: every schedule can be carried on to
      where the emitted program ends, and one that cannot go on is there. */
  lemma EmittedIsTheOutcome(body: seq<Stmt>, threads: nat, lss: seq<seq<Locals>>, mem: Memory, fuel: nat, e: Grid)
    requires Launchable(body, threads, lss) && RaceFree(Launched(body, lss, mem))
    requires ExecGrid(Lower(Segments(body)).value, lss, mem, fuel).GridRan?
    requires Reach(Step, Launched(body, lss, mem), e)
    ensures var r := ExecGrid(Lower(Segments(body)).value, lss, mem, fuel);
            Reach(Step, e, Grid(Grids([], r.locals), r.mem)) &&
                (NoStep(Step, e) ==> e == Grid(Grids([], r.locals), r.mem))
  {
    var c := Launched(body, lss, mem);
    EmittedIsInterleaving(body, threads, lss, mem, fuel);
    var r := ExecGrid(Lower(Segments(body)).value, lss, mem, fuel);
    var d := Grid(Grids([], r.locals), r.mem);
    var n: nat :| ReachIn(Step, c, d, n);
    var m: nat :| ReachIn(Step, c, e, m);
    SchedulesAgree(c, d, n, e, m);
  }

  // ---- why freedom from races is asked for

  const ONE_CELL: Memory := map[0 := 0]

  function Writer(): Stmt { Store((_, _) => 0, (who: Tid, _) => who.thread) }

  /** Two threads write their own index to one element. The emitted program leaves the second
      thread's; a schedule that runs the second thread first leaves the first one's. */
  lemma RacingSchedulesDiffer()
    ensures var body, lss := [Writer()], [[map[], map[]]];
            Launchable(body, 2, lss) &&
            ExecGrid(Lower(Segments(body)).value, lss, ONE_CELL, 1) == GridRan(lss, map[0 := 1]) &&
            Reach(Step, Launched(body, lss, ONE_CELL), Grid(Grids([], lss), map[0 := 0]))
  {
    var w := Writer();
    var ls: seq<Locals> := [map[], map[]];
    var lss := [ls];
    WriterEmitted(ls);
    var c := Launched([w], lss, ONE_CELL);
    assert Doing([w])[1..] == [];
    var d := PutThread(c, 0, 1, Thread([], map[]), map[0 := 1]);
    assert ONE_CELL[0 := 1] == map[0 := 1] && map[0 := 1][0 := 0] == map[0 := 0];
    assert StepThread(Tid(0, 1), c.blocks[0][1], c.mem) == Moved(Thread([], map[]), map[0 := 1]);
    assert Step(c, T(0, 1)) == Some(d);
    ReachStep(Step, c, T(0, 1));
    assert d.blocks[0][0] == Thread(Doing([w]), map[]);
    var e := PutThread(d, 0, 0, Thread([], map[]), map[0 := 0]);
    assert Step(d, T(0, 0)) == Some(e);
    ReachStep(Step, d, T(0, 0));
    assert e.blocks[0] == Threads([], ls);
    assert e.blocks == Grids([], lss);
    ReachTrans(Step, c, d, e);
  }

  lemma WriterLowered()
    ensures Segments([Writer()]) == [[Writer()]] && AdmitsLaunch([Writer()], 1, 2)
    ensures Lower([[Writer()]]) == Some([[ThreadRun([Writer()])]])
  {
    var w := Writer();
    NoBarrierOneSegment([w]);
    assert [w][1..] == [] && [] + [w] == [w] && |[w]| == 1;
    assert !HoldsBarrier(w) && !EscapesOne(w) && !Escapes([w]);
    assert Phases([], [w]) == Flush([w]);
    assert Phases([w], []) == Some([ThreadRun([w])]);
    assert [[w]][1..] == [] && |[[w]]| == 1;
    assert [[ThreadRun([w])]] + [] == [[ThreadRun([w])]];
  }

  lemma WriterRuns(t: nat, m: Memory)
    requires 0 in m
    ensures RunThread(Tid(0, t), Doing([Writer()]), map[], m, 1) == Moved(Thread([], map[]), m[0 := t])
  {
    assert Doing([Writer()])[1..] == [];
  }

  lemma WriterEmitted(ls: seq<Locals>)
    requires ls == [map[], map[]]
    ensures var body, lss := [Writer()], [ls];
            Launchable(body, 2, lss) && ExecGrid(Lower(Segments(body)).value, lss, ONE_CELL, 1) ==
                GridRan(lss, map[0 := 1])
  {
    WriterLowered();
    var run := [Writer()];
    var phase := [ThreadRun(run)];
    assert Exec(0, phase, ls, ONE_CELL, 1) == Ran(ls, map[0 := 1]) by {
      WriterLoop(ls);
      OneEmit(0, ThreadRun(run), ls, ONE_CELL, 1);
    }
    assert [ls][0 := ls] == [ls];
    assert ExecBlocks(phase, 1, [ls], map[0 := 1], 1) == GridRan([ls], map[0 := 1]);
    assert [phase][1..] == [];
  }

  lemma WriterLoop(ls: seq<Locals>)
    requires ls == [map[], map[]]
    ensures RunLoop(0, [Writer()], 0, ls, ONE_CELL, 1) == Ran(ls, map[0 := 1])
  {
    var run := [Writer()];
    WriterRuns(0, ONE_CELL);
    WriterRuns(1, ONE_CELL[0 := 0]);
    assert ls[0 := map[]] == ls && ls[1 := map[]] == ls;
    assert ONE_CELL[0 := 0][0 := 1] == map[0 := 1];
    assert RunLoop(0, run, 2, ls, map[0 := 1], 1) == Ran(ls, map[0 := 1]);
    assert RunLoop(0, run, 1, ls, ONE_CELL[0 := 0], 1) == Ran(ls, map[0 := 1]);
  }
}
