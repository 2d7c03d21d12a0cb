/** Any number of threads interning targets at once: the read scan, the gap between the two locks
    and the rechecked write, taken one table entry at a time in any interleaving. */
module Interning {
  import opened Wrappers
  import opened Runs
  import opened Targets

  /** Where a thread is in `TargetId::parse`. A scan holds the read lock, a recheck the write lock. */
  datatype Phase =
    | Idle
    | WantRead(token: string)
    | Scanning(token: string, at: nat)
    | WantWrite(token: string)
    | Rechecking(token: string, at: nat)
    | Answered(token: string, result: Result<nat, TargetError>)

  datatype State = State(table: seq<string>, threads: seq<Phase>)

  datatype Label = Call(thread: nat, token: string) | Go(thread: nat)

  ghost predicate NoWriter(s: State) { forall i :: 0 <= i < |s.threads| ==> !s.threads[i].Rechecking? }

  ghost predicate NoReader(s: State) { forall i :: 0 <= i < |s.threads| ==> !s.threads[i].Scanning? }

  function Put(s: State, t: nat, p: Phase): State
    requires t < |s.threads|
  {
    s.(threads := s.threads[t := p])
  }

  /** A thread calls `parse` again whenever it has its last answer, and each other step is one lock
      acquisition or one table entry compared. */
  ghost function Next(s: State, lab: Label): Option<State> {
    if lab.thread >= |s.threads| then None else
      var t := lab.thread;
      var p := s.threads[t];
      match lab
      case Call(_, token) =>
        if !p.Idle? && !p.Answered? then None
        else if Verdict(token).Some? then Some(Put(s, t, Answered(token, Err(Verdict(token).value))))
        else Some(Put(s, t, WantRead(token)))
      case Go(_) =>
        match p
        case WantRead(token) => if NoWriter(s) then Some(Put(s, t, Scanning(token, 0))) else None
        case Scanning(token, at) =>
          Some(Put(s, t,
            if at >= |s.table| then WantWrite(token)
            else if s.table[at] == token then Answered(token, Ok(at))
            else Scanning(token, at + 1)))
        case WantWrite(token) => if NoWriter(s) && NoReader(s) then Some(Put(s, t, Rechecking(token, 0))) else None
        case Rechecking(token, at) =>
          if at < |s.table| then
            Some(Put(s, t, if s.table[at] == token then Answered(token, Ok(at)) else Rechecking(token, at + 1)))
          else if |s.table| > U16_MAX then Some(Put(s, t, Answered(token, Err(TableFull))))
          else Some(Put(s, t, Answered(token, Ok(|s.table|))).(table := s.table + [token]))
        case _ => None
  }

  function Init(threads: nat): State { State([], seq(threads, _ => Idle)) }

  // ---- what every interleaving keeps

  ghost predicate GoodPhase(table: seq<string>, p: Phase) {
    match p
    case Idle => true
    case WantRead(token) => WellFormed(token)
    case Scanning(token, at) => WellFormed(token) && at <= |table| && token !in table[..at]
    case WantWrite(token) => WellFormed(token)
    case Rechecking(token, at) => WellFormed(token) && at <= |table| && token !in table[..at]
    case Answered(token, Ok(id)) => id < |table| && table[id] == token
    case Answered(token, Err(e)) =>
      Verdict(token) == Some(e) || (e == TableFull && WellFormed(token) && token !in table && |table| == U16_MAX + 1)
  }

  ghost predicate Inv(s: State) {
    && GoodTable(s.table)
    && (forall i :: 0 <= i < |s.threads| ==> GoodPhase(s.table, s.threads[i]))
    && forall i, j :: 0 <= i < |s.threads| && 0 <= j < |s.threads| && i != j && s.threads[i].Rechecking? ==>
         !s.threads[j].Rechecking? && !s.threads[j].Scanning?
  }

  ghost predicate Grows(s: State, s': State) { s.table <= s'.table && |s.threads| == |s'.threads| }

  /** Another thread's standing survives an append it does not hold a lock against. */
  lemma PhaseSurvives(table: seq<string>, token: string, p: Phase)
    requires GoodPhase(table, p) && !p.Scanning? && !p.Rechecking? && |table| <= U16_MAX
    ensures GoodPhase(table + [token], p)
  {
  }

  lemma AppendKeeps(s: State, t: nat)
    requires Inv(s) && t < |s.threads| && s.threads[t].Rechecking? && s.threads[t].at == |s.table| <= U16_MAX
    ensures Next(s, Go(t)).Some? && Inv(Next(s, Go(t)).value)
  {
    var token := s.threads[t].token;
    var s' := Next(s, Go(t)).value;
    assert s.table[..|s.table|] == s.table;
    forall i | 0 <= i < |s.threads| ensures GoodPhase(s'.table, s'.threads[i]) {
      if i != t {
        PhaseSurvives(s.table, token, s.threads[i]);
      }
    }
  }

  lemma NextKeeps(s: State, lab: Label)
    requires Inv(s) && Next(s, lab).Some?
    ensures Inv(Next(s, lab).value) && Grows(s, Next(s, lab).value)
  {
    var p := s.threads[lab.thread];
    if lab.Call? {
      VerdictIsGrammar(lab.token);
    } else if p.Rechecking? && p.at == |s.table| && |s.table| <= U16_MAX {
      AppendKeeps(s, lab.thread);
    } else {
      MoveKeeps(s, lab.thread);
    }
  }

  /** A step that leaves the table alone. */
  lemma MoveKeeps(s: State, t: nat)
    requires Inv(s) && t < |s.threads| && Next(s, Go(t)).Some? && Next(s, Go(t)).value.table == s.table
    ensures Inv(Next(s, Go(t)).value) && Grows(s, Next(s, Go(t)).value)
  {
    var p := s.threads[t];
    var s' := Next(s, Go(t)).value;
    if p.Rechecking? || p.Scanning? {
      if p.at < |s.table| {
        assert s.table[..p.at + 1] == s.table[..p.at] + [s.table[p.at]];
      } else {
        assert s.table[..p.at] == s.table;
      }
    }
    assert GoodPhase(s'.table, s'.threads[t]);
  }

  /** In every state any interleaving reaches, the table holds each well-formed token at most once
      and at most 65536 of them, and later states only append to it. */
  lemma EveryRun(s: State, s': State)
    requires Inv(s) && Reach(Next, s, s')
    ensures Inv(s') && Grows(s, s')
  {
    forall x: State, lab: Label | Inv(x) && Next(x, lab).Some?
      ensures Inv(Next(x, lab).value) && Grows(x, Next(x, lab).value)
    {
      NextKeeps(x, lab);
    }
    var n: nat :| ReachIn(Next, s, s', n);
    RunKeeps(Next, s => Inv(s), (s, s') => Grows(s, s'), s, s', n);
  }

  lemma Started(threads: nat)
    ensures Inv(Init(threads))
  {
  }

  /** An id handed out names its token forever, ids fit 16 bits, and two answers, whichever threads
      got them and whenever, are equal exactly when their tokens are. */
  lemma IdsAreTokens(threads: nat, s: State, s': State, a: nat, b: nat)
    requires Reach(Next, Init(threads), s) && Reach(Next, s, s')
    requires a < |s.threads| && s.threads[a].Answered? && s.threads[a].result.Ok?
    requires b < |s'.threads| && s'.threads[b].Answered? && s'.threads[b].result.Ok?
    ensures var (id, id') := (s.threads[a].result.value, s'.threads[b].result.value);
            id < |s'.table| && s'.table[id] == s.threads[a].token && id <= U16_MAX &&
            (id == id' <==> s.threads[a].token == s'.threads[b].token)
  {
    Started(threads);
    EveryRun(Init(threads), s);
    EveryRun(s, s');
    assert GoodPhase(s.table, s.threads[a]) && GoodPhase(s'.table, s'.threads[b]);
  }

  /** No interleaving deadlocks: while some thread is inside `parse`, some thread can go on. */
  lemma Progress(s: State, t: nat)
    requires Inv(s) && t < |s.threads| && !s.threads[t].Idle? && !s.threads[t].Answered?
    ensures exists u: nat :: Next(s, Go(u)).Some?
  {
    if u: nat :| u < |s.threads| && (s.threads[u].Scanning? || s.threads[u].Rechecking?) {
      assert Next(s, Go(u)).Some?;
    } else {
      assert NoWriter(s) && NoReader(s);
      assert Next(s, Go(t)).Some?;
    }
  }

  /** A refusal for lack of room is final: it comes at 65536 entries, one more than the 65535 the
      error's own text names, and only for a token that has none. */
  lemma FullIsFull(threads: nat, s: State, a: nat)
    requires Reach(Next, Init(threads), s)
    requires a < |s.threads| && s.threads[a].Answered? && s.threads[a].result == Err(TableFull)
    ensures |s.table| == 65536 && s.threads[a].token !in s.table && WellFormed(s.threads[a].token)
  {
    Started(threads);
    EveryRun(Init(threads), s);
    assert GoodPhase(s.table, s.threads[a]);
    VerdictIsGrammar(s.threads[a].token);
  }

  /** A scan waits for a writer only: any number of threads may scan at once. */
  lemma ReadersShare(s: State, t: nat, token: string)
    requires t < |s.threads| && s.threads[t] == WantRead(token)
    ensures Next(s, Go(t)).Some? <==> forall i :: 0 <= i < |s.threads| ==> !s.threads[i].Rechecking?
    ensures Next(s, Go(t)).Some? ==> Next(s, Go(t)).value == State(s.table, s.threads[t := Scanning(token, 0)])
  {
  }
}
