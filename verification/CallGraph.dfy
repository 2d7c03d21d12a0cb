/** The functions of a module and who calls whom; the order a module is emitted in. */
module CallGraph {
  import opened Wrappers
  import opened Distinctness

  datatype Stmt =
    | Call(callee: nat)
    | ExternCall(decl: nat)
    | If(thn: seq<Stmt>, els: seq<Stmt>)
    | For(body: seq<Stmt>)
    | While(body: seq<Stmt>)
    | Other

  /** Function bodies, and for each extern the function that stands for it, if one does. */
  datatype Module = Module(fns: seq<seq<Stmt>>, externs: seq<Option<nat>>)

  function ReferenceOf(externs: seq<Option<nat>>, decl: nat): seq<nat> {
    if decl < |externs| && externs[decl].Some? then [externs[decl].value] else []
  }

  /** `collect_calls`: calls and extern references, at any nesting, in order. */
  function Collected(b: seq<Stmt>, externs: seq<Option<nat>>): seq<nat>
    decreases b, 0
  {
    if b == [] then [] else CollectedOne(b[0], externs) + Collected(b[1..], externs)
  }

  function CollectedOne(s: Stmt, externs: seq<Option<nat>>): seq<nat>
    decreases s, 1
  {
    match s
    case Call(callee) => [callee]
    case ExternCall(decl) => ReferenceOf(externs, decl)
    case If(thn, els) => Collected(thn, externs) + Collected(els, externs)
    case For(body) => Collected(body, externs)
    case While(body) => Collected(body, externs)
    case Other => []
  }

  /** `b` contains a call of `f`, directly or as an extern's reference. */
  ghost predicate Mentions(b: seq<Stmt>, externs: seq<Option<nat>>, f: nat)
    decreases b, 0
  {
    exists i :: 0 <= i < |b| && MentionsOne(b[i], externs, f)
  }

  ghost predicate MentionsOne(s: Stmt, externs: seq<Option<nat>>, f: nat)
    decreases s, 1
  {
    match s
    case Call(callee) => callee == f
    case ExternCall(decl) => decl < |externs| && externs[decl] == Some(f)
    case If(thn, els) => Mentions(thn, externs, f) || Mentions(els, externs, f)
    case For(body) => Mentions(body, externs, f)
    case While(body) => Mentions(body, externs, f)
    case Other => false
  }

  lemma {:induction false} CollectedMentions(b: seq<Stmt>, externs: seq<Option<nat>>, f: nat)
    ensures f in Collected(b, externs) <==> Mentions(b, externs, f)
    decreases b, 0
  {
    if b != [] {
      CollectedMentions(b[1..], externs, f);
      CollectedMentionsOne(b[0], externs, f);
      if Mentions(b, externs, f) && !MentionsOne(b[0], externs, f) {
        var i :| 0 <= i < |b| && MentionsOne(b[i], externs, f);
        assert b[1..][i - 1] == b[i];
      }
      if Mentions(b[1..], externs, f) {
        var i :| 0 <= i < |b[1..]| && MentionsOne(b[1..][i], externs, f);
        assert b[i + 1] == b[1..][i];
      }
    }
  }

  lemma {:induction false} CollectedMentionsOne(s: Stmt, externs: seq<Option<nat>>, f: nat)
    ensures f in CollectedOne(s, externs) <==> MentionsOne(s, externs, f)
    decreases s, 1
  {
    match s
    case If(thn, els) =>
      CollectedMentions(thn, externs, f);
      CollectedMentions(els, externs, f);
    case For(body) => CollectedMentions(body, externs, f);
    case While(body) => CollectedMentions(body, externs, f);
    case _ =>
  }

  method CollectCalls(b: seq<Stmt>, externs: seq<Option<nat>>, out: seq<nat>) returns (all: seq<nat>)
    ensures all == out + Collected(b, externs)
    ensures forall f :: f in all <==> f in out || Mentions(b, externs, f)
    decreases b, 0
  {
    forall f ensures f in Collected(b, externs) <==> Mentions(b, externs, f) {
      CollectedMentions(b, externs, f);
    }
    all := out;
    assert b[0..] == b;
    for i := 0 to |b|
      invariant all + Collected(b[i..], externs) == out + Collected(b, externs)
    {
      assert b[i..][0] == b[i] && b[i..][1..] == b[i + 1..];
      Regroup(all, CollectedOne(b[i], externs), Collected(b[i + 1..], externs));
      all := CollectStmt(b[i], externs, all);
    }
    assert b[|b|..] == [];
  }

  lemma Regroup(x: seq<nat>, y: seq<nat>, z: seq<nat>)
    ensures x + (y + z) == (x + y) + z
  {
  }

  method CollectStmt(s: Stmt, externs: seq<Option<nat>>, out: seq<nat>) returns (all: seq<nat>)
    ensures all == out + CollectedOne(s, externs)
    decreases s, 1
  {
    all := out;
    match s
    case Call(callee) => all := all + [callee];
    case ExternCall(decl) =>
      if decl < |externs| && externs[decl].Some? { all := all + [externs[decl].value]; }
    case If(thn, els) =>
      all := CollectCalls(thn, externs, all);
      all := CollectCalls(els, externs, all);
      Regroup(out, Collected(thn, externs), Collected(els, externs));
    case For(body) => all := CollectCalls(body, externs, all);
    case While(body) => all := CollectCalls(body, externs, all);
    case Other =>
  }

  // ---- the graph

  ghost predicate WellFormed(m: Module) {
    forall f, c :: 0 <= f < |m.fns| && c in Calls(m, f) ==> c < |m.fns|
  }

  function Calls(m: Module, f: nat): seq<nat> {
    if f < |m.fns| then Collected(m.fns[f], m.externs) else []
  }

  ghost predicate IsPath(m: Module, p: seq<nat>) {
    p != [] && forall i :: 0 <= i < |p| - 1 ==> p[i + 1] in Calls(m, p[i])
  }

  /** A chain of calls, possibly none, leads from `a` to `b`. */
  ghost predicate Reaches(m: Module, a: nat, b: nat) {
    exists p :: IsPath(m, p) && p[0] == a && p[|p| - 1] == b
  }

  lemma ReachesSelf(m: Module, a: nat)
    ensures Reaches(m, a, a)
  {
    assert IsPath(m, [a]) && [a][0] == a;
  }

  lemma ReachesNext(m: Module, a: nat, b: nat, c: nat)
    requires Reaches(m, a, b) && c in Calls(m, b)
    ensures Reaches(m, a, c)
  {
    var p :| IsPath(m, p) && p[0] == a && p[|p| - 1] == b;
    var q := p + [c];
    assert IsPath(m, q) && q[0] == a && q[|q| - 1] == c;
  }

  lemma ReachesFirst(m: Module, a: nat, b: nat, c: nat)
    requires b in Calls(m, a) && Reaches(m, b, c)
    ensures Reaches(m, a, c)
  {
    var p :| IsPath(m, p) && p[0] == b && p[|p| - 1] == c;
    var q := [a] + p;
    assert IsPath(m, q) && q[0] == a && q[|q| - 1] == c;
  }

  // ---- depth first

  ghost function Marked(seen: array<bool>): (s: set<nat>)
    reads seen
    ensures forall v :: v in s <==> 0 <= v < seen.Length && seen[v]
  {
    set v: nat | v < seen.Length && seen[v]
  }

  /** The functions left to visit. */
  ghost function Left(seen: array<bool>): (s: set<nat>)
    reads seen
    ensures forall v :: v in s <==> 0 <= v < seen.Length && !seen[v]
  {
    set v: nat | v < seen.Length && !seen[v]
  }

  /** Every call of a listed function goes to one listed before it, or closes a cycle. */
  ghost predicate Ordered(m: Module, out: seq<nat>) {
    forall i :: 0 <= i < |out| ==> forall c :: c in Calls(m, out[i]) ==> c in out[..i] || Reaches(m, c, out[i])
  }

  /** What a visit of `f` finds: everything emitted is marked, and whatever is marked but not
      emitted yet is an ancestor, which reaches `f`. */
  ghost predicate Ready(m: Module, f: nat, seen: set<nat>, out: seq<nat>) {
    && Distinct(out) && Ordered(m, out)
    && (forall v :: v in out ==> v in seen)
    && (forall v :: v in seen && v !in out ==> Reaches(m, v, f))
  }

  /** What it leaves: the list grows by the functions newly marked, all of them reached from `f`
      and all their callees marked. */
  ghost predicate Visited(m: Module, f: nat, seen: set<nat>, out: seq<nat>, seen': set<nat>, out': seq<nat>) {
    && Distinct(out') && Ordered(m, out') && out <= out' && seen <= seen'
    && (forall v :: v in out' <==> v in out || (v in seen' && v !in seen))
    && (forall v :: v in seen' && v !in seen ==> Reaches(m, f, v) && forall c :: c in Calls(m, v) ==> c in seen')
  }

  method Go(f: nat, m: Module, seen: array<bool>, out: seq<nat>) returns (out': seq<nat>)
    requires WellFormed(m) && seen.Length == |m.fns| && f < |m.fns|
    requires Ready(m, f, Marked(seen), out)
    modifies seen
    ensures Visited(m, f, old(Marked(seen)), out, Marked(seen), out') && f in Marked(seen)
    ensures f !in old(Marked(seen)) ==> out' != [] && out'[|out'| - 1] == f
    ensures Left(seen) <= old(Left(seen))
    decreases Left(seen)
  {
    out' := out;
    ReachesSelf(m, f);
    if seen[f] { return; }
    ghost var before := Marked(seen);
    ghost var left := Left(seen);
    seen[f] := true;
    ghost var entered := Marked(seen);
    assert entered == before + {f};
    assert f in left && f !in Left(seen);
    var calls := CollectCalls(m.fns[f], m.externs, []);
    assert calls == Calls(m, f);
    for i := 0 to |calls|
      invariant Visiting(m, f, entered, out, Marked(seen), out')
      invariant forall j :: 0 <= j < i ==> calls[j] in Marked(seen)
      invariant Left(seen) <= left - {f}
    {
      ghost var now := Marked(seen);
      ChildReady(m, f, calls[i], before, out, now, out');
      ghost var listed := out';
      out' := Go(calls[i], m, seen, out');
      ChildDone(m, f, calls[i], before, out, now, listed, Marked(seen), out');
    }
    Emitted(m, f, before, out, Marked(seen), out');
    out' := out' + [f];
  }

  /** Between the calls of `f`: as after a visit, but `f` itself is not listed yet. */
  ghost predicate Visiting(m: Module, f: nat, entered: set<nat>, out: seq<nat>, now: set<nat>, out': seq<nat>) {
    Visited(m, f, entered, out, now, out')
  }

  lemma ChildReady(m: Module, f: nat, c: nat, before: set<nat>, out: seq<nat>, now: set<nat>, out': seq<nat>)
    requires Ready(m, f, before, out) && f !in before && c in Calls(m, f)
    requires Visited(m, f, before + {f}, out, now, out')
    ensures Ready(m, c, now, out')
  {
    ReachesSelf(m, f);
    forall v | v in now && v !in out' ensures Reaches(m, v, c) {
      ReachesNext(m, v, f, c);
    }
  }

  lemma ChildDone(m: Module, f: nat, c: nat, before: set<nat>, out: seq<nat>, now: set<nat>, listed: seq<nat>,
      seen': set<nat>, out': seq<nat>)
    requires f !in before && c in Calls(m, f)
    requires Visited(m, f, before + {f}, out, now, listed) && Visited(m, c, now, listed, seen', out')
    ensures Visited(m, f, before + {f}, out, seen', out')
  {
    forall v | v in seen' && v !in before + {f}
      ensures Reaches(m, f, v) && forall d :: d in Calls(m, v) ==> d in seen'
    {
      if v !in now { ReachesFirst(m, f, c, v); }
    }
  }

  lemma Emitted(m: Module, f: nat, before: set<nat>, out: seq<nat>, seen': set<nat>, out': seq<nat>)
    requires Ready(m, f, before, out) && f !in before
    requires Visited(m, f, before + {f}, out, seen', out') && forall c :: c in Calls(m, f) ==> c in seen'
    ensures Visited(m, f, before, out, seen', out' + [f])
  {
    ReachesSelf(m, f);
    var all := out' + [f];
    forall c | c in Calls(m, f) ensures c in out' || Reaches(m, c, f) {
    }
    assert all[..|out'|] == out';
    forall i | 0 <= i < |all| ensures forall c :: c in Calls(m, all[i]) ==> c in all[..i] || Reaches(m, c, all[i]) {
      if i < |out'| { assert all[..i] == out'[..i]; }
    }
  }

  /** `postorder`: exactly the functions the entry reaches, each once, the entry last, and every
      callee before its callers wherever the call is not on a cycle. */
  method Postorder(m: Module, entry: nat) returns (out: seq<nat>)
    requires WellFormed(m) && entry < |m.fns|
    ensures forall v :: v in out <==> Reaches(m, entry, v)
    ensures Distinct(out) && out != [] && out[|out| - 1] == entry
    ensures Ordered(m, out)
  {
    var seen := new bool[|m.fns|](_ => false);
    assert Marked(seen) == {};
    out := Go(entry, m, seen, []);
    forall v | Reaches(m, entry, v) ensures v in Marked(seen) {
      var p :| IsPath(m, p) && p[0] == entry && p[|p| - 1] == v;
      ClosedPath(m, Marked(seen), p);
    }
  }

  lemma {:induction false} ClosedPath(m: Module, s: set<nat>, p: seq<nat>)
    requires IsPath(m, p) && p[0] in s && forall v :: v in s ==> forall c :: c in Calls(m, v) ==> c in s
    ensures p[|p| - 1] in s
    decreases |p|
  {
    if |p| > 1 {
      assert p[1] in Calls(m, p[0]);
      assert IsPath(m, p[1..]) by {
        forall i | 0 <= i < |p[1..]| - 1 ensures p[1..][i + 1] in Calls(m, p[1..][i]) {
          assert p[1..][i + 1] == p[i + 2] && p[1..][i] == p[i + 1];
        }
      }
      ClosedPath(m, s, p[1..]);
    }
  }

  // ---- callees first, exactly when nothing reachable is on a cycle

  ghost predicate CalleesFirst(m: Module, out: seq<nat>) {
    forall i :: 0 <= i < |out| ==> forall c :: c in Calls(m, out[i]) ==> c in out[..i]
  }

  ghost predicate Acyclic(m: Module, entry: nat) {
    forall v, c :: Reaches(m, entry, v) && c in Calls(m, v) ==> !Reaches(m, c, v)
  }

  lemma {:induction false} PathGoesDown(m: Module, out: seq<nat>, p: seq<nat>, i: nat)
    requires Distinct(out) && CalleesFirst(m, out) && IsPath(m, p) && i < |out| && out[i] == p[0]
    ensures |p| > 1 ==> p[|p| - 1] in out[..i]
    decreases |p|
  {
    if |p| > 1 {
      assert p[1] in Calls(m, p[0]);
      var j :| 0 <= j < i && out[j] == p[1];
      assert IsPath(m, p[1..]) by {
        forall k | 0 <= k < |p[1..]| - 1 ensures p[1..][k + 1] in Calls(m, p[1..][k]) {
          assert p[1..][k + 1] == p[k + 2] && p[1..][k] == p[k + 1];
        }
      }
      PathGoesDown(m, out, p[1..], j);
      if |p| > 2 {
        assert out[..j] <= out[..i];
      }
    }
  }

  /** An order as `Postorder` gives defines every function before its callers iff the calls the
      entry reaches have no cycle. */
  lemma CalleesFirstIffAcyclic(m: Module, entry: nat, out: seq<nat>)
    requires forall v :: v in out <==> Reaches(m, entry, v)
    requires Distinct(out) && Ordered(m, out)
    ensures CalleesFirst(m, out) <==> Acyclic(m, entry)
  {
    if CalleesFirst(m, out) {
      forall v, c | Reaches(m, entry, v) && c in Calls(m, v) ensures !Reaches(m, c, v) {
        var i :| 0 <= i < |out| && out[i] == v;
        if Reaches(m, c, v) {
          var p :| IsPath(m, p) && p[0] == c && p[|p| - 1] == v;
          var q := [v] + p;
          assert IsPath(m, q);
          PathGoesDown(m, out, q, i);
        }
      }
    }
    if Acyclic(m, entry) {
      forall i, c | 0 <= i < |out| && c in Calls(m, out[i]) ensures c in out[..i] {
        assert out[i] in out;
      }
    }
  }

  // ---- what the module check says about cycles

  /** The module with its extern references forgotten: `check_module` looks for cycles in this one. */
  function Plain(m: Module): Module { Module(m.fns, []) }

  predicate HoldsExtern(b: seq<Stmt>)
    decreases b, 0
  {
    b != [] && (HoldsExternOne(b[0]) || HoldsExtern(b[1..]))
  }

  predicate HoldsExternOne(s: Stmt)
    decreases s, 1
  {
    match s
    case ExternCall(_) => true
    case If(thn, els) => HoldsExtern(thn) || HoldsExtern(els)
    case For(body) => HoldsExtern(body)
    case While(body) => HoldsExtern(body)
    case _ => false
  }

  ghost predicate IsReference(m: Module, r: nat) { r < |m.fns| && Some(r) in m.externs }

  /** `check_module`, as far as it bears on cycles: calls and references name functions, plain calls
      have no cycle, and no reference itself calls an extern. */
  ghost predicate Checked(m: Module) {
    && WellFormed(m)
    && (forall f: nat, c: nat :: c in Calls(Plain(m), f) ==> !Reaches(Plain(m), c, f))
    && forall r: nat :: IsReference(m, r) ==> !HoldsExtern(m.fns[r])
  }

  lemma {:induction false} CollectedSplit(b: seq<Stmt>, externs: seq<Option<nat>>, c: nat)
    requires c in Collected(b, externs) && c !in Collected(b, [])
    ensures HoldsExtern(b) && Some(c) in externs
    decreases b, 0
  {
    if c in CollectedOne(b[0], externs) && c !in CollectedOne(b[0], []) {
      CollectedSplitOne(b[0], externs, c);
    } else {
      CollectedSplit(b[1..], externs, c);
    }
  }

  lemma {:induction false} CollectedSplitOne(s: Stmt, externs: seq<Option<nat>>, c: nat)
    requires c in CollectedOne(s, externs) && c !in CollectedOne(s, [])
    ensures HoldsExternOne(s) && Some(c) in externs
    decreases s, 1
  {
    match s
    case If(thn, els) =>
      if c in Collected(thn, externs) { CollectedSplit(thn, externs, c); } else { CollectedSplit(els, externs, c); }
    case For(body) => CollectedSplit(body, externs, c);
    case While(body) => CollectedSplit(body, externs, c);
    case _ =>
  }

  /** A call is a plain one or goes to a reference, from a function that calls an extern. */
  lemma CallKinds(m: Module, f: nat, c: nat)
    requires c in Calls(m, f) && c !in Calls(Plain(m), f)
    ensures f < |m.fns| && HoldsExtern(m.fns[f]) && Some(c) in m.externs
  {
    CollectedSplit(m.fns[f], m.externs, c);
  }

  /** No function that plain calls reach from a reference calls an extern. */
  ghost predicate ReferencesClosed(m: Module) {
    forall r: nat, g: nat :: IsReference(m, r) && Reaches(Plain(m), r, g) && g < |m.fns| ==> !HoldsExtern(m.fns[g])
  }

  lemma {:induction false} PlainFromReference(m: Module, r: nat, p: seq<nat>)
    requires WellFormed(m) && ReferencesClosed(m) && IsReference(m, r)
    requires IsPath(m, p) && Reaches(Plain(m), r, p[0]) && p[0] < |m.fns|
    ensures Reaches(Plain(m), r, p[|p| - 1]) && p[|p| - 1] < |m.fns|
    decreases |p|
  {
    if |p| > 1 {
      assert p[1] in Calls(m, p[0]);
      if p[1] !in Calls(Plain(m), p[0]) { CallKinds(m, p[0], p[1]); }
      ReachesNext(Plain(m), r, p[0], p[1]);
      PathTail(m, p);
      PlainFromReference(m, r, p[1..]);
    }
  }

  lemma PathTail(m: Module, p: seq<nat>)
    requires IsPath(m, p) && |p| > 1
    ensures IsPath(m, p[1..])
  {
    forall k | 0 <= k < |p[1..]| - 1 ensures p[1..][k + 1] in Calls(m, p[1..][k]) {
      assert p[1..][k + 1] == p[k + 2] && p[1..][k] == p[k + 1];
    }
  }

  /** A path either stays plain or passes through a reference. */
  lemma {:induction false} PathKinds(m: Module, p: seq<nat>)
    requires WellFormed(m) && IsPath(m, p) && p[0] < |m.fns|
    ensures p[|p| - 1] < |m.fns|
    ensures Reaches(Plain(m), p[0], p[|p| - 1]) || exists g: nat, r: nat :: ViaExtern(m, p, g, r)
    decreases |p|
  {
    if |p| == 1 {
      ReachesSelf(Plain(m), p[0]);
    } else {
      assert p[1] in Calls(m, p[0]);
      PathTail(m, p);
      PathKinds(m, p[1..]);
      if p[1] !in Calls(Plain(m), p[0]) {
        CallKinds(m, p[0], p[1]);
        ReachesSelf(m, p[0]);
        assert Reaches(m, p[1], p[|p| - 1]) by { assert p[1..][0] == p[1]; }
        assert ViaExtern(m, p, p[0], p[1]);
      } else if Reaches(Plain(m), p[1], p[|p| - 1]) {
        ReachesFirst(Plain(m), p[0], p[1], p[|p| - 1]);
      } else {
        var g, r: nat :| ViaExtern(m, p[1..], g, r);
        ReachesFirst(m, p[0], p[1], g);
        assert ViaExtern(m, p, g, r);
      }
    }
  }

  ghost predicate ViaExtern(m: Module, p: seq<nat>, g: nat, r: nat)
    requires p != []
  {
    && g < |m.fns| && HoldsExtern(m.fns[g]) && IsReference(m, r) && r in Calls(m, g)
    && Reaches(m, p[0], g) && Reaches(m, r, p[|p| - 1])
  }

  /** The references' part of the graph is plain: a function that calls an extern cannot be reached
      from the reference that stands for it. */
  lemma BehindReference(m: Module, g: nat, r: nat, v: nat)
    requires WellFormed(m) && ReferencesClosed(m)
    requires g < |m.fns| && HoldsExtern(m.fns[g]) && IsReference(m, r) && Reaches(m, r, v)
    ensures !Reaches(m, v, g)
  {
    ReachesSelf(Plain(m), r);
    var a :| IsPath(m, a) && a[0] == r && a[|a| - 1] == v;
    PlainFromReference(m, r, a);
    if Reaches(m, v, g) {
      var b :| IsPath(m, b) && b[0] == v && b[|b| - 1] == g;
      PlainFromReference(m, r, b);
    }
  }

  lemma NoCycle(m: Module, q: seq<nat>)
    requires Checked(m) && ReferencesClosed(m)
    requires IsPath(m, q) && |q| > 1
    ensures q[0] != q[|q| - 1]
  {
    var v := q[0];
    assert q[1] in Calls(m, v);
    PathTail(m, q);
    var p := q[1..];
    assert IsPath(m, p) && p[0] == q[1] && p[|p| - 1] == q[|q| - 1];
    if q[1] !in Calls(Plain(m), v) {
      CallKinds(m, v, q[1]);
      ReachesSelf(m, q[1]);
      BehindReference(m, v, q[1], q[1]);
    } else {
      PathKinds(m, p);
      if !Reaches(Plain(m), q[1], p[|p| - 1]) {
        var g, r: nat :| ViaExtern(m, p, g, r);
        ReachesFirst(m, v, q[1], g);
        BehindReference(m, g, r, p[|p| - 1]);
      }
    }
  }

  /** A checked module whose references stay clear of externs all the way down has no cycle, so
      every function is defined before it is called. */
  lemma ClosedReferencesAcyclic(m: Module, entry: nat)
    requires Checked(m) && ReferencesClosed(m) && entry < |m.fns|
    ensures Acyclic(m, entry)
  {
    forall v: nat, c: nat | Reaches(m, entry, v) && c in Calls(m, v) ensures !Reaches(m, c, v) {
      if Reaches(m, c, v) {
        var p :| IsPath(m, p) && p[0] == c && p[|p| - 1] == v;
        var q := [v] + p;
        assert IsPath(m, q);
        NoCycle(m, q);
      }
    }
  }

  lemma FirstCall(m: Module, p: seq<nat>)
    requires IsPath(m, p) && |p| > 1
    ensures Calls(m, p[0]) != []
  {
    assert p[1] in Calls(m, p[0]);
  }

  lemma NoWayOut(m: Module, a: nat)
    requires Calls(m, a) == []
    ensures forall b: nat :: Reaches(m, a, b) ==> b == a
  {
    forall b: nat | Reaches(m, a, b) ensures b == a {
      var p :| IsPath(m, p) && p[0] == a && p[|p| - 1] == b;
      if |p| > 1 { FirstCall(m, p); }
    }
  }

  function Recalling(): Module { Module([[ExternCall(0)], [Call(0)]], [Some(1)]) }

  lemma RecallingEdges()
    ensures Calls(Recalling(), 0) == [1] && Calls(Recalling(), 1) == [0]
    ensures Calls(Plain(Recalling()), 0) == [] && Calls(Plain(Recalling()), 1) == [0]
  {
    var m := Recalling();
    assert m.fns[0][1..] == [] && m.fns[1][1..] == [];
    assert Collected([], m.externs) == [] && Collected([], []) == [];
  }

  /** The check alone does not rule cycles out: a reference may call the function that calls its
      extern. Function 0 calls extern 0, whose reference is function 1, which calls function 0. The
      check passes, and no order can define both before they are called. */
  lemma ReferenceCycle()
    ensures Checked(Recalling()) && !Acyclic(Recalling(), 0)
  {
    var m := Recalling();
    RecallingEdges();
    assert !Acyclic(m, 0) by {
      ReachesSelf(m, 0);
      ReachesSelf(m, 1);
      ReachesNext(m, 1, 1, 0);
    }
    forall f: nat, c: nat | c in Calls(Plain(m), f) ensures !Reaches(Plain(m), c, f) {
      assert f == 1 && c == 0;
      NoWayOut(Plain(m), 0);
    }
    assert !HoldsExtern(m.fns[1]);
    assert forall r: nat :: IsReference(m, r) ==> r == 1;
  }
}
