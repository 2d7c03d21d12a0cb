/** `complement`: the layout that fills what another leaves out of an interval from zero. */
module Complements {
  import opened Wrappers
  import opened Arith
  import opened Modes
  import opened Layouts
  import opened Sorting

  // ---- the stride order

  predicate Before(x: Mode, y: Mode) {
    x.d < y.d || (x.d == y.d && x.s <= y.s)
  }

  ghost predicate SortedModes(ms: seq<Mode>) {
    forall i, j :: 0 <= i < j < |ms| ==> Before(ms[i], ms[j])
  }

  lemma BeforeOrders()
    ensures TotalPreorder(Before)
  {
  }

  /** `sort_by_key(|(s, d)| (d, s))`. */
  function SortModes(ms: seq<Mode>): (r: seq<Mode>)
    ensures multiset(r) == multiset(ms) && SortedModes(r)
  {
    BeforeOrders();
    SortSorts(ms, Before);
    Sort(ms, Before)
  }

  /** The order tells all modes apart, so any sort by it gives this list. */
  lemma SortIsForced(ms: seq<Mode>, sorted: seq<Mode>)
    requires multiset(sorted) == multiset(ms) && SortedModes(sorted)
    ensures sorted == SortModes(ms)
  {
    OrderedOnce(sorted, SortModes(ms), Before);
  }

  // ---- the walk

  ghost predicate AllActive(ms: seq<Mode>) { forall j :: 0 <= j < |ms| ==> ms[j].s > 1 && ms[j].d > 0 }

  lemma SortActive(ms: seq<Mode>)
    requires forall m :: m in ms && m.s > 1 ==> m.d > 0
    ensures AllActive(SortModes(NonUnit(ms)))
  {
    var sorted := SortModes(NonUnit(ms));
    forall j | 0 <= j < |sorted| ensures sorted[j].s > 1 && sorted[j].d > 0 {
      assert sorted[j] in multiset(NonUnit(ms));
    }
  }

  function AddGap(out: seq<Mode>, d: nat, cur: pos): seq<Mode> {
    DivNonneg(d, cur);
    if d / cur > 1 then out + [Mode(d / cur, cur)] else out
  }

  /** Over the sorted modes: `cur` is the extent covered so far, `out` the gaps found below it. */
  function Gaps(ms: seq<Mode>, cur: pos, out: seq<Mode>): Checked<(seq<Mode>, pos)>
    requires AllActive(ms)
    decreases |ms|
  {
    if ms == [] then Ok((out, cur)) else
      var m := ms[0];
      if m.d % cur != 0 then Err(NotComplementable) else
        MulPos(m.s, m.d);
        if m.s * m.d > I64_MAX then Err(Overflow) else
          Gaps(ms[1..], m.s * m.d, AddGap(out, m.d, cur))
  }

  function ComplementModes(ms: seq<Mode>, cotarget: int): Checked<seq<Mode>> {
    if cotarget < 1 then Err(NonPositiveCotarget(cotarget))
    else if exists m :: m in NonUnit(ms) && m.d == 0 then Err(ZeroStrideMode)
    else
      SortActive(ms);
      match Gaps(SortModes(NonUnit(ms)), 1, [])
      case Err(e) => Err(e)
      case Ok((out, cur)) =>
        Ok(AddRest(out, cur, cotarget))
  }

  function ComplementOf(l: Layout, cotarget: int): Checked<Layout>
    requires Valid(l)
  {
    match ComplementModes(FlatModes(l), cotarget)
    case Err(e) => Err(e)
    case Ok(out) => NewLayout(FlatNode(out).0, FlatNode(out).1)
  }

  /** The loop of `complement` over the sorted modes, with its running extent and output list. */
  method FindGaps(sorted: seq<Mode>) returns (r: Checked<(seq<Mode>, pos)>)
    requires AllActive(sorted)
    ensures r == Gaps(sorted, 1, [])
  {
    var cur: pos := 1;
    var out: seq<Mode> := [];
    assert sorted[0..] == sorted;
    for k := 0 to |sorted|
      invariant Gaps(sorted[k..], cur, out) == Gaps(sorted, 1, [])
    {
      var m := sorted[k];
      assert sorted[k..][0] == m && sorted[k..][1..] == sorted[k + 1..];
      if m.d % cur != 0 { return Err(NotComplementable); }
      DivNonneg(m.d, cur);
      MulPos(m.s, m.d);
      var gap: int := m.d / cur;
      if gap > 1 { out := out + [Mode(gap, cur)]; }
      if CheckedMul(m.s, m.d).Err? { return Err(Overflow); }
      cur := m.s * m.d;
    }
    r := Ok((out, cur));
  }

  /** `complement`: the modes of `self` and of the result, in any order, are a bijection onto the
      least multiple of the reach of `self` that is not below the cotarget. */
  method Complement(l: Layout, cotarget: int) returns (r: Checked<Layout>)
    requires Valid(l)
    ensures r == ComplementOf(l, cotarget)
    ensures r.Ok? <==> cotarget >= 1 && Nested(FlatModes(l)) && Reach(FlatModes(l)) <= I64_MAX &&
                       CeilDiv(cotarget, Reach(FlatModes(l))) * Reach(FlatModes(l)) - Span(FlatModes(l)) <= I64_MAX
    ensures r.Ok? ==> Valid(r.value) && Bijection(FlatModes(l) + FlatModes(r.value))
    ensures r.Ok? ==> SizeOf(l) * SizeOf(r.value) == CeilDiv(cotarget, Reach(FlatModes(l))) * Reach(FlatModes(l))
    ensures r.Ok? ==> Increasing(FlatModes(r.value))
  {
    ComplementExact(l, cotarget);
    if ComplementOf(l, cotarget).Ok? {
      ComplementCompletes(l, cotarget);
    }
    if cotarget < 1 { return Err(NonPositiveCotarget(cotarget)); }
    var modes := NonUnit(FlatModes(l));
    if exists m :: m in modes && m.d == 0 { return Err(ZeroStrideMode); }
    SortActive(FlatModes(l));
    var gaps := FindGaps(SortModes(modes));
    if gaps.Err? { return Err(gaps.error); }
    var (out, cur) := gaps.value;
    var rest := CeilDiv(cotarget, cur);
    if rest > 1 { out := out + [Mode(rest, cur)]; }
    r := New(FlatNode(out).0, FlatNode(out).1);
  }

  // ---- how far the modes reach

  /** The farthest a mode of extent above 1 reaches: where the next mode could start. */
  function Reach(ms: seq<Mode>): (r: pos)
    ensures forall m :: m in ms && m.s > 1 ==> m.s * m.d <= r
    ensures r == 1 || exists m :: m in ms && m.s > 1 && m.s * m.d == r
  {
    if ms == [] then 1 else
      var rest := Reach(ms[1..]);
      if ms[0].s > 1 && ms[0].s * ms[0].d > rest then ms[0].s * ms[0].d else rest
  }

  lemma ReachSame(ms: seq<Mode>, sorted: seq<Mode>)
    requires sorted == SortModes(NonUnit(ms))
    ensures Reach(sorted) == Reach(ms)
  {
    forall m: Mode | m.s > 1 ensures m in sorted <==> m in ms {
      assert m in multiset(sorted) <==> m in multiset(NonUnit(ms));
    }
  }

  /** The walk ends at the reach of the modes. */
  lemma {:induction false} GapsReach(ms: seq<Mode>, cur: pos, out: seq<Mode>)
    requires AllActive(ms) && Gaps(ms, cur, out).Ok?
    ensures Gaps(ms, cur, out).value.1 == if Reach(ms) > cur then Reach(ms) else cur
    ensures ms == [] || Gaps(ms, cur, out).value.1 <= I64_MAX
    decreases |ms|
  {
    if ms != [] {
      GapBounds(ms[0], cur);
      GapsReach(ms[1..], ms[0].s * ms[0].d, AddGap(out, ms[0].d, cur));
    }
  }

  // ---- it fills the interval

  lemma FilledExtend(ms: seq<Mode>, m: Mode)
    requires Filled(ms) && Size(ms) == m.d && m.s > 1
    requires forall x :: x in ms && x.s > 1 ==> x.d < m.d
    ensures Filled(ms + [m]) && Size(ms + [m]) == m.s * m.d
  {
    assert Size(ms + [m]) == m.s * m.d by {
      SizeConcat(ms, [m]);
      assert [m][1..] == [];
    }
    assert SpanThrough(ms, m.d) == m.d - 1 by {
      FilledSpan(ms);
      NonUnitBelow(ms, m.d);
    }
    MulPred(m.s, m.d);
    forall x | x in ms + [m] && x.s > 1
      ensures x.d > 0 && SpanThrough(ms + [m], x.d) == x.s * x.d - 1
    {
      SpanThroughPush(ms, m, x.d);
    }
  }

  lemma SpanThroughPush(ms: seq<Mode>, m: Mode, t: nat)
    ensures SpanThrough(ms + [m], t) == SpanThrough(ms, t) + if m.d <= t then (m.s - 1) * m.d else 0
  {
    SpanThroughConcat(ms, [m], t);
    assert [m][1..] == [];
  }

  lemma {:induction false} NonUnitBelow(ms: seq<Mode>, t: nat)
    requires forall x :: x in ms && x.s > 1 ==> x.d < t
    ensures SpanThrough(ms, t) == Span(ms)
  {
    if ms != [] {
      NonUnitBelow(ms[1..], t);
    }
  }

  /** What holds after some of the sorted modes `done`: with the gaps they fill `[0, cur)`. */
  ghost predicate Covers(done: seq<Mode>, out: seq<Mode>, cur: int) {
    Filled(done + out) && Size(done + out) == cur
  }

  lemma FilledBelow(ms: seq<Mode>)
    requires Filled(ms)
    ensures forall x :: x in ms && x.s > 1 ==> x.d < Size(ms)
  {
    FilledSpan(ms);
    forall x | x in ms && x.s > 1 ensures x.d < Size(ms) {
      SpanThroughAtMost(ms, x.d);
      MulMono(2, x.s, x.d);
    }
  }

  lemma {:induction false} SpanThroughAtMost(ms: seq<Mode>, t: nat)
    ensures SpanThrough(ms, t) <= Span(ms)
  {
    if ms != [] {
      SpanThroughAtMost(ms[1..], t);
      MulMono(0, ms[0].s - 1, ms[0].d);
    }
  }

  lemma CoversGap(done: seq<Mode>, out: seq<Mode>, cur: pos, gap: pos)
    requires Covers(done, out, cur) && gap > 1
    ensures 1 <= gap * cur && Covers(done, out + [Mode(gap, cur)], gap * cur)
  {
    MulPos(gap, cur);
    FilledBelow(done + out);
    FilledExtend(done + out, Mode(gap, cur));
    assert done + (out + [Mode(gap, cur)]) == (done + out) + [Mode(gap, cur)];
  }

  lemma CoversMode(done: seq<Mode>, out: seq<Mode>, m: Mode)
    requires m.s > 1 && m.d > 0 && Covers(done, out, m.d)
    ensures 1 <= m.s * m.d && Covers(done + [m], out, m.s * m.d)
  {
    MulPos(m.s, m.d);
    FilledBelow(done + out);
    FilledExtend(done + out, m);
    var before, after := (done + out) + [m], (done + [m]) + out;
    assert multiset(before) == multiset(after);
    FilledPerm(before, after);
    SizePerm(before, after);
  }

  lemma CoversStep(done: seq<Mode>, out: seq<Mode>, cur: pos, m: Mode)
    requires m.s > 1 && m.d > 0 && m.d % cur == 0 && Covers(done, out, cur)
    ensures 1 <= m.s * m.d && Covers(done + [m], AddGap(out, m.d, cur), m.s * m.d)
  {
    DivPos(m.d, cur);
    if m.d / cur > 1 {
      CoversGap(done, out, cur, m.d / cur);
    }
    CoversMode(done, AddGap(out, m.d, cur), m);
  }

  lemma {:induction false} GapsCover(done: seq<Mode>, ms: seq<Mode>, cur: pos, out: seq<Mode>)
    requires AllActive(ms) && Covers(done, out, cur) && Gaps(ms, cur, out).Ok?
    ensures Covers(done + ms, Gaps(ms, cur, out).value.0, Gaps(ms, cur, out).value.1)
    decreases |ms|
  {
    if ms == [] {
      assert done + ms == done;
    } else {
      CoversStep(done, out, cur, ms[0]);
      GapsCover(done + [ms[0]], ms[1..], ms[0].s * ms[0].d, AddGap(out, ms[0].d, cur));
      assert done + [ms[0]] + ms[1..] == done + ms;
    }
  }

  /** The gaps are real modes below the extent covered, in increasing order. */
  ghost predicate GapList(out: seq<Mode>, cur: pos) {
    && (forall i :: 0 <= i < |out| ==> out[i].s > 1 && out[i].d < cur)
    && (forall i, j :: 0 <= i < j < |out| ==> out[i].d < out[j].d)
  }

  lemma {:induction false} GapsIncrease(ms: seq<Mode>, cur: pos, out: seq<Mode>)
    requires AllActive(ms) && GapList(out, cur) && Gaps(ms, cur, out).Ok?
    ensures GapList(Gaps(ms, cur, out).value.0, Gaps(ms, cur, out).value.1)
    decreases |ms|
  {
    if ms != [] {
      GapBounds(ms[0], cur);
      GapsIncrease(ms[1..], ms[0].s * ms[0].d, AddGap(out, ms[0].d, cur));
    }
  }

  lemma GapBounds(m: Mode, cur: pos)
    requires m.s > 1 && m.d > 0 && m.d % cur == 0
    ensures cur <= m.d < m.s * m.d
  {
    DivPos(m.d, cur);
    MulMono(1, m.d / cur, cur);
    MulMono(2, m.s, m.d);
  }

  lemma FilledOrUnit(xs: seq<Mode>, out: seq<Mode>)
    requires Filled(xs + out)
    ensures Filled(xs + OrUnit(out))
  {
    if out == [] {
      FilledNonUnit(xs + out);
      NonUnitConcat(xs, out);
      NonUnitConcat(xs, OrUnit(out));
      FilledNonUnit(xs + OrUnit(out));
      assert NonUnit(OrUnit(out)) == [];
    }
  }

  /** Putting the sorted non-unit modes back in their own order. */
  lemma FilledUnsort(ms: seq<Mode>, out: seq<Mode>)
    requires Filled(SortModes(NonUnit(ms)) + out)
    ensures Filled(ms + out)
  {
    FilledPerm(SortModes(NonUnit(ms)) + out, NonUnit(ms) + out);
    FilledNonUnit(NonUnit(ms) + out);
    NonUnitConcat(NonUnit(ms), out);
    NonUnitConcat(ms, out);
    NonUnitIdempotent(ms);
    FilledNonUnit(ms + out);
  }

  lemma {:induction false} NonUnitIdempotent(ms: seq<Mode>)
    ensures NonUnit(NonUnit(ms)) == NonUnit(ms)
  {
    if ms != [] {
      NonUnitIdempotent(ms[1..]);
      NonUnitConcat(if ms[0].s > 1 then [ms[0]] else [], NonUnit(ms[1..]));
    }
  }

  /** With the last run, the sorted modes and the gaps fill whole reaches up to the cotarget. */
  lemma SortedFills(ms: seq<Mode>, cotarget: int)
    requires ComplementModes(ms, cotarget).Ok?
    ensures Covers(SortModes(NonUnit(ms)), ComplementModes(ms, cotarget).value,
            CeilDiv(cotarget, Reach(ms)) * Reach(ms))
  {
    var sorted := SortModes(NonUnit(ms));
    SortActive(ms);
    var (gaps, cur) := Gaps(sorted, 1, []).value;
    GapsFill(ms, gaps, cur);
    CoversRest(sorted, gaps, cur, cotarget);
  }

  lemma GapsFill(ms: seq<Mode>, gaps: seq<Mode>, cur: pos)
    requires AllActive(SortModes(NonUnit(ms))) && Gaps(SortModes(NonUnit(ms)), 1, []) == Ok((gaps, cur))
    ensures Covers(SortModes(NonUnit(ms)), gaps, cur) && cur == Reach(ms)
  {
    var sorted := SortModes(NonUnit(ms));
    assert Covers([], [], 1);
    GapsCover([], sorted, 1, []);
    assert [] + sorted == sorted;
    GapsReach(sorted, 1, []);
    ReachSame(ms, sorted);
  }

  function AddRest(out: seq<Mode>, cur: pos, cotarget: pos): seq<Mode> {
    if CeilDiv(cotarget, cur) > 1 then out + [Mode(CeilDiv(cotarget, cur), cur)] else out
  }

  lemma CoversRest(done: seq<Mode>, out: seq<Mode>, cur: pos, cotarget: pos)
    requires Covers(done, out, cur)
    ensures Covers(done, AddRest(out, cur, cotarget), CeilDiv(cotarget, cur) * cur)
  {
    var rest: pos := CeilDiv(cotarget, cur);
    if rest > 1 {
      CoversGap(done, out, cur, rest);
    }
  }

  /** The gaps and the last run complete the modes to the least multiple of their reach that is not
      below the cotarget. */
  lemma ComplementFills(ms: seq<Mode>, cotarget: int)
    requires ComplementModes(ms, cotarget).Ok?
    ensures Covers(ms, ComplementModes(ms, cotarget).value, CeilDiv(cotarget, Reach(ms)) * Reach(ms))
  {
    var out := ComplementModes(ms, cotarget).value;
    SortedFills(ms, cotarget);
    FilledUnsort(ms, out);
    SizeConcat(ms, out);
    SizeConcat(SortModes(NonUnit(ms)), out);
    SizeSort(ms);
  }

  lemma ComplementIncreases(ms: seq<Mode>, cotarget: int)
    requires ComplementModes(ms, cotarget).Ok?
    ensures Increasing(ComplementModes(ms, cotarget).value)
  {
    var sorted := SortModes(NonUnit(ms));
    SortActive(ms);
    GapsIncrease(sorted, 1, []);
    RestIncreases(Gaps(sorted, 1, []).value.0, Gaps(sorted, 1, []).value.1, cotarget);
  }

  ghost predicate Increasing(out: seq<Mode>) { forall i, j :: 0 <= i < j < |out| ==> out[i].d < out[j].d }

  lemma RestIncreases(out: seq<Mode>, cur: pos, cotarget: pos)
    requires GapList(out, cur)
    ensures Increasing(AddRest(out, cur, cotarget))
  {
    forall i, j | 0 <= i < j < |AddRest(out, cur, cotarget)|
      ensures AddRest(out, cur, cotarget)[i].d < AddRest(out, cur, cotarget)[j].d
    {
      assert AddRest(out, cur, cotarget)[i] == out[i];
    }
  }

  lemma SizeSort(ms: seq<Mode>)
    ensures Size(SortModes(NonUnit(ms))) == Size(ms)
  {
    SpanThroughNonUnit(ms, 0);
    SizePerm(SortModes(NonUnit(ms)), NonUnit(ms));
  }

  lemma {:induction false} SizePerm(xs: seq<Mode>, ys: seq<Mode>)
    requires multiset(xs) == multiset(ys)
    ensures Size(xs) == Size(ys)
    decreases |xs|
  {
    if xs == [] {
      assert |multiset(ys)| == 0;
      assert ys == [];
    } else {
      assert xs[0] in multiset(ys);
      var k :| 0 <= k < |ys| && ys[k] == xs[0];
      RemoveMultiset(xs, 0);
      RemoveMultiset(ys, k);
      assert Remove(xs, 0) == xs[1..];
      SizePerm(xs[1..], Remove(ys, k));
      SizeRemove(ys, k);
    }
  }

  /** The theorem: `(self, R)` is a bijection onto its size, the least multiple of the reach of `self`
      that is not below the cotarget, and `R`'s strides increase, whatever order the modes of `self`
      come in. */
  lemma ComplementCompletes(l: Layout, cotarget: int)
    requires Valid(l) && ComplementOf(l, cotarget).Ok?
    ensures var r := ComplementOf(l, cotarget).value;
            Valid(r) && Filled(FlatModes(l) + FlatModes(r)) && Bijection(FlatModes(l) + FlatModes(r)) &&
            SizeOf(l) * SizeOf(r) == Size(FlatModes(l) + FlatModes(r)) ==
                CeilDiv(cotarget, Reach(FlatModes(l))) * Reach(FlatModes(l)) &&
            cotarget <= SizeOf(l) * SizeOf(r) < cotarget + Reach(FlatModes(l)) &&
            Increasing(FlatModes(r))
  {
    var ms := FlatModes(l);
    var out := ComplementModes(ms, cotarget).value;
    NewLayoutValid(FlatNode(out).0, FlatNode(out).1);
    FlatNodeModes(out);
    ComplementFills(ms, cotarget);
    ComplementIncreases(ms, cotarget);
    FilledOrUnit(ms, out);
    FilledBijection(ms + OrUnit(out));
    SizeConcat(ms, out);
    SizeConcat(ms, OrUnit(out));
    if out == [] {
      assert OrUnit(out)[1..] == [];
    }
  }

  // ---- and declines only what nothing completes

  /** A mode's reach divides the size of any filled list it is in. */
  lemma {:induction false} FilledSizeMultiple(ms: seq<Mode>, j: nat)
    requires Filled(ms) && j < |ms| && ms[j].s > 1
    ensures 1 <= ms[j].s * ms[j].d && Size(ms) % (ms[j].s * ms[j].d) == 0
    decreases |ms|
  {
    var k := MaxStride(ms);
    var rest, m := Remove(ms, k), ms[j];
    MulPos(m.s, m.d);
    FilledRemove(ms, k);
    SizeRemove(ms, k);
    if j == k {
      FilledSpan(rest);
      DivModUnique(Size(ms), m.s * m.d, 1, 0);
    } else {
      var e := if j < k then j else j - 1;
      assert rest[e] == m;
      FilledSizeMultiple(rest, e);
      MultipleMul(Size(rest), m.s * m.d, ms[k].s);
    }
  }

  /** In a filled list a larger stride is a multiple of every smaller mode's reach. */
  lemma {:induction false} FilledDivides(ms: seq<Mode>, i: nat, j: nat)
    requires Filled(ms) && i < |ms| && j < |ms| && i != j
    requires ms[i].s > 1 && ms[j].s > 1 && ms[i].d <= ms[j].d
    ensures 1 <= ms[i].s * ms[i].d && ms[j].d % (ms[i].s * ms[i].d) == 0
    decreases |ms|
  {
    var k := MaxStride(ms);
    var rest := Remove(ms, k);
    FilledRemove(ms, k);
    MulPos(ms[i].s, ms[i].d);
    if i == k {
      // Two modes of one stride cannot both be in a filled list.
      var e := if j < k then j else j - 1;
      assert rest[e] == ms[j];
      SpanThroughMember(rest, ms[j]);
      SpanThroughAll(rest, ms[j].d);
      MulMono(1, ms[j].s - 1, ms[j].d);
      assert false;
    } else {
      var e := if i < k then i else i - 1;
      assert rest[e] == ms[i];
      if j == k {
        if ms[k].s > 1 {
          FilledSpan(rest);
        }
        FilledSizeMultiple(rest, e);
      } else {
        var f := if j < k then j else j - 1;
        assert rest[f] == ms[j];
        FilledDivides(rest, e, f);
      }
    }
  }

  /** A larger stride steps over whole reaches of the mode. */
  predicate Steps(m: Mode, d: nat) {
    m.d > 0 && (MulPos(m.s, m.d); d % (m.s * m.d) == 0)
  }

  /** Of any two modes one steps over the other: something a caller can look up. */
  ghost predicate Nested(ms: seq<Mode>) {
    && NonzeroStrides(ms)
    && forall i, j :: 0 <= i < |ms| && 0 <= j < |ms| && i != j && ms[i].s > 1 && ms[j].s > 1 && ms[i].d <= ms[j].d ==>
         Steps(ms[i], ms[j].d)
  }

  lemma FilledNested(ms: seq<Mode>, r: seq<Mode>)
    requires Filled(ms + r)
    ensures Nested(ms)
  {
    var all := ms + r;
    forall m | m in ms && m.s > 1 ensures m.d > 0 {
      assert m in all;
    }
    forall i, j | 0 <= i < |ms| && 0 <= j < |ms| && i != j && ms[i].s > 1 && ms[j].s > 1 && ms[i].d <= ms[j].d
      ensures Steps(ms[i], ms[j].d)
    {
      assert all[i] == ms[i] && all[j] == ms[j];
      FilledDivides(all, i, j);
    }
  }

  lemma PairIn<T>(s: seq<T>, x: T, y: T) returns (i: nat, j: nat)
    requires multiset{x, y} <= multiset(s)
    ensures i < |s| && j < |s| && i != j && s[i] == x && s[j] == y
  {
    assert x in multiset(s);
    i :| i < |s| && s[i] == x;
    RemoveMultiset(s, i);
    assert y in multiset(Remove(s, i));
    j :| j < |Remove(s, i)| && Remove(s, i)[j] == y;
    j := if j < i then j else j + 1;
  }

  lemma PairOf<T>(s: seq<T>, i: nat, j: nat)
    requires i < |s| && j < |s| && i != j
    ensures multiset{s[i], s[j]} <= multiset(s)
  {
    RemoveMultiset(s, i);
    var rest := Remove(s, i);
    assert rest[if j < i then j else j - 1] == s[j];
    assert s[j] in multiset(rest);
  }

  lemma NestedSome(ms: seq<Mode>, some: seq<Mode>)
    requires Nested(ms) && multiset(some) <= multiset(ms)
    ensures Nested(some)
  {
    forall m | m in some && m.s > 1 ensures m.d > 0 {
      assert m in multiset(some) && m in multiset(ms) && m in ms;
    }
    forall i, j | 0 <= i < |some| && 0 <= j < |some| && i != j && some[i].s > 1 && some[j].s > 1 &&
        some[i].d <= some[j].d
      ensures Steps(some[i], some[j].d)
    {
      PairOf(some, i, j);
      var a, b := PairIn(ms, some[i], some[j]);
    }
  }

  lemma {:induction false} NonUnitSome(ms: seq<Mode>)
    ensures multiset(NonUnit(ms)) <= multiset(ms)
  {
    if ms != [] {
      NonUnitSome(ms[1..]);
      assert ms == [ms[0]] + ms[1..];
    }
  }

  /** In sorted nested modes each steps over the reach of the one before it. */
  lemma NextDivides(ms: seq<Mode>, k: nat, cur: pos)
    requires SortedModes(ms) && Nested(ms) && AllActive(ms) && k < |ms|
    requires cur == if k == 0 then 1 else ms[k - 1].s * ms[k - 1].d
    ensures ms[k].d % cur == 0
  {
    if k > 0 {
      assert Before(ms[k - 1], ms[k]);
      assert Steps(ms[k - 1], ms[k].d);
    } else {
      DivModUnique(ms[k].d, 1, ms[k].d, 0);
    }
  }

  /** The walk over nested modes only ever stops for want of range. */
  lemma {:induction false} GapsSucceed(ms: seq<Mode>, k: nat, cur: pos, out: seq<Mode>)
    requires SortedModes(ms) && Nested(ms) && AllActive(ms) && k <= |ms|
    requires cur == if k == 0 then 1 else ms[k - 1].s * ms[k - 1].d
    ensures Gaps(ms[k..], cur, out).Err? ==> Gaps(ms[k..], cur, out).error == Overflow && Reach(ms) > I64_MAX
    decreases |ms| - k
  {
    if k < |ms| {
      assert ms[k..][0] == ms[k] && ms[k..][1..] == ms[k + 1..];
      NextDivides(ms, k, cur);
      MulPos(ms[k].s, ms[k].d);
      assert ms[k] in ms;
      GapsSucceed(ms, k + 1, ms[k].s * ms[k].d, AddGap(out, ms[k].d, cur));
    }
  }

  /** When the walk ends: exactly for nested modes whose reach is a 64-bit number; and why not. */
  lemma ComplementModesExact(ms: seq<Mode>, cotarget: int)
    ensures ComplementModes(ms, cotarget).Ok? <==> cotarget >= 1 && Nested(ms) && Reach(ms) <= I64_MAX
    ensures ComplementModes(ms, cotarget).Err? && cotarget >= 1 && Nested(ms) ==>
              ComplementModes(ms, cotarget).error == Overflow
  {
    if ComplementModes(ms, cotarget).Ok? {
      var sorted := SortModes(NonUnit(ms));
      ComplementFills(ms, cotarget);
      FilledNested(ms, ComplementModes(ms, cotarget).value);
      SortActive(ms);
      GapsReach(sorted, 1, []);
      ReachSame(ms, sorted);
    } else if cotarget >= 1 && Nested(ms) {
      var sorted := SortModes(NonUnit(ms));
      NonUnitSome(ms);
      NestedSome(ms, sorted);
      SortActive(ms);
      GapsSucceed(sorted, 0, 1, []);
      assert sorted[0..] == sorted;
      ReachSame(ms, sorted);
    }
  }

  /** The gaps of nested modes, with no bound on their size. */
  lemma {:induction false} FillNested(ms: seq<Mode>, k: nat, cur: pos, out: seq<Mode>) returns (r: seq<Mode>)
    requires SortedModes(ms) && Nested(ms) && AllActive(ms) && k <= |ms|
    requires cur == if k == 0 then 1 else ms[k - 1].s * ms[k - 1].d
    requires Covers(ms[..k], out, cur)
    ensures Filled(ms + r)
    decreases |ms| - k
  {
    if k == |ms| {
      assert ms[..k] == ms;
      r := out;
    } else {
      FillStep(ms, k, cur, out);
      r := FillNested(ms, k + 1, ms[k].s * ms[k].d, AddGap(out, ms[k].d, cur));
    }
  }

  lemma FillStep(ms: seq<Mode>, k: nat, cur: pos, out: seq<Mode>)
    requires SortedModes(ms) && Nested(ms) && AllActive(ms) && k < |ms|
    requires cur == if k == 0 then 1 else ms[k - 1].s * ms[k - 1].d
    requires Covers(ms[..k], out, cur)
    ensures 1 <= ms[k].s * ms[k].d && Covers(ms[..k + 1], AddGap(out, ms[k].d, cur), ms[k].s * ms[k].d)
  {
    NextDivides(ms, k, cur);
    CoversStep(ms[..k], out, cur, ms[k]);
    assert ms[..k] + [ms[k]] == ms[..k + 1];
  }

  /** Modes can be completed at all if and only if they are nested. */
  lemma CompletableIffNested(ms: seq<Mode>)
    ensures (exists r :: Filled(ms + r)) <==> Nested(ms)
  {
    if Nested(ms) {
      NonUnitSome(ms);
      NestedSome(ms, SortModes(NonUnit(ms)));
      SortActive(ms);
      assert Covers([], [], 1);
      var r := FillNested(SortModes(NonUnit(ms)), 0, 1, []);
      FilledUnsort(ms, r);
    } else if r :| Filled(ms + r) {
      FilledNested(ms, r);
      assert false;
    }
  }

  lemma SomeFilledSeparated(xs: seq<Mode>, ys: seq<Mode>)
    requires Filled(xs + ys)
    ensures Separated(ys) && NonzeroStrides(ys)
  {
    forall m | m in ys && m.s > 1 ensures m.d > 0 && SpanThrough(ys, m.d) < m.s * m.d {
      assert m in xs + ys;
      SpanThroughConcat(xs, ys, m.d);
    }
  }

  lemma RoomForOneMore(s: pos, n: int, d: int, p: int)
    requires n <= 1 + p && (s == 1 || p < d)
    ensures s * n <= 1 + p + s * d - d
  {
    MulPred(s, n);
    MulPred(s, d);
    if s > 1 {
      MulMono(n, d, s - 1);
    } else {
      MulZero(s - 1, n);
      MulZero(s - 1, d);
    }
  }

  lemma SpanLargest(ms: seq<Mode>, k: nat)
    requires k < |ms| && forall m :: m in ms ==> m.d <= ms[k].d
    ensures Span(ms) == Span(Remove(ms, k)) + ms[k].s * ms[k].d - ms[k].d
  {
    SpanTop(ms, k);
    SpanThroughAll(ms, ms[k].d);
  }

  /** A separated list has no more indices than its offsets have room. */
  lemma {:induction false} SeparatedSize(ms: seq<Mode>)
    requires Separated(ms) && NonzeroStrides(ms)
    ensures Size(ms) <= 1 + Span(ms)
    decreases |ms|
  {
    if ms != [] {
      var k := MaxStride(ms);
      SeparatedRemove(ms, k);
      SeparatedSize(Remove(ms, k));
      SizeRemove(ms, k);
      SpanLargest(ms, k);
      RoomForOneMore(ms[k].s, Size(Remove(ms, k)), ms[k].d, Span(Remove(ms, k)));
    }
  }

  /** `complement` succeeds exactly when the modes are nested and what it builds has room: a condition
      on `self` and the cotarget alone. */
  lemma ComplementExact(l: Layout, cotarget: int)
    requires Valid(l)
    ensures ComplementOf(l, cotarget).Ok? <==>
              cotarget >= 1 && Nested(FlatModes(l)) && Reach(FlatModes(l)) <= I64_MAX &&
              CeilDiv(cotarget, Reach(FlatModes(l))) * Reach(FlatModes(l)) - Span(FlatModes(l)) <= I64_MAX
  {
    var ms := FlatModes(l);
    ComplementModesExact(ms, cotarget);
    if ComplementModes(ms, cotarget).Ok? {
      var out := ComplementModes(ms, cotarget).value;
      ComplementFills(ms, cotarget);
      FilledSpan(ms + out);
      SpanConcat(ms, out);
      SomeFilledSeparated(ms, out);
      SeparatedSize(out);
      NewLayoutValid(FlatNode(out).0, FlatNode(out).1);
      FlatNodeModes(out);
      if out == [] {
        assert OrUnit(out)[1..] == [];
      }
    }
  }

  lemma {:induction false} GapsOverflow(ms: seq<Mode>, cur: pos, out: seq<Mode>)
    requires AllActive(ms) && Gaps(ms, cur, out).Err?
    ensures Gaps(ms, cur, out).error in {NotComplementable, Overflow}
    ensures Gaps(ms, cur, out).error == Overflow ==> exists m :: m in ms && m.s * m.d > I64_MAX
    decreases |ms|
  {
    var m := ms[0];
    if m.d % cur == 0 && m.s * m.d <= I64_MAX {
      MulPos(m.s, m.d);
      GapsOverflow(ms[1..], m.s * m.d, AddGap(out, m.d, cur));
    }
  }

  /** Why a complement is declined: no positive cotarget; a stride of 0; modes that do not step over one
      another; or a reach, or a result, past 64 bits. */
  lemma ComplementWhy(l: Layout, cotarget: int)
    requires Valid(l) && ComplementOf(l, cotarget).Err?
    ensures var (ms, e) := (FlatModes(l), ComplementOf(l, cotarget).error);
            var zero := exists m :: m in ms && m.s > 1 && m.d == 0;
            if cotarget < 1 then e == NonPositiveCotarget(cotarget)
            else if zero then e == ZeroStrideMode
            else
              (e == NotComplementable && !Nested(ms)) ||
              (e == Overflow &&
               (Reach(ms) > I64_MAX || CeilDiv(cotarget, Reach(ms)) * Reach(ms) - Span(ms) > I64_MAX))
  {
    var ms := FlatModes(l);
    NonUnitSome(ms);
    ComplementExact(l, cotarget);
    ComplementModesExact(ms, cotarget);
    if cotarget >= 1 && !(exists m :: m in NonUnit(ms) && m.d == 0) {
      SortActive(ms);
      var sorted := SortModes(NonUnit(ms));
      if Gaps(sorted, 1, []).Err? {
        GapsOverflow(sorted, 1, []);
        ReachSame(ms, sorted);
      } else {
        ResultOverflows(ms, cotarget);
      }
    }
  }

  lemma ResultOverflows(ms: seq<Mode>, cotarget: int)
    requires ComplementModes(ms, cotarget).Ok?
    ensures var t := FlatNode(ComplementModes(ms, cotarget).value);
            NewLayout(t.0, t.1).Err? ==> NewLayout(t.0, t.1).error == Overflow
  {
    var out := ComplementModes(ms, cotarget).value;
    var t := FlatNode(out);
    FlatNodeModes(out);
    CongruentLeaves(t.0, t.1);
    if LeafCheck(Leaves(t.0), Leaves(t.1), 1).Err? {
      LeafCheckOverflows(Leaves(t.0), Leaves(t.1), 1);
    } else if Product(Leaves(t.0), 1).Err? {
      ProductOverflows(Leaves(t.0), 1);
    }
  }

  lemma SpanBelowReach(ms: seq<Mode>)
    requires Nested(ms) && Reach(ms) <= I64_MAX
    ensures Span(ms) < Reach(ms)
  {
    ComplementModesExact(ms, 1);
    var out := ComplementModes(ms, 1).value;
    ComplementFills(ms, 1);
    DivExactOne(Reach(ms));
    FilledSpan(ms + out);
    SpanConcat(ms, out);
  }

  lemma DivExactOne(n: pos)
    ensures CeilDiv(1, n) == 1
  {
    if CeilDiv(1, n) > 1 {
      MulMono(2, CeilDiv(1, n), n);
    }
  }

  /** If any list at all fills up `ms`, `complement` does not decline it: it either succeeds or
      runs out of 64-bit range. */
  lemma ComplementDeclinesOnlyHopeless(ms: seq<Mode>, r: seq<Mode>, cotarget: pos)
    requires Filled(ms + r)
    ensures ComplementModes(ms, cotarget).Ok? <==> Reach(ms) <= I64_MAX
    ensures ComplementModes(ms, cotarget).Err? ==> ComplementModes(ms, cotarget).error == Overflow
  {
    FilledNested(ms, r);
    ComplementModesExact(ms, cotarget);
  }
}
