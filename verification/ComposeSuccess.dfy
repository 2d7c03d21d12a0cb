/** When `composition`, `logical_divide` and `logical_product` succeed, as conditions on their
    arguments, and why they decline what they decline. */
module ComposeSuccess {
  import opened Wrappers
  import opened Arith
  import opened Modes
  import opened Layouts
  import opened Composition
  import opened Carries
  import opened Complements
  import opened Products
  import Inverses

  // ---- how many modes one mode is composed to

  predicate UsedAt(a: seq<Mode>, k: nat, r: pos, t: pos)
    requires k < |a|
  {
    Used(Size(a[..k]), a[k], k + 1 == |a|, r, t)
  }

  lemma UsedFirst(a: seq<Mode>, r: pos, t: pos)
    requires a != [] && r > 1
    ensures UsedAt(a, 0, r, t) <==> |a| == 1 || t < a[0].s
  {
    assert a[..0] == [];
  }

  lemma UsedLaterSkip(a: seq<Mode>, k: nat, r: pos, t: pos, q: pos)
    requires 0 < k < |a| && t == a[0].s * q
    ensures UsedAt(a, k, r, t) <==> UsedAt(a[1..], k - 1, r, q)
  {
    PrefixSize(a, k - 1);
    UsedSkip(a[0].s, Size(a[1..][..k - 1]), a[k], k + 1 == |a|, r, q);
  }

  lemma UsedLaterTake(a: seq<Mode>, k: nat, r: pos, t: pos, u: pos, w: pos)
    requires 0 < k < |a| && t < a[0].s == t * u && r == u * w && u < r
    ensures UsedAt(a, k, r, t) <==> UsedAt(a[1..], k - 1, w, 1)
  {
    PrefixSize(a, k - 1);
    UsedTake(a[0].s, Size(a[1..][..k - 1]), a[k], k + 1 == |a|, r, t, u, w);
  }

  lemma UsedLaterBeyond(a: seq<Mode>, k: nat, r: pos, t: pos, u: pos)
    requires 0 < k < |a| && t < a[0].s == t * u && u >= r
    ensures !UsedAt(a, k, r, t)
  {
    PrefixSize(a, k - 1);
    UsedBeyond(a[0].s, Size(a[1..][..k - 1]), a[k], k + 1 == |a|, r, t, u);
  }

  /** What the walk goes on with behind the first mode. */
  lemma WalkOn(a: seq<Mode>, r: pos, t: pos) returns (r': pos, t': pos)
    requires |a| > 1 && r > 1 && Walk(a, r, t).Ok?
    ensures Walk(a[1..], r', t').Ok?
    ensures Walk(a, r, t).value ==
            (if t < a[0].s then Emit(a[0], Min(a[0].s / t, r), t) else []) + Walk(a[1..], r', t').value
    ensures t < a[0].s ==> 0 < a[0].s / t && Emit(a[0], Min(a[0].s / t, r), t) != []
    ensures t >= a[0].s ==> r' > 1
    ensures forall k :: 1 <= k < |a| ==> (UsedAt(a, k, r, t) <==> r' > 1 && UsedAt(a[1..], k - 1, r', t'))
  {
    var s := a[0].s;
    if t >= s {
      DivPos(t, s);
      DivMod(t, s);
      r', t' := r, t / s;
      assert [] + Walk(a[1..], r', t').value == Walk(a[1..], r', t').value;
      forall k | 1 <= k < |a| ensures UsedAt(a, k, r, t) <==> UsedAt(a[1..], k - 1, r', t') {
        UsedLaterSkip(a, k, r, t, t');
      }
    } else {
      r', t' := WalkOnTake(a, r, t);
    }
  }

  lemma WalkOnTake(a: seq<Mode>, r: pos, t: pos) returns (r': pos, t': pos)
    requires |a| > 1 && r > 1 && t < a[0].s && Walk(a, r, t).Ok?
    ensures 0 < a[0].s / t && Walk(a[1..], r', t').Ok? && Emit(a[0], Min(a[0].s / t, r), t) != []
    ensures Walk(a, r, t).value == Emit(a[0], Min(a[0].s / t, r), t) + Walk(a[1..], r', t').value
    ensures forall k :: 1 <= k < |a| ==> (UsedAt(a, k, r, t) <==> r' > 1 && UsedAt(a[1..], k - 1, r', t'))
  {
    var s := a[0].s;
    DivPos(s, t);
    DivMod(s, t);
    var u: pos := s / t;
    var take: pos := Min(u, r);
    DivPos(r, take);
    DivMod(r, take);
    r', t' := r / take, 1;
    if u <= 1 { MulMono(u, 1, t); }
    WalkTakeStep(a, r, t, take);
    forall k | 1 <= k < |a| ensures UsedAt(a, k, r, t) <==> r' > 1 && UsedAt(a[1..], k - 1, r', t') {
      if u >= r {
        DivModUnique(r, r, 1, 0);
        UsedLaterBeyond(a, k, r, t, u);
      } else {
        if r' <= 1 { MulMono(r', 1, u); }
        UsedLaterTake(a, k, r, t, u, r');
      }
    }
  }

  /** A walk with indices to place uses a mode. */
  lemma {:induction false} SomeUsed(a: seq<Mode>, r: pos, t: pos) returns (k: nat)
    requires a != [] && r > 1 && Walk(a, r, t).Ok?
    ensures Walk(a, r, t).value != [] && k < |a| && UsedAt(a, k, r, t)
    decreases |a|
  {
    UsedFirst(a, r, t);
    k := 0;
    if |a| > 1 {
      var r', t' := WalkOn(a, r, t);
      if t >= a[0].s {
        k := SomeUsed(a[1..], r', t');
        k := k + 1;
      }
    }
  }

  /** Two modes of `a` are used. */
  ghost predicate Twice(a: seq<Mode>, r: pos, t: pos) {
    exists j, k :: 0 <= j < k < |a| && UsedAt(a, j, r, t) && UsedAt(a, k, r, t)
  }

  lemma {:induction false} WalkSpreads(a: seq<Mode>, r: pos, t: pos)
    requires a != [] && r > 1 && Walk(a, r, t).Ok?
    ensures |Walk(a, r, t).value| > 1 <==> Twice(a, r, t)
    decreases |a|
  {
    UsedFirst(a, r, t);
    if |a| > 1 {
      var r', t' := WalkOn(a, r, t);
      if t >= a[0].s {
        WalkSpreads(a[1..], r', t');
        TwiceLater(a, r, t, r', t');
      } else if r' > 1 {
        var k := SomeUsed(a[1..], r', t');
        assert UsedAt(a, k + 1, r, t);
      } else {
        assert Walk(a[1..], r', t').value == [];
      }
    }
  }

  lemma TwiceLater(a: seq<Mode>, r: pos, t: pos, r': pos, t': pos)
    requires |a| > 1 && !UsedAt(a, 0, r, t) && r' > 1
    requires forall k :: 1 <= k < |a| ==> (UsedAt(a, k, r, t) <==> r' > 1 && UsedAt(a[1..], k - 1, r', t'))
    ensures Twice(a, r, t) <==> Twice(a[1..], r', t')
  {
    if Twice(a, r, t) {
      var j, k :| 0 <= j < k < |a| && UsedAt(a, j, r, t) && UsedAt(a, k, r, t);
      assert UsedAt(a[1..], j - 1, r', t') && UsedAt(a[1..], k - 1, r', t');
    }
    if Twice(a[1..], r', t') {
      var j, k :| 0 <= j < k < |a[1..]| && UsedAt(a[1..], j, r', t') && UsedAt(a[1..], k, r', t');
      assert UsedAt(a, j + 1, r, t) && UsedAt(a, k + 1, r, t);
    }
  }

  // ---- how deep the result is, and how far it reads

  /** One mode becomes several, which takes a level of its own. */
  ghost predicate Spreads(a: seq<Mode>, m: Mode) { m.s > 1 && m.d > 0 && Twice(a, m.s, m.d) }

  ghost function ComposedDepth(a: seq<Mode>, shape: IntTuple, stride: IntTuple): nat
    requires Shaped(shape, stride)
    decreases shape, 1
  {
    match (shape, stride)
    case (Int(s), Int(d)) =>
      assert Leaves(shape)[0] == s && Leaves(stride)[0] == d;
      if Spreads(a, Mode(s, d)) then 1 else 0
    case (Tuple(ss), Tuple(ds)) =>
      assert LeavesAll(ss) == Leaves(shape) && LeavesAll(ds) == Leaves(stride);
      1 + ComposedDepthAll(a, ss, ds)
  }

  ghost function ComposedDepthAll(a: seq<Mode>, ss: seq<IntTuple>, ds: seq<IntTuple>): nat
    requires ShapedAll(ss, ds)
    decreases ss, 0
  {
    if ss == [] then 0 else
      ShapedSplit(ss, ds);
      Max(ComposedDepth(a, ss[0], ds[0]), ComposedDepthAll(a, ss[1..], ds[1..]))
  }

  lemma LeafDepth(a: seq<Mode>, m: Mode)
    requires a != [] && LeafOut(a, m).Ok?
    ensures Depth(FlatNode(LeafOut(a, m).value).0) == if Spreads(a, m) then 1 else 0
  {
    var out := LeafOut(a, m).value;
    FlatListModes(out);
    if m.s > 1 && m.d > 0 {
      WalkSpreads(a, m.s, m.d);
    }
  }

  lemma {:induction false} TreeDepth(a: seq<Mode>, shape: IntTuple, stride: IntTuple)
    requires a != [] && Shaped(shape, stride) && NonEmpty(shape) && ComposeTree(a, shape, stride).Ok?
    ensures NonEmpty(ComposeTree(a, shape, stride).value.0)
    ensures Depth(ComposeTree(a, shape, stride).value.0) == ComposedDepth(a, shape, stride)
    decreases shape, 1
  {
    if shape.Int? {
      assert Leaves(shape)[0] == shape.v && Leaves(stride)[0] == stride.v;
      LeafDepth(a, Mode(shape.v, stride.v));
      FlatNodeModes(LeafOut(a, Mode(shape.v, stride.v)).value);
    } else {
      assert LeavesAll(shape.items) == Leaves(shape) && LeavesAll(stride.items) == Leaves(stride);
      TreesDepth(a, shape.items, stride.items);
    }
  }

  lemma {:induction false} TreesDepth(a: seq<Mode>, ss: seq<IntTuple>, ds: seq<IntTuple>)
    requires a != [] && ShapedAll(ss, ds) && NonEmptyAll(ss) && ComposeTrees(a, ss, ds).Ok?
    ensures var cs := ComposeTrees(a, ss, ds).value.0;
            NonEmptyAll(cs) && |cs| == |ss| && DepthAll(cs) == ComposedDepthAll(a, ss, ds)
    decreases ss, 0
  {
    if ss != [] {
      ShapedSplit(ss, ds);
      TreeDepth(a, ss[0], ds[0]);
      TreesDepth(a, ss[1..], ds[1..]);
      var (s, cs) := (ComposeTree(a, ss[0], ds[0]).value.0, ComposeTrees(a, ss[1..], ds[1..]).value.0);
      assert ([s] + cs)[1..] == cs;
    }
  }

  /** What the last index of every mode of `bs` reads in `a`, added up. */
  function LastRead(a: seq<Mode>, bs: seq<Mode>): nat {
    if bs == [] then 0 else
      MulMono(0, bs[0].s - 1, bs[0].d);
      Offset(a, (bs[0].s - 1) * bs[0].d) + LastRead(a, bs[1..])
  }

  lemma LeafSpan(a: seq<Mode>, m: Mode)
    requires a != [] && LeafOut(a, m).Ok?
    ensures 0 <= (m.s - 1) * m.d && Span(OrUnit(LeafOut(a, m).value)) == Offset(a, (m.s - 1) * m.d)
    ensures Size(OrUnit(LeafOut(a, m).value)) == m.s
  {
    var out := LeafOut(a, m).value;
    MulMono(0, m.s - 1, m.d);
    LeafOutReads(a, m, m.s - 1);
    Inverses.SpanReached(out);
    OrUnitWrapped(out, 0);
    assert [Mode(1, 0)][1..] == [];
  }

  lemma {:induction false} FlatSpan(a: seq<Mode>, bs: seq<Mode>)
    requires a != [] && ComposeFlat(a, bs).Ok?
    ensures Span(ComposeFlat(a, bs).value) == LastRead(a, bs) && Size(ComposeFlat(a, bs).value) == Size(bs)
  {
    if bs != [] {
      var (x, y) := (OrUnit(LeafOut(a, bs[0]).value), ComposeFlat(a, bs[1..]).value);
      LeafSpan(a, bs[0]);
      FlatSpan(a, bs[1..]);
      SpanConcat(x, y);
      SizeConcat(x, y);
    }
  }

  // ---- composition

  /** Every mode of `bs` lines up with `a` and has the strides it needs. */
  ghost predicate AllComposable(a: seq<Mode>, bs: seq<Mode>) { forall m :: m in bs ==> Composable(a, m) }

  /** `composition` succeeds if and only if every mode composes on its own, the levels the spread modes
      add are allowed and the last read fits 64 bits. */
  lemma ComposeExact(l: Layout, rhs: Layout)
    requires Valid(l) && Valid(rhs)
    ensures var (a, bs) := (FlatModes(l), FlatModes(rhs));
            (Compose(l, rhs).Ok? <==>
               AllComposable(a, bs) && ComposedDepth(a, rhs.shape, rhs.stride) <= MAX_DEPTH &&
               LastRead(a, bs) < I64_MAX) &&
            (Compose(l, rhs).Err? ==>
               var e := Compose(l, rhs).error;
               if AllComposable(a, bs) then
                 e == if ComposedDepth(a, rhs.shape, rhs.stride) > MAX_DEPTH then TooDeep else Overflow
               else exists m :: m in bs && Why(a, m, e))
  {
    var (a, bs) := (FlatModes(l), FlatModes(rhs));
    ComposeTreeExact(a, rhs.shape, rhs.stride);
    if ComposeTree(a, rhs.shape, rhs.stride).Ok? {
      var (s, d) := ComposeTree(a, rhs.shape, rhs.stride).value;
      TreeDepth(a, rhs.shape, rhs.stride);
      ComposeTreeFlat(a, rhs.shape, rhs.stride);
      FlatSpan(a, bs);
      NewTree(s, d);
    }
  }

  /** A shaped, non-empty tree is a layout unless it is too deep or too large. */
  lemma NewTree(shape: IntTuple, stride: IntTuple)
    requires Shaped(shape, stride) && NonEmpty(shape) && Size(Flat(shape, stride)) <= I64_MAX
    ensures NewLayout(shape, stride).Ok? <==> Depth(shape) <= MAX_DEPTH && Span(Flat(shape, stride)) < I64_MAX
    ensures NewLayout(shape, stride).Err? ==>
              NewLayout(shape, stride).error == if Depth(shape) > MAX_DEPTH then TooDeep else Overflow
  {
    NewLayoutValid(shape, stride);
    CongruentLeaves(shape, stride);
    if LeafCheck(Leaves(shape), Leaves(stride), 1).Err? {
      LeafCheckOverflows(Leaves(shape), Leaves(stride), 1);
    } else if Product(Leaves(shape), 1).Err? {
      ProductOverflows(Leaves(shape), 1);
    }
  }

  // ---- division

  /** The modes `complement` fills in, for a tiler that has a complement. */
  function GapModes(ts: seq<Mode>, cotarget: int): seq<Mode> {
    if ComplementModes(ts, cotarget).Ok? then ComplementModes(ts, cotarget).value else []
  }

  /** How many indices the tiling covers: the size rounded up to the reach of the tiler. */
  function TiledSize(size: pos, ts: seq<Mode>): (n: pos) {
    MulPos(CeilDiv(size, Reach(ts)), Reach(ts));
    CeilDiv(size, Reach(ts)) * Reach(ts)
  }

  lemma UnitComposes(a: seq<Mode>, out: seq<Mode>)
    ensures AllComposable(a, OrUnit(out)) <==> AllComposable(a, out)
    ensures LastRead(a, OrUnit(out)) == LastRead(a, out)
  {
    if out == [] {
      OffsetZero(a);
      assert OrUnit(out)[1..] == [] && (OrUnit(out)[0].s - 1) * OrUnit(out)[0].d == 0;
    }
  }

  lemma {:induction false} AllConcat(a: seq<Mode>, xs: seq<Mode>, ys: seq<Mode>)
    ensures AllComposable(a, xs + ys) <==> AllComposable(a, xs) && AllComposable(a, ys)
    ensures LastRead(a, xs + ys) == LastRead(a, xs) + LastRead(a, ys)
  {
    forall m ensures m in xs + ys <==> m in xs || m in ys {
    }
    if xs == [] {
      assert xs + ys == ys;
    } else {
      assert (xs + ys)[1..] == xs[1..] + ys;
      AllConcat(a, xs[1..], ys);
    }
  }

  lemma {:induction false} FlatDepthAll(a: seq<Mode>, ms: seq<Mode>)
    ensures ShapedAll(Shapes(ms), Strides(ms)) && ComposedDepthAll(a, Shapes(ms), Strides(ms)) <= 1
  {
    FlatListModes(ms);
    if ms != [] {
      FlatDepthAll(a, ms[1..]);
      ShapedSplit(Shapes(ms), Strides(ms));
      assert Shapes(ms)[1..] == Shapes(ms[1..]) && Strides(ms)[1..] == Strides(ms[1..]);
    }
  }

  lemma FlatDepth(a: seq<Mode>, ms: seq<Mode>)
    ensures Shaped(FlatNode(ms).0, FlatNode(ms).1) && ComposedDepth(a, FlatNode(ms).0, FlatNode(ms).1) <= 2
  {
    FlatNodeModes(ms);
    FlatDepthAll(a, ms);
  }

  lemma {:induction false} DepthGrows(a: seq<Mode>, shape: IntTuple, stride: IntTuple)
    requires Shaped(shape, stride)
    ensures Depth(shape) <= ComposedDepth(a, shape, stride)
    decreases shape, 1
  {
    if shape.Tuple? {
      assert LeavesAll(shape.items) == Leaves(shape) && LeavesAll(stride.items) == Leaves(stride);
      DepthGrowsAll(a, shape.items, stride.items);
    }
  }

  lemma {:induction false} DepthGrowsAll(a: seq<Mode>, ss: seq<IntTuple>, ds: seq<IntTuple>)
    requires ShapedAll(ss, ds)
    ensures DepthAll(ss) <= ComposedDepthAll(a, ss, ds)
    decreases ss, 0
  {
    if ss != [] {
      ShapedSplit(ss, ds);
      DepthGrows(a, ss[0], ds[0]);
      DepthGrowsAll(a, ss[1..], ds[1..]);
    }
  }

  lemma PairDepth(a: seq<Mode>, x: Layout, y: Layout)
    requires Valid(x) && Valid(y) && FromPair(x, y).Ok?
    ensures var p := FromPair(x, y).value;
            Valid(p) && ComposedDepth(a, p.shape, p.stride) ==
              1 + Max(ComposedDepth(a, x.shape, x.stride), ComposedDepth(a, y.shape, y.stride))
  {
    FromPairModes(x, y);
    var p := FromPair(x, y).value;
    NewLayoutValid(Tuple([x.shape, y.shape]), Tuple([x.stride, y.stride]));
    PairModes(x, y);
    var (ss, ds) := ([x.shape, y.shape], [x.stride, y.stride]);
    ShapedSplit(ss, ds);
    assert ss[1..] == [y.shape] && ds[1..] == [y.stride] && ss[1..][1..] == [] && ds[1..][1..] == [];
    ShapedSplit(ss[1..], ds[1..]);
    assert ComposedDepthAll(a, ss[1..], ds[1..]) == ComposedDepth(a, y.shape, y.stride);
  }

  /** A tiler and its complement go side by side if there is a level left and the tiling fits. */
  lemma TilingFits(tiler: Layout, size: pos, rest: Layout)
    requires Valid(tiler) && ComplementOf(tiler, size) == Ok(rest)
    ensures Valid(rest) && FlatModes(rest) == OrUnit(GapModes(FlatModes(tiler), size))
    ensures (rest.shape, rest.stride) == FlatNode(GapModes(FlatModes(tiler), size))
    ensures var n := TiledSize(size, FlatModes(tiler));
            (FromPair(tiler, rest).Ok? <==> Depth(tiler.shape) < MAX_DEPTH && n <= I64_MAX) &&
            (FromPair(tiler, rest).Err? ==>
               FromPair(tiler, rest).error == if Depth(tiler.shape) >= MAX_DEPTH then TooDeep else Overflow)
  {
    var ts := FlatModes(tiler);
    var out := GapModes(ts, size);
    ComplementCompletes(tiler, size);
    NewLayoutValid(FlatNode(out).0, FlatNode(out).1);
    FlatNodeModes(out);
    Inverses.PairExact(tiler, rest);
    FilledSpan(ts + FlatModes(rest));
    SpanConcat(ts, FlatModes(rest));
  }

  /** Whether `self` can be divided by `tiler`. */
  ghost predicate Divisible(l: Layout, tiler: Layout)
    requires Valid(l) && Valid(tiler)
  {
    var (a, ts) := (FlatModes(l), FlatModes(tiler));
    var gaps := GapModes(ts, SizeOf(l));
    && Nested(ts) && TiledSize(SizeOf(l), ts) <= I64_MAX
    && AllComposable(a, ts) && AllComposable(a, gaps)
    && ComposedDepth(a, tiler.shape, tiler.stride) < MAX_DEPTH
    && LastRead(a, ts) + LastRead(a, gaps) < I64_MAX
  }

  /** Why a division is declined, in the order the steps are taken. */
  ghost predicate DivideWhy(l: Layout, tiler: Layout, e: LayoutError)
    requires Valid(l) && Valid(tiler)
  {
    var (a, ts) := (FlatModes(l), FlatModes(tiler));
    var gaps := GapModes(ts, SizeOf(l));
    if ComplementOf(tiler, SizeOf(l)).Err? then e == ComplementOf(tiler, SizeOf(l)).error
    else if Depth(tiler.shape) >= MAX_DEPTH then e == TooDeep
    else if TiledSize(SizeOf(l), ts) > I64_MAX then e == Overflow
    else if !AllComposable(a, ts) || !AllComposable(a, gaps) then exists m :: (m in ts || m in gaps) && Why(a, m, e)
    else e == if ComposedDepth(a, tiler.shape, tiler.stride) >= MAX_DEPTH then TooDeep else Overflow
  }

  /** Division succeeds if and only if the tiler's modes step over one another, the tiling fits 64 bits,
      every mode of the tiler and of its complement composes with `self`, and the result is neither too
      deep nor reads too far. */
  lemma DivideExact(l: Layout, tiler: Layout)
    requires Valid(l) && Valid(tiler)
    ensures LogicalDivide(l, tiler).Ok? <==> Divisible(l, tiler)
    ensures LogicalDivide(l, tiler).Err? ==> DivideWhy(l, tiler, LogicalDivide(l, tiler).error)
  {
    var (a, ts) := (FlatModes(l), FlatModes(tiler));
    ComplementFitsTiled(tiler, SizeOf(l));
    DepthGrows(a, tiler.shape, tiler.stride);
    if ComplementOf(tiler, SizeOf(l)).Ok? {
      var rest := ComplementOf(tiler, SizeOf(l)).value;
      TilingFits(tiler, SizeOf(l), rest);
      if FromPair(tiler, rest).Ok? {
        DividePair(l, tiler, rest);
      }
    }
  }

  /** A tiling that fits leaves room for the complement. */
  lemma ComplementFitsTiled(tiler: Layout, size: pos)
    requires Valid(tiler)
    ensures Nested(FlatModes(tiler)) && TiledSize(size, FlatModes(tiler)) <= I64_MAX ==> ComplementOf(tiler, size).Ok?
    ensures ComplementOf(tiler, size).Ok? ==> Nested(FlatModes(tiler))
  {
    ComplementExact(tiler, size);
    MulMono(1, CeilDiv(size, Reach(FlatModes(tiler))), Reach(FlatModes(tiler)));
  }

  /** What composing with a tiling asks, of the tiler and of its gaps. */
  ghost predicate TilingComposes(a: seq<Mode>, tiler: Layout, gaps: seq<Mode>, r: Checked<Layout>)
    requires Valid(tiler)
  {
    var ts := FlatModes(tiler);
    var all := AllComposable(a, ts) && AllComposable(a, gaps);
    var deep := ComposedDepth(a, tiler.shape, tiler.stride) >= MAX_DEPTH;
    && (r.Ok? <==> all && !deep && LastRead(a, ts) + LastRead(a, gaps) < I64_MAX)
    && (r.Err? ==>
          if all then r.error == if deep then TooDeep else Overflow
          else exists m :: (m in ts || m in gaps) && Why(a, m, r.error))
  }

  lemma DividePair(l: Layout, tiler: Layout, rest: Layout)
    requires Valid(l) && Valid(tiler) && ComplementOf(tiler, SizeOf(l)) == Ok(rest) && Valid(rest)
    requires FromPair(tiler, rest).Ok?
    ensures TilingComposes(FlatModes(l), tiler, GapModes(FlatModes(tiler), SizeOf(l)), LogicalDivide(l, tiler))
  {
    var gaps := GapModes(FlatModes(tiler), SizeOf(l));
    var pair := FromPair(tiler, rest).value;
    TilingFits(tiler, SizeOf(l), rest);
    FromPairModes(tiler, rest);
    assert LogicalDivide(l, tiler) == Compose(l, pair);
    PairDepth(FlatModes(l), tiler, rest);
    FlatDepth(FlatModes(l), gaps);
    ComposeTiling(l, tiler, gaps, pair);
  }

  lemma ComposeTiling(l: Layout, tiler: Layout, gaps: seq<Mode>, pair: Layout)
    requires Valid(l) && Valid(tiler) && Valid(pair) && FlatModes(pair) == FlatModes(tiler) + OrUnit(gaps)
    requires ComposedDepth(FlatModes(l), pair.shape, pair.stride) > MAX_DEPTH <==>
             ComposedDepth(FlatModes(l), tiler.shape, tiler.stride) >= MAX_DEPTH
    ensures TilingComposes(FlatModes(l), tiler, gaps, Compose(l, pair))
  {
    var (a, ts) := (FlatModes(l), FlatModes(tiler));
    ComposeExact(l, pair);
    AllConcat(a, ts, OrUnit(gaps));
    UnitComposes(a, gaps);
    var r := Compose(l, pair);
    if r.Err? && !AllComposable(a, FlatModes(pair)) {
      var m :| m in FlatModes(pair) && Why(a, m, r.error);
      UnitNoReason(a, gaps, m, r.error);
    }
  }

  lemma UnitNoReason(a: seq<Mode>, gaps: seq<Mode>, m: Mode, e: LayoutError)
    requires Why(a, m, e)
    ensures m in OrUnit(gaps) ==> m in gaps
  {
  }

  // ---- product

  /** The modes of the complement `rhs` is composed with. */
  function RestModes(l: Layout, target: int): seq<Mode>
    requires Valid(l)
  {
    OrUnit(GapModes(FlatModes(l), target))
  }

  /** How far the complement of `self` has to go. */
  function Target(l: Layout, rhs: Layout): pos
    requires Valid(l) && Valid(rhs)
  {
    MulPos(SizeOf(l), Cosize(rhs));
    SizeOf(l) * Cosize(rhs)
  }

  /** Whether `self` can be multiplied by `rhs`. */
  ghost predicate Multipliable(l: Layout, rhs: Layout)
    requires Valid(l) && Valid(rhs)
  {
    var target := Target(l, rhs);
    var (ms, bs, rest) := (FlatModes(l), FlatModes(rhs), RestModes(l, target));
    && target <= I64_MAX
    && Nested(ms) && Reach(ms) <= I64_MAX && TiledSize(target, ms) - Span(ms) <= I64_MAX
    && AllComposable(rest, bs)
    && Depth(l.shape) < MAX_DEPTH && ComposedDepth(rest, rhs.shape, rhs.stride) < MAX_DEPTH
    && SizeOf(l) * SizeOf(rhs) <= I64_MAX && Cosize(l) + LastRead(rest, bs) <= I64_MAX
  }

  /** Why a product is declined, in the order the steps are taken. */
  ghost predicate MultiplyWhy(l: Layout, rhs: Layout, e: LayoutError)
    requires Valid(l) && Valid(rhs)
  {
    var target := Target(l, rhs);
    var (bs, rest) := (FlatModes(rhs), RestModes(l, target));
    var depth := ComposedDepth(rest, rhs.shape, rhs.stride);
    if target > I64_MAX then e == Overflow
    else if ComplementOf(l, target).Err? then e == ComplementOf(l, target).error
    else if !AllComposable(rest, bs) then exists m :: m in bs && Why(rest, m, e)
    else if depth > MAX_DEPTH then e == TooDeep
    else if LastRead(rest, bs) >= I64_MAX then e == Overflow
    else e == if Depth(l.shape) >= MAX_DEPTH || depth >= MAX_DEPTH then TooDeep else Overflow
  }

  /** A product succeeds if and only if the target fits 64 bits, `self` has a complement up to it, every
      mode of `rhs` composes with that complement, and there is a level and room for the pair. */
  lemma ProductExact(l: Layout, rhs: Layout)
    requires Valid(l) && Valid(rhs)
    ensures LogicalProduct(l, rhs).Ok? <==> Multipliable(l, rhs)
    ensures LogicalProduct(l, rhs).Err? ==> MultiplyWhy(l, rhs, LogicalProduct(l, rhs).error)
  {
    var target := Target(l, rhs);
    ComplementExact(l, target);
    if target <= I64_MAX && ComplementOf(l, target).Ok? {
      var rest := ComplementOf(l, target).value;
      RestLayout(l, target, rest);
      ProductSteps(l, rhs, target, rest);
    }
  }

  lemma RestLayout(l: Layout, target: int, rest: Layout)
    requires Valid(l) && ComplementOf(l, target) == Ok(rest)
    ensures Valid(rest) && FlatModes(rest) == RestModes(l, target)
  {
    var out := GapModes(FlatModes(l), target);
    ComplementCompletes(l, target);
    NewLayoutValid(FlatNode(out).0, FlatNode(out).1);
    FlatNodeModes(out);
  }

  lemma ProductSteps(l: Layout, rhs: Layout, target: pos, rest: Layout)
    requires Valid(l) && Valid(rhs) && Valid(rest) && target == Target(l, rhs) <= I64_MAX
    requires ComplementOf(l, target) == Ok(rest) && FlatModes(rest) == RestModes(l, target)
    ensures LogicalProduct(l, rhs).Ok? <==>
              AllComposable(FlatModes(rest), FlatModes(rhs)) && Depth(l.shape) < MAX_DEPTH &&
              ComposedDepth(FlatModes(rest), rhs.shape, rhs.stride) < MAX_DEPTH &&
              SizeOf(l) * SizeOf(rhs) <= I64_MAX && Cosize(l) + LastRead(FlatModes(rest), FlatModes(rhs)) <= I64_MAX
    ensures LogicalProduct(l, rhs).Err? ==> MultiplyWhy(l, rhs, LogicalProduct(l, rhs).error)
  {
    ComposeExact(rest, rhs);
    var r := Compose(rest, rhs);
    if r.Ok? {
      CopiesMeasured(rest, rhs, r.value);
      Inverses.PairExact(l, r.value);
    }
  }

  lemma CopiesMeasured(rest: Layout, rhs: Layout, copies: Layout)
    requires Valid(rest) && Valid(rhs) && Compose(rest, rhs) == Ok(copies)
    ensures Valid(copies) && SizeOf(copies) == SizeOf(rhs)
    ensures Span(FlatModes(copies)) == LastRead(FlatModes(rest), FlatModes(rhs))
    ensures Depth(copies.shape) == ComposedDepth(FlatModes(rest), rhs.shape, rhs.stride)
  {
    ComposeModes(rest, rhs);
    FlatSpan(FlatModes(rest), FlatModes(rhs));
    TreeDepth(FlatModes(rest), rhs.shape, rhs.stride);
    var (s, d) := ComposeTree(FlatModes(rest), rhs.shape, rhs.stride).value;
    NewLayoutValid(s, d);
  }

  // ---- one of each

  function Line(s: pos, d: nat): Layout { Layout(Int(s), Int(d)) }

  lemma LineModes(s: pos, d: nat)
    requires s <= 100 && d <= 100
    ensures Valid(Line(s, d)) && FlatModes(Line(s, d)) == [Mode(s, d)] && Depth(Line(s, d).shape) == 0
    ensures SizeOf(Line(s, d)) == s && Span(FlatModes(Line(s, d))) == (s - 1) * d
  {
    MulMono(0, s - 1, d);
    MulMono(s - 1, 99, d);
    assert Zip([s as int], [d as int]) == [Mode(s, d)] && [Mode(s, d)][1..] == [];
    MulOne(Size([Mode(s, d)][1..]), s);
  }

  lemma OneComposes(s: pos, d: pos, r: pos, t: pos)
    requires r > 1 && d * t <= I64_MAX
    ensures LeafOut([Mode(s, d)], Mode(r, t)) == Ok([Mode(r, d * t)])
  {
  }

  /** Complement of one mode of stride `d`: the gap below it, and what is left of the cotarget. */
  lemma LineComplement(s: pos, d: pos, cotarget: pos)
    requires s > 1 && s * d <= 100 && cotarget <= 100
    ensures ComplementModes([Mode(s, d)], cotarget)
         == Ok(AddRest(AddGap([], d, 1), s * d, cotarget))
  {
    var ms := [Mode(s, d)];
    assert ms[1..] == [];
    assert NonUnit(ms) == ms;
    SortActive(ms);
    var r := SortModes(ms);
    assert |r| == |multiset(r)| == 1 && r[0] in multiset(ms);
    assert r == ms;
    assert Gaps(ms, 1, []) == Gaps([], s * d, AddGap([], d, 1)) == Ok((AddGap([], d, 1), s * d));
  }

  lemma PairOfLines(s: pos, d: pos, r: pos, t: pos)
    requires s * r <= 100 && s <= 10 && d <= 10 && r <= 10 && t <= 10
    ensures FromPair(Line(s, d), Line(r, t)) == Ok(Layout(Tuple([Int(s), Int(r)]), Tuple([Int(d), Int(t)])))
    ensures Valid(Layout(Tuple([Int(s), Int(r)]), Tuple([Int(d), Int(t)])))
  {
    LineModes(s, d);
    LineModes(r, t);
    MulMono(s - 1, 9, d);
    MulMono(r - 1, 9, t);
    Inverses.PairExact(Line(s, d), Line(r, t));
    NewLayoutValid(Tuple([Int(s), Int(r)]), Tuple([Int(d), Int(t)]));
  }

  /** `8:1` divided by the strided tiler `4:2` is `(4,2):(2,1)`. */
  lemma DividesStrided()
    ensures Valid(Line(8, 1)) && Valid(Line(4, 2))
    ensures LogicalDivide(Line(8, 1), Line(4, 2)) == Ok(Layout(Tuple([Int(4), Int(2)]), Tuple([Int(2), Int(1)])))
  {
    LineModes(8, 1);
    LineModes(4, 2);
    LineModes(2, 1);
    assert ComplementOf(Line(4, 2), 8) == Ok(Line(2, 1)) by {
      LineComplement(4, 2, 8);
      CeilIs(8, 8, 1);
      NewLayoutValid(Int(2), Int(1));
    }
    PairOfLines(4, 2, 2, 1);
    PairComposes(Line(8, 1), 4, 2, 2, 1);
  }

  lemma PairComposes(l: Layout, s: pos, d: pos, r: pos, t: pos)
    requires Valid(l) && FlatModes(l) == [Mode(8, 1)] && s > 1 && r > 1
    requires s * r <= 100 && s <= 10 && d <= 10 && r <= 10 && t <= 10
    ensures var pair := Layout(Tuple([Int(s), Int(r)]), Tuple([Int(d), Int(t)]));
            Valid(pair) && Compose(l, pair) == Ok(pair)
  {
    var (ss, ds) := ([Int(s), Int(r)], [Int(d), Int(t)]);
    PairOfLines(s, d, r, t);
    OneComposes(8, 1, s, d);
    OneComposes(8, 1, r, t);
    PairModes(Line(s, d), Line(r, t));
    LineModes(s, d);
    LineModes(r, t);
    ShapedSplit(ss, ds);
    assert ss[1..] == [Int(r)] && ds[1..] == [Int(t)];
    ShapedSplit(ss[1..], ds[1..]);
    assert ss[1..][1..] == [] && ds[1..][1..] == [];
    assert ComposeTrees([Mode(8, 1)], ss[1..][1..], ds[1..][1..]) == Ok(([], []));
    assert ComposeTrees([Mode(8, 1)], ss[1..], ds[1..]) == Ok(([Int(r)] + [], [Int(t)] + []));
    assert ComposeTrees([Mode(8, 1)], ss, ds) == Ok(([Int(s)] + ([Int(r)] + []), [Int(d)] + ([Int(t)] + [])));
    assert [Int(s)] + ([Int(r)] + []) == ss && [Int(d)] + ([Int(t)] + []) == ds;
    NewLayoutValid(Tuple(ss), Tuple(ds));
  }

  /** `2:1` times `3:1` is `(2,3):(1,2)`. */
  lemma MultipliesLines()
    ensures Valid(Line(2, 1)) && Valid(Line(3, 1))
    ensures LogicalProduct(Line(2, 1), Line(3, 1)) == Ok(Layout(Tuple([Int(2), Int(3)]), Tuple([Int(1), Int(2)])))
  {
    LineModes(2, 1);
    LineModes(3, 1);
    LineModes(3, 2);
    assert ComplementOf(Line(2, 1), 6) == Ok(Line(3, 2)) by {
      LineComplement(2, 1, 6);
      CeilIs(6, 2, 3);
      NewLayoutValid(Int(3), Int(2));
    }
    OneComposes(3, 2, 3, 1);
    assert Compose(Line(3, 2), Line(3, 1)) == Ok(Line(3, 2)) by { NewLayoutValid(Int(3), Int(2)); }
    PairOfLines(2, 1, 3, 2);
  }
}
