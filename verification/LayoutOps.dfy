/** Evaluating a layout (`call`, `crd2idx`, `idx2crd`), the compact column-major layout and
    `coalesce`. */
module LayoutOps {
  import opened Wrappers
  import opened Arith
  import opened Modes
  import opened Layouts

  // ---- call

  function CallResult(ms: seq<Mode>, idx: int): Checked<int> {
    if idx < 0 then Err(OutOfRange)
    else if Offset(ms, idx) <= I64_MAX then Ok(Offset(ms, idx))
    else Err(Overflow)
  }

  /** `Layout::call` over the flattened modes. Every partial sum is checked, and since none is
      negative the call overflows exactly when the offset itself does not fit. */
  method Call(l: Layout, idx: int) returns (r: Checked<int>)
    requires Valid(l)
    ensures r == CallResult(FlatModes(l), idx)
  {
    if idx < 0 { return Err(OutOfRange); }
    var modes := FlatModes(l);
    var rest, off := idx, 0;
    for k := 0 to |modes|
      invariant 0 <= rest && 0 <= off <= I64_MAX
      invariant k < |modes| ==> off + Offset(modes[k..], rest) == Offset(modes, idx)
      invariant k == |modes| ==> off == Offset(modes, idx)
    {
      var s, d := modes[k].s, modes[k].d;
      var c := if k + 1 == |modes| then rest else rest % s;
      assert modes[k..][1..] == modes[k + 1..];
      DivNonneg(rest, s);
      MulMono(0, c, d);
      var step := CheckedMul(c, d);
      if step.Err? { return Err(Overflow); }
      var sum := CheckedAdd(off, step.value);
      if sum.Err? { return Err(Overflow); }
      off := sum.value;
      rest := rest / s;
    }
    return Ok(off);
  }

  // ---- coordinates

  predicate AllPositive(vs: seq<int>) { forall k :: 0 <= k < |vs| ==> vs[k] >= 1 }

  predicate ShapeTree(t: IntTuple) {
    NonEmpty(t) && AllPositive(Leaves(t))
  }

  predicate ShapeTrees(ts: seq<IntTuple>) {
    NonEmptyAll(ts) && AllPositive(LeavesAll(ts))
  }

  lemma ShapeTreesSplit(ts: seq<IntTuple>)
    requires ts != [] && ShapeTrees(ts)
    ensures ShapeTree(ts[0]) && ShapeTrees(ts[1..])
  {
    var front, back := Leaves(ts[0]), LeavesAll(ts[1..]);
    assert LeavesAll(ts) == front + back;
    forall k | 0 <= k < |front| ensures front[k] >= 1 {
      assert (front + back)[k] == front[k];
    }
    forall k | 0 <= k < |back| ensures back[k] >= 1 {
      assert (front + back)[|front| + k] == back[k];
    }
  }

  lemma {:induction false} ProductPositive(vs: seq<int>, acc: int)
    requires acc >= 1 && AllPositive(vs)
    ensures Product(vs, acc).Ok? ==> Product(vs, acc).value >= 1
  {
    if vs != [] {
      MulPos(acc, vs[0]);
      ProductPositive(vs[1..], acc * vs[0]);
    }
  }

  /** `IntTuple::idx2crd`: the natural coordinate of a linear index in a shape. */
  function Idx2Crd(shape: IntTuple, idx: int): Checked<IntTuple>
    requires ShapeTree(shape)
    decreases shape, 1
  {
    if idx < 0 then Err(OutOfRange) else
      match shape
      case Int(_) => Ok(Int(idx))
      case Tuple(items) =>
        assert Leaves(shape) == LeavesAll(items);
        match Idx2CrdAll(items, idx)
        case Ok(crds) => Ok(Tuple(crds))
        case Err(e) => Err(e)
  }

  function Idx2CrdAll(items: seq<IntTuple>, rest: nat): Checked<seq<IntTuple>>
    requires ShapeTrees(items) && items != []
    decreases items, 0
  {
    ShapeTreesSplit(items);
    if |items| == 1 then
      match Idx2Crd(items[0], rest)
      case Ok(c) => Ok([c])
      case Err(e) => Err(e)
    else
      match Product(Leaves(items[0]), 1)
      case Err(e) => Err(e)
      case Ok(sz) =>
        ProductPositive(Leaves(items[0]), 1);
        DivNonneg(rest, sz);
        match Idx2Crd(items[0], rest % sz)
        case Err(e) => Err(e)
        case Ok(c) =>
          match Idx2CrdAll(items[1..], rest / sz)
          case Ok(cs) => Ok([c] + cs)
          case Err(e) => Err(e)
  }

  /** `Layout::crd2idx`: the offset of a coordinate. An integer against a tuple shape is a linear
      index into that sub-layout. */
  function Crd2Idx(crd: IntTuple, shape: IntTuple, stride: IntTuple): Checked<int>
    requires Shaped(shape, stride)
    decreases shape, 1
  {
    match (crd, shape, stride)
    case (Int(c), Int(s), Int(d)) =>
      if c < 0 || c >= s then Err(OutOfRange) else CheckedMul(c, d)
    case (Int(c), _, _) =>
      if c < 0 || c >= Size(Flat(shape, stride)) then Err(OutOfRange) else CallResult(Flat(shape, stride), c)
    case (Tuple(cs), Tuple(ss), Tuple(ds)) =>
      if |cs| == |ss| then Crd2IdxAll(cs, ss, ds, 0) else Err(ProfileMismatch)
    case _ => Err(ProfileMismatch)
  }

  function Crd2IdxAll(cs: seq<IntTuple>, ss: seq<IntTuple>, ds: seq<IntTuple>, off: int): Checked<int>
    requires ShapedAll(ss, ds) && |cs| == |ss|
    decreases ss, 0
  {
    if ss == [] then Ok(off) else
      ShapedSplit(ss, ds);
      match Crd2Idx(cs[0], ss[0], ds[0])
      case Err(e) => Err(e)
      case Ok(o) =>
        match CheckedAdd(off, o)
        case Ok(sum) => Crd2IdxAll(cs[1..], ss[1..], ds[1..], sum)
        case Err(e) => Err(e)
  }

  lemma Idx2CrdAllCons(ss: seq<IntTuple>, i: nat, n: pos, c: IntTuple, cs: seq<IntTuple>)
    requires |ss| > 1 && ShapeTrees(ss) && ShapeTree(ss[0]) && ShapeTrees(ss[1..])
    requires Product(Leaves(ss[0]), 1) == Ok(n) && 0 <= i % n && 0 <= i / n
    requires Idx2Crd(ss[0], i % n) == Ok(c) && Idx2CrdAll(ss[1..], i / n) == Ok(cs)
    ensures Idx2CrdAll(ss, i) == Ok([c] + cs)
  {
  }

  lemma Crd2IdxAllCons(c: IntTuple, cs: seq<IntTuple>, ss: seq<IntTuple>, ds: seq<IntTuple>, off: int, o: int,
      total: int)
    requires ss != [] && ShapedAll(ss, ds) && |cs| + 1 == |ss|
    requires Shaped(ss[0], ds[0]) && ShapedAll(ss[1..], ds[1..])
    requires Crd2Idx(c, ss[0], ds[0]) == Ok(o) && InI64(off + o)
    requires Crd2IdxAll(cs, ss[1..], ds[1..], off + o) == Ok(total)
    ensures Crd2IdxAll([c] + cs, ss, ds, off) == Ok(total)
  {
    assert ([c] + cs)[1..] == cs;
  }

  ghost predicate Fits(ms: seq<Mode>) {
    Span(ms) < I64_MAX && Size(ms) <= I64_MAX
  }

  lemma FitsSplit(xs: seq<Mode>, ys: seq<Mode>)
    requires Fits(xs + ys)
    ensures Fits(xs) && Fits(ys) && Span(xs) + Span(ys) < I64_MAX
  {
    SpanConcat(xs, ys);
    SizeConcat(xs, ys);
    MulPos(Size(xs), Size(ys));
  }

  lemma WrappedBelow(ms: seq<Mode>, i: nat)
    requires i < Size(ms)
    ensures Offset(ms, i) == Wrapped(ms, i) <= Span(ms)
  {
    OffsetIsDot(ms, i);
    DigitsInBox(ms, i);
    DotAtMostSpan(ms, Digits(ms, i));
  }

  /** `crd2idx(idx2crd(i)) == call(i)` below the size: the nested and the flat reading of an index
      agree. */
  lemma {:induction false} CoordinateRoundTrip(shape: IntTuple, stride: IntTuple, i: nat, offset: nat)
      returns (crd: IntTuple)
    requires Shaped(shape, stride) && NonEmpty(shape) && Fits(Flat(shape, stride))
    requires i < Size(Flat(shape, stride)) && offset == Offset(Flat(shape, stride), i)
    ensures ShapeTree(shape) && Idx2Crd(shape, i) == Ok(crd)
    ensures Crd2Idx(crd, shape, stride) == Ok(offset)
    decreases shape, 1
  {
    var ms := Flat(shape, stride);
    WrappedBelow(ms, i);
    if shape.Int? {
      assert ms == [Mode(shape.v, stride.v)] && ms[1..] == [];
      crd := Int(i);
    } else {
      var cs := CoordinateRoundTripAll(shape.items, stride.items, i, 0, offset);
      NonEmptyLeaves(shape);
      crd := Tuple(cs);
    }
  }

  lemma {:induction false} CoordinateRoundTripAll(ss: seq<IntTuple>, ds: seq<IntTuple>, i: nat, off: nat, total: nat)
      returns (cs: seq<IntTuple>)
    requires ShapedAll(ss, ds) && NonEmptyAll(ss) && ss != [] && Fits(FlatAll(ss, ds))
    requires i < Size(FlatAll(ss, ds)) && off + Span(FlatAll(ss, ds)) < I64_MAX
    requires total == off + Offset(FlatAll(ss, ds), i)
    ensures ShapeTrees(ss) && Idx2CrdAll(ss, i) == Ok(cs) && |cs| == |ss|
    ensures Crd2IdxAll(cs, ss, ds, off) == Ok(total)
    decreases ss, 0
  {
    ShapedSplit(ss, ds);
    ShapeTreesSplit(ss);
    if |ss| == 1 {
      cs := CoordinateOne(ss, ds, i, off, total);
    } else {
      cs := CoordinateMore(ss, ds, i, off, total);
    }
  }

  lemma {:induction false} CoordinateOne(ss: seq<IntTuple>, ds: seq<IntTuple>, i: nat, off: nat, total: nat)
      returns (cs: seq<IntTuple>)
    requires ShapedAll(ss, ds) && NonEmptyAll(ss) && |ss| == 1 && Fits(FlatAll(ss, ds)) && ShapeTrees(ss)
    requires i < Size(FlatAll(ss, ds)) && off + Span(FlatAll(ss, ds)) < I64_MAX
    requires total == off + Offset(FlatAll(ss, ds), i)
    ensures Idx2CrdAll(ss, i) == Ok(cs) && |cs| == |ss|
    ensures Crd2IdxAll(cs, ss, ds, off) == Ok(total)
    decreases ss, 0, 0
  {
    var o := CoordinateOnly(ss, ds, i, off);
    var c := CoordinateRoundTrip(ss[0], ds[0], i, o);
    cs := [c];
    Crd2IdxAllLast(c, ss, ds, off, o);
  }

  lemma CoordinateOnly(ss: seq<IntTuple>, ds: seq<IntTuple>, i: nat, off: nat) returns (o: nat)
    requires ShapedAll(ss, ds) && NonEmptyAll(ss) && |ss| == 1 && Fits(FlatAll(ss, ds)) && ShapeTrees(ss)
    requires i < Size(FlatAll(ss, ds)) && off + Span(FlatAll(ss, ds)) < I64_MAX
    ensures Shaped(ss[0], ds[0]) && NonEmpty(ss[0]) && Fits(Flat(ss[0], ds[0]))
    ensures i < Size(Flat(ss[0], ds[0])) && o == Offset(Flat(ss[0], ds[0]), i)
    ensures off + o < I64_MAX && o == Offset(FlatAll(ss, ds), i)
  {
    ShapedSplit(ss, ds);
    assert FlatAll(ss, ds) == Flat(ss[0], ds[0]) by {
      assert FlatAll(ss[1..], ds[1..]) == [] && Flat(ss[0], ds[0]) + [] == Flat(ss[0], ds[0]);
    }
    WrappedBelow(FlatAll(ss, ds), i);
    o := Offset(FlatAll(ss, ds), i);
  }

  lemma {:induction false} CoordinateMore(ss: seq<IntTuple>, ds: seq<IntTuple>, i: nat, off: nat, total: nat)
      returns (cs: seq<IntTuple>)
    requires ShapedAll(ss, ds) && NonEmptyAll(ss) && |ss| > 1 && Fits(FlatAll(ss, ds)) && ShapeTrees(ss)
    requires i < Size(FlatAll(ss, ds)) && off + Span(FlatAll(ss, ds)) < I64_MAX
    requires total == off + Offset(FlatAll(ss, ds), i)
    ensures Idx2CrdAll(ss, i) == Ok(cs) && |cs| == |ss|
    ensures Crd2IdxAll(cs, ss, ds, off) == Ok(total)
    decreases ss, 0, 0
  {
    var q, r, o := CoordinateSplit(ss, ds, i, off);
    var c := CoordinateRoundTrip(ss[0], ds[0], r, o);
    var tail := CoordinateTail(ss, ds, q, off, c, o, total);
    cs := [c] + tail;
  }

  lemma {:induction false} CoordinateTail(ss: seq<IntTuple>, ds: seq<IntTuple>, q: nat, off: nat, c: IntTuple, o: nat,
      total: nat)
    returns (tail: seq<IntTuple>)
    requires ShapedAll(ss, ds) && |ss| > 1 && Shaped(ss[0], ds[0]) && ShapedAll(ss[1..], ds[1..])
    requires NonEmptyAll(ss[1..]) && Fits(FlatAll(ss[1..], ds[1..])) && q < Size(FlatAll(ss[1..], ds[1..]))
    requires off + o + Span(FlatAll(ss[1..], ds[1..])) < I64_MAX
    requires total == off + o + Offset(FlatAll(ss[1..], ds[1..]), q)
    requires Crd2Idx(c, ss[0], ds[0]) == Ok(o)
    ensures ShapeTrees(ss[1..]) && Idx2CrdAll(ss[1..], q) == Ok(tail) && |tail| == |ss| - 1
    ensures Crd2IdxAll([c] + tail, ss, ds, off) == Ok(total)
    decreases ss[1..], 1
  {
    tail := CoordinateRoundTripAll(ss[1..], ds[1..], q, off + o, total);
    Crd2IdxAllCons(c, tail, ss, ds, off, o, total);
  }

  /** The low and high parts of an index, and what the front sub-layout contributes. */
  lemma CoordinateSplit(ss: seq<IntTuple>, ds: seq<IntTuple>, i: nat, off: nat) returns (q: nat, r: nat, o: nat)
    requires ShapedAll(ss, ds) && NonEmptyAll(ss) && |ss| > 1 && Fits(FlatAll(ss, ds)) && ShapeTrees(ss)
    requires i < Size(FlatAll(ss, ds)) && off + Span(FlatAll(ss, ds)) < I64_MAX
    ensures Shaped(ss[0], ds[0]) && ShapedAll(ss[1..], ds[1..]) && ShapeTree(ss[0]) && ShapeTrees(ss[1..])
    ensures r < Size(Flat(ss[0], ds[0])) && Fits(Flat(ss[0], ds[0])) && o == Offset(Flat(ss[0], ds[0]), r)
    ensures q < Size(FlatAll(ss[1..], ds[1..])) && Fits(FlatAll(ss[1..], ds[1..]))
    ensures off + o + Span(FlatAll(ss[1..], ds[1..])) < I64_MAX
    ensures Offset(FlatAll(ss, ds), i) == o + Offset(FlatAll(ss[1..], ds[1..]), q)
    ensures Idx2Crd(ss[0], r).Ok? && Idx2CrdAll(ss[1..], q).Ok? ==>
              Idx2CrdAll(ss, i) == Ok([Idx2Crd(ss[0], r).value] + Idx2CrdAll(ss[1..], q).value)
  {
    CoordinateFront(ss, ds, i);
    ShapeTreesSplit(ss);
    ShapedSplit(ss, ds);
    var x, y := Flat(ss[0], ds[0]), FlatAll(ss[1..], ds[1..]);
    FitsSplit(x, y);
    SpanConcat(x, y);
    q, r := i / Size(x), i % Size(x);
    WrappedBelow(x, r);
    o := Offset(x, r);
    if Idx2Crd(ss[0], r).Ok? && Idx2CrdAll(ss[1..], q).Ok? {
      Idx2CrdAllCons(ss, i, Size(x), Idx2Crd(ss[0], r).value, Idx2CrdAll(ss[1..], q).value);
    }
  }

  lemma Crd2IdxAllLast(c: IntTuple, ss: seq<IntTuple>, ds: seq<IntTuple>, off: int, o: int)
    requires |ss| == 1 && ShapedAll(ss, ds) && Shaped(ss[0], ds[0])
    requires Crd2Idx(c, ss[0], ds[0]) == Ok(o) && InI64(off + o)
    ensures Crd2IdxAll([c], ss, ds, off) == Ok(off + o)
  {
    assert [c][1..] == [];
    assert Crd2IdxAll([], ss[1..], ds[1..], off + o) == Ok(off + o);
  }

  /** The front sub-layout of a tuple reads the low part of the index. */
  lemma CoordinateFront(ss: seq<IntTuple>, ds: seq<IntTuple>, i: nat)
    requires ShapedAll(ss, ds) && NonEmptyAll(ss) && |ss| > 1 && Fits(FlatAll(ss, ds))
    requires i < Size(FlatAll(ss, ds))
    ensures Shaped(ss[0], ds[0]) && ShapedAll(ss[1..], ds[1..])
    ensures Product(Leaves(ss[0]), 1) == Ok(Size(Flat(ss[0], ds[0])))
    ensures var n := Size(Flat(ss[0], ds[0]));
            0 <= i % n < n && 0 <= i / n < Size(FlatAll(ss[1..], ds[1..])) &&
            Offset(FlatAll(ss, ds), i) == Offset(Flat(ss[0], ds[0]), i % n) + Offset(FlatAll(ss[1..], ds[1..]), i / n)
  {
    ShapedSplit(ss, ds);
    var x, y := Flat(ss[0], ds[0]), FlatAll(ss[1..], ds[1..]);
    FitsSplit(x, y);
    SizeConcat(x, y);
    DivMod(i, Size(x));
    DivNonneg(i, Size(x));
    DivBound(i, Size(x), Size(y));
    ProductExact(Leaves(ss[0]), Leaves(ds[0]), 1);
    WrappedBelow(x + y, i);
    WrappedConcat(x, y, i);
    DigitsMod(x, i);
    WrappedBelow(x, i % Size(x));
    WrappedBelow(y, i / Size(x));
  }

  lemma {:induction false} ProductExact(ss: seq<int>, ds: seq<int>, acc: int)
    requires LeavesOk(ss, ds) && 1 <= acc && acc * Size(Zip(ss, ds)) <= I64_MAX
    ensures Product(ss, acc) == Ok(acc * Size(Zip(ss, ds)))
  {
    if ss != [] {
      var rest := Size(Zip(ss[1..], ds[1..]));
      assert Zip(ss, ds)[1..] == Zip(ss[1..], ds[1..]);
      MulPos(acc, ss[0]);
      MulPos(acc * ss[0], rest);
      MulAssoc(acc, ss[0], rest);
      ProductExact(ss[1..], ds[1..], acc * ss[0]);
    }
  }

  // ---- compact column-major

  function ColMajorStrides(t: IntTuple, run: int): Checked<(IntTuple, int)>
    decreases t, 1
  {
    match t
    case Int(s) =>
      (match CheckedMul(run, s)
       case Ok(next) => Ok((Int(run), next))
       case Err(e) => Err(e))
    case Tuple(items) =>
      match ColMajorStridesAll(items, run)
      case Ok((ds, next)) => Ok((Tuple(ds), next))
      case Err(e) => Err(e)
  }

  function ColMajorStridesAll(ts: seq<IntTuple>, run: int): Checked<(seq<IntTuple>, int)>
    decreases ts, 0
  {
    if ts == [] then Ok(([], run)) else
      match ColMajorStrides(ts[0], run)
      case Err(e) => Err(e)
      case Ok((d, next)) =>
        match ColMajorStridesAll(ts[1..], next)
        case Ok((ds, last)) => Ok(([d] + ds, last))
        case Err(e) => Err(e)
  }

  function ColMajor(shape: IntTuple): Checked<Layout> {
    match ColMajorStrides(shape, 1)
    case Ok((stride, _)) => NewLayout(shape, stride)
    case Err(e) => Err(e)
  }

  /** Each stride is `run` times the product of the extents before it. */
  ghost predicate Compact(ms: seq<Mode>, run: int) {
    ms != [] ==> ms[0].d == run && Compact(ms[1..], run * ms[0].s)
  }

  lemma {:induction false} CompactConcat(xs: seq<Mode>, ys: seq<Mode>, run: int)
    requires Compact(xs, run) && Compact(ys, run * Size(xs))
    ensures Compact(xs + ys, run)
  {
    if xs == [] {
      assert xs + ys == ys;
    } else {
      assert (xs + ys)[1..] == xs[1..] + ys;
      MulAssoc(run, xs[0].s, Size(xs[1..]));
      CompactConcat(xs[1..], ys, run * xs[0].s);
    }
  }

  lemma {:induction false} CompactOffset(ms: seq<Mode>, run: nat, i: nat)
    requires ms != [] && Compact(ms, run)
    ensures Offset(ms, i) == run * i
  {
    if |ms| > 1 {
      var s := ms[0].s;
      DivNonneg(i, s);
      DivMod(i, s);
      MulMono(0, s, run);
      CompactOffset(ms[1..], run * s, i / s);
      MulDistribLeft(run, s * (i / s), i % s);
      MulAssoc(run, s, i / s);
    }
  }

  lemma {:induction false} ColMajorCompact(t: IntTuple, run: int)
    requires ColMajorStrides(t, run).Ok? && Shaped(t, ColMajorStrides(t, run).value.0)
    ensures Compact(Flat(t, ColMajorStrides(t, run).value.0), run)
    ensures ColMajorStrides(t, run).value.1 == run * Size(Flat(t, ColMajorStrides(t, run).value.0))
    decreases t, 1
  {
    var d := ColMajorStrides(t, run).value.0;
    if t.Int? {
      var ms := Flat(t, d);
      assert |ms| == 1 && ms[0].s == t.v && ms[0].d == run && ms[1..] == [];
    } else {
      ColMajorCompactAll(t.items, run);
    }
  }

  lemma {:induction false} ColMajorCompactAll(ts: seq<IntTuple>, run: int)
    requires ColMajorStridesAll(ts, run).Ok? && ShapedAll(ts, ColMajorStridesAll(ts, run).value.0)
    ensures Compact(FlatAll(ts, ColMajorStridesAll(ts, run).value.0), run)
    ensures ColMajorStridesAll(ts, run).value.1 == run * Size(FlatAll(ts, ColMajorStridesAll(ts, run).value.0))
    decreases ts, 0
  {
    if ts != [] {
      var ds := ColMajorStridesAll(ts, run).value.0;
      var next := ColMajorStrides(ts[0], run).value.1;
      ShapedSplit(ts, ds);
      assert ds[1..] == ColMajorStridesAll(ts[1..], next).value.0;
      ColMajorCompact(ts[0], run);
      ColMajorCompactAll(ts[1..], next);
      var x, y := Flat(ts[0], ds[0]), FlatAll(ts[1..], ds[1..]);
      SizeConcat(x, y);
      MulAssoc(run, Size(x), Size(y));
      CompactConcat(x, y, run);
    }
  }

  /** The compact column-major layout is the identity, beyond its size too. */
  lemma ColMajorIdentity(shape: IntTuple, i: nat)
    requires ColMajor(shape).Ok?
    ensures Valid(ColMajor(shape).value) && ColMajor(shape).value.shape == shape
    ensures Offset(FlatModes(ColMajor(shape).value), i) == i
  {
    var d := ColMajorStrides(shape, 1).value.0;
    NewLayoutValid(shape, d);
    ColMajorCompact(shape, 1);
    CompactOffset(FlatModes(ColMajor(shape).value), 1, i);
  }

  // ---- coalesce

  /** One step of `coalesce`: skip an extent-1 mode, merge a contiguous one, keep any other. */
  function CoalesceStep(out: seq<Mode>, m: Mode): seq<Mode> {
    if m.s == 1 then out
    else if out == [] then [m]
    else
      var p := out[|out| - 1];
      if CheckedMul(p.s, p.d) == Ok(m.d) then
        MulPos(p.s, m.s);
        out[..|out| - 1] + [Mode(p.s * m.s, p.d)]
      else out + [m]
  }

  function CoalesceFrom(out: seq<Mode>, ms: seq<Mode>): seq<Mode>
    decreases |ms|
  {
    if ms == [] then out else CoalesceFrom(CoalesceStep(out, ms[0]), ms[1..])
  }

  function Coalesced(ms: seq<Mode>): seq<Mode> { CoalesceFrom([], ms) }

  /** Nothing is left to drop or to merge. */
  ghost predicate Irreducible(ms: seq<Mode>) {
    && (forall k :: 0 <= k < |ms| ==> ms[k].s > 1)
    && forall k :: 0 <= k < |ms| - 1 ==> ms[k].s * ms[k].d != ms[k + 1].d
  }

  /** `coalesce`: the same function below the size, on at most one level, with no mode of extent 1
      beside others and no two neighbours that could be one; what has one index becomes `1:0`. */
  method Coalesce(l: Layout) returns (r: Layout)
    requires Valid(l)
    ensures Valid(r) && SizeOf(r) == SizeOf(l) && Cosize(r) == Cosize(l) && Depth(r.shape) <= 1
    ensures forall i: nat :: i < SizeOf(l) ==> Offset(FlatModes(r), i) == Offset(FlatModes(l), i)
    ensures if SizeOf(l) == 1 then r == Layout(Int(1), Int(0)) else Irreducible(FlatModes(r))
    ensures FlatModes(r) == OrUnit(Coalesced(FlatModes(l)))
  {
    var modes := FlatModes(l);
    var out: seq<Mode> := [];
    for k := 0 to |modes|
      invariant CoalesceFrom(out, modes[k..]) == Coalesced(modes)
    {
      assert modes[k..][1..] == modes[k + 1..];
      out := CoalesceStep(out, modes[k]);
    }
    r := FromFlat(out);
    CoalescedValid(modes);
    CoalescedIrreducible(modes);
    forall i: nat | i < SizeOf(l) ensures Offset(FlatModes(r), i) == Offset(modes, i) {
      CoalesceAgrees(modes, i);
    }
  }

  lemma SpanPush(ms: seq<Mode>, m: Mode)
    ensures Span(ms + [m]) == Span(ms) + (m.s - 1) * m.d
  {
    assert [m][1..] == [];
    SpanConcat(ms, [m]);
  }

  lemma MergedSpan(s: int, t: int, d: int)
    ensures (s * t - 1) * d == (s - 1) * d + (t - 1) * (s * d)
  {
    MulDistrib(s * t, 1, d);
    MulDistrib(s, 1, d);
    MulDistrib(t, 1, s * d);
    MulSwap(t, s, d);
    MulAssoc(s, t, d);
  }

  lemma CoalesceStepSpan(out: seq<Mode>, m: Mode)
    ensures Span(CoalesceStep(out, m)) == Span(out) + (m.s - 1) * m.d
  {
    SpanPush(out, m);
    if m.s > 1 && out != [] && CheckedMul(out[|out| - 1].s, out[|out| - 1].d) == Ok(m.d) {
      var front, p := out[..|out| - 1], out[|out| - 1];
      assert out == front + [p];
      MulPos(p.s, m.s);
      SpanPush(front, p);
      SpanPush(front, Mode(p.s * m.s, p.d));
      MergedSpan(p.s, m.s, p.d);
    }
  }

  lemma {:induction false} CoalesceFromSpan(out: seq<Mode>, ms: seq<Mode>)
    ensures Span(CoalesceFrom(out, ms)) == Span(out) + Span(ms)
    decreases |ms|
  {
    if ms != [] {
      CoalesceStepSpan(out, ms[0]);
      CoalesceFromSpan(CoalesceStep(out, ms[0]), ms[1..]);
    }
  }

  /** The merged modes need no checks: they make a valid layout on one level. */
  lemma CoalescedValid(ms: seq<Mode>)
    requires 1 + Span(ms) <= I64_MAX && Size(ms) <= I64_MAX
    ensures Span(Coalesced(ms)) == Span(ms) && Span(OrUnit(Coalesced(ms))) == Span(ms)
    ensures Valid(FromFlat(Coalesced(ms))) && Depth(FromFlat(Coalesced(ms)).shape) <= 1
    ensures FlatModes(FromFlat(Coalesced(ms))) == OrUnit(Coalesced(ms))
    ensures Size(OrUnit(Coalesced(ms))) == Size(ms)
  {
    CoalesceFromSpan([], ms);
    CoalescedSame(ms, 0);
    FromFlatModes(Coalesced(ms));
    FlatNodeModes(Coalesced(ms));
    if Coalesced(ms) == [] {
      assert OrUnit(Coalesced(ms))[1..] == [];
    }
  }

  lemma CoalesceStepIrreducible(out: seq<Mode>, m: Mode)
    requires Irreducible(out) && (m.s > 1 ==> m.d <= I64_MAX)
    ensures Irreducible(CoalesceStep(out, m))
  {
    if m.s > 1 && out != [] {
      var p := out[|out| - 1];
      MulMono(0, p.s, p.d);
      MulPos(p.s, m.s);
    }
  }

  lemma {:induction false} CoalesceFromIrreducible(out: seq<Mode>, ms: seq<Mode>)
    requires Irreducible(out) && forall m :: m in ms && m.s > 1 ==> m.d <= I64_MAX
    ensures Irreducible(CoalesceFrom(out, ms))
    decreases |ms|
  {
    if ms != [] {
      CoalesceStepIrreducible(out, ms[0]);
      CoalesceFromIrreducible(CoalesceStep(out, ms[0]), ms[1..]);
    }
  }

  lemma {:induction false} StrideAtMostSpan(ms: seq<Mode>, m: Mode)
    requires m in ms && m.s > 1
    ensures m.d <= Span(ms)
  {
    MulMono(0, ms[0].s - 1, ms[0].d);
    if m == ms[0] {
      MulMono(1, m.s - 1, m.d);
    } else {
      StrideAtMostSpan(ms[1..], m);
    }
  }

  lemma CoalescedIrreducible(ms: seq<Mode>)
    requires Span(ms) < I64_MAX
    ensures Irreducible(Coalesced(ms))
    ensures Size(ms) == 1 <==> Coalesced(ms) == []
  {
    forall m | m in ms && m.s > 1 ensures m.d <= I64_MAX {
      StrideAtMostSpan(ms, m);
    }
    CoalesceFromIrreducible([], ms);
    CoalescedSame(ms, 0);
    if Coalesced(ms) != [] {
      MulMono(2, Coalesced(ms)[0].s, Size(Coalesced(ms)[1..]));
    }
  }

  /** Two mode lists with the same size that read index `i` the same, periodically. */
  ghost predicate Same(xs: seq<Mode>, ys: seq<Mode>, i: nat) {
    Size(xs) == Size(ys) && Wrapped(xs, i) == Wrapped(ys, i)
  }

  lemma SameFront(xs: seq<Mode>, ys: seq<Mode>, us: seq<Mode>, i: nat)
    requires Same(xs, ys, i)
    ensures Same(xs + us, ys + us, i)
  {
    SizeConcat(xs, us);
    SizeConcat(ys, us);
    WrappedConcat(xs, us, i);
    WrappedConcat(ys, us, i);
  }

  lemma SameBack(xs: seq<Mode>, us: seq<Mode>, vs: seq<Mode>, i: nat)
    requires 0 <= i / Size(xs) && Same(us, vs, i / Size(xs))
    ensures Same(xs + us, xs + vs, i)
  {
    SizeConcat(xs, us);
    SizeConcat(xs, vs);
    WrappedConcat(xs, us, i);
    WrappedConcat(xs, vs, i);
  }

  lemma WrappedOne(m: Mode, i: nat)
    ensures Size([m]) == m.s && Wrapped([m], i) == (i % m.s) * m.d
  {
    assert [m][1..] == [];
    DivNonneg(i, m.s);
    var cs := Digits([m], i);
    assert cs[0] == i % m.s && cs[1..] == [];
    assert Dot([m], cs) == cs[0] * m.d + Dot([m][1..], cs[1..]);
  }

  lemma SameUnit(d: nat, i: nat)
    ensures Same([Mode(1, d)], [], i)
  {
    WrappedOne(Mode(1, d), i);
  }

  lemma SameMerge(p: Mode, s: pos, i: nat)
    ensures 1 <= p.s * s && 0 <= p.s * p.d
    ensures Same([p] + [Mode(s, p.s * p.d)], [Mode(p.s * s, p.d)], i)
  {
    MulPos(p.s, s);
    MulMono(0, p.s, p.d);
    var m, n := Mode(s, p.s * p.d), Mode(p.s * s, p.d);
    DivNonneg(i, p.s);
    SizeConcat([p], [m]);
    WrappedConcat([p], [m], i);
    WrappedOne(p, i);
    WrappedOne(m, i / p.s);
    WrappedOne(n, i);
    DivModMul(i, p.s, s);
    var lo: int, hi: int := i % p.s, i / p.s % s;
    MulDistrib(lo, p.s * hi, p.d);
    MulAssoc(hi, p.s, p.d);
  }

  lemma CoalesceStepSame(out: seq<Mode>, m: Mode, i: nat)
    ensures Same(CoalesceStep(out, m), out + [m], i)
    ensures m.s > 1 ==> Period(CoalesceStep(out, m)) == m.s * m.d
  {
    DivNonneg(i, Size(out));
    if m.s == 1 {
      SameUnit(m.d, i / Size(out));
      SameBack(out, [m], [], i);
      assert out + [] == out;
    } else if out != [] && CheckedMul(out[|out| - 1].s, out[|out| - 1].d) == Ok(m.d) {
      var front, p := out[..|out| - 1], out[|out| - 1];
      DivNonneg(i, Size(front));
      SameMerge(p, m.s, i / Size(front));
      SameBack(front, [p] + [m], [Mode(p.s * m.s, p.d)], i);
      assert front + ([p] + [m]) == out + [m];
      MulAssoc(m.s, p.s, p.d);
    } else {
      assert CoalesceStep(out, m) == out + [m];
    }
  }

  lemma {:induction false} CoalesceFromSame(out: seq<Mode>, ms: seq<Mode>, i: nat)
    ensures Same(CoalesceFrom(out, ms), out + ms, i)
    decreases |ms|
  {
    if ms == [] {
      assert out + ms == out;
    } else {
      var next := CoalesceStep(out, ms[0]);
      CoalesceStepSame(out, ms[0], i);
      CoalesceFromSame(next, ms[1..], i);
      SameFront(next, out + [ms[0]], ms[1..], i);
      assert out + [ms[0]] + ms[1..] == out + ms;
    }
  }

  lemma PeriodNonUnit(ms: seq<Mode>)
    requires ms != []
    ensures NonUnit(ms[1..]) != [] ==> NonUnit(ms) != [] && Period(NonUnit(ms)) == Period(NonUnit(ms[1..]))
    ensures NonUnit(ms[1..]) == [] ==> NonUnit(ms) == if ms[0].s > 1 then [ms[0]] else []
  {
  }

  lemma {:induction false} CoalesceFromPeriod(out: seq<Mode>, ms: seq<Mode>)
    ensures Period(CoalesceFrom(out, ms)) == if NonUnit(ms) == [] then Period(out) else Period(NonUnit(ms))
    decreases |ms|
  {
    if ms != [] {
      CoalesceStepSame(out, ms[0], 0);
      CoalesceFromPeriod(CoalesceStep(out, ms[0]), ms[1..]);
      PeriodNonUnit(ms);
    }
  }

  lemma SameDrift(xs: seq<Mode>, ys: seq<Mode>, p: nat, i: nat)
    requires Same(xs, ys, i) && p == Period(xs)
    ensures Offset(xs, i) == Offset(ys, i) + i / Size(ys) * (p - Period(ys))
  {
    var q: int, r: int := i / Size(ys), Period(ys);
    assert Offset(xs, i) == Wrapped(ys, i) + q * p by { OffsetPeriod(xs, i); }
    assert Offset(ys, i) == Wrapped(ys, i) + q * r by { OffsetPeriod(ys, i); }
    MulDistribLeft(q, p, r);
  }

  lemma OrUnitSame(ms: seq<Mode>, i: nat)
    ensures Same(OrUnit(ms), ms, i) && Period(OrUnit(ms)) == Period(ms)
  {
    SameUnit(0, i);
  }

  lemma CoalescedSame(ms: seq<Mode>, i: nat)
    ensures Same(Coalesced(ms), ms, i) && Same(OrUnit(Coalesced(ms)), ms, i)
    ensures Period(OrUnit(Coalesced(ms))) == Period(NonUnit(ms))
  {
    CoalesceFromSame([], ms, i);
    CoalesceFromPeriod([], ms);
    assert [] + ms == ms;
    OrUnitSame(Coalesced(ms), i);
  }

  /** How far the two readings drift apart, a full turn at a time. */
  lemma CoalesceDrift(ms: seq<Mode>, i: nat)
    ensures Offset(OrUnit(Coalesced(ms)), i) == Offset(ms, i) + i / Size(ms) * (Period(NonUnit(ms)) - Period(ms))
  {
    var (r, p) := (OrUnit(Coalesced(ms)), Period(NonUnit(ms)));
    assert Same(r, ms, i) && p == Period(r) by { CoalescedSame(ms, i); }
    SameDrift(r, ms, p, i);
  }

  /** `coalesce` keeps the size and every offset below it. */
  lemma CoalesceAgrees(ms: seq<Mode>, i: nat)
    requires i < Size(ms)
    ensures Size(Coalesced(ms)) == Size(ms) && Offset(OrUnit(Coalesced(ms)), i) == Offset(ms, i)
  {
    CoalescedSame(ms, i);
    CoalesceDrift(ms, i);
    DivModUnique(i, Size(ms), 0, i);
    MulZero(i / Size(ms), Period(NonUnit(ms)) - Period(ms));
  }

  /** It keeps the offsets beyond the size too, as its documentation says of every `i`, exactly
      when a last extent-1 mode carries on where the last larger mode stops. */
  lemma CoalesceExtrapolates(ms: seq<Mode>)
    ensures (forall i: nat :: Offset(OrUnit(Coalesced(ms)), i) == Offset(ms, i)) <==> Period(ms) == Period(NonUnit(ms))
  {
    if Period(ms) == Period(NonUnit(ms)) {
      forall i: nat ensures Offset(OrUnit(Coalesced(ms)), i) == Offset(ms, i) {
        CoalesceDrift(ms, i);
        MulZero(i / Size(ms), Period(NonUnit(ms)) - Period(ms));
      }
    } else {
      CoalesceDriftOnce(ms);
    }
  }

  lemma CoalesceDriftOnce(ms: seq<Mode>)
    ensures Offset(OrUnit(Coalesced(ms)), Size(ms)) - Offset(ms, Size(ms)) == Period(NonUnit(ms)) - Period(ms)
  {
    assert Size(ms) / Size(ms) == 1 by { DivModUnique(Size(ms), Size(ms), 1, 0); }
    CoalesceDrift(ms, Size(ms));
    MulOne(Size(ms) / Size(ms), Period(NonUnit(ms)) - Period(ms));
  }

  /** An index where the claim of agreement "for every `i`" fails: `(2,1):(1,7)` at 2. */
  lemma CoalesceExtrapolationDiffers()
    ensures Coalesced([Mode(2, 1), Mode(1, 7)]) == [Mode(2, 1)]
    ensures Offset([Mode(2, 1), Mode(1, 7)], 2) == 7 && Offset([Mode(2, 1)], 2) == 2
  {
    var ms := [Mode(2, 1), Mode(1, 7)];
    assert ms[1..] == [Mode(1, 7)] && ms[1..][1..] == [];
    assert CoalesceStep([], ms[0]) == [Mode(2, 1)];
    assert CoalesceFrom([Mode(2, 1)], ms[1..]) == [Mode(2, 1)];
  }

  // ---- which coordinates there are

  /** The coordinate has the profile of the shape, or an index into a sub-layout where that has one, and
      is in range everywhere. */
  predicate InShape(crd: IntTuple, shape: IntTuple, stride: IntTuple)
    requires Shaped(shape, stride)
    decreases shape, 1
  {
    match (crd, shape, stride)
    case (Int(c), _, _) => 0 <= c < Size(Flat(shape, stride))
    case (Tuple(cs), Tuple(ss), Tuple(ds)) => |cs| == |ss| && AllInShape(cs, ss, ds)
    case _ => false
  }

  predicate AllInShape(cs: seq<IntTuple>, ss: seq<IntTuple>, ds: seq<IntTuple>)
    requires ShapedAll(ss, ds) && |cs| == |ss|
    decreases ss, 0
  {
    ss == [] ||
    (ShapedSplit(ss, ds);
     InShape(cs[0], ss[0], ds[0]) && AllInShape(cs[1..], ss[1..], ds[1..]))
  }

  /** A reading that succeeds just when it should, within bounds, and fails for the coordinate only. */
  ghost predicate ReadsWithin(r: Checked<int>, inside: bool, low: int, high: int) {
    match r
    case Ok(offset) => inside && low <= offset <= high
    case Err(e) => !inside && (e == OutOfRange || e == ProfileMismatch)
  }

  /** Reading a coordinate succeeds if and only if it is one of the shape, gives an offset within the
      span, and never overflows. */
  lemma {:induction false} CoordinateExact(crd: IntTuple, shape: IntTuple, stride: IntTuple)
    requires Shaped(shape, stride) && NonEmpty(shape) && Fits(Flat(shape, stride))
    ensures ReadsWithin(Crd2Idx(crd, shape, stride), InShape(crd, shape, stride), 0, Span(Flat(shape, stride)))
    decreases shape, 1
  {
    var ms := Flat(shape, stride);
    match crd
    case Int(c) =>
      if 0 <= c < Size(ms) { WrappedBelow(ms, c); }
      if shape.Int? { LeafReading(shape.v, stride.v, c, ms); }
    case Tuple(cs) =>
      if shape.Tuple? && |cs| == |shape.items| {
        var r, inside := CoordinatesExact(cs, shape.items, stride.items, 0, Span(ms));
      }
  }

  lemma LeafReading(s: int, d: int, c: int, ms: seq<Mode>)
    requires s >= 1 && d >= 0 && ms == [Mode(s, d)] && Fits(ms)
    ensures Size(ms) == s && Span(ms) == (s - 1) * d
    ensures 0 <= c < s ==> 0 <= c * d <= (s - 1) * d && CheckedMul(c, d) == Ok(c * d)
  {
    assert ms[1..] == [];
    MulOne(Size(ms[1..]), s);
    if 0 <= c < s {
      MulMono(0, c, d);
      MulMono(c, s - 1, d);
    }
  }

  lemma {:induction false} CoordinatesExact(cs: seq<IntTuple>, ss: seq<IntTuple>, ds: seq<IntTuple>, off: nat,
      span: nat)
    returns (r: Checked<int>, inside: bool)
    requires ShapedAll(ss, ds) && NonEmptyAll(ss) && |cs| == |ss| && Fits(FlatAll(ss, ds))
    requires span == Span(FlatAll(ss, ds)) && off + span < I64_MAX
    ensures r == Crd2IdxAll(cs, ss, ds, off) && inside == AllInShape(cs, ss, ds)
    ensures ReadsWithin(r, inside, off, off + span)
    decreases ss, 0
  {
    if ss == [] {
      r, inside := Ok(off), true;
    } else {
      var x, y := CoordinateParts(ss, ds);
      CoordinateExact(cs[0], ss[0], ds[0]);
      var o := Crd2Idx(cs[0], ss[0], ds[0]);
      if o.Ok? {
        r, inside := CoordinatesBehind(cs, ss, ds, off, o.value, x, y);
      } else {
        r, inside := FrontErr(cs, ss, ds, off, o.error);
      }
    }
  }

  /** The coordinates behind one that could be read. */
  lemma {:induction false} CoordinatesBehind(cs: seq<IntTuple>, ss: seq<IntTuple>, ds: seq<IntTuple>, off: nat, o: int,
      x: nat, y: nat)
    returns (r: Checked<int>, inside: bool)
    requires ss != [] && ShapedAll(ss, ds) && |cs| == |ss| && Shaped(ss[0], ds[0]) && ShapedAll(ss[1..], ds[1..])
    requires NonEmptyAll(ss[1..]) && Fits(FlatAll(ss[1..], ds[1..])) && y == Span(FlatAll(ss[1..], ds[1..]))
    requires Crd2Idx(cs[0], ss[0], ds[0]) == Ok(o) && InShape(cs[0], ss[0], ds[0]) && 0 <= o <= x
    requires off + x + y < I64_MAX
    ensures r == Crd2IdxAll(cs, ss, ds, off) && inside == AllInShape(cs, ss, ds)
    ensures ReadsWithin(r, inside, off, off + x + y)
    decreases ss[1..], 1
  {
    var back, rest := CoordinatesExact(cs[1..], ss[1..], ds[1..], off + o, y);
    r, inside := FrontOk(cs, ss, ds, off, o, back, rest, x, y);
  }

  lemma FrontOk(cs: seq<IntTuple>, ss: seq<IntTuple>, ds: seq<IntTuple>, off: nat, o: int, back: Checked<int>,
      rest: bool, x: nat, y: nat)
    returns (r: Checked<int>, inside: bool)
    requires ss != [] && ShapedAll(ss, ds) && |cs| == |ss| && Shaped(ss[0], ds[0]) && ShapedAll(ss[1..], ds[1..])
    requires Crd2Idx(cs[0], ss[0], ds[0]) == Ok(o) && InI64(off + o) && InShape(cs[0], ss[0], ds[0]) && 0 <= o <= x
    requires back == Crd2IdxAll(cs[1..], ss[1..], ds[1..], off + o) && rest == AllInShape(cs[1..], ss[1..], ds[1..])
    requires ReadsWithin(back, rest, off + o, off + o + y)
    ensures r == Crd2IdxAll(cs, ss, ds, off) && inside == AllInShape(cs, ss, ds)
    ensures ReadsWithin(r, inside, off, off + x + y)
  {
    r, inside := back, rest;
  }

  lemma FrontErr(cs: seq<IntTuple>, ss: seq<IntTuple>, ds: seq<IntTuple>, off: nat, e: LayoutError)
    returns (r: Checked<int>, inside: bool)
    requires ss != [] && ShapedAll(ss, ds) && |cs| == |ss| && Shaped(ss[0], ds[0])
    requires Crd2Idx(cs[0], ss[0], ds[0]) == Err(e) && !InShape(cs[0], ss[0], ds[0])
    requires e == OutOfRange || e == ProfileMismatch
    ensures r == Err(e) && r == Crd2IdxAll(cs, ss, ds, off) && !inside && inside == AllInShape(cs, ss, ds)
  {
    r, inside := Err(e), false;
  }

  lemma CoordinateParts(ss: seq<IntTuple>, ds: seq<IntTuple>) returns (x: nat, y: nat)
    requires ss != [] && ShapedAll(ss, ds) && NonEmptyAll(ss) && Fits(FlatAll(ss, ds))
    ensures Shaped(ss[0], ds[0]) && ShapedAll(ss[1..], ds[1..])
    ensures Fits(Flat(ss[0], ds[0])) && Fits(FlatAll(ss[1..], ds[1..]))
    ensures x == Span(Flat(ss[0], ds[0])) && y == Span(FlatAll(ss[1..], ds[1..])) && Span(FlatAll(ss, ds)) == x + y
  {
    ShapedSplit(ss, ds);
    FitsSplit(Flat(ss[0], ds[0]), FlatAll(ss[1..], ds[1..]));
    SpanConcat(Flat(ss[0], ds[0]), FlatAll(ss[1..], ds[1..]));
    x, y := Span(Flat(ss[0], ds[0])), Span(FlatAll(ss[1..], ds[1..]));
  }
}
