/** `right_inverse` and `left_inverse`: the chain of modes whose stride is the extent covered so
    far. A mode list is a bijection onto its size exactly when the chain takes all of it. */
module Inverses {
  import opened Wrappers
  import opened Arith
  import opened Modes
  import opened Layouts
  import opened LayoutOps
  import opened Complements

  // ---- the chain

  /** The first unused mode of extent above 1 whose stride is `covered`, or `|ms|`. */
  function Find(ms: seq<Mode>, used: seq<bool>, covered: nat, from: nat): (k: nat)
    requires |used| == |ms| && from <= |ms|
    ensures k <= |ms|
    ensures k < |ms| ==> !used[k] && ms[k].s > 1 && ms[k].d == covered
    ensures forall j :: from <= j < k ==> !(!used[j] && ms[j].s > 1 && ms[j].d == covered)
    decreases |ms| - from
  {
    if from == |ms| || (!used[from] && ms[from].s > 1 && ms[from].d == covered) then from
    else Find(ms, used, covered, from + 1)
  }

  function Unused(used: seq<bool>): (n: nat)
    ensures n <= |used|
  {
    if used == [] then 0 else (if used[0] then 0 else 1) + Unused(used[1..])
  }

  lemma {:induction false} UnusedMark(used: seq<bool>, k: nat)
    requires k < |used| && !used[k]
    ensures Unused(used[k := true]) == Unused(used) - 1
  {
    if k == 0 {
      assert used[0 := true][1..] == used[1..];
    } else {
      UnusedMark(used[1..], k - 1);
      assert used[k := true][1..] == used[1..][k - 1 := true];
    }
  }

  /** The index stride of mode `k`: the product of the extents before it. */
  function IndexStride(ms: seq<Mode>, k: nat): pos
    requires k <= |ms|
  {
    Size(ms[..k])
  }

  /** The modes of the inverse, from a state of the search on. */
  function Chain(ms: seq<Mode>, used: seq<bool>, covered: pos): seq<Mode>
    requires |used| == |ms|
    decreases Unused(used)
  {
    var k := Find(ms, used, covered, 0);
    if k == |ms| then [] else
      UnusedMark(used, k);
      MulPos(covered, ms[k].s);
      [Mode(ms[k].s, IndexStride(ms, k))] +
      if covered * ms[k].s <= I64_MAX then Chain(ms, used[k := true], covered * ms[k].s) else []
  }

  function NoneUsed(n: nat): (r: seq<bool>)
    ensures |r| == n && forall j :: 0 <= j < n ==> !r[j]
  {
    seq(n, _ => false)
  }

  function RightInverseModes(ms: seq<Mode>): seq<Mode> {
    OrUnit(Coalesced(OrUnit(Chain(ms, NoneUsed(|ms|), 1))))
  }

  lemma {:induction false} IndexStrideNext(ms: seq<Mode>, k: nat)
    requires k < |ms|
    ensures IndexStride(ms, k + 1) == IndexStride(ms, k) * ms[k].s
    ensures IndexStride(ms, k) * Size(ms[k..]) == Size(ms)
  {
    assert ms[..k + 1] == ms[..k] + [ms[k]] && ms == ms[..k] + ms[k..] && [ms[k]][1..] == [];
    SizeConcat(ms[..k], [ms[k]]);
    SizeConcat(ms[..k], ms[k..]);
  }

  function SaturatingMul(a: pos, b: pos): pos {
    MulPos(a, b);
    if a * b <= I64_MAX then a * b else I64_MAX
  }

  /** The running products of the extents. They divide the size, so nothing saturates. */
  method IndexStrides(ms: seq<Mode>) returns (r: seq<pos>)
    requires Size(ms) <= I64_MAX
    ensures |r| == |ms| && forall j :: 0 <= j < |ms| ==> r[j] == IndexStride(ms, j)
  {
    r := [];
    var run: pos := 1;
    for k := 0 to |ms|
      invariant |r| == k && run == IndexStride(ms, k)
      invariant forall j :: 0 <= j < k ==> r[j] == IndexStride(ms, j)
    {
      IndexStrideNext(ms, k);
      IndexStrideFits(ms, k + 1);
      r := r + [run];
      run := SaturatingMul(run, ms[k].s);
    }
  }

  lemma IndexStrideFits(ms: seq<Mode>, k: nat)
    requires k <= |ms|
    ensures IndexStride(ms, k) <= Size(ms)
  {
    assert ms == ms[..k] + ms[k..];
    SizeConcat(ms[..k], ms[k..]);
    MulPos(Size(ms[..k]), Size(ms[k..]));
  }

  /** `right_inverse`: `self(R(i)) == i` below the size of `R`, which is the first offset `self` does
      not read exactly when the modes of `self` fill to a gap; on a bijection it inverts from both
      sides. */
  method RightInverse(l: Layout) returns (r: Layout)
    requires Valid(l)
    ensures Valid(r) && Depth(r.shape) <= 1 && FlatModes(r) == RightInverseModes(FlatModes(l))
    ensures if SizeOf(r) == 1 then r == Layout(Int(1), Int(0)) else Irreducible(FlatModes(r))
    ensures forall i: nat :: i < SizeOf(r) ==>
              Offset(FlatModes(r), i) < SizeOf(l) && Offset(FlatModes(l), Offset(FlatModes(r), i)) == i
    ensures !Hits(FlatModes(l), SizeOf(r)) <==> FillsToAGap(FlatModes(l))
    ensures Bijection(FlatModes(l)) ==>
              SizeOf(r) == SizeOf(l) &&
              forall i: nat :: i < SizeOf(l) ==> Offset(FlatModes(r), Offset(FlatModes(l), i)) == i
  {
    var modes := FlatModes(l);
    var indexStride := IndexStrides(modes);
    var out := SearchChain(modes, indexStride);
    ChainValid(modes);
    r := Coalesce(FromFlat(out));
    forall i: nat | i < SizeOf(r)
        ensures Offset(FlatModes(r), i) < SizeOf(l) && Offset(modes, Offset(FlatModes(r), i)) == i {
      RightInverseInverts(modes, i);
    }
    RightInverseLargest(modes);
    if Bijection(modes) {
      forall i: nat | i < SizeOf(l) ensures SizeOf(r) == SizeOf(l) && Offset(FlatModes(r), Offset(modes, i)) == i {
        RightInverseTwoSided(modes, i);
      }
      RightInverseTwoSided(modes, 0);
    }
  }

  /** What follows mode `k` in the chain. */
  function ChainRest(ms: seq<Mode>, used: seq<bool>, covered: pos, k: nat): seq<Mode>
    requires |used| == |ms| && k < |ms| && !used[k]
  {
    MulPos(covered, ms[k].s);
    if covered * ms[k].s <= I64_MAX then Chain(ms, used[k := true], covered * ms[k].s) else []
  }

  lemma ChainStep(ms: seq<Mode>, used: seq<bool>, covered: pos, out: seq<Mode>, m: Mode)
    requires |used| == |ms| && Find(ms, used, covered, 0) < |ms|
    requires m == Mode(ms[Find(ms, used, covered, 0)].s, IndexStride(ms, Find(ms, used, covered, 0)))
    ensures out + Chain(ms, used, covered) == (out + [m]) + ChainRest(ms, used, covered, Find(ms, used, covered, 0))
  {
    var rest := ChainRest(ms, used, covered, Find(ms, used, covered, 0));
    assert Chain(ms, used, covered) == [m] + rest;
    assert out + ([m] + rest) == (out + [m]) + rest;
  }

  method SearchChain(modes: seq<Mode>, indexStride: seq<pos>) returns (out: seq<Mode>)
    requires |indexStride| == |modes| && forall j :: 0 <= j < |modes| ==> indexStride[j] == IndexStride(modes, j)
    ensures out == Chain(modes, NoneUsed(|modes|), 1)
  {
    var used := NoneUsed(|modes|);
    var covered: pos := 1;
    ghost var whole := Chain(modes, used, 1);
    out := [];
    while true
      invariant |used| == |modes| && whole == out + Chain(modes, used, covered)
      decreases Unused(used)
    {
      var k := Find(modes, used, covered, 0);
      if k == |modes| { break; }
      var m := Mode(modes[k].s, indexStride[k]);
      ChainStep(modes, used, covered, out, m);
      UnusedMark(used, k);
      MulPos(covered, modes[k].s);
      out := out + [m];
      if CheckedMul(covered, modes[k].s).Err? { break; }
      used, covered := used[k := true], covered * modes[k].s;
    }
  }

  // ---- single-digit updates

  lemma {:induction false} DotUpdate(ms: seq<Mode>, cs: seq<nat>, k: nat, v: nat)
    requires |cs| == |ms| && k < |ms| && cs[k] == 0
    ensures Dot(ms, cs[k := v]) == Dot(ms, cs) + v * ms[k].d
  {
    if k == 0 {
      assert cs[0 := v][1..] == cs[1..];
    } else {
      DotUpdate(ms[1..], cs[1..], k - 1, v);
      assert cs[k := v][1..] == cs[1..][k - 1 := v];
    }
  }

  lemma {:induction false} IndexUpdate(ms: seq<Mode>, cs: seq<nat>, k: nat, v: nat)
    requires |cs| == |ms| && k < |ms| && cs[k] == 0
    ensures Index(ms, cs[k := v]) == Index(ms, cs) + v * IndexStride(ms, k)
  {
    if k == 0 {
      assert cs[0 := v][1..] == cs[1..];
    } else {
      var s: int, n: int := ms[0].s, IndexStride(ms[1..], k - 1);
      IndexUpdate(ms[1..], cs[1..], k - 1, v);
      assert cs[k := v][1..] == cs[1..][k - 1 := v];
      assert ms[..k][1..] == ms[1..][..k - 1];
      MulDistribLeft(s, Index(ms[1..], cs[1..]), v * n);
      MulSwap(s, v, n);
    }
  }

  /** Digits that leave every used mode at zero. */
  ghost predicate OnUnused(used: seq<bool>, cs: seq<nat>) {
    |used| == |cs| && forall j :: 0 <= j < |cs| && used[j] ==> cs[j] == 0
  }

  function Zeros(n: nat): (r: seq<nat>)
    ensures |r| == n && forall j :: 0 <= j < n ==> r[j] == 0
  {
    seq(n, _ => 0)
  }

  lemma {:induction false} ZerosRead(ms: seq<Mode>, cs: seq<nat>)
    requires |cs| == |ms| && forall j :: 0 <= j < |cs| ==> cs[j] == 0
    ensures Dot(ms, cs) == 0 && Index(ms, cs) == 0
  {
    if ms != [] {
      ZerosRead(ms[1..], cs[1..]);
    }
  }

  /** The first mode of a chain reads the low digit, what follows it the rest. */
  lemma ChainFront(ms: seq<Mode>, used: seq<bool>, covered: pos, y: nat)
    requires |used| == |ms| && Find(ms, used, covered, 0) < |ms| && y < Size(Chain(ms, used, covered))
    ensures var k := Find(ms, used, covered, 0);
            0 <= y % ms[k].s < ms[k].s && 0 <= y / ms[k].s < Size(ChainRest(ms, used, covered, k)) &&
            Wrapped(Chain(ms, used, covered), y)
            == (y % ms[k].s) * IndexStride(ms, k) + Wrapped(ChainRest(ms, used, covered, k), y / ms[k].s)
  {
    var k := Find(ms, used, covered, 0);
    var m, rest := Mode(ms[k].s, IndexStride(ms, k)), ChainRest(ms, used, covered, k);
    assert Chain(ms, used, covered) == [m] + rest;
    DivMod(y, m.s);
    DivNonneg(y, m.s);
    SizeConcat([m], rest);
    WrappedOne(m, y);
    WrappedConcat([m], rest, y);
    DivBound(y, m.s, Size(rest));
  }

  lemma ChainDigit(covered: pos, s: pos, y: nat)
    ensures covered * y == covered * s * (y / s) + (y % s) * covered
  {
    DivMod(y, s);
    MulDistribLeft(covered, s * (y / s), y % s);
    MulAssoc(covered, s, y / s);
  }

  /** Reading the chain at `y` gives an index at which `ms` reads `covered * y`. */
  lemma {:induction false} ChainReads(ms: seq<Mode>, used: seq<bool>, covered: pos, y: nat) returns (cs: seq<nat>)
    requires |used| == |ms| && y < Size(Chain(ms, used, covered))
    ensures InBox(ms, cs) && OnUnused(used, cs)
    ensures Dot(ms, cs) == covered * y && Index(ms, cs) == Wrapped(Chain(ms, used, covered), y)
    decreases Unused(used)
  {
    var k := Find(ms, used, covered, 0);
    cs := Zeros(|ms|);
    ZerosRead(ms, cs);
    if k < |ms| {
      UnusedMark(used, k);
      var s: pos := ms[k].s;
      MulPos(covered, s);
      var lo: nat, hi: nat := y % s, y / s;
      ChainFront(ms, used, covered, y);
      if covered * s <= I64_MAX {
        cs := ChainReads(ms, used[k := true], covered * s, hi);
      }
      assert cs[k] == 0;
      DotUpdate(ms, cs, k, lo);
      IndexUpdate(ms, cs, k, lo);
      ChainDigit(covered, s, y);
      cs := cs[k := lo];
    }
  }

  /** The search ends with a layout `R` for which `self(R(i)) == i` below its size. */
  lemma RightInverseInverts(ms: seq<Mode>, i: nat)
    requires i < Size(RightInverseModes(ms))
    ensures Offset(RightInverseModes(ms), i) < Size(ms)
    ensures Offset(ms, Offset(RightInverseModes(ms), i)) == i
  {
    var chain := Chain(ms, NoneUsed(|ms|), 1);
    InverseIsChain(ms, i);
    var cs := ChainReads(ms, NoneUsed(|ms|), 1, i);
    OffsetOfIndex(ms, cs);
  }

  lemma InverseIsChain(ms: seq<Mode>, i: nat)
    ensures Size(RightInverseModes(ms)) == Size(Chain(ms, NoneUsed(|ms|), 1))
    ensures i < Size(RightInverseModes(ms)) ==>
            Offset(RightInverseModes(ms), i) == Wrapped(Chain(ms, NoneUsed(|ms|), 1), i)
  {
    var chain := Chain(ms, NoneUsed(|ms|), 1);
    OrUnitSame(chain, i);
    CoalescedSame(OrUnit(chain), i);
    if i < Size(chain) {
      CoalesceAgrees(OrUnit(chain), i);
      OffsetIsDot(OrUnit(chain), i);
    }
  }

  // ---- a bijection is chained to the end

  /** The used modes in place, every other one reduced to extent 1. */
  function Mask(ms: seq<Mode>, used: seq<bool>): (r: seq<Mode>)
    requires |used| == |ms|
    ensures |r| == |ms| && forall j :: 0 <= j < |ms| ==> r[j] == if used[j] then ms[j] else Mode(1, 0)
  {
    seq(|ms|, j requires 0 <= j < |ms| => if used[j] then ms[j] else Mode(1, 0))
  }

  lemma {:induction false} MaskMark(ms: seq<Mode>, used: seq<bool>, k: nat, t: nat)
    requires |used| == |ms| && k < |ms| && !used[k]
    ensures Size(Mask(ms, used[k := true])) == ms[k].s * Size(Mask(ms, used))
    ensures SpanThrough(Mask(ms, used[k := true]), t) == SpanThrough(Mask(ms, used), t) + if ms[k].d <= t
            then (ms[k].s - 1) * ms[k].d else 0
  {
    var x, y := Mask(ms, used), Mask(ms, used[k := true]);
    assert Remove(x, k) == Remove(y, k);
    SizeRemove(x, k);
    SizeRemove(y, k);
    SpanThroughRemove(x, k, t);
    SpanThroughRemove(y, k, t);
  }

  /** Digits that only move used modes read the same through the mask. */
  lemma {:induction false} MaskDot(ms: seq<Mode>, used: seq<bool>, cs: seq<nat>)
    requires |used| == |ms| && InBox(Mask(ms, used), cs)
    ensures InBox(ms, cs) && Dot(Mask(ms, used), cs) == Dot(ms, cs)
  {
    if ms != [] {
      assert Mask(ms, used)[1..] == Mask(ms[1..], used[1..]);
      MaskDot(ms[1..], used[1..], cs[1..]);
      assert Mask(ms, used)[0].s > cs[0];
    }
  }

  /** The used modes fill `[0, covered)`. */
  ghost predicate Chained(ms: seq<Mode>, used: seq<bool>, covered: pos) {
    |used| == |ms| && Filled(Mask(ms, used)) && Size(Mask(ms, used)) == covered
  }

  lemma ChainedMark(ms: seq<Mode>, used: seq<bool>, covered: pos, k: nat)
    requires Chained(ms, used, covered) && k < |ms| && !used[k] && ms[k].s > 1 && ms[k].d == covered
    ensures 1 <= covered * ms[k].s && Chained(ms, used[k := true], covered * ms[k].s)
  {
    var x, y := Mask(ms, used), Mask(ms, used[k := true]);
    MulPos(covered, ms[k].s);
    FilledBelow(x);
    FilledSpan(x);
    NonUnitBelow(x, covered);
    MulDistrib(ms[k].s, 1, covered);
    MaskMark(ms, used, k, covered);
    forall m | m in y && m.s > 1 ensures m.d > 0 && SpanThrough(y, m.d) == m.s * m.d - 1 {
      MaskMark(ms, used, k, m.d);
      assert m == ms[k] || m in x;
    }
  }

  lemma DotAtLeast(ms: seq<Mode>, cs: seq<nat>, j: nat)
    requires |cs| == |ms| && j < |ms| && cs[j] > 0
    ensures ms[j].d <= Dot(ms, cs)
  {
    DotRemove(ms, cs, j);
    MulMono(1, cs[j], ms[j].d);
  }

  /** An unused mode of an injective list cannot start below the extent covered: its stride is already
      read. */
  lemma UnusedAbove(ms: seq<Mode>, used: seq<bool>, covered: pos, k: nat)
    requires Injective(ms) && Chained(ms, used, covered)
    requires k < |ms| && !used[k] && ms[k].s > 1
    ensures covered <= ms[k].d
  {
    if ms[k].d < covered {
      var cs := FilledSurjective(Mask(ms, used), ms[k].d);
      assert Mask(ms, used)[k].s > cs[k];
      MaskDot(ms, used, cs);
      var es := Zeros(|ms|)[k := 1];
      ZerosRead(ms, Zeros(|ms|));
      DotUpdate(ms, Zeros(|ms|), k, 1);
      OffsetOfIndex(ms, cs);
      OffsetOfIndex(ms, es);
      DigitsOfIndex(ms, cs);
      DigitsOfIndex(ms, es);
      assert false;
    }
  }

  /** While a bijection has a larger unused mode, one starts exactly at the extent covered. */
  lemma ChainContinues(ms: seq<Mode>, used: seq<bool>, covered: pos, k: nat)
    requires Bijection(ms) && Chained(ms, used, covered)
    requires k < |ms| && !used[k] && ms[k].s > 1
    ensures Find(ms, used, covered, 0) < |ms|
  {
    if Find(ms, used, covered, 0) == |ms| {
      MaskSize(ms, used, k);
      assert Hits(ms, covered);
      var i: nat :| i < Size(ms) && Offset(ms, i) == covered;
      var cs := Digits(ms, i);
      OffsetIsDot(ms, i);
      DigitsInBox(ms, i);
      var mask := Mask(ms, used);
      if exists j :: 0 <= j < |ms| && !used[j] && cs[j] > 0 {
        var j :| 0 <= j < |ms| && !used[j] && cs[j] > 0;
        UnusedAbove(ms, used, covered, j);
        DotAtLeast(ms, cs, j);
        assert false;
      } else {
        assert InBox(mask, cs);
        MaskDot(ms, used, cs);
        DotAtMostSpan(mask, cs);
        FilledSpan(mask);
        assert false;
      }
    }
  }

  lemma {:induction false} MaskSize(ms: seq<Mode>, used: seq<bool>, k: nat)
    requires |used| == |ms| && k < |ms| && !used[k] && ms[k].s > 1
    ensures Size(Mask(ms, used)) < Size(ms)
  {
    MaskAtMost(ms, used[k := true]);
    MaskMark(ms, used, k, 0);
    MulMono(2, ms[k].s, Size(Mask(ms, used)));
  }

  lemma MaskGrows(s: pos, used: bool, m: pos, n: pos)
    requires m <= n
    ensures (if used then s else 1) * m <= s * n
  {
    MulMono(m, n, s);
    MulPos(s, n);
    MulOne(1, m);
  }

  lemma {:induction false} MaskAtMost(ms: seq<Mode>, used: seq<bool>)
    requires |used| == |ms|
    ensures Size(Mask(ms, used)) <= Size(ms)
  {
    if ms != [] {
      var mask := Mask(ms, used);
      assert mask[1..] == Mask(ms[1..], used[1..]);
      MaskAtMost(ms[1..], used[1..]);
      assert mask[0].s == if used[0] then ms[0].s else 1;
      MaskGrows(ms[0].s, used[0], Size(mask[1..]), Size(ms[1..]));
    }
  }

  lemma {:induction false} MaskAll(ms: seq<Mode>, used: seq<bool>, t: nat)
    requires |used| == |ms| && forall j :: 0 <= j < |ms| && !used[j] ==> ms[j].s == 1
    ensures Size(Mask(ms, used)) == Size(ms) && SpanThrough(Mask(ms, used), t) == SpanThrough(ms, t)
  {
    if ms != [] {
      assert Mask(ms, used)[1..] == Mask(ms[1..], used[1..]);
      MaskAll(ms[1..], used[1..], t);
    }
  }

  /** What the first mode of a chain multiplies. */
  lemma ChainSize(ms: seq<Mode>, used: seq<bool>, covered: pos, k: nat, next: int)
    requires |used| == |ms| && k == Find(ms, used, covered, 0) < |ms| && next == covered * ms[k].s
    ensures covered * Size(Chain(ms, used, covered)) == next * Size(ChainRest(ms, used, covered, k))
  {
    var front, rest := [Mode(ms[k].s, IndexStride(ms, k))], ChainRest(ms, used, covered, k);
    assert Chain(ms, used, covered) == front + rest;
    assert front[1..] == [] && Size(front) == ms[k].s;
    SizeConcat(front, rest);
    MulAssoc(covered, ms[k].s, Size(rest));
  }

  /** A mode the chain takes is covered before it is used. */
  lemma ChainNext(ms: seq<Mode>, used: seq<bool>, covered: pos, k: nat) returns (next: pos)
    requires Chained(ms, used, covered) && Size(ms) <= I64_MAX && k == Find(ms, used, covered, 0) < |ms|
    ensures next == covered * ms[k].s <= I64_MAX && Chained(ms, used[k := true], next)
    ensures Unused(used[k := true]) < Unused(used)
    ensures covered * Size(Chain(ms, used, covered)) == next * Size(Chain(ms, used[k := true], next))
  {
    ChainedMark(ms, used, covered, k);
    UnusedMark(used, k);
    MaskAtMost(ms, used[k := true]);
    next := covered * ms[k].s;
    ChainSize(ms, used, covered, k, next);
  }

  lemma {:induction false} ChainComplete(ms: seq<Mode>, used: seq<bool>, covered: pos)
    requires Bijection(ms) && Size(ms) <= I64_MAX && Chained(ms, used, covered)
    ensures covered * Size(Chain(ms, used, covered)) == Size(ms) && Filled(ms)
    decreases Unused(used)
  {
    var k := Find(ms, used, covered, 0);
    if k < |ms| {
      var next := ChainNext(ms, used, covered, k);
      ChainComplete(ms, used[k := true], next);
    } else {
      AllChained(ms, used, covered);
    }
  }

  lemma AllChained(ms: seq<Mode>, used: seq<bool>, covered: pos)
    requires Bijection(ms) && Chained(ms, used, covered) && Find(ms, used, covered, 0) == |ms|
    ensures covered == Size(ms) && Filled(ms)
  {
    forall j | 0 <= j < |ms| && !used[j] ensures ms[j].s == 1 {
      if ms[j].s > 1 {
        ChainContinues(ms, used, covered, j);
      }
    }
    MaskAll(ms, used, 0);
    forall m | m in ms && m.s > 1 ensures m.d > 0 && SpanThrough(ms, m.d) == m.s * m.d - 1 {
      MaskAll(ms, used, m.d);
      var j :| 0 <= j < |ms| && ms[j] == m;
      assert Mask(ms, used)[j] == m;
    }
  }

  lemma {:induction false} NothingChained(ms: seq<Mode>)
    ensures Chained(ms, NoneUsed(|ms|), 1)
  {
    var mask := Mask(ms, NoneUsed(|ms|));
    if ms != [] {
      NothingChained(ms[1..]);
      assert mask[1..] == Mask(ms[1..], NoneUsed(|ms| - 1));
    }
  }

  /** A mode list reads `[0, n)` onto `[0, n)` exactly when its modes, ordered by stride, each
      start where the ones before them end. */
  lemma BijectionIffFilled(ms: seq<Mode>)
    requires Size(ms) <= I64_MAX
    ensures Bijection(ms) <==> Filled(ms)
  {
    if Filled(ms) {
      FilledBijection(ms);
    }
    if Bijection(ms) {
      NothingChained(ms);
      ChainComplete(ms, NoneUsed(|ms|), 1);
    }
  }

  /** `right_inverse` of a bijection is its two-sided inverse. */
  lemma RightInverseTwoSided(ms: seq<Mode>, i: nat)
    requires Bijection(ms) && Size(ms) <= I64_MAX && i < Size(ms)
    ensures Size(RightInverseModes(ms)) == Size(ms)
    ensures Offset(RightInverseModes(ms), Offset(ms, i)) == i
  {
    NothingChained(ms);
    ChainComplete(ms, NoneUsed(|ms|), 1);
    InverseIsChain(ms, 0);
    assert Offset(ms, i) < Size(ms);
    RightInverseInverts(ms, Offset(ms, i));
  }

  // ---- its measures

  /** The chain makes a valid layout: its indices and offsets fit. */
  lemma ChainValid(ms: seq<Mode>)
    requires Size(ms) <= I64_MAX
    ensures Valid(FromFlat(Chain(ms, NoneUsed(|ms|), 1)))
    ensures FlatModes(FromFlat(Chain(ms, NoneUsed(|ms|), 1))) == OrUnit(Chain(ms, NoneUsed(|ms|), 1))
  {
    var chain := Chain(ms, NoneUsed(|ms|), 1);
    RightInverseMeasures(ms);
    CoalesceFromSpan([], OrUnit(chain));
    OrUnitMeasures(Coalesced(OrUnit(chain)));
    OrUnitMeasures(chain);
    InverseIsChain(ms, 0);
    FromFlatModes(chain);
  }

  lemma RightInverseMeasures(ms: seq<Mode>)
    ensures Span(RightInverseModes(ms)) < Size(ms) && Size(RightInverseModes(ms)) <= Size(ms)
  {
    SpanReached(RightInverseModes(ms));
    RightInverseInverts(ms, Size(RightInverseModes(ms)) - 1);
    RightInverseSmall(ms);
  }

  lemma OrUnitMeasures(ms: seq<Mode>)
    ensures Span(OrUnit(ms)) == Span(ms) && Size(OrUnit(ms)) == Size(ms)
  {
    if ms == [] {
      assert OrUnit(ms)[1..] == [];
    }
  }

  /** The last index reads the largest offset. */
  lemma {:induction false} SpanReached(ms: seq<Mode>)
    ensures Offset(ms, Size(ms) - 1) == Span(ms)
  {
    if |ms| == 1 {
      assert ms[1..] == [];
    } else if |ms| > 1 {
      var s: int, n: int := ms[0].s, Size(ms[1..]);
      MulPos(s, n);
      MulDistribLeft(s, n, 1);
      DivModUnique(s * n - 1, s, n - 1, s - 1);
      SpanReached(ms[1..]);
    }
  }

  lemma RightInverseSmall(ms: seq<Mode>)
    ensures Size(RightInverseModes(ms)) <= Size(ms)
  {
    NothingChained(ms);
    ChainSmall(ms, NoneUsed(|ms|), 1);
    InverseIsChain(ms, 0);
  }

  lemma {:induction false} ChainSmall(ms: seq<Mode>, used: seq<bool>, covered: pos)
    requires Chained(ms, used, covered)
    ensures covered * Size(Chain(ms, used, covered)) <= Size(ms)
    decreases Unused(used)
  {
    var k := Find(ms, used, covered, 0);
    MaskAtMost(ms, used);
    if k < |ms| {
      ChainedMark(ms, used, covered, k);
      MaskAtMost(ms, used[k := true]);
      UnusedMark(used, k);
      var next: pos := covered * ms[k].s;
      var rest := if next <= I64_MAX then Chain(ms, used[k := true], next) else [];
      if next <= I64_MAX {
        ChainSmall(ms, used[k := true], next);
      }
      var front := [Mode(ms[k].s, IndexStride(ms, k))];
      assert front[1..] == [];
      SizeConcat(front, rest);
      MulAssoc(covered, ms[k].s, Size(rest));
    }
  }

  // ---- how much the right inverse covers

  /** Where the chain stops: what it used fills all it covered, and nothing starts there. */
  lemma {:induction false} ChainEnd(ms: seq<Mode>, used: seq<bool>, covered: pos) returns (end: seq<bool>, n: pos)
    requires Chained(ms, used, covered) && Size(ms) <= I64_MAX
    ensures n == covered * Size(Chain(ms, used, covered))
    ensures Chained(ms, end, n) && Find(ms, end, n, 0) == |ms|
    decreases Unused(used)
  {
    var k := Find(ms, used, covered, 0);
    end, n := used, covered;
    if k < |ms| {
      var next := ChainNext(ms, used, covered, k);
      end, n := ChainEnd(ms, used[k := true], next);
    } else {
      assert Chain(ms, used, covered) == [];
    }
  }

  /** A mode the chain passed over although it starts inside what is covered. */
  ghost predicate Passed(ms: seq<Mode>, used: seq<bool>, n: nat, j: nat)
    requires |used| == |ms|
  {
    j < |ms| && !used[j] && ms[j].s > 1 && 0 < ms[j].d <= n
  }

  lemma {:induction false} MaskSpan(ms: seq<Mode>, used: seq<bool>, t: nat)
    requires |used| == |ms|
    ensures SpanThrough(Mask(ms, used), t) <= SpanThrough(ms, t)
    ensures SpanThrough(Mask(ms, used), t) == SpanThrough(ms, t) <==> forall j: nat :: !Passed(ms, used, t, j)
  {
    if ms != [] {
      assert Mask(ms, used)[1..] == Mask(ms[1..], used[1..]);
      MaskSpan(ms[1..], used[1..], t);
      MulMono(0, ms[0].s - 1, ms[0].d);
      if !used[0] && ms[0].s > 1 && 0 < ms[0].d <= t {
        MulMono(1, ms[0].s - 1, ms[0].d);
        assert Passed(ms, used, t, 0);
      } else {
        if ms[0].d == 0 { MulZero(ms[0].s - 1, ms[0].d); }
        PassedTail(ms, used, t);
      }
    }
  }

  lemma PassedTail(ms: seq<Mode>, used: seq<bool>, t: nat)
    requires |used| == |ms| && ms != [] && !Passed(ms, used, t, 0)
    ensures (forall j: nat :: !Passed(ms, used, t, j)) <==> forall j: nat :: !Passed(ms[1..], used[1..], t, j)
  {
    if j: nat :| Passed(ms, used, t, j) {
      assert Passed(ms[1..], used[1..], t, j - 1);
    }
    if j: nat :| Passed(ms[1..], used[1..], t, j) {
      assert Passed(ms, used, t, j + 1);
    }
  }

  lemma PassedHits(ms: seq<Mode>, used: seq<bool>, n: pos, j: nat)
    requires Chained(ms, used, n) && Passed(ms, used, n, j)
    ensures Hits(ms, n)
  {
    var mask := Mask(ms, used);
    var cs := FilledSurjective(mask, n - ms[j].d);
    assert mask[j].s > cs[j];
    MaskDot(ms, used, cs);
    DotUpdate(ms, cs, j, 1);
    OffsetOfIndex(ms, cs[j := 1]);
    assert Offset(ms, Index(ms, cs[j := 1])) == n;
  }

  /** The modes that start within the first `n` offsets fill them: each starts where those below it
      end, and together they end at `n`. */
  ghost predicate Tight(ms: seq<Mode>, n: pos) {
    && SpanThrough(ms, n) == n - 1
    && forall m :: m in ms && m.s > 1 && 0 < m.d <= n ==> SpanThrough(ms, m.d) == m.s * m.d - 1
  }

  /** Some first part of the strides fills an interval, and no mode starts inside it again. It is
      enough to try 1 and the reaches of the modes for `n`. */
  ghost predicate FillsToAGap(ms: seq<Mode>) { exists n: pos :: Tight(ms, n) }

  lemma ChainStops(ms: seq<Mode>) returns (used: seq<bool>, n: pos)
    requires Size(ms) <= I64_MAX
    ensures n == Size(RightInverseModes(ms)) && Chained(ms, used, n) && Find(ms, used, n, 0) == |ms|
    ensures SpanThrough(Mask(ms, used), n) == n - 1
  {
    NothingChained(ms);
    InverseIsChain(ms, 0);
    used, n := ChainEnd(ms, NoneUsed(|ms|), 1);
    FilledBelow(Mask(ms, used));
    NonUnitBelow(Mask(ms, used), n);
    FilledSpan(Mask(ms, used));
  }

  lemma UnpassedTight(ms: seq<Mode>, used: seq<bool>, n: pos)
    requires Chained(ms, used, n) && SpanThrough(Mask(ms, used), n) == n - 1
    requires forall j: nat :: !Passed(ms, used, n, j)
    ensures Tight(ms, n)
  {
    MaskSpan(ms, used, n);
    forall m | m in ms && m.s > 1 && 0 < m.d <= n ensures SpanThrough(ms, m.d) == m.s * m.d - 1 {
      var j :| 0 <= j < |ms| && ms[j] == m;
      assert !Passed(ms, used, n, j);
      assert Mask(ms, used)[j] == m;
      forall k: nat ensures !Passed(ms, used, m.d, k) {
        assert !Passed(ms, used, n, k);
      }
      MaskSpan(ms, used, m.d);
    }
  }

  /** The modes that start within `n`, as marks. */
  function Low(ms: seq<Mode>, n: nat): (r: seq<bool>)
    ensures |r| == |ms| && forall j :: 0 <= j < |ms| ==> r[j] == (ms[j].s > 1 && 0 < ms[j].d <= n)
  {
    seq(|ms|, j requires 0 <= j < |ms| => ms[j].s > 1 && 0 < ms[j].d <= n)
  }

  lemma LowSpan(ms: seq<Mode>, n: nat, t: nat)
    requires t <= n
    ensures SpanThrough(Mask(ms, Low(ms, n)), t) == SpanThrough(ms, t)
  {
    forall j: nat ensures !Passed(ms, Low(ms, n), t, j) {
    }
    MaskSpan(ms, Low(ms, n), t);
  }

  lemma TightFills(ms: seq<Mode>, n: pos)
    requires Tight(ms, n)
    ensures Filled(Mask(ms, Low(ms, n))) && Size(Mask(ms, Low(ms, n))) == n
  {
    var low := Mask(ms, Low(ms, n));
    forall m | m in low && m.s > 1 ensures m.d > 0 && SpanThrough(low, m.d) == m.s * m.d - 1 {
      var j :| 0 <= j < |low| && low[j] == m;
      assert ms[j] == m;
      LowSpan(ms, n, m.d);
    }
    LowSpan(ms, n, n);
    SpanThroughAll(low, n);
    FilledSpan(low);
  }

  /** Digits that stay on strides up to `n` read no more than those span. */
  lemma {:induction false} LowDot(ms: seq<Mode>, cs: seq<nat>, n: nat)
    requires InBox(ms, cs) && forall j :: 0 <= j < |ms| && cs[j] > 0 ==> ms[j].d <= n
    ensures Dot(ms, cs) <= SpanThrough(ms, n)
  {
    if ms != [] {
      LowDot(ms[1..], cs[1..], n);
      MulMono(cs[0], ms[0].s - 1, ms[0].d);
      if cs[0] == 0 { MulZero(cs[0], ms[0].d); }
      MulMono(0, ms[0].s - 1, ms[0].d);
    }
  }

  lemma TightMisses(ms: seq<Mode>, n: pos)
    requires Tight(ms, n)
    ensures !Hits(ms, n)
  {
    if i: nat :| i < Size(ms) && Offset(ms, i) == n {
      var cs := Digits(ms, i);
      OffsetIsDot(ms, i);
      DigitsInBox(ms, i);
      forall j | 0 <= j < |ms| && cs[j] > 0 ensures ms[j].d <= n {
        DotAtLeast(ms, cs, j);
      }
      LowDot(ms, cs, n);
    }
  }

  /** A chain that stops at `n` stops behind every `m` the modes fill. */
  lemma StopsNotBefore(ms: seq<Mode>, used: seq<bool>, n: pos, m: pos)
    requires Chained(ms, used, n) && Find(ms, used, n, 0) == |ms| && Tight(ms, m)
    ensures m <= n
  {
    if n < m {
      TightFills(ms, m);
      FilledBijection(Mask(ms, Low(ms, m)));
      MaskOfMask(ms, used, n, m);
      AllChained(Mask(ms, Low(ms, m)), used, n);
    }
  }

  /** What the chain used below `m` is used in the part below `m` as well. */
  lemma MaskOfMask(ms: seq<Mode>, used: seq<bool>, n: pos, m: pos)
    requires Chained(ms, used, n) && n < m
    ensures Chained(Mask(ms, Low(ms, m)), used, n)
  {
    var low := Mask(ms, Low(ms, m));
    var x, y := NonUnit(Mask(ms, used)), NonUnit(Mask(low, used));
    FilledBelow(Mask(ms, used));
    forall j | 0 <= j < |ms| && used[j] && ms[j].s > 1 ensures low[j] == ms[j] {
      assert Mask(ms, used)[j] == ms[j];
    }
    SameNonUnit(Mask(ms, used), Mask(low, used));
    FilledNonUnit(Mask(ms, used));
    FilledNonUnit(Mask(low, used));
    SpanThroughNonUnit(Mask(ms, used), 0);
    SpanThroughNonUnit(Mask(low, used), 0);
  }

  lemma {:induction false} SameNonUnit(xs: seq<Mode>, ys: seq<Mode>)
    requires |xs| == |ys| && forall j :: 0 <= j < |xs| ==> xs[j] == ys[j] || (xs[j].s == 1 && ys[j].s == 1)
    ensures NonUnit(xs) == NonUnit(ys)
  {
    if xs != [] {
      SameNonUnit(xs[1..], ys[1..]);
    }
  }

  /** The right inverse covers all offsets below its size. The next one is not read exactly when the
      modes fill to a gap, something a caller can look up. */
  lemma RightInverseLargest(ms: seq<Mode>)
    requires Size(ms) <= I64_MAX
    ensures forall x: nat :: x < Size(RightInverseModes(ms)) ==> Hits(ms, x)
    ensures !Hits(ms, Size(RightInverseModes(ms))) <==> FillsToAGap(ms)
  {
    var used, n := ChainStops(ms);
    forall x: nat | x < n ensures Hits(ms, x) {
      RightInverseInverts(ms, x);
      assert Offset(ms, Offset(RightInverseModes(ms), x)) == x;
    }
    if m: pos :| Tight(ms, m) {
      TightMisses(ms, m);
      StopsNotBefore(ms, used, n, m);
      assert m == n;
    } else {
      if forall j: nat :: !Passed(ms, used, n, j) {
        UnpassedTight(ms, used, n);
      }
      var j: nat :| Passed(ms, used, n, j);
      PassedHits(ms, used, n, j);
    }
  }

  /** Where the modes fill to a gap no layout inverts more of `ms` from the right. */
  lemma NoLargerInverse(ms: seq<Mode>, r: seq<Mode>)
    requires Size(ms) <= I64_MAX && FillsToAGap(ms)
    requires forall i: nat :: i < Size(r) ==> Offset(r, i) < Size(ms) && Offset(ms, Offset(r, i)) == i
    ensures Size(r) <= Size(RightInverseModes(ms))
  {
    var n := Size(RightInverseModes(ms));
    if n < Size(r) {
      assert Offset(ms, Offset(r, n)) == n;
      assert Hits(ms, n);
    }
    RightInverseLargest(ms);
  }

  /** So it is whenever `ms` reads no offset twice. */
  lemma InjectiveLargest(ms: seq<Mode>)
    requires Injective(ms) && Size(ms) <= I64_MAX
    ensures FillsToAGap(ms)
  {
    var used, n := ChainStops(ms);
    forall j: nat ensures !Passed(ms, used, n, j) {
      if Passed(ms, used, n, j) {
        UnusedAbove(ms, used, n, j);
      }
    }
    UnpassedTight(ms, used, n);
  }

  /** "As large as the modes allow" fails for `(2,4):(1,1)`: the search takes the first mode of stride
      1 and ends with `2:1`, though `4:2` inverts four offsets. */
  lemma RightInverseTooSmall()
    ensures RightInverseModes([Mode(2, 1), Mode(4, 1)]) == [Mode(2, 1)]
    ensures forall i: nat :: i < 4 ==> Offset([Mode(4, 2)], i) < Size([Mode(2, 1), Mode(4, 1)]) &&
                                       Offset([Mode(2, 1), Mode(4, 1)], Offset([Mode(4, 2)], i)) == i
  {
    var ms := [Mode(2, 1), Mode(4, 1)];
    assert ms[1..] == [Mode(4, 1)] && ms[1..][1..] == [];
    FirstOfTwo(4);
  }

  lemma FirstOfTwo(s: pos)
    ensures RightInverseModes([Mode(2, 1), Mode(s, 1)]) == [Mode(2, 1)]
  {
    var ms := [Mode(2, 1), Mode(s, 1)];
    assert Find(ms, NoneUsed(2), 1, 0) == 0;
    var used := NoneUsed(2)[0 := true];
    assert used[0] && !used[1];
    assert Find(ms, used, 2, 2) == 2;
    assert Find(ms, used, 2, 1) == 2;
    assert Find(ms, used, 2, 0) == 2;
    assert Chain(ms, used, 2) == [];
    assert ms[..0] == [];
    assert Chain(ms, NoneUsed(2), 1) == [Mode(2, 1)];
    assert CoalesceFrom([Mode(2, 1)], []) == [Mode(2, 1)];
    assert [Mode(2, 1)][1..] == [];
    assert Coalesced([Mode(2, 1)]) == [Mode(2, 1)];
  }

  lemma {:induction false} ThreeIndices(r: seq<Mode>)
    requires Size(r) == 3
    ensures Offset(r, 2) == 2 * Offset(r, 1)
  {
    var s, rest: int := r[0].s, Size(r[1..]);
    if s >= 4 {
      MulMono(4, s, rest);
    }
    if |r| > 1 {
      if s == 1 {
        ThreeIndices(r[1..]);
      } else {
        assert s == 3;
        OffsetZero(r[1..]);
      }
    }
  }

  /** Filling to a gap is sufficient, not necessary: `(2,2):(1,1)` does not, its right inverse is `2:1`
      though offset 2 is read, and still no layout inverts more than two offsets. */
  lemma GapNotNecessary(r: seq<Mode>)
    requires forall i: nat :: i < Size(r) ==>
               Offset(r, i) < Size([Mode(2, 1), Mode(2, 1)]) && Offset([Mode(2, 1), Mode(2, 1)], Offset(r, i)) == i
    ensures !FillsToAGap([Mode(2, 1), Mode(2, 1)]) && Size(RightInverseModes([Mode(2, 1), Mode(2, 1)])) == 2
    ensures Size(r) <= 2
  {
    var ms := [Mode(2, 1), Mode(2, 1)];
    FirstOfTwo(2);
    TwoPlusTwo();
    assert Hits(ms, 2);
    RightInverseLargest(ms);
    if Size(r) > 2 {
      var last: nat := Size(r) - 1;
      assert Offset(ms, Offset(r, last)) == last;
      assert Offset(ms, Offset(r, 1)) == 1;
      ThreeIndices(r);
    }
  }

  lemma TwoPlusTwo()
    ensures Size([Mode(2, 1), Mode(2, 1)]) == 4 && Offset([Mode(2, 1), Mode(2, 1)], 3) == 2
    ensures forall i: nat :: i < 4 ==> Offset([Mode(2, 1), Mode(2, 1)], i) == if i < 2 then i else i - 1
  {
    var ms := [Mode(2, 1), Mode(2, 1)];
    assert ms[1..] == [Mode(2, 1)] && ms[1..][1..] == [];
  }

  // ---- left inverse

  /** Two layouts go side by side if the level above them is allowed and the whole fits. */
  lemma PairExact(a: Layout, b: Layout)
    requires Valid(a) && Valid(b)
    ensures var deep := Depth(a.shape) >= MAX_DEPTH || Depth(b.shape) >= MAX_DEPTH;
            var fits := SizeOf(a) * SizeOf(b) <= I64_MAX && Cosize(a) + Span(FlatModes(b)) <= I64_MAX;
            (FromPair(a, b).Ok? <==> !deep && fits) &&
            (FromPair(a, b).Err? ==> FromPair(a, b).error == if deep then TooDeep else Overflow)
  {
    var shape, stride := Tuple([a.shape, b.shape]), Tuple([a.stride, b.stride]);
    NewLayoutValid(shape, stride);
    PairModes(a, b);
    SizeConcat(FlatModes(a), FlatModes(b));
    SpanConcat(FlatModes(a), FlatModes(b));
    PairTree(a.shape, b.shape);
    CongruentLeaves(shape, stride);
    if LeafCheck(Leaves(shape), Leaves(stride), 1).Err? {
      LeafCheckOverflows(Leaves(shape), Leaves(stride), 1);
    } else if Product(Leaves(shape), 1).Err? {
      ProductOverflows(Leaves(shape), 1);
    }
  }

  lemma PairTree(a: IntTuple, b: IntTuple)
    ensures Depth(Tuple([a, b])) == 1 + Max(Depth(a), Depth(b))
    ensures NonEmpty(Tuple([a, b])) <==> NonEmpty(a) && NonEmpty(b)
  {
    assert [a, b][1..] == [b] && [b][1..] == [];
    assert DepthAll([b]) == Max(Depth(b), 0);
    assert NonEmptyAll([b]) == NonEmpty(b);
  }

  /** `left_inverse`: when it succeeds, for whatever `self`, and which refusal it is when not. */
  method LeftInverse(l: Layout) returns (r: Checked<Layout>)
    requires Valid(l)
    ensures r.Ok? <==> Nested(FlatModes(l)) && Reach(FlatModes(l)) <= I64_MAX && Depth(l.shape) < MAX_DEPTH
    ensures ComplementOf(l, Cosize(l)).Ok? <==> Nested(FlatModes(l)) && Reach(FlatModes(l)) <= I64_MAX
    ensures r.Err? ==> r.error == match ComplementOf(l, Cosize(l)) case Err(e) => e case Ok(_) => TooDeep
    ensures r.Ok? ==> Valid(r.value) && Cosize(l) <= SizeOf(r.value) == Reach(FlatModes(l))
    ensures r.Ok? ==> forall i: nat :: i < SizeOf(l) ==> Offset(FlatModes(r.value), Offset(FlatModes(l), i)) == i
  {
    LeftInverseParts(l);
    var rest := Complement(l, Cosize(l));
    if rest.Err? { return Err(rest.error); }
    ComplementCompletes(l, Cosize(l));
    var full := FromPair(l, rest.value);
    if full.Err? { return Err(full.error); }
    FromPairModes(l, rest.value);
    var inverse := RightInverse(full.value);
    var ms := FlatModes(l);
    SizeConcat(ms, FlatModes(rest.value));
    MulPos(Size(ms), SizeOf(rest.value));
    forall i: nat | i < Size(ms) ensures Offset(FlatModes(inverse), Offset(ms, i)) == i {
      OffsetConcatLow(ms, FlatModes(rest.value), i);
    }
    return Ok(inverse);
  }

  /** At the cosize the complement needs no last run, and the two together are as large as the reach. */
  lemma LeftInverseParts(l: Layout)
    requires Valid(l)
    ensures ComplementOf(l, Cosize(l)).Ok? <==> Nested(FlatModes(l)) && Reach(FlatModes(l)) <= I64_MAX
    ensures ComplementOf(l, Cosize(l)).Ok? ==>
              var rest := ComplementOf(l, Cosize(l)).value;
              Valid(rest) && SizeOf(l) * SizeOf(rest) == Reach(FlatModes(l)) >= Cosize(l) &&
              (if Depth(l.shape) < MAX_DEPTH then FromPair(l, rest).Ok? else FromPair(l, rest) == Err(TooDeep))
  {
    var ms := FlatModes(l);
    ComplementExact(l, Cosize(l));
    if Nested(ms) && Reach(ms) <= I64_MAX {
      SpanBelowReach(ms);
      CeilDivWithin(Cosize(l), Reach(ms));
      CompletedPair(l);
    }
  }

  lemma CompletedPair(l: Layout)
    requires Valid(l) && ComplementOf(l, Cosize(l)).Ok?
    requires Reach(FlatModes(l)) <= I64_MAX && CeilDiv(Cosize(l), Reach(FlatModes(l))) == 1
    ensures var rest := ComplementOf(l, Cosize(l)).value;
            Valid(rest) && SizeOf(l) * SizeOf(rest) == Reach(FlatModes(l)) &&
            (if Depth(l.shape) < MAX_DEPTH then FromPair(l, rest).Ok? else FromPair(l, rest) == Err(TooDeep))
  {
    ComplementCompletes(l, Cosize(l));
    var rest := ComplementOf(l, Cosize(l)).value;
    FilledSpan(FlatModes(l) + FlatModes(rest));
    SpanConcat(FlatModes(l), FlatModes(rest));
    ComplementShallow(l, Cosize(l));
    PairExact(l, rest);
  }

  lemma CeilDivWithin(n: pos, d: pos)
    requires n <= d
    ensures CeilDiv(n, d) == 1
  {
    if CeilDiv(n, d) > 1 {
      MulMono(2, CeilDiv(n, d), d);
    }
  }

  lemma ComplementShallow(l: Layout, cotarget: int)
    requires Valid(l) && ComplementOf(l, cotarget).Ok?
    ensures Depth(ComplementOf(l, cotarget).value.shape) <= 1
  {
    var out := ComplementModes(FlatModes(l), cotarget).value;
    NewLayoutValid(FlatNode(out).0, FlatNode(out).1);
    FlatNodeModes(out);
  }

  // ---- the level a left inverse needs

  function Nest(levels: nat, v: int): IntTuple {
    if levels == 0 then Int(v) else Tuple([Nest(levels - 1, v)])
  }

  lemma {:induction false} NestLeaf(levels: nat, s: pos, d: nat)
    ensures Depth(Nest(levels, s)) == levels && NonEmpty(Nest(levels, s)) && Congruent(Nest(levels, s), Nest(levels, d))
    ensures Leaves(Nest(levels, s)) == [s as int] && Leaves(Nest(levels, d)) == [d as int]
  {
    if levels > 0 {
      NestLeaf(levels - 1, s, d);
      var (x, y) := (Nest(levels - 1, s), Nest(levels - 1, d));
      assert [x][1..] == [] && [y][1..] == [];
      assert LeavesAll([x]) == [s as int] + LeavesAll([]) && LeavesAll([y]) == [d as int] + LeavesAll([]);
      assert DepthAll([x]) == levels - 1 && NonEmptyAll([x]) && CongruentAll([x], [y]);
    }
  }

  lemma NestValid(levels: nat)
    requires levels <= MAX_DEPTH
    ensures var l := Layout(Nest(levels, 2), Nest(levels, 1));
            Valid(l) && FlatModes(l) == [Mode(2, 1)] && Depth(l.shape) == levels
  {
    NestLeaf(levels, 2, 1);
    assert Zip([2], [1]) == [Mode(2, 1)] && [Mode(2, 1)][1..] == [];
  }

  lemma TwoToOne()
    ensures Filled([Mode(2, 1)]) && Nested([Mode(2, 1)]) && Reach([Mode(2, 1)]) == 2 && Bijection([Mode(2, 1)])
  {
    var ms := [Mode(2, 1)];
    assert ms[1..] == [];
    assert SpanThrough(ms, 1) == 1;
    FilledBijection(ms);
  }

  /** `2:1` under sixteen levels is its own inverse, its complement exists, and the left inverse is
      refused: what it is built from is one level deeper. */
  lemma DeepestHasNoLeftInverse(levels: nat)
    requires levels == 16
    ensures var l := Layout(Nest(levels, 2), Nest(levels, 1));
            Valid(l) && Bijection(FlatModes(l)) && ComplementOf(l, Cosize(l)).Ok? &&
            FromPair(l, ComplementOf(l, Cosize(l)).value) == Err(TooDeep)
  {
    NestValid(levels);
    TwoToOne();
    LeftInverseParts(Layout(Nest(levels, 2), Nest(levels, 1)));
  }
}
