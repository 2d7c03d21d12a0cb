/** What the layout classifiers claim about address maps: storage orders, row-major contiguity and
    the width of offsets. */
module Classify {
  import opened Wrappers
  import opened Arith
  import opened Modes
  import opened Distinctness
  import opened Sorting
  import Complements
  import Inverses
  import KeyCodes

  const MAX_RANK := 8
  const MAX_OPERANDS := 8

  datatype Operand = Operand(shape: seq<int>, strides: seq<int>)

  /** What every descriptor satisfies: at most eight axes of 64-bit extents and strides. */
  predicate Described(od: Operand) {
    && |od.shape| == |od.strides| <= MAX_RANK
    && forall a :: 0 <= a < |od.shape| ==> InI64(od.shape[a]) && I64_MIN < od.strides[a] <= I64_MAX
  }

  predicate Positive(shape: seq<int>) { forall a :: 0 <= a < |shape| ==> shape[a] >= 1 }

  function Abs(x: int): nat { if x < 0 then -x else x }

  // ---- storage order

  function AbsAt(strides: seq<int>, a: nat): nat { if a < |strides| then Abs(strides[a]) else 0 }

  /** Larger stride first, then the lower axis. */
  predicate Outer(strides: seq<int>, a: nat, b: nat) {
    AbsAt(strides, a) > AbsAt(strides, b) || (AbsAt(strides, a) == AbsAt(strides, b) && a <= b)
  }

  function OuterFirst(strides: seq<int>): (nat, nat) -> bool { (a: nat, b: nat) => Outer(strides, a, b) }

  lemma OuterOrders(strides: seq<int>)
    ensures TotalPreorder(OuterFirst(strides))
    ensures forall a: nat, b: nat :: Outer(strides, a, b) && Outer(strides, b, a) ==> a == b
  {
  }

  function Axes(rank: nat): (r: seq<nat>)
    ensures |r| == rank && forall a :: 0 <= a < rank ==> r[a] == a
  {
    seq(rank, a => a)
  }

  ghost predicate Lists(axes: seq<nat>, rank: nat) {
    |axes| == rank && Distinct(axes) && forall p :: 0 <= p < rank ==> axes[p] < rank
  }

  lemma SortedAxes(strides: seq<int>)
    ensures var r := Sort(Axes(|strides|), OuterFirst(strides));
            Lists(r, |strides|) && multiset(r) == multiset(Axes(|strides|)) && InOrder(r, OuterFirst(strides))
  {
    var axes := Axes(|strides|);
    var r := Sort(axes, OuterFirst(strides));
    OuterOrders(strides);
    SortSorts(axes, OuterFirst(strides));
    DistinctPerm(axes, r);
    forall p | 0 <= p < |r| ensures r[p] < |strides| {
      assert r[p] in multiset(axes);
    }
  }

  /** The axes in the order they are stored, outermost first. */
  function StorageOrder(od: Operand): (r: seq<nat>)
    requires |od.shape| == |od.strides|
    ensures Lists(r, |od.shape|) && multiset(r) == multiset(Axes(|od.shape|)) && InOrder(r, OuterFirst(od.strides))
  {
    SortedAxes(od.strides);
    Sort(Axes(|od.strides|), OuterFirst(od.strides))
  }

  function PositionOf(axes: seq<nat>, a: nat): (p: nat)
    requires a in axes
    ensures p < |axes| && axes[p] == a
  {
    if axes[0] == a then 0 else 1 + PositionOf(axes[1..], a)
  }

  /** The walk over the axes, innermost first, with the extent product so far; broadcast axes are
      passed over. */
  function Walk(od: Operand, axes: seq<nat>): (r: Option<int>)
    requires |od.shape| == |od.strides| && forall p :: 0 <= p < |axes| ==> axes[p] < |od.shape|
  {
    if axes == [] then Some(1)
    else
      match Walk(od, axes[1..])
      case None => None
      case Some(acc) =>
        if od.strides[axes[0]] == 0 then Some(acc)
        else if Abs(od.strides[axes[0]]) != acc then None
        else Some(Saturate(acc * od.shape[axes[0]]))
  }

  ghost predicate IsInverse(perm: seq<nat>, axes: seq<nat>) {
    |perm| == |axes| && forall d :: 0 <= d < |perm| ==> perm[d] < |axes| && axes[perm[d]] == d
  }

  /** `classify_mat_layout`: where each axis stands in storage, if the axes that are stored at all
      are packed. */
  method ClassifyMatLayout(od: Operand) returns (r: Option<seq<nat>>)
    requires Described(od)
    ensures r.Some? <==> Walk(od, StorageOrder(od)).Some?
    ensures r.Some? ==> IsInverse(r.value, StorageOrder(od))
  {
    var axes := StorageOrder(od);
    var packed := CheckPacked(od, axes);
    if !packed { return None; }
    var perm := Positions(axes);
    r := Some(perm);
  }

  method CheckPacked(od: Operand, axes: seq<nat>) returns (packed: bool)
    requires |od.shape| == |od.strides| == |axes| && forall p :: 0 <= p < |axes| ==> axes[p] < |od.shape|
    ensures packed <==> Walk(od, axes).Some?
  {
    var acc := 1;
    var i := |axes|;
    assert axes[i..] == [];
    while i > 0
      invariant 0 <= i <= |axes|
      invariant Walk(od, axes[i..]) == Some(acc)
    {
      i := i - 1;
      assert axes[i..][0] == axes[i] && axes[i..][1..] == axes[i + 1..];
      var d := axes[i];
      if od.strides[d] != 0 {
        if Abs(od.strides[d]) != acc {
          WalkStops(od, axes, i);
          return false;
        }
        acc := Saturate(acc * od.shape[d]);
      }
    }
    assert axes[0..] == axes;
    packed := true;
  }

  method Positions(axes: seq<nat>) returns (perm: seq<nat>)
    requires multiset(axes) == multiset(Axes(|axes|))
    ensures IsInverse(perm, axes)
  {
    perm := [];
    for d := 0 to |axes|
      invariant |perm| == d && forall e :: 0 <= e < d ==> perm[e] < |axes| && axes[perm[e]] == e
    {
      assert d in multiset(Axes(|axes|)) by { assert Axes(|axes|)[d] == d; }
      perm := perm + [PositionOf(axes, d)];
    }
  }

  lemma {:induction false} WalkStops(od: Operand, axes: seq<nat>, i: nat)
    requires |od.shape| == |od.strides| && forall p :: 0 <= p < |axes| ==> axes[p] < |od.shape|
    requires i <= |axes| && Walk(od, axes[i..]).None?
    ensures Walk(od, axes).None?
    decreases i
  {
    if i == 0 {
      assert axes[0..] == axes;
    } else {
      assert axes[i - 1..][1..] == axes[i..];
      WalkStops(od, axes, i - 1);
    }
  }

  // ---- what an order says

  /** The stored axes among `axes`, innermost first. */
  function Stored(od: Operand, axes: seq<nat>): (ms: seq<Mode>)
    requires |od.shape| == |od.strides| && Positive(od.shape) && forall p :: 0 <= p < |axes| ==> axes[p] < |od.shape|
  {
    if axes == [] then []
    else Stored(od, axes[1..]) + StoredAxis(od, axes[0])
  }

  function StoredAxis(od: Operand, a: nat): (ms: seq<Mode>)
    requires |od.shape| == |od.strides| && Positive(od.shape) && a < |od.shape|
    ensures |ms| <= 1
  {
    if od.strides[a] == 0 then [] else [Mode(od.shape[a], Abs(od.strides[a]))]
  }

  ghost predicate Below(ms: seq<Mode>) { forall m :: m in ms ==> m.d <= Size(ms) }

  /** A mode whose stride is the size of a filled list fills it up further. */
  lemma FilledSnoc(rest: seq<Mode>, s: pos)
    requires Filled(rest) && Below(rest)
    ensures var ms := rest + [Mode(s, Size(rest))];
            Filled(ms) && Below(ms) && Size(ms) == Size(rest) * s
  {
    var top := Mode(s, Size(rest));
    var ms := rest + [top];
    FilledSpan(rest);
    SizeConcat(rest, [top]);
    assert Size([top]) == s by { assert [top][1..] == []; }
    MulPos(Size(rest), s);
    forall m | m in ms && m.s > 1 ensures m.d > 0 && SpanThrough(ms, m.d) == m.s * m.d - 1 {
      SpanThroughConcat(rest, [top], m.d);
      assert [top][1..] == [];
      if m in rest {
        SpanThroughMember(rest, m);
        SpanAtLeast(rest, m.d);
        MulMono(1, m.s - 1, m.d);
        MulPred(m.s, m.d);
      } else {
        SpanThroughAll(rest, m.d);
        MulPred(s, m.d);
      }
    }
  }

  lemma {:induction false} SpanAtLeast(ms: seq<Mode>, t: nat)
    ensures SpanThrough(ms, t) <= Span(ms)
  {
    if ms != [] {
      SpanAtLeast(ms[1..], t);
      MulMono(0, ms[0].s - 1, ms[0].d);
    }
  }

  lemma SizeStored(od: Operand, axes: seq<nat>)
    requires |od.shape| == |od.strides| && Positive(od.shape) && axes != [] &&
             forall p :: 0 <= p < |axes| ==> axes[p] < |od.shape|
    ensures var rest := Size(Stored(od, axes[1..]));
            Size(Stored(od, axes)) == (if od.strides[axes[0]] == 0 then rest else rest * od.shape[axes[0]]) &&
                rest <= Size(Stored(od, axes))
  {
    var one := StoredAxis(od, axes[0]);
    SizeConcat(Stored(od, axes[1..]), one);
    StoredAxisSize(od, axes[0]);
    MulPos(Size(Stored(od, axes[1..])), Size(one));
  }

  lemma StoredAxisSize(od: Operand, a: nat)
    requires |od.shape| == |od.strides| && Positive(od.shape) && a < |od.shape|
    ensures Size(StoredAxis(od, a)) == if od.strides[a] == 0 then 1 else od.shape[a]
  {
    if od.strides[a] != 0 {
      assert StoredAxis(od, a)[1..] == [];
    }
  }

  lemma {:induction false} WalkFills(od: Operand, axes: seq<nat>)
    requires |od.shape| == |od.strides| && Positive(od.shape) && forall p :: 0 <= p < |axes| ==> axes[p] < |od.shape|
    requires Size(Stored(od, axes)) <= I64_MAX && Walk(od, axes).Some?
    ensures Walk(od, axes).value == Size(Stored(od, axes))
    ensures Filled(Stored(od, axes)) && Below(Stored(od, axes))
  {
    if axes != [] {
      SizeStored(od, axes);
      WalkFills(od, axes[1..]);
      var rest := Stored(od, axes[1..]);
      if od.strides[axes[0]] == 0 {
        assert Stored(od, axes) == rest;
      } else {
        FilledSnoc(rest, od.shape[axes[0]]);
      }
    }
  }

  ghost predicate InFrame(od: Operand, axes: seq<nat>) {
    |od.shape| == |od.strides| && Positive(od.shape) && forall p :: 0 <= p < |axes| ==> axes[p] < |od.shape|
  }

  lemma StoredHead(od: Operand, axes: seq<nat>)
    requires InFrame(od, axes) && axes != []
    ensures InFrame(od, axes[1..])
    ensures multiset(Stored(od, axes)) == multiset(Stored(od, axes[1..])) + multiset(StoredAxis(od, axes[0]))
  {
  }

  lemma {:induction false} StoredRemove(od: Operand, axes: seq<nat>, k: nat)
    requires InFrame(od, axes) && k < |axes|
    ensures InFrame(od, Remove(axes, k))
    ensures multiset(Stored(od, axes)) == multiset(Stored(od, Remove(axes, k))) + multiset(StoredAxis(od, axes[k]))
  {
    StoredHead(od, axes);
    if k == 0 {
      assert Remove(axes, 0) == axes[1..];
    } else {
      StoredRemove(od, axes[1..], k - 1);
      RemoveTail(od, axes, k);
      StoredHead(od, Remove(axes, k));
    }
  }

  lemma RemoveTail(od: Operand, s: seq<nat>, k: nat)
    requires 0 < k < |s| && InFrame(od, s)
    ensures InFrame(od, Remove(s, k)) && Remove(s, k)[0] == s[0] && Remove(s, k)[1..] == Remove(s[1..], k - 1)
  {
  }

  lemma {:induction false} StoredPerm(od: Operand, xs: seq<nat>, ys: seq<nat>)
    requires InFrame(od, xs) && InFrame(od, ys) && multiset(xs) == multiset(ys)
    ensures multiset(Stored(od, xs)) == multiset(Stored(od, ys))
    decreases |xs|
  {
    var k := FindHead(xs, ys);
    if xs != [] {
      SameRest(xs, ys, k);
      StoredHead(od, xs);
      StoredRemove(od, ys, k);
      StoredPerm(od, xs[1..], Remove(ys, k));
    }
  }

  /** The stored axes of an operand, as extents and absolute strides, last axis first. */
  function StoredModes(od: Operand): seq<Mode>
    requires Described(od) && Positive(od.shape)
  {
    Stored(od, Axes(|od.shape|))
  }

  lemma StorageIsAxes(od: Operand)
    requires Described(od) && Positive(od.shape)
    ensures multiset(Stored(od, StorageOrder(od))) == multiset(StoredModes(od))
    ensures Size(Stored(od, StorageOrder(od))) == Size(StoredModes(od))
  {
    StoredPerm(od, StorageOrder(od), Axes(|od.shape|));
    Complements.SizePerm(Stored(od, StorageOrder(od)), StoredModes(od));
  }

  /** An order is only given where the coordinates of the axes that do not broadcast are mapped, by
      absolute stride, one to one onto `[0, product of their extents)`. */
  lemma OrderMeansPacked(od: Operand)
    requires Described(od) && Positive(od.shape) && Size(StoredModes(od)) <= I64_MAX
    requires Walk(od, StorageOrder(od)).Some?
    ensures Filled(StoredModes(od)) && Bijection(StoredModes(od))
  {
    StorageIsAxes(od);
    WalkFills(od, StorageOrder(od));
    FilledPerm(Stored(od, StorageOrder(od)), StoredModes(od));
    FilledBijection(StoredModes(od));
  }

  /** A stored axis of extent 1 has the stride a longer one would need there: the product of the
      stored extents inside it. */
  ghost predicate UnitInPlace(od: Operand, axes: seq<nat>, p: nat)
    requires |od.shape| == |od.strides| && Positive(od.shape) && forall q :: 0 <= q < |axes| ==> axes[q] < |od.shape|
    requires p < |axes|
  {
    od.strides[axes[p]] != 0 && od.shape[axes[p]] == 1 ==>
      Abs(od.strides[axes[p]]) == Size(Stored(od, axes[p + 1..]))
  }

  ghost predicate UnitsInPlace(od: Operand, axes: seq<nat>)
    requires |od.shape| == |od.strides| && Positive(od.shape) && forall q :: 0 <= q < |axes| ==> axes[q] < |od.shape|
  {
    forall p :: 0 <= p < |axes| ==> UnitInPlace(od, axes, p)
  }

  lemma UnitsInPlaceTail(od: Operand, axes: seq<nat>)
    requires |od.shape| == |od.strides| && Positive(od.shape) && forall q :: 0 <= q < |axes| ==> axes[q] < |od.shape|
    requires axes != []
    ensures UnitsInPlace(od, axes) <==> UnitInPlace(od, axes, 0) && UnitsInPlace(od, axes[1..])
  {
    forall p | 0 <= p < |axes| - 1 ensures UnitInPlace(od, axes, p + 1) <==> UnitInPlace(od, axes[1..], p) {
      assert axes[p + 1 + 1..] == axes[1..][p + 1..];
    }
    if UnitsInPlace(od, axes) {
      forall p | 0 <= p < |axes[1..]| ensures UnitInPlace(od, axes[1..], p) {
        assert UnitInPlace(od, axes, p + 1);
      }
    }
    if UnitInPlace(od, axes, 0) && UnitsInPlace(od, axes[1..]) {
      forall p | 0 <= p < |axes| ensures UnitInPlace(od, axes, p) {
        if p > 0 {
          assert UnitInPlace(od, axes[1..], p - 1);
        }
      }
    }
  }

  lemma {:induction false} WalkPlaces(od: Operand, axes: seq<nat>)
    requires |od.shape| == |od.strides| && Positive(od.shape) && forall p :: 0 <= p < |axes| ==> axes[p] < |od.shape|
    requires Size(Stored(od, axes)) <= I64_MAX && Walk(od, axes).Some?
    ensures UnitsInPlace(od, axes)
  {
    if axes != [] {
      SizeStored(od, axes);
      WalkPlaces(od, axes[1..]);
      WalkFills(od, axes[1..]);
      UnitsInPlaceTail(od, axes);
    }
  }

  lemma {:induction false} FilledWalks(od: Operand, axes: seq<nat>)
    requires |od.shape| == |od.strides| && Positive(od.shape) && forall p :: 0 <= p < |axes| ==> axes[p] < |od.shape|
    requires InOrder(axes, OuterFirst(od.strides)) && Filled(Stored(od, axes)) && Size(Stored(od, axes)) <= I64_MAX
    requires UnitsInPlace(od, axes)
    ensures Walk(od, axes).Some?
  {
    if axes != [] {
      SizeStored(od, axes);
      UnitsInPlaceTail(od, axes);
      OuterFilled(od, axes);
      FilledWalks(od, axes[1..]);
      WalkFills(od, axes[1..]);
    }
  }

  /** The outermost axis of a filled list: the rest is filled, and it starts where the rest ends. */
  lemma OuterFilled(od: Operand, axes: seq<nat>)
    requires |od.shape| == |od.strides| && Positive(od.shape) && forall p :: 0 <= p < |axes| ==> axes[p] < |od.shape|
    requires axes != [] && InOrder(axes, OuterFirst(od.strides)) && Filled(Stored(od, axes))
    ensures var a, rest := axes[0], Stored(od, axes[1..]);
            Filled(rest) && (od.strides[a] != 0 && od.shape[a] > 1 ==> Abs(od.strides[a]) == Size(rest))
  {
    var (rest, a) := (Stored(od, axes[1..]), axes[0]);
    if od.strides[a] == 0 {
      assert Stored(od, axes) == rest;
    } else {
      var ms := Stored(od, axes);
      var k := |rest|;
      assert ms == rest + [Mode(od.shape[a], Abs(od.strides[a]))] && Remove(ms, k) == rest;
      forall p | 0 <= p < |axes[1..]| ensures AbsAt(od.strides, axes[1..][p]) <= Abs(od.strides[a]) {
        assert OuterFirst(od.strides)(axes[0], axes[p + 1]);
      }
      StoredStrides(od, axes[1..], Abs(od.strides[a]));
      FilledRemove(ms, k);
      FilledSpan(rest);
    }
  }

  lemma {:induction false} StoredStrides(od: Operand, axes: seq<nat>, t: nat)
    requires |od.shape| == |od.strides| && Positive(od.shape) && forall p :: 0 <= p < |axes| ==> axes[p] < |od.shape|
    requires forall p :: 0 <= p < |axes| ==> AbsAt(od.strides, axes[p]) <= t
    ensures forall m :: m in Stored(od, axes) ==> m.d <= t
  {
    if axes != [] {
      StoredStrides(od, axes[1..], t);
    }
  }

  /** An order is given exactly for packed operands whose stored axes of extent 1 have the stride
      of their place. */
  lemma OrderIffPacked(od: Operand)
    requires Described(od) && Positive(od.shape) && Size(StoredModes(od)) <= I64_MAX
    ensures Walk(od, StorageOrder(od)).Some? <==>
              Bijection(StoredModes(od)) && UnitsInPlace(od, StorageOrder(od))
  {
    StorageIsAxes(od);
    if Walk(od, StorageOrder(od)).Some? {
      OrderMeansPacked(od);
      WalkPlaces(od, StorageOrder(od));
    }
    if Bijection(StoredModes(od)) && UnitsInPlace(od, StorageOrder(od)) {
      Inverses.BijectionIffFilled(StoredModes(od));
      FilledPerm(StoredModes(od), Stored(od, StorageOrder(od)));
      FilledWalks(od, StorageOrder(od));
    }
  }

  /** An axis of extent 1 is held to a stride although no index ever uses it: `[1, 4]` with strides
      `[1, 1]` is declined, `[4, 1]` with the same strides is not. */
  lemma UnitAxisDeclines()
    ensures Walk(Operand([1, 4], [1, 1]), StorageOrder(Operand([1, 4], [1, 1]))).None?
    ensures Walk(Operand([4, 1], [1, 1]), StorageOrder(Operand([4, 1], [1, 1]))).Some?
  {
    var strides := [1, 1];
    var order := OuterFirst(strides);
    assert Axes(2)[1..] == [1] && Axes(2)[1..][1..] == [];
    var both: seq<nat>, last: seq<nat> := [0, 1], [1];
    assert Sort(last, order) == last by { assert last[1..] == []; }
    assert Axes(2) == both && both[1..] == last && last[1..] == [];
    assert Sort(both, order) == both;
  }

  /** The order is the identity exactly when the strides never grow from one axis to the next. */
  lemma IdentityIffDescending(od: Operand)
    requires |od.shape| == |od.strides|
    ensures StorageOrder(od) == Axes(|od.shape|) <==>
              forall a, b :: 0 <= a < b < |od.strides| ==> Abs(od.strides[a]) >= Abs(od.strides[b])
  {
    var axes := Axes(|od.shape|);
    OuterOrders(od.strides);
    if forall a, b :: 0 <= a < b < |od.strides| ==> Abs(od.strides[a]) >= Abs(od.strides[b]) {
      assert InOrder(axes, OuterFirst(od.strides));
      OrderedOnce(StorageOrder(od), axes, OuterFirst(od.strides));
    }
    if StorageOrder(od) == axes {
      forall a, b | 0 <= a < b < |od.strides| ensures Abs(od.strides[a]) >= Abs(od.strides[b]) {
        assert OuterFirst(od.strides)(axes[a], axes[b]);
      }
    }
  }

  // ---- contiguity

  /** The loop of `classify_contiguity` over the first `n` axes, from the last of them down: every
      axis of more than one index has the stride the extents after it call for. */
  function RowStrides(od: Operand, n: nat, acc: int): bool
    requires n <= |od.shape| == |od.strides|
  {
    n == 0 ||
    (if od.shape[n - 1] <= 1 then RowStrides(od, n - 1, acc)
     else Abs(od.strides[n - 1]) == acc && RowStrides(od, n - 1, Saturate(acc * od.shape[n - 1])))
  }

  /** `classify_contiguity`, its broadcast mask and its innermost active axis computed here too. */
  method ClassifyContiguity(od: Operand) returns (r: KeyCodes.Contiguity)
    requires Described(od)
    ensures r.Broadcast? <==> exists a :: 0 <= a < |od.shape| && od.shape[a] > 1 && od.strides[a] == 0
    ensures r.Contig? <==> !r.Broadcast? && RowStrides(od, |od.shape|, 1)
    ensures r.InnerContig? <==>
              !r.Broadcast? && !r.Contig? &&
              exists a :: 0 <= a < |od.shape| && od.shape[a] > 1 && Abs(od.strides[a]) == 1 &&
                          forall b :: a < b < |od.shape| ==> od.shape[b] <= 1
  {
    var rank := |od.shape|;
    var bcast := false;
    for d := 0 to rank
      invariant bcast <==> exists a :: 0 <= a < d && od.shape[a] > 1 && od.strides[a] == 0
    {
      if od.shape[d] > 1 && od.strides[d] == 0 { bcast := true; }
    }
    if bcast { return KeyCodes.Broadcast; }
    var inner := rank;
    while inner > 0 && od.shape[inner - 1] <= 1
      invariant 0 <= inner <= rank && forall b :: inner <= b < rank ==> od.shape[b] <= 1
    {
      inner := inner - 1;
    }
    if inner == 0 {
      UnitRows(od, rank, 1);
      return KeyCodes.Contig;
    }
    var acc := 1;
    var all := true;
    var d := rank;
    while d > 0
      invariant 0 <= d <= rank
      invariant RowStrides(od, rank, 1) <==> all && RowStrides(od, d, acc)
    {
      d := d - 1;
      if od.shape[d] > 1 {
        if Abs(od.strides[d]) != acc { all := false; }
        acc := Saturate(acc * od.shape[d]);
      }
    }
    if all { return KeyCodes.Contig; }
    r := if Abs(od.strides[inner - 1]) == 1 then KeyCodes.InnerContig else KeyCodes.Strided;
  }

  lemma {:induction false} UnitRows(od: Operand, n: nat, acc: int)
    requires n <= |od.shape| == |od.strides| && forall b :: 0 <= b < n ==> od.shape[b] <= 1
    ensures RowStrides(od, n, acc)
  {
    if n > 0 { UnitRows(od, n - 1, acc); }
  }

  ghost predicate Inside(shape: seq<int>, cs: seq<nat>) {
    |cs| == |shape| && forall a :: 0 <= a < |cs| ==> cs[a] < shape[a]
  }

  /** Where a coordinate lands, by absolute stride, counting the first `n` axes. */
  function Address(od: Operand, cs: seq<nat>, n: nat): int
    requires n <= |cs| == |od.strides|
  {
    if n == 0 then 0 else Address(od, cs, n - 1) + cs[n - 1] * Abs(od.strides[n - 1])
  }

  /** A coordinate's place in row-major order among the first `n` axes. */
  function RowIndex(shape: seq<int>, cs: seq<nat>, n: nat): int
    requires n <= |cs| == |shape|
  {
    if n == 0 then 0 else RowIndex(shape, cs, n - 1) * shape[n - 1] + cs[n - 1]
  }

  function Volume(shape: seq<int>, n: nat): (v: int)
    requires n <= |shape| && Positive(shape)
    ensures v >= 1
  {
    if n == 0 then 1 else
      MulPos(Volume(shape, n - 1), shape[n - 1]);
      Volume(shape, n - 1) * shape[n - 1]
  }

  lemma RowSum(acc: int, s: int, r: int, c: int)
    ensures acc * s * r + c * acc == acc * (r * s + c)
  {
    MulDistribLeft(acc, r * s, c);
    MulSwap(acc, r, s);
    MulAssoc(r, acc, s);
    MulAssoc(acc, s, r);
  }

  lemma RowVolume(acc: pos, s: pos, v: pos)
    requires acc * (v * s) <= I64_MAX
    ensures 1 <= acc * s == Saturate(acc * s) && acc * s * v == acc * (v * s) && acc * v <= I64_MAX
  {
    MulPos(acc, s);
    MulPos(v, s);
    MulAssoc(acc, s, v);
    MulPos(acc * s, v);
    MulMono(v, v * s, acc);
  }

  lemma {:induction false} RowsAddress(od: Operand, cs: seq<nat>, n: nat, acc: int)
    requires n <= |od.shape| == |od.strides| && Positive(od.shape) && Inside(od.shape, cs)
    requires acc >= 1 && acc * Volume(od.shape, n) <= I64_MAX && RowStrides(od, n, acc)
    ensures Address(od, cs, n) == acc * RowIndex(od.shape, cs, n)
  {
    if n > 0 {
      var (s, r) := (od.shape[n - 1], RowIndex(od.shape, cs, n - 1));
      RowVolume(acc, s, Volume(od.shape, n - 1));
      if s > 1 {
        RowsAddress(od, cs, n - 1, acc * s);
        RowSum(acc, s, r, cs[n - 1]);
      } else {
        RowsAddress(od, cs, n - 1, acc);
        MulZero(cs[n - 1], Abs(od.strides[n - 1]));
        assert RowIndex(od.shape, cs, n) == r;
      }
    }
  }

  lemma {:induction false} PrefixOnly(od: Operand, cs: seq<nat>, cs': seq<nat>, n: nat)
    requires n <= |cs| == |cs'| == |od.shape| == |od.strides| && cs[..n] == cs'[..n]
    ensures Address(od, cs, n) == Address(od, cs', n) && RowIndex(od.shape, cs, n) == RowIndex(od.shape, cs', n)
  {
    if n > 0 {
      assert cs[..n - 1] == cs[..n][..n - 1] && cs'[..n - 1] == cs'[..n][..n - 1];
      assert cs[n - 1] == cs[..n][n - 1] && cs'[n - 1] == cs'[..n][n - 1];
      PrefixOnly(od, cs, cs', n - 1);
    }
  }

  lemma {:induction false} ZeroPrefix(od: Operand, cs: seq<nat>, n: nat)
    requires n <= |cs| == |od.shape| == |od.strides| && forall a :: 0 <= a < n ==> cs[a] == 0
    ensures Address(od, cs, n) == 0 && RowIndex(od.shape, cs, n) == 0
  {
    if n > 0 {
      ZeroPrefix(od, cs, n - 1);
      MulZero(0, Abs(od.strides[n - 1]));
      MulZero(0, od.shape[n - 1]);
    }
  }

  ghost predicate RowMajor(od: Operand, n: nat, acc: int)
    requires n <= |od.shape| == |od.strides|
  {
    forall cs :: Inside(od.shape, cs) ==> Address(od, cs, n) == acc * RowIndex(od.shape, cs, n)
  }

  /** One step along the last axis reads its stride off. */
  lemma LastStride(od: Operand, n: nat, acc: int)
    requires 0 < n <= |od.shape| == |od.strides| && Positive(od.shape) && RowMajor(od, n, acc) && od.shape[n - 1] > 1
    ensures Abs(od.strides[n - 1]) == acc
  {
    var cs: seq<nat> := seq(|od.shape|, a requires 0 <= a => if a == n - 1 then 1 else 0);
    assert Inside(od.shape, cs);
    ZeroPrefix(od, cs, n - 1);
    MulZero(0, od.shape[n - 1]);
    assert RowIndex(od.shape, cs, n) == 1 && Address(od, cs, n) == Abs(od.strides[n - 1]);
  }

  lemma FewerAxes(od: Operand, n: nat, acc: int)
    requires 0 < n <= |od.shape| == |od.strides| && Positive(od.shape) && RowMajor(od, n, acc)
    ensures RowMajor(od, n - 1, acc * od.shape[n - 1])
  {
    var s := od.shape[n - 1];
    forall cs | Inside(od.shape, cs) ensures Address(od, cs, n - 1) == acc * s * RowIndex(od.shape, cs, n - 1) {
      var cs' := cs[n - 1 := 0];
      assert Inside(od.shape, cs') && cs'[..n - 1] == cs[..n - 1];
      PrefixOnly(od, cs, cs', n - 1);
      MulZero(0, Abs(od.strides[n - 1]));
      var r := RowIndex(od.shape, cs, n - 1);
      assert Address(od, cs', n) == acc * (r * s);
      MulSwap(acc, r, s);
      MulAssoc(r, acc, s);
      MulSwap(r, acc, s);
      MulAssoc(acc, s, r);
    }
  }

  lemma {:induction false} AddressRows(od: Operand, n: nat, acc: int)
    requires n <= |od.shape| == |od.strides| && Positive(od.shape) && RowMajor(od, n, acc)
    requires acc >= 1 && acc * Volume(od.shape, n) <= I64_MAX
    ensures RowStrides(od, n, acc)
  {
    if n > 0 {
      var s := od.shape[n - 1];
      FewerAxes(od, n, acc);
      MulAssoc(acc, s, Volume(od.shape, n - 1));
      MulPos(acc, s);
      if s > 1 {
        LastStride(od, n, acc);
        assert Saturate(acc * s) == acc * s by { MulPos(acc * s, Volume(od.shape, n - 1)); }
        AddressRows(od, n - 1, acc * s);
      } else {
        AddressRows(od, n - 1, acc);
      }
    }
  }

  lemma {:induction false} RowsNotBroadcast(od: Operand, n: nat, acc: int, a: nat)
    requires n <= |od.shape| == |od.strides| && Positive(od.shape) && acc >= 1 && RowStrides(od, n, acc)
    requires a < n && od.shape[a] > 1
    ensures od.strides[a] != 0
  {
    MulPos(acc, od.shape[n - 1]);
    if a < n - 1 {
      RowsNotBroadcast(od, n - 1, if od.shape[n - 1] > 1 then Saturate(acc * od.shape[n - 1]) else acc, a);
    }
  }

  /** The row-stride test passes exactly when every coordinate lands, by absolute stride, on its
      place in row-major order; and then nothing broadcasts. */
  lemma ContigIffRowMajor(od: Operand)
    requires Described(od) && Positive(od.shape) && Volume(od.shape, |od.shape|) <= I64_MAX
    ensures RowStrides(od, |od.shape|, 1) <==>
              forall cs :: Inside(od.shape, cs) ==> Address(od, cs, |od.shape|) == RowIndex(od.shape, cs, |od.shape|)
    ensures RowStrides(od, |od.shape|, 1) ==> forall a :: 0 <= a < |od.shape| && od.shape[a] > 1 ==> od.strides[a] != 0
  {
    var n := |od.shape|;
    if RowStrides(od, n, 1) {
      forall cs | Inside(od.shape, cs) ensures Address(od, cs, n) == RowIndex(od.shape, cs, n) {
        RowsAddress(od, cs, n, 1);
      }
      forall a | 0 <= a < n && od.shape[a] > 1 ensures od.strides[a] != 0 {
        RowsNotBroadcast(od, n, 1, a);
      }
    }
    if forall cs :: Inside(od.shape, cs) ==> Address(od, cs, n) == RowIndex(od.shape, cs, n) {
      AddressRows(od, n, 1);
    }
  }

  // ---- the width of offsets

  const INDEX32_LIMIT := 0x8000_0000

  function LastIndex(extent: int): nat { if extent <= 1 then 0 else extent - 1 }

  /** The distance between the lowest and the highest element the first `n` axes reach. */
  function Spread(od: Operand, n: nat): (r: nat)
    requires n <= |od.shape| == |od.strides|
  {
    if n == 0 then 0 else
      MulMono(0, Abs(od.strides[n - 1]), LastIndex(od.shape[n - 1]));
      Spread(od, n - 1) + Abs(od.strides[n - 1]) * LastIndex(od.shape[n - 1])
  }

  /** `max_touched_offset`, every operation saturating. */
  method MaxTouchedOffset(od: Operand) returns (off: int)
    requires Described(od)
    ensures off == Min(Spread(od, |od.shape|), I64_MAX)
  {
    off := 0;
    for d := 0 to |od.shape|
      invariant off == Min(Spread(od, d), I64_MAX)
    {
      MulMono(0, Abs(od.strides[d]), LastIndex(od.shape[d]));
      var span := Saturate(Abs(od.strides[d]) * LastIndex(od.shape[d]));
      off := Saturate(off + span);
    }
  }

  /** The elements of an operand span less than 2^31. */
  predicate Narrow(od: Operand) { |od.shape| == |od.strides| && Spread(od, |od.shape|) < INDEX32_LIMIT }

  method IndexWidth(ods: seq<Operand>) returns (r: KeyCodes.IdxWidth)
    requires forall i :: 0 <= i < |ods| ==> Described(ods[i])
    ensures r.Idx32? <==>
              forall i :: 0 <= i < |ods| && i < 8 ==> |ods[i].shape| == |ods[i].strides| &&
                                                      Spread(ods[i], |ods[i].shape|) < 0x8000_0000
  {
    var max := 0;
    var n := if |ods| < MAX_OPERANDS then |ods| else MAX_OPERANDS;
    for i := 0 to n
      invariant max < INDEX32_LIMIT <==> forall j :: 0 <= j < i ==> Narrow(ods[j])
    {
      var off := MaxTouchedOffset(ods[i]);
      max := if off > max then off else max;
    }
    r := if max >= INDEX32_LIMIT then KeyCodes.Idx64 else KeyCodes.Idx32;
  }

  function SignedOffset(od: Operand, cs: seq<nat>, n: nat): int
    requires n <= |cs| == |od.strides|
  {
    if n == 0 then 0 else SignedOffset(od, cs, n - 1) + cs[n - 1] * od.strides[n - 1]
  }

  /** The lowest and the highest corner of an operand's elements. */
  function Corner(od: Operand, high: bool): (cs: seq<nat>)
    requires |od.shape| == |od.strides| && Positive(od.shape)
    ensures Inside(od.shape, cs)
  {
    seq(|od.shape|, a requires 0 <= a < |od.shape| => if (od.strides[a] > 0) == high then LastIndex(od.shape[a]) else 0)
  }

  lemma {:induction false} OffsetBetweenCorners(od: Operand, cs: seq<nat>, n: nat)
    requires n <= |od.shape| == |od.strides| && Positive(od.shape) && Inside(od.shape, cs)
    ensures SignedOffset(od, Corner(od, false), n) <= 0 <= SignedOffset(od, Corner(od, true), n)
    ensures SignedOffset(od, Corner(od, false), n) <= SignedOffset(od, cs, n) <= SignedOffset(od, Corner(od, true), n)
    ensures SignedOffset(od, Corner(od, true), n) - SignedOffset(od, Corner(od, false), n) == Spread(od, n)
  {
    if n > 0 {
      OffsetBetweenCorners(od, cs, n - 1);
      AxisBetween(od.strides[n - 1], od.shape[n - 1], cs[n - 1]);
    }
  }

  lemma AxisBetween(d: int, extent: pos, c: nat)
    requires c < extent
    ensures var last := LastIndex(extent);
            if d > 0 then 0 <= c * d <= last * d && last * d == Abs(d) * last && 0 * d == 0
            else last * d <= c * d <= 0 && -(last * d) == Abs(d) * last && 0 * d == 0
  {
    var last := LastIndex(extent);
    if d > 0 {
      MulMono(c, last, d);
      MulMono(0, c, d);
    } else {
      MulMono(c, last, -d);
      MulMono(0, c, -d);
      MulDistribLeft(c, 0, d);
      MulDistribLeft(last, 0, d);
    }
  }

  /** The spread is what the elements of an operand span, exactly, and bounds every element's offset
      from the base: so 32-bit offsets are enough for a keyed operand of width `ix32`. */
  lemma SpreadIsExact(od: Operand, cs: seq<nat>)
    requires Described(od) && Positive(od.shape) && Inside(od.shape, cs)
    ensures var (n, low, high) := (|od.shape|, Corner(od, false), Corner(od, true));
            0 - Spread(od, n) <= SignedOffset(od, cs, n) <= Spread(od, n) &&
            Inside(od.shape, low) && Inside(od.shape, high) &&
            SignedOffset(od, high, n) - SignedOffset(od, low, n) == Spread(od, n)
  {
    OffsetBetweenCorners(od, cs, |od.shape|);
  }
}
