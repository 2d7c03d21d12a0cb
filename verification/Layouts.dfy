/** Integer tuples and hierarchical `shape : stride` layouts, with the checks `Layout::new` makes. */
module Layouts {
  import opened Wrappers
  import opened Arith
  import opened Modes

  const MAX_DEPTH: nat := 16

  datatype LayoutError =
    | NotCongruent
    | EmptyTuple
    | NonPositiveShape(v: int)
    | NegativeStride(v: int)
    | TooDeep
    | Overflow
    | OutOfRange
    | ProfileMismatch
    | NotDivisible
    | ZeroStrideMode
    | NotComplementable
    | NonPositiveCotarget(v: int)

  type Checked<T> = Result<T, LayoutError>

  datatype IntTuple = Int(v: int) | Tuple(items: seq<IntTuple>)

  datatype Layout = Layout(shape: IntTuple, stride: IntTuple)

  function Max(a: nat, b: nat): nat { if a <= b then b else a }

  function Depth(t: IntTuple): nat
    decreases t, 1
  {
    match t
    case Int(_) => 0
    case Tuple(items) => 1 + DepthAll(items)
  }

  function DepthAll(ts: seq<IntTuple>): nat
    decreases ts, 0
  {
    if ts == [] then 0 else Max(Depth(ts[0]), DepthAll(ts[1..]))
  }

  function Leaves(t: IntTuple): seq<int>
    decreases t, 1
  {
    match t
    case Int(v) => [v]
    case Tuple(items) => LeavesAll(items)
  }

  function LeavesAll(ts: seq<IntTuple>): seq<int>
    decreases ts, 0
  {
    if ts == [] then [] else Leaves(ts[0]) + LeavesAll(ts[1..])
  }

  predicate Congruent(a: IntTuple, b: IntTuple)
    decreases a, 1
  {
    match (a, b)
    case (Int(_), Int(_)) => true
    case (Tuple(xs), Tuple(ys)) => CongruentAll(xs, ys)
    case _ => false
  }

  predicate CongruentAll(xs: seq<IntTuple>, ys: seq<IntTuple>)
    decreases xs, 0
  {
    |xs| == |ys| && (xs != [] ==> Congruent(xs[0], ys[0]) && CongruentAll(xs[1..], ys[1..]))
  }

  predicate NonEmpty(t: IntTuple)
    decreases t, 1
  {
    t.Tuple? ==> t.items != [] && NonEmptyAll(t.items)
  }

  predicate NonEmptyAll(ts: seq<IntTuple>)
    decreases ts, 0
  {
    ts != [] ==> NonEmpty(ts[0]) && NonEmptyAll(ts[1..])
  }

  lemma {:induction false} CongruentLeaves(a: IntTuple, b: IntTuple)
    requires Congruent(a, b)
    ensures |Leaves(a)| == |Leaves(b)|
    decreases a, 1
  {
    if a.Tuple? {
      CongruentLeavesAll(a.items, b.items);
    }
  }

  lemma {:induction false} CongruentLeavesAll(xs: seq<IntTuple>, ys: seq<IntTuple>)
    requires CongruentAll(xs, ys)
    ensures |LeavesAll(xs)| == |LeavesAll(ys)|
    decreases xs, 0
  {
    if xs != [] {
      CongruentLeaves(xs[0], ys[0]);
      CongruentLeavesAll(xs[1..], ys[1..]);
    }
  }

  lemma {:induction false} NonEmptyLeaves(t: IntTuple)
    requires NonEmpty(t)
    ensures Leaves(t) != []
    decreases t
  {
    if t.Tuple? {
      NonEmptyLeaves(t.items[0]);
    }
  }

  // ---- the leaf pairs as modes

  predicate LeavesOk(ss: seq<int>, ds: seq<int>) {
    |ss| == |ds| && forall k :: 0 <= k < |ss| ==> ss[k] >= 1 && ds[k] >= 0
  }

  function Zip(ss: seq<int>, ds: seq<int>): (ms: seq<Mode>)
    requires LeavesOk(ss, ds)
    ensures |ms| == |ss| && forall k :: 0 <= k < |ss| ==> ms[k] == Mode(ss[k], ds[k])
  {
    seq(|ss|, k requires 0 <= k < |ss| => Mode(ss[k], ds[k]))
  }

  lemma ZipConcat(s1: seq<int>, d1: seq<int>, s2: seq<int>, d2: seq<int>)
    requires LeavesOk(s1, d1) && LeavesOk(s2, d2)
    ensures LeavesOk(s1 + s2, d1 + d2)
    ensures Zip(s1 + s2, d1 + d2) == Zip(s1, d1) + Zip(s2, d2)
  {
  }

  /** A tree pair the mode list can be read off. */
  predicate Shaped(shape: IntTuple, stride: IntTuple) {
    Congruent(shape, stride) && LeavesOk(Leaves(shape), Leaves(stride))
  }

  predicate ShapedAll(ss: seq<IntTuple>, ds: seq<IntTuple>) {
    CongruentAll(ss, ds) && LeavesOk(LeavesAll(ss), LeavesAll(ds))
  }

  function Flat(shape: IntTuple, stride: IntTuple): seq<Mode>
    requires Shaped(shape, stride)
  {
    Zip(Leaves(shape), Leaves(stride))
  }

  function FlatAll(ss: seq<IntTuple>, ds: seq<IntTuple>): seq<Mode>
    requires ShapedAll(ss, ds)
  {
    Zip(LeavesAll(ss), LeavesAll(ds))
  }

  lemma ShapedSplit(ss: seq<IntTuple>, ds: seq<IntTuple>)
    requires ss != [] && ShapedAll(ss, ds)
    ensures Shaped(ss[0], ds[0]) && ShapedAll(ss[1..], ds[1..])
    ensures FlatAll(ss, ds) == Flat(ss[0], ds[0]) + FlatAll(ss[1..], ds[1..])
  {
    CongruentLeaves(ss[0], ds[0]);
    var (s1, d1) := (Leaves(ss[0]), Leaves(ds[0]));
    var (s2, d2) := (LeavesAll(ss[1..]), LeavesAll(ds[1..]));
    assert LeavesAll(ss) == s1 + s2 && LeavesAll(ds) == d1 + d2;
    assert LeavesOk(s1, d1) by {
      forall k | 0 <= k < |s1| ensures s1[k] >= 1 && d1[k] >= 0 {
        assert (s1 + s2)[k] == s1[k] && (d1 + d2)[k] == d1[k];
      }
    }
    assert LeavesOk(s2, d2) by {
      forall k | 0 <= k < |s2| ensures s2[k] >= 1 && d2[k] >= 0 {
        assert (s1 + s2)[|s1| + k] == s2[k] && (d1 + d2)[|s1| + k] == d2[k];
      }
    }
    ZipConcat(s1, d1, s2, d2);
  }

  lemma ShapedJoin(s: IntTuple, d: IntTuple, ss: seq<IntTuple>, ds: seq<IntTuple>)
    requires Shaped(s, d) && ShapedAll(ss, ds)
    ensures ShapedAll([s] + ss, [d] + ds)
    ensures FlatAll([s] + ss, [d] + ds) == Flat(s, d) + FlatAll(ss, ds)
  {
    assert ([s] + ss)[1..] == ss && ([d] + ds)[1..] == ds;
    ZipConcat(Leaves(s), Leaves(d), LeavesAll(ss), LeavesAll(ds));
  }

  // ---- validity and construction

  /** Everything `New` checks. */
  predicate Valid(l: Layout) {
    && Shaped(l.shape, l.stride)
    && NonEmpty(l.shape)
    && Depth(l.shape) <= MAX_DEPTH
    && 1 + Span(Flat(l.shape, l.stride)) <= I64_MAX
    && Size(Flat(l.shape, l.stride)) <= I64_MAX
  }

  function FlatModes(l: Layout): (ms: seq<Mode>)
    requires Valid(l)
    ensures ms != []
  {
    NonEmptyLeaves(l.shape);
    Flat(l.shape, l.stride)
  }

  function SizeOf(l: Layout): pos
    requires Valid(l)
  {
    Size(FlatModes(l))
  }

  function Cosize(l: Layout): pos
    requires Valid(l)
  {
    1 + Span(FlatModes(l))
  }

  function CheckedMul(a: int, b: int): Checked<int> {
    if InI64(a * b) then Ok(a * b) else Err(Overflow)
  }

  function CheckedAdd(a: int, b: int): Checked<int> {
    if InI64(a + b) then Ok(a + b) else Err(Overflow)
  }

  /** The leaf pairs in order, stopping at the first bad one. */
  function LeafCheck(ss: seq<int>, ds: seq<int>, cosize: int): Checked<int>
    requires |ss| == |ds|
  {
    if ss == [] then Ok(cosize)
    else if ss[0] < 1 then Err(NonPositiveShape(ss[0]))
    else if ds[0] < 0 then Err(NegativeStride(ds[0]))
    else if CheckedMul(ss[0] - 1, ds[0]).Err? then Err(Overflow)
    else
      match CheckedAdd(cosize, (ss[0] - 1) * ds[0])
      case Ok(c) => LeafCheck(ss[1..], ds[1..], c)
      case Err(e) => Err(e)
  }

  function Product(vs: seq<int>, acc: int): Checked<int> {
    if vs == [] then Ok(acc) else
      match CheckedMul(acc, vs[0])
      case Ok(c) => Product(vs[1..], c)
      case Err(e) => Err(e)
  }

  function NewLayout(shape: IntTuple, stride: IntTuple): Checked<Layout> {
    if !Congruent(shape, stride) then Err(NotCongruent)
    else if !NonEmpty(shape) then Err(EmptyTuple)
    else if Depth(shape) > MAX_DEPTH then Err(TooDeep)
    else
      CongruentLeaves(shape, stride);
      match LeafCheck(Leaves(shape), Leaves(stride), 1)
      case Err(e) => Err(e)
      case Ok(_) =>
        match Product(Leaves(shape), 1)
        case Err(e) => Err(e)
        case Ok(_) => Ok(Layout(shape, stride))
  }

  lemma {:induction false} LeafCheckOk(ss: seq<int>, ds: seq<int>, cosize: int)
    requires |ss| == |ds| && 1 <= cosize <= I64_MAX
    ensures LeafCheck(ss, ds, cosize).Ok? <==>
            LeavesOk(ss, ds) && cosize + Span(Zip(ss, ds)) <= I64_MAX
  {
    if ss != [] && ss[0] >= 1 && ds[0] >= 0 {
      var add := (ss[0] - 1) * ds[0];
      MulMono(0, ss[0] - 1, ds[0]);
      if cosize + add <= I64_MAX {
        LeafCheckOk(ss[1..], ds[1..], cosize + add);
      }
      if LeavesOk(ss[1..], ds[1..]) {
        assert LeavesOk(ss, ds);
        assert Zip(ss, ds)[1..] == Zip(ss[1..], ds[1..]);
      } else if LeavesOk(ss, ds) {
        assert LeavesOk(ss[1..], ds[1..]);
      }
    }
  }

  lemma {:induction false} ProductOk(ss: seq<int>, ds: seq<int>, acc: int)
    requires LeavesOk(ss, ds) && 1 <= acc <= I64_MAX
    ensures Product(ss, acc).Ok? <==> acc * Size(Zip(ss, ds)) <= I64_MAX
  {
    if ss != [] {
      var rest := Size(Zip(ss[1..], ds[1..]));
      assert Zip(ss, ds)[1..] == Zip(ss[1..], ds[1..]);
      MulPos(acc, ss[0]);
      MulPos(acc * ss[0], rest);
      MulAssoc(acc, ss[0], rest);
      if acc * ss[0] <= I64_MAX {
        ProductOk(ss[1..], ds[1..], acc * ss[0]);
      }
    }
  }

  lemma {:induction false} LeafCheckOverflows(ss: seq<int>, ds: seq<int>, cosize: int)
    requires LeavesOk(ss, ds) && LeafCheck(ss, ds, cosize).Err?
    ensures LeafCheck(ss, ds, cosize).error == Overflow
  {
    if ss != [] && CheckedMul(ss[0] - 1, ds[0]).Ok? && CheckedAdd(cosize, (ss[0] - 1) * ds[0]).Ok? {
      LeafCheckOverflows(ss[1..], ds[1..], cosize + (ss[0] - 1) * ds[0]);
    }
  }

  lemma {:induction false} ProductOverflows(vs: seq<int>, acc: int)
    requires Product(vs, acc).Err?
    ensures Product(vs, acc).error == Overflow
  {
    if vs != [] && CheckedMul(acc, vs[0]).Ok? {
      ProductOverflows(vs[1..], acc * vs[0]);
    }
  }

  /** `New` accepts exactly the valid trees and returns them unchanged. */
  lemma NewLayoutValid(shape: IntTuple, stride: IntTuple)
    ensures NewLayout(shape, stride).Ok? <==> Valid(Layout(shape, stride))
    ensures NewLayout(shape, stride).Ok? ==> NewLayout(shape, stride).value == Layout(shape, stride)
  {
    if Congruent(shape, stride) {
      CongruentLeaves(shape, stride);
      LeafCheckOk(Leaves(shape), Leaves(stride), 1);
      if LeavesOk(Leaves(shape), Leaves(stride)) {
        ProductOk(Leaves(shape), Leaves(stride), 1);
      }
    }
  }

  /** `Layout::new`, with its running checked cosize. */
  method New(shape: IntTuple, stride: IntTuple) returns (r: Checked<Layout>)
    ensures r == NewLayout(shape, stride)
    ensures r.Ok? <==> Valid(Layout(shape, stride))
  {
    NewLayoutValid(shape, stride);
    if !Congruent(shape, stride) { return Err(NotCongruent); }
    if !NonEmpty(shape) { return Err(EmptyTuple); }
    if Depth(shape) > MAX_DEPTH { return Err(TooDeep); }
    CongruentLeaves(shape, stride);
    var cosize := CheckLeaves(Leaves(shape), Leaves(stride));
    if cosize.Err? { return Err(cosize.error); }
    var product := Product(Leaves(shape), 1);
    r := if product.Err? then Err(product.error) else Ok(Layout(shape, stride));
  }

  /** The loop over the leaves, with the cosize so far. */
  method CheckLeaves(ss: seq<int>, ds: seq<int>) returns (r: Checked<int>)
    requires |ss| == |ds|
    ensures r == LeafCheck(ss, ds, 1)
  {
    var cosize := 1;
    assert ss[0..] == ss && ds[0..] == ds;
    for k := 0 to |ss|
      invariant LeafCheck(ss, ds, 1) == LeafCheck(ss[k..], ds[k..], cosize)
    {
      var s, d := ss[k], ds[k];
      assert ss[k..][0] == s && ds[k..][0] == d;
      assert ss[k..][1..] == ss[k + 1..] && ds[k..][1..] == ds[k + 1..];
      if s < 1 { return Err(NonPositiveShape(s)); }
      if d < 0 { return Err(NegativeStride(d)); }
      var span := CheckedMul(s - 1, d);
      if span.Err? { return Err(Overflow); }
      var sum := CheckedAdd(cosize, span.value);
      if sum.Err? { return Err(Overflow); }
      cosize := sum.value;
    }
    r := Ok(cosize);
  }

  // ---- rebuilding trees from flat lists

  function FlatNode(ms: seq<Mode>): (IntTuple, IntTuple) {
    if ms == [] then (Int(1), Int(0))
    else if |ms| == 1 then (Int(ms[0].s), Int(ms[0].d))
    else (Tuple(Shapes(ms)), Tuple(Strides(ms)))
  }

  function Shapes(ms: seq<Mode>): seq<IntTuple> {
    if ms == [] then [] else [Int(ms[0].s)] + Shapes(ms[1..])
  }

  function Strides(ms: seq<Mode>): seq<IntTuple> {
    if ms == [] then [] else [Int(ms[0].d)] + Strides(ms[1..])
  }

  /** An empty mode list is written `1:0`. */
  function OrUnit(ms: seq<Mode>): (r: seq<Mode>)
    ensures r != []
  {
    if ms == [] then [Mode(1, 0)] else ms
  }

  lemma {:induction false} FlatListModes(ms: seq<Mode>)
    ensures ShapedAll(Shapes(ms), Strides(ms)) && NonEmptyAll(Shapes(ms)) && DepthAll(Shapes(ms)) == 0
    ensures |Shapes(ms)| == |ms|
    ensures FlatAll(Shapes(ms), Strides(ms)) == ms
  {
    if ms != [] {
      FlatListModes(ms[1..]);
      assert Zip([ms[0].s as int], [ms[0].d as int]) == [ms[0]];
      ShapedJoin(Int(ms[0].s), Int(ms[0].d), Shapes(ms[1..]), Strides(ms[1..]));
    }
  }

  lemma FlatNodeModes(ms: seq<Mode>)
    ensures Shaped(FlatNode(ms).0, FlatNode(ms).1) && NonEmpty(FlatNode(ms).0) && Depth(FlatNode(ms).0) <= 1
    ensures Flat(FlatNode(ms).0, FlatNode(ms).1) == OrUnit(ms)
  {
    FlatListModes(ms);
    if |ms| == 1 {
      assert Zip([ms[0].s as int], [ms[0].d as int]) == [ms[0]];
    } else if ms == [] {
      assert Zip([1], [0]) == [Mode(1, 0)];
    }
  }

  function FromFlat(ms: seq<Mode>): Layout {
    Layout(FlatNode(ms).0, FlatNode(ms).1)
  }

  lemma FromFlatModes(ms: seq<Mode>)
    requires 1 + Span(ms) <= I64_MAX && Size(ms) <= I64_MAX
    ensures Valid(FromFlat(ms)) && FlatModes(FromFlat(ms)) == OrUnit(ms)
  {
    FlatNodeModes(ms);
  }

  /** `(A, B)`: two layouts side by side. */
  function FromPair(a: Layout, b: Layout): Checked<Layout> {
    NewLayout(Tuple([a.shape, b.shape]), Tuple([a.stride, b.stride]))
  }

  lemma FromPairModes(a: Layout, b: Layout)
    requires Valid(a) && Valid(b) && FromPair(a, b).Ok?
    ensures Valid(FromPair(a, b).value)
    ensures FlatModes(FromPair(a, b).value) == FlatModes(a) + FlatModes(b)
  {
    NewLayoutValid(Tuple([a.shape, b.shape]), Tuple([a.stride, b.stride]));
    PairModes(a, b);
  }

  lemma PairModes(a: Layout, b: Layout)
    requires Shaped(a.shape, a.stride) && Shaped(b.shape, b.stride)
    ensures ShapedAll([a.shape, b.shape], [a.stride, b.stride])
    ensures FlatAll([a.shape, b.shape], [a.stride, b.stride]) == Flat(a.shape, a.stride) + Flat(b.shape, b.stride)
  {
    assert FlatAll([], []) == [];
    ShapedJoin(b.shape, b.stride, [], []);
    assert [b.shape] + [] == [b.shape] && [b.stride] + [] == [b.stride];
    ShapedJoin(a.shape, a.stride, [b.shape], [b.stride]);
    assert [a.shape] + [b.shape] == [a.shape, b.shape] && [a.stride] + [b.stride] == [a.stride, b.stride];
  }
}
