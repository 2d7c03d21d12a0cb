/** `logical_divide` and `logical_product`, built from complement and composition. */
module Products {
  import opened Wrappers
  import opened Arith
  import opened Modes
  import opened Layouts
  import opened Composition
  import opened Carries
  import opened Complements
  import Inverses

  function LogicalDivide(l: Layout, tiler: Layout): Checked<Layout>
    requires Valid(l) && Valid(tiler)
  {
    match ComplementOf(tiler, SizeOf(l))
    case Err(e) => Err(e)
    case Ok(rest) =>
      ComplementCompletes(tiler, SizeOf(l));
      match FromPair(tiler, rest)
      case Err(e) => Err(e)
      case Ok(pair) =>
        FromPairModes(tiler, rest);
        Compose(l, pair)
  }

  function LogicalProduct(l: Layout, rhs: Layout): Checked<Layout>
    requires Valid(l) && Valid(rhs)
  {
    match CheckedMul(SizeOf(l), Cosize(rhs))
    case Err(e) => Err(e)
    case Ok(target) =>
      match ComplementOf(l, target)
      case Err(e) => Err(e)
      case Ok(rest) =>
        ComplementCompletes(l, target);
        match Compose(rest, rhs)
        case Err(e) => Err(e)
        case Ok(copies) => FromPair(l, copies)
  }

  /** The tiler side by side with its complement, as `logical_divide` builds it. */
  ghost function Tiling(l: Layout, tiler: Layout): (t: Layout)
    requires Valid(l) && Valid(tiler) && LogicalDivide(l, tiler).Ok?
    ensures Valid(t)
  {
    ComplementCompletes(tiler, SizeOf(l));
    FromPairModes(tiler, ComplementOf(tiler, SizeOf(l)).value);
    FromPair(tiler, ComplementOf(tiler, SizeOf(l)).value).value
  }

  /** The result reads `self` through a bijection of the tiled range, which covers `self`. */
  lemma DivideReads(l: Layout, tiler: Layout)
    requires Valid(l) && Valid(tiler) && LogicalDivide(l, tiler).Ok?
    ensures var t, r := Tiling(l, tiler), LogicalDivide(l, tiler).value;
            Valid(t) && Valid(r) && Composes(l, t, r) && Bijection(FlatModes(t)) &&
            SizeOf(l) <= SizeOf(t) == CeilDiv(SizeOf(l), Reach(FlatModes(tiler))) * Reach(FlatModes(tiler))
  {
    var rest := ComplementOf(tiler, SizeOf(l)).value;
    var t := Tiling(l, tiler);
    ComplementCompletes(tiler, SizeOf(l));
    FromPairModes(tiler, rest);
    FilledSeparated(FlatModes(t));
    SeparatedComposes(l, t);
    SizeConcat(FlatModes(tiler), FlatModes(rest));
  }

  /** Whether some index below the size of `l` reads `x`. */
  ghost predicate Reads(l: Layout, x: nat)
    requires Valid(l)
  {
    exists i: nat :: i < SizeOf(l) && Offset(FlatModes(l), i) == x
  }

  lemma WholeReaches(n: pos, reach: pos)
    ensures CeilDiv(n, reach) * reach == n <==> n % reach == 0
  {
    DivMod(n, reach);
    if CeilDiv(n, reach) * reach == n {
      DivModUnique(n, reach, CeilDiv(n, reach), 0);
    }
  }

  /** Division keeps the size exactly when the reach of the tiler divides it. */
  lemma DivideKeepsSize(l: Layout, tiler: Layout)
    requires Valid(l) && Valid(tiler) && LogicalDivide(l, tiler).Ok?
    ensures Valid(LogicalDivide(l, tiler).value)
    ensures SizeOf(LogicalDivide(l, tiler).value) == SizeOf(l) <==> SizeOf(l) % Reach(FlatModes(tiler)) == 0
  {
    DivideReads(l, tiler);
    WholeReaches(SizeOf(l), Reach(FlatModes(tiler)));
  }

  /** Then it rearranges `self`: a permutation of the indices takes one reading to the other. */
  lemma DivideRearranges(l: Layout, tiler: Layout)
    requires Valid(l) && Valid(tiler) && LogicalDivide(l, tiler).Ok?
    requires SizeOf(l) % Reach(FlatModes(tiler)) == 0
    ensures var t, r := Tiling(l, tiler), LogicalDivide(l, tiler).value;
            Valid(t) && Valid(r) && SizeOf(r) == SizeOf(l) && Bijection(FlatModes(t)) &&
            (forall i: nat :: i < SizeOf(l) ==>
                Offset(FlatModes(r), i) == Offset(FlatModes(l), Offset(FlatModes(t), i))) &&
            forall x: nat :: Reads(r, x) <==> Reads(l, x)
  {
    DivideReads(l, tiler);
    DivideKeepsSize(l, tiler);
    var t, r := Tiling(l, tiler), LogicalDivide(l, tiler).value;
    forall x: nat ensures Reads(r, x) <==> Reads(l, x) {
      if Reads(r, x) {
        var i: nat :| i < SizeOf(r) && Offset(FlatModes(r), i) == x;
        assert Offset(FlatModes(l), Offset(FlatModes(t), i)) == x;
      }
      if Reads(l, x) {
        var i: nat :| i < SizeOf(l) && Offset(FlatModes(l), i) == x;
        assert Hits(FlatModes(t), i);
        var j: nat :| j < SizeOf(t) && Offset(FlatModes(t), j) == i;
        assert Offset(FlatModes(r), j) == x;
      }
    }
  }

  lemma OffsetBelowCosize(ms: seq<Mode>, i: nat)
    requires i < Size(ms)
    ensures Offset(ms, i) <= Span(ms)
  {
    OffsetIsDot(ms, i);
    DigitsInBox(ms, i);
    DotAtMostSpan(ms, Digits(ms, i));
  }

  /** What a successful product composes with `rhs`: the complement of `self`. */
  ghost function ProductRest(l: Layout, rhs: Layout): (rest: Layout)
    requires Valid(l) && Valid(rhs) && LogicalProduct(l, rhs).Ok?
    ensures Valid(rest) && Compose(rest, rhs).Ok?
  {
    ComplementCompletes(l, SizeOf(l) * Cosize(rhs));
    ComplementOf(l, SizeOf(l) * Cosize(rhs)).value
  }

  /** The parts of a successful product: `self`, and its complement composed with `rhs`. */
  lemma ProductParts(l: Layout, rhs: Layout) returns (copies: Layout)
    requires Valid(l) && Valid(rhs) && LogicalProduct(l, rhs).Ok?
    ensures Valid(copies) && Compose(ProductRest(l, rhs), rhs) == Ok(copies) && SizeOf(copies) == SizeOf(rhs)
    ensures Bijection(FlatModes(l) + FlatModes(ProductRest(l, rhs)))
    ensures SizeOf(l) * Cosize(rhs) <= SizeOf(l) * SizeOf(ProductRest(l, rhs))
    ensures Valid(LogicalProduct(l, rhs).value)
    ensures FlatModes(LogicalProduct(l, rhs).value) == FlatModes(l) + FlatModes(copies)
    ensures SizeOf(LogicalProduct(l, rhs).value) == SizeOf(l) * SizeOf(rhs)
  {
    var rest := ProductRest(l, rhs);
    ComplementCompletes(l, SizeOf(l) * Cosize(rhs));
    copies := Compose(rest, rhs).value;
    ComposeModes(rest, rhs);
    ComposeReads(FlatModes(rest), FlatModes(rhs), 0);
    FromPairModes(l, copies);
    SizeConcat(FlatModes(l), FlatModes(copies));
  }

  /** Mode 0 of the product is `self`. */
  lemma ProductStartsWithSelf(l: Layout, rhs: Layout, i: nat)
    requires Valid(l) && Valid(rhs) && LogicalProduct(l, rhs).Ok? && i < SizeOf(l)
    ensures Valid(LogicalProduct(l, rhs).value)
    ensures Offset(FlatModes(LogicalProduct(l, rhs).value), i) == Offset(FlatModes(l), i)
  {
    var copies := ProductParts(l, rhs);
    OffsetConcatLow(FlatModes(l), FlatModes(copies), i);
  }

  /** Where composing carries nowhere, copies of `self` never meet exactly when `rhs` is injective. */
  lemma ProductInjective(l: Layout, rhs: Layout)
    requires Valid(l) && Valid(rhs) && LogicalProduct(l, rhs).Ok?
    requires CarryFree(FlatModes(ProductRest(l, rhs)), FlatModes(rhs))
    ensures Valid(LogicalProduct(l, rhs).value) && SizeOf(LogicalProduct(l, rhs).value) == SizeOf(l) * SizeOf(rhs)
    ensures Injective(FlatModes(LogicalProduct(l, rhs).value)) <==> Injective(FlatModes(rhs))
  {
    var rest := ProductRest(l, rhs);
    var copies := ProductParts(l, rhs);
    CompositionExact(rest, rhs);
    if Injective(FlatModes(rhs)) {
      CopiesApart(l, rhs, rest, copies);
    } else {
      var i: nat, j: nat :| i < SizeOf(rhs) && j < SizeOf(rhs) && i != j &&
                            Offset(FlatModes(rhs), i) == Offset(FlatModes(rhs), j);
      CopiesMeet(l, rhs, rest, copies, i, j);
    }
  }

  lemma CopiesApart(l: Layout, rhs: Layout, rest: Layout, copies: Layout)
    requires Valid(l) && Valid(rhs) && Valid(rest) && Valid(copies) && Composes(rest, rhs, copies)
    requires SizeOf(l) * Cosize(rhs) <= SizeOf(l) * SizeOf(rest) && Bijection(FlatModes(l) + FlatModes(rest))
    requires Injective(FlatModes(rhs)) && Size(FlatModes(l) + FlatModes(copies)) == SizeOf(l) * SizeOf(rhs)
    ensures Injective(FlatModes(l) + FlatModes(copies))
  {
    var all := FlatModes(l) + FlatModes(copies);
    forall i: nat, j: nat | i < Size(all) && j < Size(all) && Offset(all, i) == Offset(all, j) ensures i == j {
      ProductPlaces(l, rhs, rest, copies, i);
      ProductPlaces(l, rhs, rest, copies, j);
      SamePlace(SizeOf(l), i, j, Offset(FlatModes(rhs), i / SizeOf(l)), Offset(FlatModes(rhs), j / SizeOf(l)));
    }
  }

  /** Two indices of `rhs` at one place put two copies there. */
  lemma CopiesMeet(l: Layout, rhs: Layout, rest: Layout, copies: Layout, i: nat, j: nat)
    requires Valid(l) && Valid(rhs) && Valid(rest) && Valid(copies) && Composes(rest, rhs, copies)
    requires SizeOf(l) * Cosize(rhs) <= SizeOf(l) * SizeOf(rest)
    requires Size(FlatModes(l) + FlatModes(copies)) == SizeOf(l) * SizeOf(rhs)
    requires i < SizeOf(rhs) && j < SizeOf(rhs) && i != j && Offset(FlatModes(rhs), i) == Offset(FlatModes(rhs), j)
    ensures !Injective(FlatModes(l) + FlatModes(copies))
  {
    var n: pos := SizeOf(l);
    CopyStart(n, i, SizeOf(rhs));
    CopyStart(n, j, SizeOf(rhs));
    ProductPlaces(l, rhs, rest, copies, n * i);
    ProductPlaces(l, rhs, rest, copies, n * j);
    if n * i == n * j { MulCancel(n, i, j); }
  }

  lemma CopyStart(n: pos, i: nat, size: pos)
    requires i < size
    ensures 0 <= n * i < n * size && n * i / n == i && n * i % n == 0
  {
    DivModUnique(n * i, n, i, 0);
    MulMono(0, i, n);
    MulMono(i + 1, size, n);
    MulDistribLeft(n, i, 1);
  }

  /** A right-hand side separated by stride carries nowhere. */
  lemma SeparatedProduct(l: Layout, rhs: Layout)
    requires Valid(l) && Valid(rhs) && LogicalProduct(l, rhs).Ok? && Separated(FlatModes(rhs))
    ensures CarryFree(FlatModes(ProductRest(l, rhs)), FlatModes(rhs))
  {
    SeparatedComposes(ProductRest(l, rhs), rhs);
    CompositionExact(ProductRest(l, rhs), rhs);
  }

  lemma SamePlace(n: pos, i: nat, j: nat, u: nat, v: nat)
    requires i % n + n * u == j % n + n * v
    ensures u == v && (i / n == j / n ==> i == j)
  {
    DivMod(i, n);
    DivMod(j, n);
    DivModUnique(i % n + n * u, n, u, i % n);
    DivModUnique(j % n + n * v, n, v, j % n);
  }

  /** Index `i` of the product is a place in the completed layout: its low part inside one copy,
      its high part where `rhs` puts the copy. */
  lemma ProductPlaces(l: Layout, rhs: Layout, rest: Layout, copies: Layout, i: nat)
    requires Valid(l) && Valid(rhs) && Valid(rest) && Valid(copies) && Composes(rest, rhs, copies)
    requires SizeOf(l) * Cosize(rhs) <= SizeOf(l) * SizeOf(rest) && i < SizeOf(l) * SizeOf(rhs)
    ensures var n := SizeOf(l);
            0 <= i % n < n && 0 <= i / n < SizeOf(rhs) &&
            (var place := i % n + n * Offset(FlatModes(rhs), i / n);
             0 <= place < Size(FlatModes(l) + FlatModes(rest)) &&
             Offset(FlatModes(l) + FlatModes(copies), i) == Offset(FlatModes(l) + FlatModes(rest), place))
  {
    var n: pos := SizeOf(l);
    var x, y, z := FlatModes(l), FlatModes(rest), FlatModes(copies);
    DivMod(i, n);
    DivNonneg(i, n);
    DivBound(i, n, SizeOf(rhs));
    var u: nat := Offset(FlatModes(rhs), i / n);
    OffsetBelowCosize(FlatModes(rhs), i / n);
    MulMono(u + 1, Cosize(rhs), n);
    MulDistrib(u, 1, n);
    MulMono(0, u, n);
    var place: nat := i % n + n * u;
    SizeConcat(x, y);
    DivModUnique(place, n, u, i % n);
    OffsetConcat(x, z, i);
    OffsetConcat(x, y, place);
    DigitsMod(x, i);
    DigitsMod(x, place);
  }

  // ---- when copies overlap

  /** A copy of a two-index `self` reads what `self` reads at index 1. */
  ghost predicate MeetsSelf(ms: seq<Mode>) {
    exists j: nat :: 2 <= j < Size(ms) && Offset(ms, j) == Offset(ms, 1)
  }

  /** Injectivity of both sides is not enough. `2:60` times the injective `(2,2,3,2):(20,15,12,1)`
      succeeds, and reads 60 both in the first copy of `self` and at the last one: the places that
      copy starts from add up to a whole step of `self`. */
  lemma ProductOverlaps()
    ensures var l, rhs := FromFlat([Mode(2, 60)]), FromFlat(Apart());
            Valid(l) && Valid(rhs) && Injective(FlatModes(l)) && Injective(FlatModes(rhs)) &&
            LogicalProduct(l, rhs).Ok? && Valid(LogicalProduct(l, rhs).value) &&
            !Injective(FlatModes(LogicalProduct(l, rhs).value)) &&
            MeetsSelf(FlatModes(LogicalProduct(l, rhs).value))
  {
    ApartMeasures();
    SixtyInjective();
    ApartInjective();
    FlatNodeModes([Mode(2, 60)]);
    FlatNodeModes(Apart());
    StepComplement(FromFlat([Mode(2, 60)]), 60, 122);
    ApartComposes(FromFlat([Mode(60, 1), Mode(2, 120)]), Apart());
    OverlapAtSixty(FromFlat([Mode(2, 60)]), FromFlat(Apart()), FromFlat([Mode(60, 1), Mode(2, 120)]));
  }

  lemma OverlapAtSixty(l: Layout, rhs: Layout, rest: Layout)
    requires Valid(l) && FlatModes(l) == [Mode(2, 60)] && SizeOf(l) == 2 && Depth(l.shape) <= 1
    requires Valid(rhs) && FlatModes(rhs) == Apart() && Depth(rhs.shape) <= 1 && Cosize(rhs) == 61
    requires Valid(rest) && ComplementOf(l, 122) == Ok(rest) && Compose(rest, rhs) == Ok(rhs)
    ensures LogicalProduct(l, rhs).Ok? && Valid(LogicalProduct(l, rhs).value)
    ensures !Injective(FlatModes(LogicalProduct(l, rhs).value)) && MeetsSelf(FlatModes(LogicalProduct(l, rhs).value))
  {
    PairSixty(l, rhs);
    ProductOf(l, rhs, 122, rest, rhs);
    MeetAtSixty(FlatModes(FromPair(l, rhs).value));
  }

  function Apart(): seq<Mode> { [Mode(2, 20), Mode(2, 15), Mode(3, 12), Mode(2, 1)] }

  lemma ApartMeasures()
    ensures Valid(FromFlat(Apart())) && FlatModes(FromFlat(Apart())) == Apart()
    ensures Valid(FromFlat([Mode(2, 60)])) && FlatModes(FromFlat([Mode(2, 60)])) == [Mode(2, 60)]
    ensures Span(Apart()) == 60 && Size(Apart()) == 24 && Span([Mode(2, 60)]) == 60 && Size([Mode(2, 60)]) == 2
  {
    var ms := Apart();
    assert ms[1..] == [Mode(2, 15), Mode(3, 12), Mode(2, 1)] && ms[1..][1..] == [Mode(3, 12), Mode(2, 1)];
    assert ms[1..][1..][1..] == [Mode(2, 1)] && [Mode(2, 1)][1..] == [] && [Mode(2, 60)][1..] == [];
    assert Span([Mode(2, 1)]) == 1 && Size([Mode(2, 1)]) == 2;
    assert Span(ms[1..][1..]) == 25 && Size(ms[1..][1..]) == 6;
    assert Span(ms[1..]) == 40 && Size(ms[1..]) == 12;
    FromFlatModes(ms);
    FromFlatModes([Mode(2, 60)]);
  }

  lemma ApartDot(cs: seq<nat>)
    requires InBox(Apart(), cs)
    ensures Dot(Apart(), cs) == 20 * cs[0] + 15 * cs[1] + 12 * cs[2] + cs[3]
  {
    var ms := Apart();
    assert ms[1..] == [Mode(2, 15), Mode(3, 12), Mode(2, 1)] && ms[1..][1..] == [Mode(3, 12), Mode(2, 1)];
    assert ms[1..][1..][1..] == [Mode(2, 1)];
    var (x, y, z) := (cs[1..], cs[1..][1..], cs[1..][1..][1..]);
    assert Dot([Mode(2, 1)], z) == cs[3];
    assert Dot(ms[1..][1..], y) == 12 * cs[2] + cs[3];
    assert Dot(ms[1..], x) == 15 * cs[1] + 12 * cs[2] + cs[3];
  }

  lemma ApartInjective()
    ensures Injective(Apart())
  {
    var ms := Apart();
    forall i: nat, j: nat | i < Size(ms) && j < Size(ms) && Offset(ms, i) == Offset(ms, j) ensures i == j {
      var (x, y) := (Digits(ms, i), Digits(ms, j));
      DigitsInBox(ms, i);
      DigitsInBox(ms, j);
      OffsetIsDot(ms, i);
      OffsetIsDot(ms, j);
      ApartDot(x);
      ApartDot(y);
      ApartDigits(x[0], x[1], x[2], x[3], y[0], y[1], y[2], y[3]);
      assert x == y;
      IndexOfDigits(ms, i);
      IndexOfDigits(ms, j);
    }
  }

  lemma ApartDigits(a: nat, b: nat, c: nat, d: nat, a': nat, b': nat, c': nat, d': nat)
    requires a < 2 && b < 2 && c < 3 && d < 2 && a' < 2 && b' < 2 && c' < 3 && d' < 2
    requires 20 * a + 15 * b + 12 * c + d == 20 * a' + 15 * b' + 12 * c' + d'
    ensures a == a' && b == b' && c == c' && d == d'
  {
  }

  lemma SixtyInjective()
    ensures Injective([Mode(2, 60)])
  {
    assert [Mode(2, 60)][1..] == [];
  }

  lemma StepGaps(ms: seq<Mode>, n: pos)
    requires ms == [Mode(2, n)] && 1 < n <= 100
    ensures NonUnit(ms) == ms && SortModes(ms) == ms && AllActive(ms)
    ensures Gaps(ms, 1, []) == Ok(([Mode(n, 1)], 2 * n))
  {
    assert ms[1..] == [];
    SortIsForced(ms, ms);
    assert AddGap([], n, 1) == [Mode(n, 1)];
    assert Gaps(ms[1..], 2 * n, [Mode(n, 1)]) == Ok(([Mode(n, 1)], 2 * n));
  }

  lemma StepModes(ms: seq<Mode>, n: pos, cotarget: pos)
    requires ms == [Mode(2, n)] && 1 < n <= 100 && 2 * n < cotarget <= 4 * n
    ensures ComplementModes(ms, cotarget) == Ok([Mode(n, 1), Mode(2, 2 * n)])
  {
    StepGaps(ms, n);
    var r := CeilDiv(cotarget, 2 * n);
    if r >= 3 { MulMono(3, r, 2 * n); }
    if r <= 1 { MulMono(r, 1, 2 * n); }
    assert AddRest([Mode(n, 1)], 2 * n, cotarget) == [Mode(n, 1), Mode(2, 2 * n)];
  }

  /** What completes `2:n` up to twice its reach. */
  lemma StepComplement(l: Layout, n: pos, cotarget: pos)
    requires Valid(l) && FlatModes(l) == [Mode(2, n)] && 1 < n <= 100 && 2 * n < cotarget <= 4 * n
    ensures Valid(FromFlat([Mode(n, 1), Mode(2, 2 * n)]))
    ensures FlatModes(FromFlat([Mode(n, 1), Mode(2, 2 * n)])) == [Mode(n, 1), Mode(2, 2 * n)]
    ensures ComplementOf(l, cotarget) == Ok(FromFlat([Mode(n, 1), Mode(2, 2 * n)]))
  {
    var out := [Mode(n, 1), Mode(2, 2 * n)];
    PairLayout(Mode(n, 1), Mode(2, 2 * n));
    StepModes(FlatModes(l), n, cotarget);
    NewLayoutValid(FlatNode(out).0, FlatNode(out).1);
  }

  lemma FixedInSixty(a: seq<Mode>, m: Mode)
    requires a == [Mode(60, 1), Mode(2, 120)] && m in Apart()
    ensures LeafOut(a, m) == Ok([m])
  {
    assert m.s > 1 && m.d < 60 && 60 % m.d == 0 && m.s <= 60 / m.d;
    LeafFixed(a, m);
  }

  lemma ApartComposes(l: Layout, bs: seq<Mode>)
    requires Valid(l) && FlatModes(l) == [Mode(60, 1), Mode(2, 120)] && bs == Apart()
    requires Span(bs) == 60 && Size(bs) == 24
    ensures Valid(FromFlat(bs)) && Compose(l, FromFlat(bs)) == Ok(FromFlat(bs))
  {
    forall m | m in bs ensures LeafOut(FlatModes(l), m) == Ok([m]) {
      FixedInSixty(FlatModes(l), m);
    }
    ComposeFixed(l, bs);
  }

  lemma PairSixty(l: Layout, rhs: Layout)
    requires Valid(l) && Valid(rhs) && FlatModes(l) == [Mode(2, 60)] && FlatModes(rhs) == Apart()
    requires Depth(l.shape) <= 1 && Depth(rhs.shape) <= 1
    ensures FromPair(l, rhs).Ok? && Valid(FromPair(l, rhs).value)
    ensures FlatModes(FromPair(l, rhs).value) == [Mode(2, 60)] + Apart()
  {
    ApartMeasures();
    Inverses.PairExact(l, rhs);
    FromPairModes(l, rhs);
  }

  lemma MeetAtSixty(ms: seq<Mode>)
    requires ms == [Mode(2, 60)] + Apart()
    ensures !Injective(ms) && MeetsSelf(ms)
  {
    var (x, y) := ([1, 0, 0, 0, 0], [0, 1, 1, 2, 1]);
    assert ms[1..] == Apart();
    assert x[1..] == [0, 0, 0, 0] && y[1..] == [1, 1, 2, 1];
    ApartDot(x[1..]);
    ApartDot(y[1..]);
    assert Dot(ms, x) == 60 && Dot(ms, y) == 60;
    OffsetOfIndex(ms, x);
    OffsetOfIndex(ms, y);
    DigitsOfIndex(ms, x);
    DigitsOfIndex(ms, y);
    MeetingIndices(ms, x, y);
  }

  lemma {:induction false} FirstIndex(ms: seq<Mode>, cs: seq<nat>)
    requires |cs| == |ms| && forall k :: 0 <= k < |cs| ==> cs[k] == 0
    ensures Index(ms, cs) == 0
  {
    if ms != [] {
      FirstIndex(ms[1..], cs[1..]);
      MulZero(ms[0].s, 0);
    }
  }

  lemma MeetingIndices(ms: seq<Mode>, x: seq<nat>, y: seq<nat>)
    requires ms == [Mode(2, 60)] + Apart() && x == [1, 0, 0, 0, 0] && y == [0, 1, 1, 2, 1]
    ensures Index(ms, x) == 1 && Index(ms, y) >= 2
  {
    assert ms[1..] == Apart() && x[1..] == [0, 0, 0, 0] && y[1..] == [1, 1, 2, 1];
    FirstIndex(Apart(), x[1..]);
    assert Index(Apart(), y[1..]) >= 1;
  }

  // ---- and when it carries and they do not

  /** Carrying nowhere is sufficient, not necessary: composing `(3,2):(2,3)` with the complement of
      `2:6` carries, and the product reads no offset twice. */
  lemma CarryNotNecessary()
    ensures var l, rhs := FromFlat([Mode(2, 6)]), FromFlat([Mode(3, 2), Mode(2, 3)]);
            Valid(l) && Valid(rhs) && LogicalProduct(l, rhs).Ok? &&
            !CarryFree(FlatModes(ProductRest(l, rhs)), FlatModes(rhs)) &&
            Valid(LogicalProduct(l, rhs).value) && Injective(FlatModes(LogicalProduct(l, rhs).value))
  {
    assert [Mode(2, 6)][1..] == [];
    FromFlatModes([Mode(2, 6)]);
    FlatNodeModes([Mode(2, 6)]);
    PairLayout(Mode(3, 2), Mode(2, 3));
    FlatNodeModes([Mode(3, 2), Mode(2, 3)]);
    StepComplement(FromFlat([Mode(2, 6)]), 6, 16);
    SixComposes(FromFlat([Mode(6, 1), Mode(2, 12)]), [Mode(3, 2), Mode(2, 3)]);
    SixProduct(FromFlat([Mode(2, 6)]), FromFlat([Mode(3, 2), Mode(2, 3)]), FromFlat([Mode(6, 1), Mode(2, 12)]));
  }

  lemma SixProduct(l: Layout, rhs: Layout, rest: Layout)
    requires Valid(l) && FlatModes(l) == [Mode(2, 6)] && SizeOf(l) == 2 && Depth(l.shape) <= 1 &&
             Span(FlatModes(l)) == 6
    requires Valid(rhs) && FlatModes(rhs) == [Mode(3, 2), Mode(2, 3)] && Depth(rhs.shape) <= 1
    requires Span(FlatModes(rhs)) == 7 && SizeOf(rhs) == 6
    requires Valid(rest) && ComplementOf(l, 16) == Ok(rest) && Compose(rest, rhs) == Ok(rhs)
    requires !CarryFree(FlatModes(rest), FlatModes(rhs))
    ensures LogicalProduct(l, rhs).Ok? && !CarryFree(FlatModes(ProductRest(l, rhs)), FlatModes(rhs))
    ensures Valid(LogicalProduct(l, rhs).value) && Injective(FlatModes(LogicalProduct(l, rhs).value))
  {
    SixPair(l, rhs);
    ProductOf(l, rhs, 16, rest, rhs);
  }

  /** What a product is, step by step. */
  lemma ProductOf(l: Layout, rhs: Layout, target: pos, rest: Layout, copies: Layout)
    requires Valid(l) && Valid(rhs) && Valid(rest) && target == SizeOf(l) * Cosize(rhs) && target <= I64_MAX
    requires ComplementOf(l, target) == Ok(rest) && Compose(rest, rhs) == Ok(copies) && FromPair(l, copies).Ok?
    ensures LogicalProduct(l, rhs) == FromPair(l, copies) && ProductRest(l, rhs) == rest
  {
  }

  lemma SixComposes(rest: Layout, bs: seq<Mode>)
    requires Valid(rest) && FlatModes(rest) == [Mode(6, 1), Mode(2, 12)] && bs == [Mode(3, 2), Mode(2, 3)]
    requires Span(bs) == 7 && Size(bs) == 6
    ensures Valid(FromFlat(bs)) && Compose(rest, FromFlat(bs)) == Ok(FromFlat(bs))
    ensures !CarryFree(FlatModes(rest), bs)
  {
    LeafFixed(FlatModes(rest), Mode(3, 2));
    LeafFixed(FlatModes(rest), Mode(2, 3));
    ComposeFixed(rest, bs);
    CounterexampleCarries(12);
  }

  lemma SixPair(l: Layout, rhs: Layout)
    requires Valid(l) && FlatModes(l) == [Mode(2, 6)] && SizeOf(l) == 2 && Depth(l.shape) <= 1 &&
             Span(FlatModes(l)) == 6
    requires Valid(rhs) && FlatModes(rhs) == [Mode(3, 2), Mode(2, 3)] && Depth(rhs.shape) <= 1
    requires Span(FlatModes(rhs)) == 7 && SizeOf(rhs) == 6
    ensures FromPair(l, rhs).Ok? && Valid(FromPair(l, rhs).value) && Injective(FlatModes(FromPair(l, rhs).value))
  {
    Inverses.PairExact(l, rhs);
    FromPairModes(l, rhs);
    SixInjective(FlatModes(l) + FlatModes(rhs));
  }

  lemma SixInjective(ms: seq<Mode>)
    requires ms == [Mode(2, 6)] + [Mode(3, 2), Mode(2, 3)]
    ensures Injective(ms)
  {
    assert ms[1..] == [Mode(3, 2), Mode(2, 3)] && ms[1..][1..] == [Mode(2, 3)];
    forall i: nat, j: nat | i < Size(ms) && j < Size(ms) && Offset(ms, i) == Offset(ms, j) ensures i == j {
      var (x, y) := (Digits(ms, i), Digits(ms, j));
      DigitsInBox(ms, i);
      DigitsInBox(ms, j);
      OffsetIsDot(ms, i);
      OffsetIsDot(ms, j);
      SixDot(ms, x);
      SixDot(ms, y);
      SixApart(x[0], x[1], x[2], y[0], y[1], y[2]);
      assert x == y;
      IndexOfDigits(ms, i);
      IndexOfDigits(ms, j);
    }
  }

  lemma SixApart(a: nat, b: nat, c: nat, x: nat, y: nat, z: nat)
    requires 6 * a + 2 * b + 3 * c == 6 * x + 2 * y + 3 * z && b < 3 && c < 2 && y < 3 && z < 2
    ensures a == x && b == y && c == z
  {
  }

  lemma SixDot(ms: seq<Mode>, cs: seq<nat>)
    requires ms == [Mode(2, 6)] + [Mode(3, 2), Mode(2, 3)] && InBox(ms, cs)
    ensures Dot(ms, cs) == 6 * cs[0] + 2 * cs[1] + 3 * cs[2] && cs[0] < 2 && cs[1] < 3 && cs[2] < 2
  {
    assert ms[1..] == [Mode(3, 2), Mode(2, 3)] && ms[1..][1..] == [Mode(2, 3)];
    assert Dot(ms[1..][1..], cs[1..][1..]) == 3 * cs[2];
    assert Dot(ms[1..], cs[1..]) == 2 * cs[1] + 3 * cs[2];
    assert ms[0].s == 2 && ms[1].s == 3 && ms[2].s == 2;
  }
}
