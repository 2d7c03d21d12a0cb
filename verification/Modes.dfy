/** Flat mode lists: the `(extent, stride)` pairs a layout is read through once its nesting is
    dropped. An index is split colexicographically (first mode fastest) into one digit a mode; the
    offset is the dot product of the digits with the strides. */
module Modes {
  import opened Arith

  datatype Mode = Mode(s: pos, d: nat)

  /** Number of indices. */
  function Size(ms: seq<Mode>): pos {
    if ms == [] then 1 else
      MulPos(ms[0].s, Size(ms[1..]));
      ms[0].s * Size(ms[1..])
  }

  /** Largest offset below `Size`: `sum((s-1)*d)`. */
  function Span(ms: seq<Mode>): nat {
    if ms == [] then 0 else
      MulMono(0, ms[0].s - 1, ms[0].d);
      (ms[0].s - 1) * ms[0].d + Span(ms[1..])
  }

  /** The offset of index `i`; the last mode is unbounded. */
  function Offset(ms: seq<Mode>, i: nat): nat {
    if ms == [] then 0
    else if |ms| == 1 then
      MulMono(0, i, ms[0].d);
      i * ms[0].d
    else
      DivNonneg(i, ms[0].s);
      MulMono(0, i % ms[0].s, ms[0].d);
      (i % ms[0].s) * ms[0].d + Offset(ms[1..], i / ms[0].s)
  }

  // ---- digits

  function Digits(ms: seq<Mode>, i: nat): (cs: seq<nat>)
    ensures |cs| == |ms|
  {
    if ms == [] then [] else
      DivNonneg(i, ms[0].s);
      [i % ms[0].s] + Digits(ms[1..], i / ms[0].s)
  }

  ghost predicate InBox(ms: seq<Mode>, cs: seq<nat>) {
    |cs| == |ms| && forall j :: 0 <= j < |ms| ==> cs[j] < ms[j].s
  }

  function Dot(ms: seq<Mode>, cs: seq<nat>): nat
    requires |cs| == |ms|
  {
    if ms == [] then 0 else
      MulMono(0, cs[0], ms[0].d);
      cs[0] * ms[0].d + Dot(ms[1..], cs[1..])
  }

  /** The index a digit list stands for. */
  function Index(ms: seq<Mode>, cs: seq<nat>): nat
    requires |cs| == |ms|
  {
    if ms == [] then 0 else
      MulMono(0, Index(ms[1..], cs[1..]), ms[0].s);
      cs[0] + ms[0].s * Index(ms[1..], cs[1..])
  }

  lemma {:induction false} DigitsInBox(ms: seq<Mode>, i: nat)
    ensures InBox(ms, Digits(ms, i))
  {
    if ms != [] {
      DivNonneg(i, ms[0].s);
      DigitsInBox(ms[1..], i / ms[0].s);
    }
  }

  /** Below `Size`, digits and indices are in bijection. */
  lemma {:induction false} IndexOfDigits(ms: seq<Mode>, i: nat)
    requires i < Size(ms)
    ensures Index(ms, Digits(ms, i)) == i
  {
    if ms != [] {
      var q := i / ms[0].s;
      DivNonneg(i, ms[0].s);
      DivMod(i, ms[0].s);
      DivBound(i, ms[0].s, Size(ms[1..]));
      IndexOfDigits(ms[1..], q);
      assert Digits(ms, i)[1..] == Digits(ms[1..], q);
    }
  }

  lemma {:induction false} DigitsOfIndex(ms: seq<Mode>, cs: seq<nat>)
    requires InBox(ms, cs)
    ensures Index(ms, cs) < Size(ms)
    ensures Digits(ms, Index(ms, cs)) == cs
  {
    if ms != [] {
      var s: int, q: int, n: int := ms[0].s, Index(ms[1..], cs[1..]), Size(ms[1..]);
      DigitsOfIndex(ms[1..], cs[1..]);
      MulMono(q, n - 1, s);
      MulPred(n, s);
      DivModUnique(Index(ms, cs), s, q, cs[0]);
    }
  }

  /** Below `Size` the offset is the dot product of the digits with the strides. */
  lemma {:induction false} OffsetIsDot(ms: seq<Mode>, i: nat)
    requires i < Size(ms)
    ensures Offset(ms, i) == Dot(ms, Digits(ms, i))
  {
    if |ms| == 1 {
      assert Size(ms[1..]) == 1;
      DivModUnique(i, ms[0].s, 0, i);
      assert Dot(ms[1..], Digits(ms, i)[1..]) == 0;
    } else if |ms| > 1 {
      var q := i / ms[0].s;
      DivNonneg(i, ms[0].s);
      DivBound(i, ms[0].s, Size(ms[1..]));
      OffsetIsDot(ms[1..], q);
      assert Digits(ms, i)[1..] == Digits(ms[1..], q);
    }
  }

  lemma OffsetOfIndex(ms: seq<Mode>, cs: seq<nat>)
    requires InBox(ms, cs)
    ensures Index(ms, cs) < Size(ms)
    ensures Offset(ms, Index(ms, cs)) == Dot(ms, cs)
  {
    DigitsOfIndex(ms, cs);
    OffsetIsDot(ms, Index(ms, cs));
  }

  lemma {:induction false} OffsetZero(ms: seq<Mode>)
    ensures Offset(ms, 0) == 0
  {
    if |ms| > 1 {
      DivModUnique(0, ms[0].s, 0, 0);
      OffsetZero(ms[1..]);
    }
  }

  // ---- concatenation

  lemma {:induction false} SizeConcat(xs: seq<Mode>, ys: seq<Mode>)
    ensures Size(xs + ys) == Size(xs) * Size(ys)
  {
    if xs == [] {
      assert xs + ys == ys;
    } else {
      SizeConcat(xs[1..], ys);
      assert (xs + ys)[1..] == xs[1..] + ys;
      MulAssoc(xs[0].s, Size(xs[1..]), Size(ys));
      assert Size(xs + ys) == xs[0].s * Size(xs[1..] + ys);
    }
  }

  lemma {:induction false} SpanConcat(xs: seq<Mode>, ys: seq<Mode>)
    ensures Span(xs + ys) == Span(xs) + Span(ys)
  {
    if xs == [] {
      assert xs + ys == ys;
    } else {
      SpanConcat(xs[1..], ys);
      assert (xs + ys)[1..] == xs[1..] + ys;
    }
  }

  lemma {:induction false} DotConcat(xs: seq<Mode>, ys: seq<Mode>, cs: seq<nat>, ds: seq<nat>)
    requires |cs| == |xs| && |ds| == |ys|
    ensures Dot(xs + ys, cs + ds) == Dot(xs, cs) + Dot(ys, ds)
  {
    if xs == [] {
      assert xs + ys == ys && cs + ds == ds;
    } else {
      DotConcat(xs[1..], ys, cs[1..], ds);
      assert (xs + ys)[1..] == xs[1..] + ys && (cs + ds)[1..] == cs[1..] + ds;
    }
  }

  lemma {:induction false} DigitsConcat(xs: seq<Mode>, ys: seq<Mode>, i: nat)
    ensures 0 <= i / Size(xs)
    ensures Digits(xs + ys, i) == Digits(xs, i) + Digits(ys, i / Size(xs))
  {
    DivNonneg(i, Size(xs));
    if xs == [] {
      assert xs + ys == ys;
    } else {
      var q := i / xs[0].s;
      DivNonneg(i, xs[0].s);
      DigitsConcat(xs[1..], ys, q);
      assert (xs + ys)[1..] == xs[1..] + ys;
      DivModMul(i, xs[0].s, Size(xs[1..]));
    }
  }

  /** A front part reads the low digits, whatever follows it reads the rest. */
  lemma {:induction false} OffsetConcat(xs: seq<Mode>, ys: seq<Mode>, i: nat)
    requires ys != []
    ensures 0 <= i / Size(xs)
    ensures Offset(xs + ys, i) == Dot(xs, Digits(xs, i)) + Offset(ys, i / Size(xs))
  {
    DivNonneg(i, Size(xs));
    if xs == [] {
      assert xs + ys == ys;
    } else {
      var q := i / xs[0].s;
      DivNonneg(i, xs[0].s);
      OffsetConcat(xs[1..], ys, q);
      assert (xs + ys)[1..] == xs[1..] + ys;
      DivModMul(i, xs[0].s, Size(xs[1..]));
      assert Digits(xs, i)[1..] == Digits(xs[1..], q);
    }
  }

  /** The same below the front part's own size, where nothing follows. */
  lemma OffsetConcatLow(xs: seq<Mode>, ys: seq<Mode>, i: nat)
    requires i < Size(xs)
    ensures Offset(xs + ys, i) == Offset(xs, i)
  {
    if ys == [] {
      assert xs + ys == xs;
    } else {
      OffsetConcat(xs, ys, i);
      DivModUnique(i, Size(xs), 0, i);
      OffsetZero(ys);
      OffsetIsDot(xs, i);
    }
  }

  // ---- reading every mode modulo its extent

  /** The offset with the last digit bounded too: the periodic reading of a mode list. */
  function Wrapped(ms: seq<Mode>, i: nat): nat {
    Dot(ms, Digits(ms, i))
  }

  lemma WrappedConcat(xs: seq<Mode>, ys: seq<Mode>, i: nat)
    ensures 0 <= i / Size(xs)
    ensures Wrapped(xs + ys, i) == Wrapped(xs, i) + Wrapped(ys, i / Size(xs))
  {
    DigitsConcat(xs, ys, i);
    DotConcat(xs, ys, Digits(xs, i), Digits(ys, i / Size(xs)));
  }

  lemma {:induction false} DigitsMod(ms: seq<Mode>, i: nat)
    ensures Digits(ms, i % Size(ms)) == Digits(ms, i)
  {
    if ms != [] {
      var s, n := ms[0].s, Size(ms[1..]);
      DivNonneg(i, s);
      DivMod(i, s);
      DivModMul(i, s, n);
      DivMod(i / s, n);
      DivModUnique(i % (s * n), s, i / s % n, i % s);
      DigitsMod(ms[1..], i / s);
    }
  }

  /** What one more whole period adds when the last mode is unbounded. */
  function Period(ms: seq<Mode>): nat {
    if ms == [] then 0 else
      var m := ms[|ms| - 1];
      MulMono(0, m.s, m.d);
      m.s * m.d
  }

  /** The unbounded reading is the periodic one plus one `Period` a full turn. */
  lemma {:induction false} OffsetPeriod(ms: seq<Mode>, i: nat)
    ensures Offset(ms, i) == Wrapped(ms, i) + i / Size(ms) * Period(ms)
  {
    if |ms| == 1 {
      var s, d, q := ms[0].s, ms[0].d, i / ms[0].s;
      DivNonneg(i, s);
      DivMod(i, s);
      assert Size(ms[1..]) == 1 && Dot(ms[1..], Digits(ms, i)[1..]) == 0;
      MulDistrib(s * q, i % s, d);
      MulAssoc(q, s, d);
    } else if |ms| > 1 {
      DivNonneg(i, ms[0].s);
      OffsetPeriod(ms[1..], i / ms[0].s);
      DivModMul(i, ms[0].s, Size(ms[1..]));
      assert Digits(ms, i)[1..] == Digits(ms[1..], i / ms[0].s);
    }
  }

  // ---- reordering: removal of one mode

  function Remove<T>(s: seq<T>, k: nat): (r: seq<T>)
    requires k < |s|
    ensures |r| == |s| - 1
    ensures forall x :: x in r ==> x in s
  {
    s[..k] + s[k + 1..]
  }

  lemma RemoveMultiset<T>(s: seq<T>, k: nat)
    requires k < |s|
    ensures multiset(Remove(s, k)) == multiset(s) - multiset{s[k]}
  {
    assert s == s[..k] + [s[k]] + s[k + 1..];
  }

  lemma {:induction false} DotRemove(ms: seq<Mode>, cs: seq<nat>, k: nat)
    requires |cs| == |ms| && k < |ms|
    ensures Dot(ms, cs) == cs[k] * ms[k].d + Dot(Remove(ms, k), Remove(cs, k))
  {
    if k == 0 {
      assert Remove(ms, 0) == ms[1..] && Remove(cs, 0) == cs[1..];
    } else {
      DotRemove(ms[1..], cs[1..], k - 1);
      assert Remove(ms, k)[1..] == Remove(ms[1..], k - 1);
      assert Remove(cs, k)[1..] == Remove(cs[1..], k - 1);
    }
  }

  lemma {:induction false} SizeRemove(ms: seq<Mode>, k: nat)
    requires k < |ms|
    ensures Size(ms) == ms[k].s * Size(Remove(ms, k))
  {
    SizeConcat(ms[..k], ms[k..]);
    assert ms == ms[..k] + ms[k..];
    SizeConcat(ms[..k], ms[k + 1..]);
    assert ms[k..][1..] == ms[k + 1..];
    MulSwap(Size(ms[..k]), ms[k].s, Size(ms[k + 1..]));
  }

  // ---- separation by stride

  /** Span of the modes whose stride is at most `t`. */
  function SpanThrough(ms: seq<Mode>, t: nat): nat {
    if ms == [] then 0 else
      MulMono(0, ms[0].s - 1, ms[0].d);
      (if ms[0].d <= t then (ms[0].s - 1) * ms[0].d else 0) + SpanThrough(ms[1..], t)
  }

  /** Every mode steps over everything the modes of smaller or equal stride can reach. */
  ghost predicate Separated(ms: seq<Mode>) {
    forall m :: m in ms && m.s > 1 && m.d > 0 ==> SpanThrough(ms, m.d) < m.s * m.d
  }

  ghost predicate NonzeroStrides(ms: seq<Mode>) {
    forall m :: m in ms && m.s > 1 ==> m.d > 0
  }

  /** Every mode starts exactly where the modes of smaller stride end: together they fill an
      interval from zero. */
  ghost predicate Filled(ms: seq<Mode>) {
    && NonzeroStrides(ms)
    && forall m :: m in ms && m.s > 1 ==> SpanThrough(ms, m.d) == m.s * m.d - 1
  }

  lemma {:induction false} SpanThroughConcat(xs: seq<Mode>, ys: seq<Mode>, t: nat)
    ensures SpanThrough(xs + ys, t) == SpanThrough(xs, t) + SpanThrough(ys, t)
  {
    if xs == [] {
      assert xs + ys == ys;
    } else {
      SpanThroughConcat(xs[1..], ys, t);
      assert (xs + ys)[1..] == xs[1..] + ys;
    }
  }

  lemma SpanThroughRemove(ms: seq<Mode>, k: nat, t: nat)
    requires k < |ms|
    ensures SpanThrough(ms, t) == SpanThrough(Remove(ms, k), t) + if ms[k].d <= t then (ms[k].s - 1) * ms[k].d else 0
  {
    var one := [ms[k]];
    assert ms == ms[..k] + (one + ms[k + 1..]);
    SpanThroughConcat(ms[..k], one + ms[k + 1..], t);
    SpanThroughConcat(one, ms[k + 1..], t);
    SpanThroughConcat(ms[..k], ms[k + 1..], t);
    assert one[1..] == [];
  }

  lemma {:induction false} SpanThroughAll(ms: seq<Mode>, t: nat)
    requires forall m :: m in ms ==> m.d <= t
    ensures SpanThrough(ms, t) == Span(ms)
  {
    if ms != [] {
      SpanThroughAll(ms[1..], t);
    }
  }

  lemma {:induction false} DotAtMostSpan(ms: seq<Mode>, cs: seq<nat>)
    requires InBox(ms, cs)
    ensures Dot(ms, cs) <= Span(ms)
  {
    if ms != [] {
      DotAtMostSpan(ms[1..], cs[1..]);
      MulMono(cs[0], ms[0].s - 1, ms[0].d);
    }
  }

  /** The position of a largest stride. */
  lemma {:induction false} MaxStride(ms: seq<Mode>) returns (k: nat)
    requires ms != []
    ensures k < |ms| && forall m :: m in ms ==> m.d <= ms[k].d
  {
    if |ms| == 1 {
      k := 0;
    } else {
      k := MaxStride(ms[1..]);
      k := if ms[0].d <= ms[k + 1].d then k + 1 else 0;
      forall m | m in ms ensures m.d <= ms[k].d {
        assert m == ms[0] || m in ms[1..];
      }
    }
  }

  lemma SpanThroughRemoveLess(ms: seq<Mode>, k: nat, t: nat)
    requires k < |ms|
    ensures SpanThrough(Remove(ms, k), t) <= SpanThrough(ms, t)
  {
    SpanThroughRemove(ms, k, t);
    MulMono(0, ms[k].s - 1, ms[k].d);
  }

  /** The whole span is the top mode's own and the rest's. */
  lemma SpanTop(ms: seq<Mode>, k: nat)
    requires k < |ms| && forall m :: m in ms ==> m.d <= ms[k].d
    ensures SpanThrough(ms, ms[k].d) == Span(Remove(ms, k)) + ms[k].s * ms[k].d - ms[k].d
  {
    var rest, t := Remove(ms, k), ms[k].d;
    assert SpanThrough(ms, t) == SpanThrough(rest, t) + (ms[k].s - 1) * t by { SpanThroughRemove(ms, k, t); }
    assert SpanThrough(rest, t) == Span(rest) by { SpanThroughAll(rest, t); }
    assert (ms[k].s - 1) * t == ms[k].s * t - t by { MulPred(ms[k].s, t); }
  }

  /** Taking the mode of largest stride away leaves a separated list that stays below it. */
  lemma SeparatedRemove(ms: seq<Mode>, k: nat)
    requires Separated(ms) && k < |ms| && forall m :: m in ms ==> m.d <= ms[k].d
    ensures Separated(Remove(ms, k))
    ensures ms[k].s > 1 && ms[k].d > 0 ==> Span(Remove(ms, k)) < ms[k].d
  {
    var rest := Remove(ms, k);
    forall m | m in rest && m.s > 1 && m.d > 0
      ensures SpanThrough(rest, m.d) < m.s * m.d
    {
      SpanThroughRemoveLess(ms, k, m.d);
    }
    SpanTop(ms, k);
  }

  /** The top digit and the rest are read off a dot product by division. */
  lemma TopDigit(ms: seq<Mode>, k: nat, cs: seq<nat>)
    requires Separated(ms) && k < |ms| && forall m :: m in ms ==> m.d <= ms[k].d
    requires InBox(ms, cs) && ms[k].s > 1 && ms[k].d > 0
    ensures cs[k] == Dot(ms, cs) / ms[k].d && Dot(Remove(ms, k), Remove(cs, k)) == Dot(ms, cs) % ms[k].d
  {
    var rest := Remove(ms, k);
    SeparatedRemove(ms, k);
    DotRemove(ms, cs, k);
    assert InBox(rest, Remove(cs, k));
    DotAtMostSpan(rest, Remove(cs, k));
    DivModUnique(Dot(ms, cs), ms[k].d, cs[k], Dot(rest, Remove(cs, k)));
  }

  lemma TopDigitsEqual(ms: seq<Mode>, k: nat, cs: seq<nat>, ds: seq<nat>)
    requires Separated(ms) && NonzeroStrides(ms) && k < |ms| && forall m :: m in ms ==> m.d <= ms[k].d
    requires InBox(ms, cs) && InBox(ms, ds) && Dot(ms, cs) == Dot(ms, ds)
    ensures cs[k] == ds[k] && Dot(Remove(ms, k), Remove(cs, k)) == Dot(Remove(ms, k), Remove(ds, k))
    ensures InBox(Remove(ms, k), Remove(cs, k)) && InBox(Remove(ms, k), Remove(ds, k))
  {
    if ms[k].s > 1 {
      TopDigit(ms, k, cs);
      TopDigit(ms, k, ds);
    } else {
      DotRemove(ms, cs, k);
      DotRemove(ms, ds, k);
    }
  }

  lemma RemoveEqual<T>(xs: seq<T>, ys: seq<T>, k: nat)
    requires |xs| == |ys| && k < |xs| && xs[k] == ys[k] && Remove(xs, k) == Remove(ys, k)
    ensures xs == ys
  {
    forall j | 0 <= j < |xs| ensures xs[j] == ys[j] {
      var e := if j < k then j else j - 1;
      assert j != k ==> Remove(xs, k)[e] == xs[j] && Remove(ys, k)[e] == ys[j];
    }
  }

  /** A separated list of non-zero strides is injective on digits. */
  lemma {:induction false} SeparatedInjective(ms: seq<Mode>, cs: seq<nat>, ds: seq<nat>)
    requires Separated(ms) && NonzeroStrides(ms)
    requires InBox(ms, cs) && InBox(ms, ds) && Dot(ms, cs) == Dot(ms, ds)
    ensures cs == ds
    decreases |ms|
  {
    if ms != [] {
      var k := MaxStride(ms);
      SeparatedRemove(ms, k);
      TopDigitsEqual(ms, k, cs, ds);
      SeparatedInjective(Remove(ms, k), Remove(cs, k), Remove(ds, k));
      RemoveEqual(cs, ds, k);
    }
  }

  lemma SeparatedOffsetInjective(ms: seq<Mode>, i: nat, j: nat)
    requires Separated(ms) && NonzeroStrides(ms)
    requires i < Size(ms) && j < Size(ms) && Offset(ms, i) == Offset(ms, j)
    ensures i == j
  {
    OffsetIsDot(ms, i);
    OffsetIsDot(ms, j);
    DigitsInBox(ms, i);
    DigitsInBox(ms, j);
    SeparatedInjective(ms, Digits(ms, i), Digits(ms, j));
    IndexOfDigits(ms, i);
    IndexOfDigits(ms, j);
  }

  lemma FilledSeparated(ms: seq<Mode>)
    requires Filled(ms)
    ensures Separated(ms)
  {
  }

  lemma FilledRemove(ms: seq<Mode>, k: nat)
    requires Filled(ms) && k < |ms| && forall m :: m in ms ==> m.d <= ms[k].d
    ensures Filled(Remove(ms, k))
    ensures ms[k].s > 1 ==> Span(Remove(ms, k)) == ms[k].d - 1
  {
    var rest := Remove(ms, k);
    SpanTop(ms, k);
    forall m | m in rest && m.s > 1
      ensures SpanThrough(rest, m.d) == m.s * m.d - 1
    {
      SpanThroughRemove(ms, k, m.d);
      if ms[k].s > 1 && ms[k].d <= m.d {
        // Two modes of one stride would have to span it twice.
        SpanThroughAll(rest, m.d);
        SpanThroughMember(rest, m);
        MulMono(1, m.s - 1, m.d);
      }
    }
  }

  lemma {:induction false} SpanThroughMember(ms: seq<Mode>, m: Mode)
    requires m in ms
    ensures (m.s - 1) * m.d <= SpanThrough(ms, m.d)
  {
    var k :| 0 <= k < |ms| && ms[k] == m;
    SpanThroughRemove(ms, k, m.d);
  }

  /** A filled list has no gap: its span is one below its size. */
  lemma {:induction false} FilledSpan(ms: seq<Mode>)
    requires Filled(ms)
    ensures Span(ms) == Size(ms) - 1
    decreases |ms|
  {
    if ms != [] {
      var k := MaxStride(ms);
      FilledRemove(ms, k);
      FilledSpan(Remove(ms, k));
      SizeRemove(ms, k);
      SpanTop(ms, k);
      SpanThroughAll(ms, ms[k].d);
    }
  }

  function InsertAt<T>(s: seq<T>, k: nat, x: T): (r: seq<T>)
    requires k <= |s|
    ensures |r| == |s| + 1 && r[k] == x && Remove(r, k) == s
  {
    s[..k] + [x] + s[k..]
  }

  lemma InBoxInsert(ms: seq<Mode>, k: nat, low: seq<nat>, q: nat)
    requires k < |ms| && InBox(Remove(ms, k), low) && q < ms[k].s
    ensures InBox(ms, InsertAt(low, k, q))
  {
    forall j | 0 <= j < |ms| ensures InsertAt(low, k, q)[j] < ms[j].s {
      var e := if j < k then j else j - 1;
      assert j != k ==> Remove(ms, k)[e] == ms[j] && low[e] == InsertAt(low, k, q)[j];
    }
  }

  /** The digit of the widest stride, and what it leaves for the other modes to reach. */
  lemma WidestDigit(ms: seq<Mode>, k: nat, x: nat) returns (q: nat, r: nat)
    requires Filled(ms) && x < Size(ms) && k < |ms| && forall m :: m in ms ==> m.d <= ms[k].d
    ensures q < ms[k].s && q * ms[k].d + r == x && r < Size(Remove(ms, k))
  {
    var s: int, d: int := ms[k].s, ms[k].d;
    FilledRemove(ms, k);
    FilledSpan(Remove(ms, k));
    SizeRemove(ms, k);
    if s > 1 {
      q, r := TakeOut(x, d, s);
    } else {
      q, r := 0, x;
    }
  }

  /** Every offset below the size has digits. */
  lemma {:induction false} FilledSurjective(ms: seq<Mode>, x: nat) returns (cs: seq<nat>)
    requires Filled(ms) && x < Size(ms)
    ensures InBox(ms, cs) && Dot(ms, cs) == x
    decreases |ms|
  {
    if ms == [] {
      cs := [];
    } else {
      var k := MaxStride(ms);
      FilledRemove(ms, k);
      var q, r := WidestDigit(ms, k, x);
      var low := FilledSurjective(Remove(ms, k), r);
      cs := InsertAt(low, k, q);
      DotRemove(ms, cs, k);
      InBoxInsert(ms, k, low, q);
    }
  }

  ghost predicate Hits(ms: seq<Mode>, x: nat) {
    exists i: nat :: i < Size(ms) && Offset(ms, i) == x
  }

  ghost predicate Injective(ms: seq<Mode>) {
    forall i: nat, j: nat :: i < Size(ms) && j < Size(ms) && Offset(ms, i) == Offset(ms, j) ==> i == j
  }

  /** The bijection: a layout reads `[0, n)` onto `[0, n)`. */
  ghost predicate Bijection(ms: seq<Mode>) {
    && (forall i: nat :: i < Size(ms) ==> Offset(ms, i) < Size(ms))
    && Injective(ms)
    && (forall x: nat :: x < Size(ms) ==> Hits(ms, x))
  }

  lemma FilledBijection(ms: seq<Mode>)
    requires Filled(ms)
    ensures Bijection(ms)
  {
    forall i: nat | i < Size(ms) ensures Offset(ms, i) < Size(ms) {
      FilledSpan(ms);
      OffsetIsDot(ms, i);
      DigitsInBox(ms, i);
      DotAtMostSpan(ms, Digits(ms, i));
    }
    forall i: nat, j: nat | i < Size(ms) && j < Size(ms) && Offset(ms, i) == Offset(ms, j) ensures i == j {
      FilledSeparated(ms);
      SeparatedOffsetInjective(ms, i, j);
    }
    forall x: nat | x < Size(ms) ensures Hits(ms, x) {
      var cs := FilledSurjective(ms, x);
      OffsetOfIndex(ms, cs);
      assert Offset(ms, Index(ms, cs)) == x;
    }
  }

  // ---- permutations

  lemma {:induction false} SpanThroughPerm(xs: seq<Mode>, ys: seq<Mode>, t: nat)
    requires multiset(xs) == multiset(ys)
    ensures SpanThrough(xs, t) == SpanThrough(ys, t)
    decreases |xs|
  {
    if xs == [] {
      assert |multiset(ys)| == 0;
      assert ys == [];
    } else {
      assert xs[0] in multiset(ys);
      var k :| 0 <= k < |ys| && ys[k] == xs[0];
      RemoveMultiset(xs, 0);
      RemoveMultiset(ys, k);
      assert Remove(xs, 0) == xs[1..];
      SpanThroughPerm(xs[1..], Remove(ys, k), t);
      SpanThroughRemove(ys, k, t);
    }
  }

  lemma FilledPerm(xs: seq<Mode>, ys: seq<Mode>)
    requires Filled(xs) && multiset(xs) == multiset(ys)
    ensures Filled(ys)
  {
    forall m | m in ys && m.s > 1
      ensures m.d > 0 && SpanThrough(ys, m.d) == m.s * m.d - 1
    {
      assert m in multiset(ys);
      assert m in xs;
      SpanThroughPerm(xs, ys, m.d);
    }
  }

  function NonUnit(ms: seq<Mode>): (r: seq<Mode>)
    ensures forall m :: m in r <==> m in ms && m.s > 1
  {
    if ms == [] then [] else (if ms[0].s > 1 then [ms[0]] else []) + NonUnit(ms[1..])
  }

  lemma {:induction false} SpanThroughNonUnit(ms: seq<Mode>, t: nat)
    ensures SpanThrough(NonUnit(ms), t) == SpanThrough(ms, t)
    ensures Size(NonUnit(ms)) == Size(ms)
  {
    if ms != [] {
      SpanThroughNonUnit(ms[1..], t);
      var front := if ms[0].s > 1 then [ms[0]] else [];
      SpanThroughConcat(front, NonUnit(ms[1..]), t);
      SizeConcat(front, NonUnit(ms[1..]));
      assert Size(front) == ms[0].s;
    }
  }

  lemma ConcatAssoc<T>(x: seq<T>, y: seq<T>, z: seq<T>)
    ensures x + (y + z) == x + y + z
  {
  }

  lemma {:induction false} NonUnitConcat(xs: seq<Mode>, ys: seq<Mode>)
    ensures NonUnit(xs + ys) == NonUnit(xs) + NonUnit(ys)
  {
    if xs == [] {
      assert xs + ys == ys;
    } else {
      var front := if xs[0].s > 1 then [xs[0]] else [];
      assert (xs + ys)[1..] == xs[1..] + ys && (xs + ys)[0] == xs[0];
      NonUnitConcat(xs[1..], ys);
      ConcatAssoc(front, NonUnit(xs[1..]), NonUnit(ys));
    }
  }

  lemma FilledNonUnit(ms: seq<Mode>)
    ensures Filled(NonUnit(ms)) <==> Filled(ms)
  {
    forall t: nat ensures SpanThrough(NonUnit(ms), t) == SpanThrough(ms, t) {
      SpanThroughNonUnit(ms, t);
    }
  }
}
