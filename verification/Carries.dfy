/** When `composition` is the composition. It composes each mode of `rhs` on its own; the result
    reads `self(rhs(i))` exactly when adding the largest contributions of `rhs`'s modes carries out
    of no mode of `self` (contiguous modes of `self` counted as one), and in particular whenever
    `rhs` is separated by stride. */
module Carries {
  import opened Wrappers
  import opened Arith
  import opened Modes
  import opened Layouts
  import opened Composition

  /** The image of a sum is the sum of the images, for every coordinate of `bs`. */
  ghost predicate Adds(a: seq<Mode>, bs: seq<Mode>) {
    forall cs: seq<nat> :: InBox(bs, cs) ==> Offset(a, Dot(bs, cs)) == ImageSum(a, bs, cs)
  }

  // ---- separation by stride is enough

  /** A multiple of a composable stride has zero digits below it, so nothing smaller carries
      into it. */
  lemma {:induction false} NoCarry(a: seq<Mode>, r: pos, t: pos, x: nat, c: nat)
    requires r > 1 && Walk(a, r, t).Ok? && x < t
    ensures 0 <= c * t && Offset(a, x + c * t) == Offset(a, x) + Offset(a, c * t)
    decreases |a|
  {
    MulMono(0, c, t);
    if |a| == 1 {
      MulDistrib(x, c * t, a[0].d);
    } else if |a| > 1 {
      var s := a[0].s;
      if t >= s {
        DigitAbove(s, t, x, c);
        NoCarry(a[1..], r, t / s, x / s, c);
        MulMono(0, c, t / s);
      } else {
        DigitBelow(s, t, x, c);
        OffsetZero(a[1..]);
        MulDistrib(x, c * t % s, a[0].d);
      }
    }
  }

  lemma DigitAbove(s: pos, t: pos, x: nat, c: nat)
    requires t >= s && t % s == 0 && x < t
    ensures 1 <= t / s && 0 <= x / s < t / s && 0 <= c * t && 0 <= c * (t / s)
    ensures (x + c * t) % s == x % s && (x + c * t) / s == x / s + c * (t / s)
    ensures c * t % s == 0 && c * t / s == c * (t / s)
  {
    DivPos(t, s);
    var q: pos := t / s;
    DivMod(x, s);
    DivNonneg(x, s);
    DivBound(x, s, q);
    MulMono(0, c, t);
    MulMono(0, c, q);
    MulSwap(c, s, q);
    MulDistribLeft(s, x / s, c * q);
    DivModUnique(c * t, s, c * q, 0);
    DivModUnique(x + c * t, s, x / s + c * q, x % s);
  }

  lemma DigitBelow(s: pos, t: pos, x: nat, c: nat)
    requires t < s && s % t == 0 && x < t
    ensures 0 <= c * t && (x + c * t) % s == x + c * t % s && (x + c * t) / s == c * t / s
    ensures x % s == x && x / s == 0 && c * t / s >= 0
  {
    DivPos(s, t);
    MulMono(0, c, t);
    var n: pos := s / t;
    DivMod(c, n);
    DivNonneg(c, n);
    MulMono(0, c % n, t);
    MulMono(c % n, n - 1, t);
    MulDistrib(n * (c / n), c % n, t);
    MulAssoc(t, n, c / n);
    MulPred(n, t);
    DivModUnique(c * t, s, c / n, (c % n) * t);
    DivModUnique(x + c * t, s, c / n, x + (c % n) * t);
    DivModUnique(x, s, 0, x);
  }

  lemma {:induction false} ImageSumRemove(a: seq<Mode>, bs: seq<Mode>, cs: seq<nat>, k: nat)
    requires |bs| == |cs| && k < |bs|
    ensures 0 <= cs[k] * bs[k].d
    ensures ImageSum(a, bs, cs) == Offset(a, cs[k] * bs[k].d) + ImageSum(a, Remove(bs, k), Remove(cs, k))
  {
    MulMono(0, cs[k], bs[k].d);
    if k == 0 {
      assert Remove(bs, 0) == bs[1..] && Remove(cs, 0) == cs[1..];
    } else {
      ImageSumRemove(a, bs[1..], cs[1..], k - 1);
      assert Remove(bs, k)[1..] == Remove(bs[1..], k - 1);
      assert Remove(cs, k)[1..] == Remove(cs[1..], k - 1);
    }
  }

  lemma {:induction false} LeavesCompose(a: seq<Mode>, bs: seq<Mode>)
    requires ComposeFlat(a, bs).Ok?
    ensures forall m :: m in bs ==> LeafOut(a, m).Ok?
  {
    if bs != [] {
      LeavesCompose(a, bs[1..]);
    }
  }

  lemma {:induction false} SeparatedAdds(a: seq<Mode>, bs: seq<Mode>, cs: seq<nat>)
    requires Separated(bs) && InBox(bs, cs)
    requires forall m :: m in bs ==> LeafOut(a, m).Ok?
    ensures Offset(a, Dot(bs, cs)) == ImageSum(a, bs, cs)
    decreases |bs|
  {
    if bs == [] {
      OffsetZero(a);
    } else {
      var k := MaxStride(bs);
      var rest, low := Remove(bs, k), Remove(cs, k);
      SeparatedRemove(bs, k);
      assert InBox(rest, low);
      SeparatedAdds(a, rest, low);
      DotRemove(bs, cs, k);
      ImageSumRemove(a, bs, cs, k);
      if bs[k].s > 1 && bs[k].d > 0 {
        DotAtMostSpan(rest, low);
        assert bs[k] in bs;
        NoCarry(a, bs[k].s, bs[k].d, Dot(rest, low), cs[k]);
      } else {
        MulZero(cs[k], bs[k].d);
        OffsetZero(a);
      }
    }
  }

  // ---- the exact condition

  /** The part of `b` that stays inside an extent of `s`, and the part carried past it. */
  function Low(s: pos, b: Mode): Mode {
    if b.s == 1 || b.d == 0 || b.d >= s then Mode(1, 0)
    else
      DivAtLeast(s, b.d);
      Mode(Min(s / b.d, b.s), b.d)
  }

  function High(s: pos, b: Mode): Mode {
    if b.s == 1 || b.d == 0 then b
    else if b.d >= s then
      DivNonneg(b.d, s);
      Mode(b.s, b.d / s)
    else
      DivAtLeast(s, b.d);
      if b.s <= s / b.d then Mode(1, 0)
      else
        DivAtLeast(b.s, s / b.d);
        Mode(b.s / (s / b.d), 1)
  }

  lemma DivAtLeast(x: int, n: pos)
    requires n <= x
    ensures 1 <= x / n
  {
    DivMod(x, n);
    if x / n <= 0 {
      MulMono(x / n, 0, n);
    }
  }

  function Lows(s: pos, bs: seq<Mode>): (r: seq<Mode>)
    ensures |r| == |bs|
  {
    if bs == [] then [] else [Low(s, bs[0])] + Lows(s, bs[1..])
  }

  function Highs(s: pos, bs: seq<Mode>): (r: seq<Mode>)
    ensures |r| == |bs|
  {
    if bs == [] then [] else [High(s, bs[0])] + Highs(s, bs[1..])
  }

  /** Whether the second mode of `a` continues the first: of extent 1 (and not the last, which is
      unbounded), or contiguous with it. */
  predicate Joins(a: seq<Mode>)
    requires |a| > 1
  {
    (|a| > 2 && a[1].s == 1) || a[0].s * a[0].d == a[1].d
  }

  function Join(a: seq<Mode>): (r: seq<Mode>)
    requires |a| > 1 && Joins(a)
    ensures |r| == |a| - 1
  {
    MulPos(a[0].s, a[1].s);
    if |a| > 2 && a[1].s == 1 then [a[0]] + a[2..] else [Mode(a[0].s * a[1].s, a[0].d)] + a[2..]
  }

  /** Adding the largest contribution of every mode of `bs` carries out of no mode of `a`. */
  predicate CarryFree(a: seq<Mode>, bs: seq<Mode>)
    decreases |a|
  {
    |a| <= 1 ||
    if Joins(a) then CarryFree(Join(a), bs)
    else Span(Lows(a[0].s, bs)) < a[0].s && CarryFree(a[1..], Highs(a[0].s, bs))
  }

  /** The divisibility `compose_leaf` demands of `b` at a mode of extent `s`. */
  predicate Splits(s: pos, b: Mode) {
    b.s == 1 || b.d == 0 ||
    if b.d >= s then b.d % s == 0 else s % b.d == 0 && (b.s <= s / b.d || (1 <= s / b.d && b.s % (s / b.d) == 0))
  }

  predicate Divides(a: seq<Mode>, b: Mode)
    decreases |a|
  {
    |a| <= 1 || (Splits(a[0].s, b) && Divides(a[1..], High(a[0].s, b)))
  }

  lemma {:induction false} UnitDivides(a: seq<Mode>, b: Mode)
    requires b.s == 1 || b.d == 0
    ensures Divides(a, b)
  {
    if |a| > 1 {
      UnitDivides(a[1..], b);
    }
  }

  lemma {:induction false} WalkDivides(a: seq<Mode>, b: Mode)
    requires LeafOut(a, b).Ok?
    ensures Divides(a, b)
    decreases |a|
  {
    if b.s == 1 || b.d == 0 {
      UnitDivides(a, b);
    } else if |a| > 1 {
      var s, h := a[0].s, High(a[0].s, b);
      if b.d >= s {
        DivPos(b.d, s);
        WalkDivides(a[1..], h);
      } else {
        DivPos(s, b.d);
        if b.s <= s / b.d {
          UnitDivides(a[1..], h);
        } else {
          DivPos(b.s, s / b.d);
          WalkDivides(a[1..], h);
        }
      }
    }
  }

  ghost predicate SplitsAt(s: pos, b: Mode, c: nat) {
    var l, h := Low(s, b), High(s, b);
    l.s * h.s == b.s && 0 <= c / l.s < h.s && (l.s - 1) * l.d < s &&
    c * b.d == (c % l.s) * l.d + s * ((c / l.s) * h.d)
  }

  /** A coordinate of `b` splits into one of its low part and one of its high part. */
  lemma SplitOne(s: pos, b: Mode, c: nat)
    requires Splits(s, b) && c < b.s
    ensures SplitsAt(s, b, c)
  {
    if b.s == 1 || b.d == 0 {
      SplitNothing(s, b, c);
    } else if b.d >= s {
      SplitAbove(s, b, c);
    } else {
      SplitBelow(s, b, c);
    }
  }

  lemma SplitNothing(s: pos, b: Mode, c: nat)
    requires Splits(s, b) && c < b.s && (b.s == 1 || b.d == 0)
    ensures SplitsAt(s, b, c)
  {
    DivModUnique(c, 1, c, 0);
    MulZero(c, b.d);
  }

  lemma SplitAbove(s: pos, b: Mode, c: nat)
    requires Splits(s, b) && c < b.s && b.s > 1 && b.d >= s
    ensures SplitsAt(s, b, c)
  {
    DivPos(b.d, s);
    DivModUnique(c, 1, c, 0);
    DigitAbove(s, b.d, 0, c);
    DivMod(c * b.d, s);
  }

  lemma SplitBelow(s: pos, b: Mode, c: nat)
    requires Splits(s, b) && c < b.s && b.s > 1 && 0 < b.d < s
    ensures SplitsAt(s, b, c)
  {
    DivPos(s, b.d);
    var n: pos := s / b.d;
    MulMono(Min(n, b.s) - 1, n - 1, b.d);
    MulPred(n, b.d);
    if b.s <= n {
      DivModUnique(c, b.s, 0, c);
    } else {
      DivPos(b.s, n);
      SplitBoth(s, b.d, n, c);
      DivBound(c, n, b.s / n);
    }
  }

  lemma SplitBoth(s: pos, d: pos, n: pos, c: nat)
    requires s == d * n
    ensures 0 <= c / n && c * d == (c % n) * d + s * ((c / n) * 1)
  {
    DivMod(c, n);
    DivNonneg(c, n);
    MulDistrib(n * (c / n), c % n, d);
    MulAssoc(d, n, c / n);
  }

  // ---- both readings one mode at a time

  function LowDigits(s: pos, bs: seq<Mode>, cs: seq<nat>): (r: seq<nat>)
    requires |bs| == |cs|
    ensures |r| == |bs|
  {
    if bs == [] then [] else
      DivMod(cs[0], Low(s, bs[0]).s);
      [cs[0] % Low(s, bs[0]).s] + LowDigits(s, bs[1..], cs[1..])
  }

  function HighDigits(s: pos, bs: seq<Mode>, cs: seq<nat>): (r: seq<nat>)
    requires |bs| == |cs|
    ensures |r| == |bs|
  {
    if bs == [] then [] else
      DivNonneg(cs[0], Low(s, bs[0]).s);
      [cs[0] / Low(s, bs[0]).s] + HighDigits(s, bs[1..], cs[1..])
  }

  ghost predicate AllSplit(s: pos, bs: seq<Mode>) { forall b :: b in bs ==> Splits(s, b) }

  lemma {:induction false} SplitAll(s: pos, bs: seq<Mode>, cs: seq<nat>)
    requires AllSplit(s, bs) && InBox(bs, cs)
    ensures InBox(Lows(s, bs), LowDigits(s, bs, cs)) && InBox(Highs(s, bs), HighDigits(s, bs, cs))
    ensures Dot(bs, cs) == Dot(Lows(s, bs), LowDigits(s, bs, cs)) + s * Dot(Highs(s, bs), HighDigits(s, bs, cs))
  {
    if bs != [] {
      SplitOne(s, bs[0], cs[0]);
      DivMod(cs[0], Low(s, bs[0]).s);
      SplitAll(s, bs[1..], cs[1..]);
      var h0 := HighDigits(s, bs, cs)[0] * High(s, bs[0]).d;
      MulDistribLeft(s, h0, Dot(Highs(s, bs[1..]), HighDigits(s, bs[1..], cs[1..])));
    }
  }

  /** One mode of `a` splits every image the same way. */
  lemma {:induction false} ImageSumSplit(a: seq<Mode>, bs: seq<Mode>, cs: seq<nat>)
    requires |a| > 1 && AllSplit(a[0].s, bs) && InBox(bs, cs)
    ensures var s := a[0].s;
            ImageSum(a, bs, cs) == Dot(Lows(s, bs), LowDigits(s, bs, cs)) * a[0].d
                                   + ImageSum(a[1..], Highs(s, bs), HighDigits(s, bs, cs))
  {
    if bs != [] {
      var s: pos := a[0].s;
      var l, h := Low(s, bs[0]), High(s, bs[0]);
      SplitOne(s, bs[0], cs[0]);
      DivMod(cs[0], l.s);
      ImageSumSplit(a, bs[1..], cs[1..]);
      var x: int, y: int := (cs[0] % l.s) * l.d, (cs[0] / l.s) * h.d;
      MulMono(0, cs[0] % l.s, l.d);
      MulMono(0, cs[0] / l.s, h.d);
      MulMono(cs[0] % l.s, l.s - 1, l.d);
      DivModUnique(cs[0] * bs[0].d, s, y, x);
      MulDistrib(x, Dot(Lows(s, bs[1..]), LowDigits(s, bs[1..], cs[1..])), a[0].d);
    }
  }

  lemma OffsetSplit(a: seq<Mode>, x: nat, y: nat)
    requires |a| > 1 && x < a[0].s
    ensures 0 <= x * a[0].d && 0 <= x + a[0].s * y && Offset(a, x + a[0].s * y) == x * a[0].d + Offset(a[1..], y)
  {
    MulMono(0, x, a[0].d);
    MulMono(0, y, a[0].s);
    DivModUnique(x + a[0].s * y, a[0].s, y, x);
  }

  // ---- joining contiguous modes

  lemma JoinReads(a: seq<Mode>, x: nat)
    requires |a| > 1 && Joins(a)
    ensures Offset(Join(a), x) == Offset(a, x)
  {
    var s, d, j := a[0].s, a[0].d, Join(a);
    var q: nat, r: nat := x / s, x % s;
    assert j[1..] == a[2..] && a[1..][1..] == a[2..];
    if |a| > 2 && a[1].s == 1 {
      DivModUnique(q, 1, q, 0);
    } else {
      var s1: pos := a[1].s;
      DivModMul(x, s, s1);
      DivMod(x, s);
      if |a| == 2 {
        JoinArith(x, s, q, r, d);
      } else {
        JoinArith(r + s * (q % s1), s, q % s1, r, d);
      }
    }
  }

  lemma JoinArith(x: int, s: int, q: int, r: int, d: int)
    requires x == r + s * q
    ensures x * d == r * d + q * (s * d)
  {
    MulDistrib(r, s * q, d);
    MulAssoc(q, s, d);
  }

  lemma {:induction false} JoinDivides(a: seq<Mode>, b: Mode)
    requires |a| > 1 && Joins(a) && Divides(a, b)
    ensures Divides(Join(a), b)
  {
    var s: pos, s1: pos, j := a[0].s, a[1].s, Join(a);
    assert j[1..] == a[2..] && a[1..][1..] == a[2..];
    if b.s == 1 || b.d == 0 {
      UnitDivides(j, b);
    } else if |a| > 2 {
      var h := High(s, b);
      assert Splits(s, b) && Splits(s1, h) && Divides(a[2..], High(s1, h));
      if s1 == 1 {
        DivModUnique(h.d, 1, h.d, 0);
        assert High(1, h) == h;
      } else {
        JoinSplits(s, s1, b);
      }
    }
  }

  /** Splitting at `s` and then at `s1` is splitting at `s * s1`. */
  lemma JoinSplits(s: pos, s1: pos, b: Mode)
    requires b.s > 1 && b.d > 0 && Splits(s, b) && Splits(s1, High(s, b))
    ensures 1 <= s * s1 && Splits(s * s1, b)
    ensures High(s * s1, b) == High(s1, High(s, b))
  {
    MulPos(s, s1);
    if b.d >= s {
      DivPos(b.d, s);
      var d: pos := b.d / s;
      if d >= s1 {
        DivPos(d, s1);
        JoinAbove(s, s1, d);
      } else {
        DivPos(s1, d);
        JoinAcross(s, s1, d);
      }
    } else {
      DivPos(s, b.d);
      var n: pos := s / b.d;
      JoinWithin(s1, b.d, n);
      MulPos(n, s1);
      if b.s > n {
        DivPos(b.s, n);
        JoinBeyond(s1, n, b.s / n);
        DivModUnique(1, 1, 1, 0);
        DivModUnique(s1, 1, s1, 0);
      }
    }
  }

  lemma JoinAbove(s: pos, s1: pos, d: pos)
    requires d >= s1 && d % s1 == 0
    ensures s * d >= s * s1 >= 1 && s * d % (s * s1) == 0 && s * d / (s * s1) == d / s1
  {
    DivPos(d, s1);
    MulPos(s, s1);
    MulMono(s1, d, s);
    MulAssoc(s, s1, d / s1);
    DivModUnique(s * d, s * s1, d / s1, 0);
  }

  lemma JoinAcross(s: pos, s1: pos, d: pos)
    requires d < s1 && s1 % d == 0
    ensures 1 <= s * d < s * s1 && s * s1 % (s * d) == 0 && s * s1 / (s * d) == s1 / d
  {
    DivPos(s1, d);
    MulPos(s, d);
    MulMono(d + 1, s1, s);
    MulAssoc(s, d, s1 / d);
    DivModUnique(s * s1, s * d, s1 / d, 0);
  }

  lemma JoinWithin(s1: pos, d: pos, n: pos)
    requires n > 1
    ensures 1 <= d * n && d < d * n * s1 && d * n * s1 % d == 0 && d * n * s1 / d == n * s1
  {
    MulPos(d, n);
    MulMono(2, n, d);
    MulPos(d * n, s1);
    MulAssoc(d, n, s1);
    DivModUnique(d * n * s1, d, n * s1, 0);
  }

  lemma JoinBeyond(s1: pos, n: pos, q: pos)
    ensures 1 <= n * s1
    ensures n * q <= n * s1 <==> q <= s1
    ensures q % s1 == 0 ==> n * q % (n * s1) == 0 && n * q / (n * s1) == q / s1
  {
    MulPos(n, s1);
    if q <= s1 {
      MulMono(q, s1, n);
    } else {
      MulMono(s1 + 1, q, n);
    }
    if q % s1 == 0 {
      DivPos(q, s1);
      MulAssoc(n, s1, q / s1);
      DivModUnique(n * q, n * s1, q / s1, 0);
    }
  }

  // ---- carry-free exactly when the images add

  ghost predicate AllDivide(a: seq<Mode>, bs: seq<Mode>) { forall b :: b in bs ==> Divides(a, b) }

  lemma {:induction false} AllDivideTail(a: seq<Mode>, bs: seq<Mode>)
    requires |a| > 1 && AllDivide(a, bs)
    ensures AllSplit(a[0].s, bs) && AllDivide(a[1..], Highs(a[0].s, bs))
  {
    if bs != [] {
      assert bs[0] in bs;
      assert AllDivide(a, bs[1..]);
      AllDivideTail(a, bs[1..]);
    }
  }

  lemma AllDivideJoin(a: seq<Mode>, bs: seq<Mode>)
    requires |a| > 1 && Joins(a) && AllDivide(a, bs)
    ensures AllDivide(Join(a), bs)
  {
    forall b | b in bs ensures Divides(Join(a), b) {
      JoinDivides(a, b);
    }
  }

  lemma {:induction false} ImageSumJoin(a: seq<Mode>, bs: seq<Mode>, cs: seq<nat>)
    requires |a| > 1 && Joins(a) && |bs| == |cs|
    ensures ImageSum(Join(a), bs, cs) == ImageSum(a, bs, cs)
  {
    if bs != [] {
      MulMono(0, cs[0], bs[0].d);
      JoinReads(a, cs[0] * bs[0].d);
      ImageSumJoin(a, bs[1..], cs[1..]);
    }
  }

  lemma {:induction false} ImageSumLinear(a: seq<Mode>, bs: seq<Mode>, cs: seq<nat>)
    requires |a| == 1 && |bs| == |cs|
    ensures 0 <= Dot(bs, cs) * a[0].d == ImageSum(a, bs, cs)
  {
    if bs != [] {
      ImageSumLinear(a, bs[1..], cs[1..]);
      MulDistrib(cs[0] * bs[0].d, Dot(bs[1..], cs[1..]), a[0].d);
    }
  }

  lemma {:induction false} CarryFreeAdds(a: seq<Mode>, bs: seq<Mode>, cs: seq<nat>)
    requires a != [] && AllDivide(a, bs) && CarryFree(a, bs) && InBox(bs, cs)
    ensures Offset(a, Dot(bs, cs)) == ImageSum(a, bs, cs)
    decreases |a|
  {
    if |a| == 1 {
      ImageSumLinear(a, bs, cs);
    } else if Joins(a) {
      AllDivideJoin(a, bs);
      CarryFreeAdds(Join(a), bs, cs);
      JoinReads(a, Dot(bs, cs));
      ImageSumJoin(a, bs, cs);
    } else {
      var s := a[0].s;
      var lo, hi := LowDigits(s, bs, cs), HighDigits(s, bs, cs);
      AllDivideTail(a, bs);
      SplitAll(s, bs, cs);
      ImageSumSplit(a, bs, cs);
      DotAtMostSpan(Lows(s, bs), lo);
      OffsetSplit(a, Dot(Lows(s, bs), lo), Dot(Highs(s, bs), hi));
      CarryFreeAdds(a[1..], Highs(s, bs), hi);
    }
  }

  /** A coordinate of the high parts lifts to one of `bs` with nothing low. */
  lemma {:induction false} LiftHigh(s: pos, bs: seq<Mode>, hs: seq<nat>) returns (cs: seq<nat>)
    requires AllSplit(s, bs) && InBox(Highs(s, bs), hs)
    ensures InBox(bs, cs) && HighDigits(s, bs, cs) == hs
    ensures Dot(Lows(s, bs), LowDigits(s, bs, cs)) == 0
  {
    if bs == [] {
      cs := [];
    } else {
      var tail := LiftHigh(s, bs[1..], hs[1..]);
      var l := Low(s, bs[0]);
      assert bs[0] in bs;
      LiftOne(s, bs[0], hs[0]);
      cs := [l.s * hs[0]] + tail;
      assert cs[1..] == tail;
    }
  }

  lemma LiftOne(s: pos, b: Mode, x: nat)
    requires Splits(s, b) && x < High(s, b).s
    ensures var l := Low(s, b);
            0 <= l.s * x < b.s && l.s * x % l.s == 0 && l.s * x / l.s == x
  {
    var l: int, h: int := Low(s, b).s, High(s, b).s;
    SplitOne(s, b, 0);
    MulMono(0, x, l);
    MulMono(x, h - 1, l);
    MulDistrib(h, 1, l);
    MulDiv(l, x);
  }

  ghost predicate AllZero(cs: seq<nat>) { forall j :: 0 <= j < |cs| ==> cs[j] == 0 }

  lemma {:induction false} ZeroDigits(a: seq<Mode>, bs: seq<Mode>, cs: seq<nat>)
    requires |bs| == |cs| && AllZero(cs)
    ensures Dot(bs, cs) == 0 && ImageSum(a, bs, cs) == 0
  {
    if bs != [] {
      OffsetZero(a);
      ZeroDigits(a, bs[1..], cs[1..]);
    }
  }

  /** The coordinate with every low part at its largest. */
  lemma {:induction false} FullLow(s: pos, bs: seq<Mode>) returns (cs: seq<nat>)
    requires AllSplit(s, bs)
    ensures InBox(bs, cs) && AllZero(HighDigits(s, bs, cs))
    ensures Dot(Lows(s, bs), LowDigits(s, bs, cs)) == Span(Lows(s, bs))
  {
    if bs == [] {
      cs := [];
    } else {
      var tail := FullLow(s, bs[1..]);
      var l := Low(s, bs[0]);
      assert bs[0] in bs;
      SplitOne(s, bs[0], 0);
      MulPos(l.s, High(s, bs[0]).s);
      cs := [l.s - 1] + tail;
      DivModUnique(l.s - 1, l.s, 0, l.s - 1);
      assert cs[1..] == tail;
    }
  }

  /** If the low parts can overflow the mode at all, some coordinate overflows it by less than
      one turn. */
  lemma {:induction false} OverflowOnce(s: pos, bs: seq<Mode>) returns (cs: seq<nat>)
    requires AllSplit(s, bs) && s <= Span(Lows(s, bs))
    ensures InBox(bs, cs) && AllZero(HighDigits(s, bs, cs))
    ensures s <= Dot(Lows(s, bs), LowDigits(s, bs, cs)) < 2 * s
  {
    var rest := bs[1..];
    assert bs[0] in bs;
    SplitOne(s, bs[0], 0);
    if s <= Span(Lows(s, rest)) {
      var tail := OverflowOnce(s, rest);
      cs := [0] + tail;
      DivModUnique(0, Low(s, bs[0]).s, 0, 0);
      assert cs[1..] == tail;
    } else {
      cs := FullLow(s, bs);
    }
  }

  lemma NextTurn(a: seq<Mode>)
    requires |a| > 1 && !Joins(a)
    ensures Offset(a[1..], 1) == a[1].d != a[0].s * a[0].d
  {
    if |a| > 2 {
      DivModUnique(1, a[1].s, 0, 1);
      OffsetZero(a[1..][1..]);
    }
  }

  lemma OverflowSum(a: seq<Mode>, bs: seq<Mode>, cs: seq<nat>)
    requires |a| > 1 && AllSplit(a[0].s, bs) && InBox(bs, cs) && AllZero(HighDigits(a[0].s, bs, cs))
    ensures Dot(bs, cs) == Dot(Lows(a[0].s, bs), LowDigits(a[0].s, bs, cs))
    ensures ImageSum(a, bs, cs) == Dot(Lows(a[0].s, bs), LowDigits(a[0].s, bs, cs)) * a[0].d
  {
    SplitAll(a[0].s, bs, cs);
    ImageSumSplit(a, bs, cs);
    ZeroDigits(a[1..], Highs(a[0].s, bs), HighDigits(a[0].s, bs, cs));
    MulZero(a[0].s, Dot(Highs(a[0].s, bs), HighDigits(a[0].s, bs, cs)));
  }

  /** One carry moves an index by one turn of the next mode, which the sum of the images misses. */
  lemma OverflowMisses(a: seq<Mode>, low: nat)
    requires |a| > 1 && !Joins(a) && a[0].s <= low < 2 * a[0].s
    ensures Offset(a, low) != low * a[0].d
  {
    OffsetSplit(a, low - a[0].s, 1);
    NextTurn(a);
    MulDistrib(low, a[0].s, a[0].d);
  }

  lemma {:induction false} AddsCarryFree(a: seq<Mode>, bs: seq<Mode>)
    requires a != [] && AllDivide(a, bs) && Adds(a, bs)
    ensures CarryFree(a, bs)
    decreases |a|
  {
    if |a| > 1 && Joins(a) {
      AllDivideJoin(a, bs);
      forall cs: seq<nat> | InBox(bs, cs) ensures Offset(Join(a), Dot(bs, cs)) == ImageSum(Join(a), bs, cs) {
        JoinReads(a, Dot(bs, cs));
        ImageSumJoin(a, bs, cs);
      }
      AddsCarryFree(Join(a), bs);
    } else if |a| > 1 {
      var s := a[0].s;
      AllDivideTail(a, bs);
      if s <= Span(Lows(s, bs)) {
        var cs := OverflowOnce(s, bs);
        OverflowSum(a, bs, cs);
        OverflowMisses(a, Dot(Lows(s, bs), LowDigits(s, bs, cs)));
        assert false;
      }
      forall hs: seq<nat> | InBox(Highs(s, bs), hs)
          ensures Offset(a[1..], Dot(Highs(s, bs), hs)) == ImageSum(a[1..], Highs(s, bs), hs) {
        var cs := LiftHigh(s, bs, hs);
        SplitAll(s, bs, cs);
        ImageSumSplit(a, bs, cs);
        OffsetSplit(a, 0, Dot(Highs(s, bs), hs));
      }
      AddsCarryFree(a[1..], Highs(s, bs));
    }
  }

  // ---- the theorems about `composition`

  lemma ComposeModes(l: Layout, rhs: Layout)
    requires Valid(l) && Valid(rhs) && Compose(l, rhs).Ok?
    ensures Valid(Compose(l, rhs).value)
    ensures ComposeFlat(FlatModes(l), FlatModes(rhs)) == Ok(FlatModes(Compose(l, rhs).value))
  {
    var (s, d) := ComposeTree(FlatModes(l), rhs.shape, rhs.stride).value;
    NewLayoutValid(s, d);
    ComposeTreeFlat(FlatModes(l), rhs.shape, rhs.stride);
  }

  /** The result is the composition: the size of `rhs`, and `self(rhs(i))` at every index. */
  ghost predicate Composes(l: Layout, rhs: Layout, c: Layout)
    requires Valid(l) && Valid(rhs) && Valid(c)
  {
    && SizeOf(c) == SizeOf(rhs)
    && forall i: nat :: i < SizeOf(rhs) ==> Offset(FlatModes(c), i) == Offset(FlatModes(l), Offset(FlatModes(rhs), i))
  }

  lemma ComposesIffAdds(l: Layout, rhs: Layout)
    requires Valid(l) && Valid(rhs) && Compose(l, rhs).Ok?
    ensures Valid(Compose(l, rhs).value)
    ensures Composes(l, rhs, Compose(l, rhs).value) <==> Adds(FlatModes(l), FlatModes(rhs))
  {
    ComposeModes(l, rhs);
    var a, bs, out := FlatModes(l), FlatModes(rhs), FlatModes(Compose(l, rhs).value);
    ComposeReads(a, bs, 0);
    forall i: nat | i < Size(bs)
      ensures Offset(out, i) == ImageSum(a, bs, Digits(bs, i)) && Offset(bs, i) == Dot(bs, Digits(bs, i))
    {
      ComposeReads(a, bs, i);
      OffsetIsDot(out, i);
      OffsetIsDot(bs, i);
    }
    if Adds(a, bs) {
      forall i: nat | i < Size(bs) ensures Offset(out, i) == Offset(a, Offset(bs, i)) {
        DigitsInBox(bs, i);
      }
    }
    if Composes(l, rhs, Compose(l, rhs).value) {
      forall cs: seq<nat> | InBox(bs, cs) ensures Offset(a, Dot(bs, cs)) == ImageSum(a, bs, cs) {
        DigitsOfIndex(bs, cs);
        assert Offset(out, Index(bs, cs)) == Offset(a, Offset(bs, Index(bs, cs)));
      }
    }
  }

  /** When `composition` succeeds, its result is the composition exactly if no carry occurs. */
  lemma CompositionExact(l: Layout, rhs: Layout)
    requires Valid(l) && Valid(rhs) && Compose(l, rhs).Ok?
    ensures Valid(Compose(l, rhs).value)
    ensures Composes(l, rhs, Compose(l, rhs).value) <==> CarryFree(FlatModes(l), FlatModes(rhs))
  {
    var a, bs := FlatModes(l), FlatModes(rhs);
    ComposeModes(l, rhs);
    ComposesIffAdds(l, rhs);
    LeavesCompose(a, bs);
    forall b | b in bs ensures Divides(a, b) {
      WalkDivides(a, b);
    }
    if CarryFree(a, bs) {
      forall cs: seq<nat> | InBox(bs, cs) ensures Offset(a, Dot(bs, cs)) == ImageSum(a, bs, cs) {
        CarryFreeAdds(a, bs, cs);
      }
    }
    if Adds(a, bs) {
      AddsCarryFree(a, bs);
    }
  }

  /** A right-hand side separated by stride never carries, whatever `self` is. */
  lemma SeparatedComposes(l: Layout, rhs: Layout)
    requires Valid(l) && Valid(rhs) && Compose(l, rhs).Ok? && Separated(FlatModes(rhs))
    ensures Valid(Compose(l, rhs).value) && Composes(l, rhs, Compose(l, rhs).value)
  {
    var a, bs := FlatModes(l), FlatModes(rhs);
    ComposeModes(l, rhs);
    LeavesCompose(a, bs);
    forall cs: seq<nat> | InBox(bs, cs) ensures Offset(a, Dot(bs, cs)) == ImageSum(a, bs, cs) {
      SeparatedAdds(a, bs, cs);
    }
    ComposesIffAdds(l, rhs);
  }

  /** A single mode needs no hypothesis. */
  lemma SingleModeComposes(l: Layout, rhs: Layout)
    requires Valid(l) && Valid(rhs) && Compose(l, rhs).Ok? && |NonUnit(FlatModes(rhs))| <= 1
    ensures Valid(Compose(l, rhs).value) && Composes(l, rhs, Compose(l, rhs).value)
  {
    var bs := FlatModes(rhs);
    forall m | m in bs && m.s > 1 && m.d > 0 ensures SpanThrough(bs, m.d) < m.s * m.d {
      var one := NonUnit(bs);
      assert m in one && one == [m] && one[1..] == [];
      SpanThroughNonUnit(bs, m.d);
      MulPred(m.s, m.d);
    }
    SeparatedComposes(l, rhs);
  }

  /** `(6,2):(1,100) o (3,2):(2,3)` succeeds and is wrong at index 5. */
  lemma CarryCounterexample()
    ensures var l := Layout(Tuple([Int(6), Int(2)]), Tuple([Int(1), Int(100)]));
            var rhs := Layout(Tuple([Int(3), Int(2)]), Tuple([Int(2), Int(3)]));
            Valid(l) && Valid(rhs) && Compose(l, rhs) == Ok(rhs) && !CarryFree(FlatModes(l), FlatModes(rhs)) &&
            Offset(FlatModes(rhs), 5) == 7 && Offset(FlatModes(l), Offset(FlatModes(rhs), 5)) == 101
  {
    var (a, bs) := ([Mode(6, 1), Mode(2, 100)], [Mode(3, 2), Mode(2, 3)]);
    PairLayout(Mode(6, 1), Mode(2, 100));
    PairLayout(Mode(3, 2), Mode(2, 3));
    LeafFixed(a, Mode(3, 2));
    LeafFixed(a, Mode(2, 3));
    ComposeFixed(FromFlat(a), bs);
    CounterexampleCarries(100);
    PairOffset(Mode(3, 2), Mode(2, 3), 5);
    PairOffset(Mode(6, 1), Mode(2, 100), 7);
  }

  lemma PairOffset(x: Mode, y: Mode, i: nat)
    ensures 0 <= i / x.s && 0 <= (i % x.s) * x.d && 0 <= i / x.s * y.d
    ensures Offset([x, y], i) == (i % x.s) * x.d + i / x.s * y.d
  {
    DivNonneg(i, x.s);
    MulMono(0, i % x.s, x.d);
    MulMono(0, i / x.s, y.d);
    assert [x, y][1..] == [y];
  }

  lemma CounterexampleCarries(d: nat)
    requires d > 6
    ensures !CarryFree([Mode(6, 1), Mode(2, d)], [Mode(3, 2), Mode(2, 3)])
  {
    var lo := Lows(6, [Mode(3, 2), Mode(2, 3)]);
    assert [Mode(3, 2), Mode(2, 3)][1..] == [Mode(2, 3)];
    assert lo == [Mode(3, 2), Mode(2, 3)] && lo[1..] == [Mode(2, 3)] && lo[1..][1..] == [];
    assert Span(lo) == 7;
  }

  lemma PairMeasures(x: Mode, y: Mode)
    ensures Span([x, y]) == (x.s - 1) * x.d + (y.s - 1) * y.d && Size([x, y]) == x.s * y.s
  {
    assert [x, y] == [x] + [y] && [x][1..] == [] && [y][1..] == [];
    SpanConcat([x], [y]);
    SizeConcat([x], [y]);
    assert Span([x]) == (x.s - 1) * x.d && Span([y]) == (y.s - 1) * y.d;
    assert Size([x]) == x.s && Size([y]) == y.s;
  }

  lemma PairLayout(x: Mode, y: Mode)
    requires 1 + (x.s - 1) * x.d + (y.s - 1) * y.d <= I64_MAX && x.s * y.s <= I64_MAX
    ensures Valid(FromFlat([x, y])) && FlatModes(FromFlat([x, y])) == [x, y]
    ensures Span([x, y]) == (x.s - 1) * x.d + (y.s - 1) * y.d && Size([x, y]) == x.s * y.s
    ensures FromFlat([x, y]) == Layout(Tuple([Int(x.s), Int(y.s)]), Tuple([Int(x.d), Int(y.d)]))
  {
    var ms := [x, y];
    PairMeasures(x, y);
    FromFlatModes(ms);
    assert ms[1..] == [y] && [y][1..] == [];
    assert Shapes([y]) == [Int(y.s)] && Strides([y]) == [Int(y.d)];
    assert Shapes(ms) == [Int(x.s), Int(y.s)] && Strides(ms) == [Int(x.d), Int(y.d)];
  }
}
