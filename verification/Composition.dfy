/** `self o rhs`. Each mode of `rhs` is composed on its own, so the result is the composed function
    exactly when adding the modes' contributions up carries out of no mode of `self`. */
module Composition {
  import opened Wrappers
  import opened Arith
  import opened Modes
  import opened Layouts

  // ---- one mode

  /** The walk of `compose_leaf` over the modes of `a`, with extent `r` and stride `t` left. */
  function Walk(a: seq<Mode>, r: pos, t: pos): Checked<seq<Mode>> {
    if a == [] || r == 1 then Ok([])
    else
      var s, d := a[0].s, a[0].d;
      if |a| == 1 then
        MulMono(0, d, t);
        if d * t <= I64_MAX then Ok([Mode(r, d * t)]) else Err(Overflow)
      else if t >= s then
        if t % s != 0 then Err(NotDivisible) else
          DivPos(t, s);
          Walk(a[1..], r, t / s)
      else if s % t != 0 then Err(NotDivisible)
      else
        DivPos(s, t);
        var take := Min(s / t, r);
        if r % take != 0 then Err(NotDivisible) else
          DivPos(r, take);
          MulMono(0, d, t);
          if take > 1 && d * t > I64_MAX then Err(Overflow) else
            match Walk(a[1..], r / take, 1)
            case Err(e) => Err(e)
            case Ok(out) => Ok(if take > 1 then [Mode(take, d * t)] + out else out)
  }

  function LeafOut(a: seq<Mode>, m: Mode): Checked<seq<Mode>> {
    if m.s == 1 then Ok([])
    else if m.d == 0 then Ok([m])
    else Walk(a, m.s, m.d)
  }

  function Prepend(out: seq<Mode>, r: Checked<seq<Mode>>): Checked<seq<Mode>> {
    match r
    case Ok(o) => Ok(out + o)
    case Err(e) => Err(e)
  }

  /** How much of a mode the walk takes once no stride is left to skip. */
  method Take(m: Mode, last: bool, r: pos, t: pos) returns (take: Checked<pos>)
    requires last || t < m.s
    ensures take == if last then Ok(r)
                    else if m.s % t != 0 || r % Min(m.s / t, r) != 0 then Err(NotDivisible)
                    else Ok(Min(m.s / t, r))
    ensures take.Ok? && !last ==> 1 <= m.s / t
    ensures take.Ok? ==> r % take.value == 0 && 1 <= r / take.value && (last ==> r / take.value == 1)
  {
    if last {
      DivModUnique(r, r, 1, 0);
      return Ok(r);
    }
    DivMod(m.s, t);
    DivNonneg(m.s, t);
    if m.s % t != 0 { return Err(NotDivisible); }
    DivPos(m.s, t);
    var n: pos := Min(m.s / t, r);
    if r % n != 0 { return Err(NotDivisible); }
    DivPos(r, n);
    return Ok(n);
  }

  /** What the mode `m` puts into the output. */
  function Emit(m: Mode, take: pos, t: pos): seq<Mode> {
    MulMono(0, m.d, t);
    if take > 1 then [Mode(take, m.d * t)] else []
  }

  lemma WalkTakeStep(a: seq<Mode>, r: pos, t: pos, take: pos)
    requires a != [] && r > 1 && r % take == 0 && 1 <= r / take
    requires if |a| == 1 then take == r && r / take == 1
             else t < a[0].s && a[0].s % t == 0 && 1 <= a[0].s / t && take == Min(a[0].s / t, r)
    requires take > 1 ==> a[0].d * t <= I64_MAX
    ensures Walk(a, r, t) == Prepend(Emit(a[0], take, t), Walk(a[1..], r / take, 1))
  {
    var tail := Walk(a[1..], r / take, 1);
    if |a| == 1 {
      assert a[1..] == [] && Emit(a[0], take, t) + [] == Emit(a[0], take, t);
    } else if take == 1 && tail.Ok? {
      assert [] + tail.value == tail.value;
    }
  }

  lemma PrependTwice(x: seq<Mode>, y: seq<Mode>, r: Checked<seq<Mode>>)
    ensures Prepend(x, Prepend(y, r)) == Prepend(x + y, r)
  {
    assert r.Ok? ==> x + (y + r.value) == x + y + r.value;
  }

  /** `compose_leaf`, with its running extent, stride and output list: what it gives has the extent
      asked for and reads `a` at the multiples of `d`; it declines exactly when they do not line up
      with the modes of `a`, or for want of range. */
  method ComposeLeaf(a: seq<Mode>, s: pos, d: nat) returns (r: Checked<(IntTuple, IntTuple)>)
    requires a != []
    ensures r == match LeafOut(a, Mode(s, d)) case Ok(out) => Ok(FlatNode(out)) case Err(e) => Err(e)
    ensures r.Ok? ==> ReadsMultiples(a, s, d, r.value.0, r.value.1)
    ensures r.Ok? <==> Composable(a, Mode(s, d))
    ensures r.Err? ==> Why(a, Mode(s, d), r.error)
  {
    LeafExact(a, Mode(s, d));
    if LeafOut(a, Mode(s, d)).Ok? {
      LeafReadsMultiples(a, Mode(s, d));
    }
    if s == 1 { return Ok((Int(1), Int(0))); }
    if d == 0 { return Ok((Int(s), Int(0))); }
    var restShape: pos, restStride: pos := s, d;
    var out: seq<Mode> := [];
    var k := 0;
    ghost var whole := Walk(a, s, d);
    assert a[0..] == a && (whole.Ok? ==> [] + whole.value == whole.value);
    while k < |a| && restShape != 1
      invariant 0 <= k <= |a|
      invariant whole == Prepend(out, Walk(a[k..], restShape, restStride))
    {
      var m := a[k];
      assert a[k..][0] == m && a[k..][1..] == a[k + 1..];
      var last := k + 1 == |a|;
      ghost var before := out;
      if !last && restStride >= m.s {
        if restStride % m.s != 0 { return Err(NotDivisible); }
        DivPos(restStride, m.s);
        restStride := restStride / m.s;
      } else {
        var take := Take(m, last, restShape, restStride);
        if take.Err? { return Err(NotDivisible); }
        MulMono(0, m.d, restStride);
        if take.value > 1 {
          if CheckedMul(m.d, restStride).Err? { return Err(Overflow); }
          out := out + [Mode(take.value, m.d * restStride)];
        }
        WalkTakeStep(a[k..], restShape, restStride, take.value);
        PrependTwice(before, Emit(m, take.value, restStride), Walk(a[k + 1..], restShape / take.value, 1));
        restShape := restShape / take.value;
        restStride := 1;
      }
      k := k + 1;
    }
    assert out + [] == out;
    return Ok(FlatNode(out));
  }

  // ---- when it declines

  /** A boundary between modes of `a`, at index `p`, falls on a step of `t`, and on a turn of `r`
      steps or beyond them. */
  predicate Aligned(p: pos, r: pos, t: pos) {
    t % p == 0 || (p % t == 0 && (p / t >= r || (p / t > 0 && r % (p / t) == 0)))
  }

  /** Every boundary of `a` is aligned: the divisibility `composition` asks for. */
  ghost predicate LinesUp(a: seq<Mode>, r: pos, t: nat) {
    r == 1 || t == 0 || forall k :: 1 <= k < |a| ==> Aligned(Size(a[..k]), r, t)
  }

  /** The walk uses mode `m` of `a`, which starts at index `p`: the stride does not step over it, and
      the indices go that far. The last mode is stepped over by none. */
  predicate Used(p: pos, m: Mode, last: bool, r: pos, t: pos) {
    (last || (m.s > 1 && t < p * m.s)) && (p <= t || p < t * r)
  }

  /** The stride it uses it with: what is left of `t`, or one index a step. */
  function StrideIn(p: pos, m: Mode, t: pos): int {
    if p <= t then m.d * (t / p) else m.d
  }

  predicate Fits(p: pos, m: Mode, last: bool, r: pos, t: pos) {
    Used(p, m, last, r, t) ==> StrideIn(p, m, t) <= I64_MAX
  }

  predicate FitsAt(a: seq<Mode>, k: nat, r: pos, t: pos)
    requires k < |a|
  {
    Fits(Size(a[..k]), a[k], k + 1 == |a|, r, t)
  }

  /** Every stride of the result fits 64 bits. */
  ghost predicate StridesFit(a: seq<Mode>, r: pos, t: nat) {
    r == 1 || t == 0 || forall k :: 0 <= k < |a| ==> FitsAt(a, k, r, t)
  }

  lemma DivZero(x: int, n: int)
    requires 0 < n && -n < x < n && x % n == 0
    ensures x == 0
  {
    DivMod(x, n);
    if x / n >= 1 { MulMono(1, x / n, n); } else if x / n <= -1 { MulMono(x / n, -1, n); }
  }

  lemma ScaleMod(s: pos, x: pos, y: pos)
    ensures 1 <= s * x && 1 <= s * y
    ensures s * x % (s * y) == 0 <==> x % y == 0
    ensures x % y == 0 ==> s * x / (s * y) == x / y
  {
    MulPos(s, x);
    MulPos(s, y);
    DivMod(x, y);
    if x % y == 0 {
      MulAssoc(s, y, x / y);
      DivModUnique(s * x, s * y, x / y, 0);
    } else if s * x % (s * y) == 0 {
      var q := s * x / (s * y);
      DivMod(s * x, s * y);
      MulAssoc(s, y, q);
      MulDistribLeft(s, x, y * q);
      MulCancel(s, x, y * q);
      DivModUnique(x, y, q, 0);
    }
  }

  lemma MulCancel(s: pos, x: int, y: int)
    requires s * x == s * y
    ensures x == y
  {
    MulDistribLeft(s, x, y);
    if x - y >= 1 { MulMono(1, x - y, s); } else if x - y <= -1 { MulMono(x - y, -1, s); }
  }

  /** Past a mode the stride jumps over, everything is counted in that mode's extent. */
  lemma AlignedSkip(s: pos, p: pos, r: pos, q: pos)
    ensures 1 <= s * p && 1 <= s * q && (Aligned(s * p, r, s * q) <==> Aligned(p, r, q))
  {
    ScaleMod(s, q, p);
    ScaleMod(s, p, q);
  }

  lemma AlignedInside(s: pos, p: pos, r: pos, t: pos, u: pos)
    requires t < s && s == t * u
    ensures 1 <= s * p && 1 <= u * p && (Aligned(s * p, r, t) <==> u * p >= r || r % (u * p) == 0)
  {
    MulPos(s, p);
    MulPos(u, p);
    MulAssoc(t, u, p);
    DivModUnique(s * p, t, u * p, 0);
    if t % (s * p) == 0 { DivZero(t, s * p); }
  }

  lemma AlignedUnit(p: pos, q: pos)
    ensures Aligned(p, q, 1) <==> p >= q || q % p == 0
  {
    DivModUnique(p, 1, p, 0);
    if p > 1 {
      if 1 % p == 0 { DivZero(1, p); }
    } else {
      DivModUnique(q, p, q, 0);
    }
  }

  /** Past the mode the stride ends in, the boundaries are turns of what was taken. */
  lemma AlignedTake(s: pos, p: pos, r: pos, t: pos, u: pos)
    requires t < s && s == t * u && r % u == 0
    ensures 1 <= s * p && 1 <= r / u && (Aligned(s * p, r, t) <==> Aligned(p, r / u, 1))
  {
    DivPos(r, u);
    var q: pos := r / u;
    AlignedInside(s, p, r, t, u);
    AlignedUnit(p, q);
    ScaleMod(u, q, p);
    if p >= q {
      MulMono(q, p, u);
    } else {
      MulMono(p + 1, q, u);
      MulDistrib(p, 1, u);
    }
  }

  /** Where the taken extent is all there is, every later boundary is beyond it. */
  lemma AlignedBeyond(s: pos, p: pos, r: pos, t: pos)
    requires s % t == 0 && s / t >= r
    ensures 1 <= s * p && Aligned(s * p, r, t)
  {
    MulPos(s, p);
    DivPos(s, t);
    MulPos(s / t, p);
    MulAssoc(t, s / t, p);
    DivModUnique(s * p, t, s / t * p, 0);
  }

  lemma PrefixSize(a: seq<Mode>, k: nat)
    requires a != [] && k < |a|
    ensures Size(a[..k + 1]) == a[0].s * Size(a[1..][..k])
  {
    assert a[..k + 1][1..] == a[1..][..k];
  }

  lemma LinesUpBeyond(a: seq<Mode>, r: pos, t: pos)
    requires a != [] && a[0].s % t == 0 && a[0].s / t >= r
    ensures LinesUp(a, r, t)
  {
    forall k | 1 <= k < |a| ensures Aligned(Size(a[..k]), r, t) {
      PrefixSize(a, k - 1);
      AlignedBeyond(a[0].s, Size(a[1..][..k - 1]), r, t);
    }
  }

  lemma LinesUpTail(a: seq<Mode>, r: pos, t: pos, r': pos, t': pos)
    requires |a| > 1 && r > 1
    requires forall p: pos {:trigger Aligned(p, r', t')} ::
               1 <= a[0].s * p && (Aligned(a[0].s * p, r, t) <==> r' == 1 || Aligned(p, r', t'))
    ensures LinesUp(a, r, t) <==> Aligned(a[0].s, r, t) && LinesUp(a[1..], r', t')
  {
    assert Size(a[..1]) == a[0].s by { PrefixSize(a, 0); MulOne(Size(a[1..][..0]), a[0].s); }
    if LinesUp(a, r, t) {
      forall k | 1 <= k < |a[1..]| ensures r' == 1 || Aligned(Size(a[1..][..k]), r', t') {
        PrefixSize(a, k);
        assert Aligned(Size(a[..k + 1]), r, t);
      }
    }
    if Aligned(a[0].s, r, t) && LinesUp(a[1..], r', t') {
      forall k | 1 <= k < |a| ensures Aligned(Size(a[..k]), r, t) {
        if k > 1 {
          PrefixSize(a, k - 1);
          var p := Size(a[1..][..k - 1]);
          assert r' == 1 || Aligned(p, r', t');
        }
      }
    }
  }

  // ---- which strides it needs

  lemma ScaleLess(s: pos, x: int, y: int)
    ensures s * x < s * y <==> x < y
  {
    MulDistribLeft(s, x, y);
    if x < y { MulMono(1, y - x, s); } else { MulMono(0, x - y, s); }
  }

  lemma ScaleDiv(s: pos, x: pos, y: pos)
    ensures 1 <= s * y && s * x / (s * y) == x / y
  {
    var q, m := x / y, x % y;
    MulPos(s, y);
    DivMod(x, y);
    MulAssoc(s, y, q);
    MulMono(0, m, s);
    ScaleLess(s, m, y);
    assert s * x == s * y * q + s * m by { MulDistribSum(s, y * q, m); }
    DivModUnique(s * x, s * y, q, s * m);
  }

  lemma MulDistribSum(s: int, x: int, y: int)
    ensures s * (x + y) == s * x + s * y
  {
  }

  /** Past a mode the stride steps over, the same modes are used with the same strides. */
  lemma FitsSkip(s: pos, p: pos, m: Mode, last: bool, r: pos, q: pos)
    ensures 1 <= s * p && 1 <= s * q && (Fits(s * p, m, last, r, s * q) <==> Fits(p, m, last, r, q))
  {
    MulPos(s, p);
    MulPos(s, q);
    UsedSkip(s, p, m, last, r, q);
    ScaleLess(s, q, p);
    ScaleDiv(s, q, p);
  }

  lemma UsedSkip(s: pos, p: pos, m: Mode, last: bool, r: pos, q: pos)
    ensures 1 <= s * p && 1 <= s * q && (Used(s * p, m, last, r, s * q) <==> Used(p, m, last, r, q))
  {
    MulPos(s, p);
    MulPos(s, q);
    ScaleLess(s, q, p);
    assert s * q < s * p * m.s <==> q < p * m.s by {
      ScaleLess(s, q, p * m.s);
      MulAssoc(s, p, m.s);
    }
    assert s * p < s * q * r <==> p < q * r by {
      ScaleLess(s, p, q * r);
      MulAssoc(s, q, r);
    }
  }

  /** Past the mode the stride ends in, every mode the indices reach is used with its own stride. */
  lemma FitsTake(s: pos, p: pos, m: Mode, last: bool, r: pos, t: pos, u: pos)
    requires t < s && s == t * u && r % u == 0 && u < r
    ensures 1 <= s * p && 1 <= r / u && (Fits(s * p, m, last, r, t) <==> Fits(p, m, last, r / u, 1))
  {
    DivPos(r, u);
    var w: pos := r / u;
    MulPos(s, p);
    UsedTake(s, p, m, last, r, t, u, w);
    MulMono(1, p, s);
    if p == 1 { DivModUnique(1, 1, 1, 0); }
  }

  lemma UsedTake(s: pos, p: pos, m: Mode, last: bool, r: pos, t: pos, u: pos, w: pos)
    requires t < s && s == t * u && r == u * w && u < r
    ensures 1 <= s * p && t < s * p && (Used(s * p, m, last, r, t) <==> Used(p, m, last, w, 1))
  {
    MulMono(1, p, s);
    MulMono(1, m.s, s * p);
    MulAssoc(t, u, w);
    ScaleLess(s, p, w);
    if w <= 1 { MulMono(w, 1, u); }
    MulMono(1, p, m.s);
  }

  /** Where the taken extent is all there is, nothing further is used. */
  lemma UsedBeyond(s: pos, p: pos, m: Mode, last: bool, r: pos, t: pos, u: pos)
    requires t < s && s == t * u && u >= r
    ensures 1 <= s * p && !Used(s * p, m, last, r, t)
  {
    MulMono(1, p, s);
    MulMono(r, u, t);
  }

  lemma FitsFirst(a: seq<Mode>, r: pos, t: pos)
    requires a != [] && r > 1
    ensures FitsAt(a, 0, r, t) <==> (|a| > 1 && t >= a[0].s) || a[0].d * t <= I64_MAX
  {
    assert a[..0] == [];
    DivModUnique(t, 1, t, 0);
  }

  lemma FitsTail(a: seq<Mode>, r: pos, t: pos, r': pos, t': pos)
    requires |a| > 1 && r > 1
    requires forall k :: 1 <= k < |a| ==> (FitsAt(a, k, r, t) <==> r' == 1 || FitsAt(a[1..], k - 1, r', t'))
    ensures StridesFit(a, r, t) <==> FitsAt(a, 0, r, t) && StridesFit(a[1..], r', t')
  {
    var rest := a[1..];
    if StridesFit(a, r, t) {
      forall k | 0 <= k < |rest| ensures r' == 1 || FitsAt(rest, k, r', t') {
        assert FitsAt(a, k + 1, r, t);
      }
    }
    if FitsAt(a, 0, r, t) && StridesFit(rest, r', t') {
      forall k | 0 <= k < |a| ensures FitsAt(a, k, r, t) {
        assert k > 0 ==> r' == 1 || FitsAt(rest, k - 1, r', t');
      }
    }
  }

  /** What a caller can check of a mode before composing it. */
  ghost predicate Composable(a: seq<Mode>, m: Mode) { LinesUp(a, m.s, m.d) && StridesFit(a, m.s, m.d) }

  /** Why a mode is declined: it does not line up, or a stride it needs has no room. */
  ghost predicate Why(a: seq<Mode>, m: Mode, error: LayoutError) {
    (error == NotDivisible && !LinesUp(a, m.s, m.d)) || (error == Overflow && !StridesFit(a, m.s, m.d))
  }

  /** The walk ends exactly where everything lines up and the strides fit. */
  lemma {:induction false} WalkExact(a: seq<Mode>, r: pos, t: pos)
    ensures Walk(a, r, t).Ok? <==> LinesUp(a, r, t) && StridesFit(a, r, t)
    ensures Walk(a, r, t).Err? ==> Why(a, Mode(r, t), Walk(a, r, t).error)
    decreases |a|, 1
  {
    if |a| == 1 && r > 1 {
      FitsFirst(a, r, t);
    } else if |a| > 1 && r > 1 {
      var s := a[0].s;
      if t >= s {
        WalkExactSkip(a, r, t);
      } else {
        WalkExactTake(a, r, t);
      }
    }
  }

  lemma FirstBoundary(a: seq<Mode>, r: pos, t: pos)
    requires |a| > 1 && r > 1 && LinesUp(a, r, t)
    ensures Aligned(a[0].s, r, t)
  {
    PrefixSize(a, 0);
    MulOne(Size(a[1..][..0]), a[0].s);
    assert Aligned(Size(a[..1]), r, t);
  }

  lemma {:induction false} WalkExactSkip(a: seq<Mode>, r: pos, t: pos)
    requires |a| > 1 && r > 1 && t >= a[0].s
    ensures Walk(a, r, t).Ok? <==> LinesUp(a, r, t) && StridesFit(a, r, t)
    ensures Walk(a, r, t).Err? ==> Why(a, Mode(r, t), Walk(a, r, t).error)
    decreases |a|, 0
  {
    var s := a[0].s;
    if t % s == 0 {
      DivPos(t, s);
      var q: pos := t / s;
      WalkExact(a[1..], r, q);
      forall p: pos ensures 1 <= s * p && (Aligned(s * p, r, t) <==> r == 1 || Aligned(p, r, q)) {
        AlignedSkip(s, p, r, q);
      }
      LinesUpTail(a, r, t, r, q);
      forall k | 1 <= k < |a| ensures FitsAt(a, k, r, t) <==> r == 1 || FitsAt(a[1..], k - 1, r, q) {
        PrefixSize(a, k - 1);
        FitsSkip(s, Size(a[1..][..k - 1]), a[k], k + 1 == |a|, r, q);
      }
      FitsTail(a, r, t, r, q);
      FitsFirst(a, r, t);
    } else if LinesUp(a, r, t) {
      FirstBoundary(a, r, t);
      if s % t == 0 {
        if s < t { DivZero(s, t); }
        DivModUnique(t, s, 1, 0);
      }
    }
  }

  lemma {:induction false} WalkExactTake(a: seq<Mode>, r: pos, t: pos)
    requires |a| > 1 && r > 1 && t < a[0].s
    ensures Walk(a, r, t).Ok? <==> LinesUp(a, r, t) && StridesFit(a, r, t)
    ensures Walk(a, r, t).Err? ==> Why(a, Mode(r, t), Walk(a, r, t).error)
    decreases |a|, 0
  {
    var s := a[0].s;
    if t % s == 0 { DivZero(t, s); }
    if LinesUp(a, r, t) { FirstBoundary(a, r, t); }
    FitsFirst(a, r, t);
    if s % t == 0 {
      DivPos(s, t);
      var u: pos := s / t;
      var take: pos := Min(u, r);
      if u >= r {
        DivModUnique(r, r, 1, 0);
        LinesUpBeyond(a, r, t);
        forall k | 1 <= k < |a| ensures FitsAt(a, k, r, t) {
          PrefixSize(a, k - 1);
          UsedBeyond(s, Size(a[1..][..k - 1]), a[k], k + 1 == |a|, r, t, u);
        }
        FitsTail(a, r, t, 1, 1);
      } else if r % u == 0 {
        DivPos(r, u);
        var rest: pos := r / u;
        WalkExact(a[1..], rest, 1);
        forall p: pos ensures 1 <= s * p && (Aligned(s * p, r, t) <==> rest == 1 || Aligned(p, rest, 1)) {
          AlignedTake(s, p, r, t, u);
        }
        LinesUpTail(a, r, t, rest, 1);
        forall k | 1 <= k < |a| ensures FitsAt(a, k, r, t) <==> rest == 1 || FitsAt(a[1..], k - 1, rest, 1) {
          PrefixSize(a, k - 1);
          FitsTake(s, Size(a[1..][..k - 1]), a[k], k + 1 == |a|, r, t, u);
        }
        FitsTail(a, r, t, rest, 1);
      }
    }
  }

  lemma LeafExact(a: seq<Mode>, m: Mode)
    ensures LeafOut(a, m).Ok? <==> Composable(a, m)
    ensures LeafOut(a, m).Err? ==> Why(a, m, LeafOut(a, m).error)
  {
    if m.s > 1 && m.d > 0 {
      WalkExact(a, m.s, m.d);
    }
  }

  /** The divisibility is sufficient, not necessary: `(4,2):(1,4)` at the two multiples of 3 is `2:3`,
      and is declined. */
  lemma ExpressibleButDeclined()
    ensures LeafOut([Mode(4, 1), Mode(2, 4)], Mode(2, 3)) == Err(NotDivisible)
    ensures forall i: nat :: i < 2 ==> Offset([Mode(4, 1), Mode(2, 4)], 3 * i) == Offset([Mode(2, 3)], i)
  {
    assert Offset([Mode(4, 1), Mode(2, 4)], 0) == 0 by { OffsetZero([Mode(4, 1), Mode(2, 4)]); }
    assert [Mode(4, 1), Mode(2, 4)][1..] == [Mode(2, 4)];
    assert Offset([Mode(4, 1), Mode(2, 4)], 3) == 3;
  }

  // ---- what it reads

  /** A tree pair with `s` indices that reads `a` at the multiples of `d`. */
  ghost predicate ReadsMultiples(a: seq<Mode>, s: pos, d: nat, shape: IntTuple, stride: IntTuple) {
    && Shaped(shape, stride) && Size(Flat(shape, stride)) == s
    && forall c: nat :: c < s ==> 0 <= c * d && Offset(Flat(shape, stride), c) == Offset(a, c * d)
  }

  lemma LeafReadsMultiples(a: seq<Mode>, m: Mode)
    requires a != [] && LeafOut(a, m).Ok?
    ensures ReadsMultiples(a, m.s, m.d, FlatNode(LeafOut(a, m).value).0, FlatNode(LeafOut(a, m).value).1)
  {
    var out := LeafOut(a, m).value;
    FlatNodeModes(out);
    LeafOutReads(a, m, 0);
    OrUnitWrapped(out, 0);
    forall c: nat | c < m.s ensures 0 <= c * m.d && Offset(OrUnit(out), c) == Offset(a, c * m.d) {
      LeafOutReads(a, m, c);
      OrUnitWrapped(out, c);
      OffsetIsDot(out, c);
      OffsetIsDot(OrUnit(out), c);
    }
  }

  /** A composed mode has the extent it was asked for and reads `a` at the multiples of its
      stride. */
  lemma {:induction false} WalkCorrect(a: seq<Mode>, r: pos, t: pos, c: nat)
    requires a != [] && Walk(a, r, t).Ok? && c < r
    ensures Size(Walk(a, r, t).value) == r
    ensures 0 <= c * t && Offset(Walk(a, r, t).value, c) == Offset(a, c * t)
    decreases |a|
  {
    MulMono(0, c, t);
    var out := Walk(a, r, t).value;
    if r == 1 {
      OffsetZero(a);
    } else if |a| == 1 {
      assert out[1..] == [];
      MulAssoc(c, a[0].d, t);
    } else if t >= a[0].s {
      WalkSkip(a, r, t, c);
    } else {
      WalkTake(a, r, t, c);
    }
  }

  /** A stride that jumps over the first mode leaves its digit zero. */
  lemma {:induction false} WalkSkip(a: seq<Mode>, r: pos, t: pos, c: nat)
    requires |a| > 1 && r > 1 && t >= a[0].s && Walk(a, r, t).Ok? && c < r
    ensures Size(Walk(a, r, t).value) == r
    ensures 0 <= c * t && Offset(Walk(a, r, t).value, c) == Offset(a, c * t)
    decreases |a|, 0
  {
    var s := a[0].s;
    DivPos(t, s);
    WalkCorrect(a[1..], r, t / s, c);
    MulMono(0, c, t);
    MulSwap(c, s, t / s);
    DivModUnique(c * t, s, c * (t / s), 0);
  }

  /** A stride inside the first mode uses up part of it, and what is left starts the next. */
  lemma {:induction false} WalkTake(a: seq<Mode>, r: pos, t: pos, c: nat)
    requires |a| > 1 && r > 1 && t < a[0].s && Walk(a, r, t).Ok? && c < r
    ensures Size(Walk(a, r, t).value) == r
    ensures 0 <= c * t && Offset(Walk(a, r, t).value, c) == Offset(a, c * t)
    decreases |a|, 0
  {
    DivPos(a[0].s, t);
    var take: pos := Min(a[0].s / t, r);
    DivPos(r, take);
    DivNonneg(c, take);
    DivBound(c, take, r / take);
    WalkCorrect(a[1..], r / take, 1, c / take);
    WalkTakeStep(a, r, t, take);
    TakeReads(a, Walk(a[1..], r / take, 1).value, r, t, take, c);
  }

  lemma TakeReads(a: seq<Mode>, tail: seq<Mode>, r: pos, t: pos, take: pos, c: nat)
    requires |a| > 1 && t < a[0].s && a[0].s % t == 0 && take == Min(a[0].s / t, r) && c < r
    requires r == take * Size(tail)
    requires 0 <= c / take && Offset(tail, c / take) == Offset(a[1..], c / take)
    ensures Size(Emit(a[0], take, t) + tail) == r
    ensures 0 <= c * t && Offset(Emit(a[0], take, t) + tail, c) == Offset(a, c * t)
  {
    var s: int, d: int := a[0].s, a[0].d;
    var lo, hi := c % take, c / take;
    DivPos(s, t);
    TakeDigits(s, t, s / t, take, r, Size(tail), c);
    MulMono(0, c, t);
    MulMono(0, d, t);
    assert Offset(a, c * t) == lo * (d * t) + Offset(tail, hi) by {
      MulAssoc(lo, d, t);
      MulAssoc(lo, t, d);
    }
    if take > 1 {
      assert Emit(a[0], take, t) == [Mode(take, d * t)];
      FrontMode(Mode(take, d * t), tail, c);
    } else {
      DivModUnique(c, 1, c, 0);
      assert Emit(a[0], take, t) + tail == tail;
      MulZero(lo, d * t);
    }
  }

  lemma FrontMode(m: Mode, tail: seq<Mode>, c: nat)
    requires c < m.s * Size(tail)
    ensures Size([m] + tail) == m.s * Size(tail)
    ensures 0 <= c / m.s && Offset([m] + tail, c) == (c % m.s) * m.d + Offset(tail, c / m.s)
  {
    assert ([m] + tail)[1..] == tail;
    DivNonneg(c, m.s);
    if tail == [] {
      DivModUnique(c, m.s, 0, c);
    }
  }

  /** `c * t` has the digit `(c % take) * t` in an extent of `avail * t`, and carries `c / take`. */
  lemma TakeDigits(s: int, t: pos, avail: int, take: pos, r: pos, rest: pos, c: nat)
    requires s == t * avail && take == Min(avail, r) && r == take * rest && c < r
    ensures 0 <= c * t && 0 < s && c * t % s == (c % take) * t && c * t / s == c / take
  {
    var lo, hi := c % take, c / take;
    DivMod(c, take);
    DivBound(c, take, rest);
    DivNonneg(c, take);
    MulMono(0, lo, t);
    MulMono(lo, avail - 1, t);
    MulPred(avail, t);
    assert c * t == s * hi + lo * t by {
      MulDistrib(take * hi, lo, t);
      if take != avail {
        assert rest == 1 by { if rest > 1 { MulMono(2, rest, take); } }
        assert hi == 0;
      } else {
        MulAssoc(t, avail, hi);
      }
    }
    MulPos(t, avail);
    DivModUnique(c * t, s, hi, lo * t);
  }

  // ---- the whole right-hand side

  /** The modes of the result, one composed run per mode of `rhs`. */
  function ComposeFlat(a: seq<Mode>, bs: seq<Mode>): Checked<seq<Mode>> {
    if bs == [] then Ok([]) else
      match LeafOut(a, bs[0])
      case Err(e) => Err(e)
      case Ok(out) => Prepend(OrUnit(out), ComposeFlat(a, bs[1..]))
  }

  /** `compose_tree`: the nesting of `rhs` is kept, each leaf replaced by its run. */
  function ComposeTree(a: seq<Mode>, shape: IntTuple, stride: IntTuple): Checked<(IntTuple, IntTuple)>
    requires Shaped(shape, stride)
    decreases shape, 1
  {
    match (shape, stride)
    case (Int(s), Int(d)) =>
      assert Leaves(shape)[0] == s && Leaves(stride)[0] == d;
      (match LeafOut(a, Mode(s, d))
       case Ok(out) => Ok(FlatNode(out))
       case Err(e) => Err(e))
    case (Tuple(ss), Tuple(ds)) =>
      assert LeavesAll(ss) == Leaves(shape) && LeavesAll(ds) == Leaves(stride);
      (match ComposeTrees(a, ss, ds)
       case Ok((cs, cd)) => Ok((Tuple(cs), Tuple(cd)))
       case Err(e) => Err(e))
  }

  function ComposeTrees(a: seq<Mode>, ss: seq<IntTuple>, ds: seq<IntTuple>): Checked<(seq<IntTuple>, seq<IntTuple>)>
    requires ShapedAll(ss, ds)
    decreases ss, 0
  {
    if ss == [] then Ok(([], [])) else
      ShapedSplit(ss, ds);
      match ComposeTree(a, ss[0], ds[0])
      case Err(e) => Err(e)
      case Ok((s, d)) =>
        match ComposeTrees(a, ss[1..], ds[1..])
        case Ok((cs, cd)) => Ok(([s] + cs, [d] + cd))
        case Err(e) => Err(e)
  }

  function Compose(l: Layout, rhs: Layout): Checked<Layout>
    requires Valid(l) && Valid(rhs)
  {
    match ComposeTree(FlatModes(l), rhs.shape, rhs.stride)
    case Ok((s, d)) => NewLayout(s, d)
    case Err(e) => Err(e)
  }

  lemma {:induction false} ComposeFlatConcat(a: seq<Mode>, bs: seq<Mode>, cs: seq<Mode>)
    requires ComposeFlat(a, bs).Ok? && ComposeFlat(a, cs).Ok?
    ensures ComposeFlat(a, bs + cs) == Ok(ComposeFlat(a, bs).value + ComposeFlat(a, cs).value)
  {
    if bs == [] {
      assert bs + cs == cs && [] + ComposeFlat(a, cs).value == ComposeFlat(a, cs).value;
    } else {
      assert (bs + cs)[1..] == bs[1..] + cs && (bs + cs)[0] == bs[0];
      ComposeFlatConcat(a, bs[1..], cs);
      PrependTwice(OrUnit(LeafOut(a, bs[0]).value), ComposeFlat(a, bs[1..]).value, ComposeFlat(a, cs));
    }
  }

  /** Dropping the nesting commutes with composing. */
  lemma {:induction false} ComposeTreeFlat(a: seq<Mode>, shape: IntTuple, stride: IntTuple)
    requires Shaped(shape, stride) && ComposeTree(a, shape, stride).Ok?
    ensures var (s, d) := ComposeTree(a, shape, stride).value;
            Shaped(s, d) && ComposeFlat(a, Flat(shape, stride)) == Ok(Flat(s, d))
    decreases shape, 1
  {
    if shape.Int? {
      assert Leaves(shape)[0] == shape.v && Leaves(stride)[0] == stride.v;
      var bs := Flat(shape, stride);
      assert bs == [Mode(shape.v, stride.v)] && bs[1..] == [];
      var out := LeafOut(a, bs[0]).value;
      FlatNodeModes(out);
      assert OrUnit(out) + [] == OrUnit(out);
    } else {
      assert LeavesAll(shape.items) == Leaves(shape) && LeavesAll(stride.items) == Leaves(stride);
      ComposeTreesFlat(a, shape.items, stride.items);
    }
  }

  lemma {:induction false} ComposeTreesFlat(a: seq<Mode>, ss: seq<IntTuple>, ds: seq<IntTuple>)
    requires ShapedAll(ss, ds) && ComposeTrees(a, ss, ds).Ok?
    ensures var (cs, cd) := ComposeTrees(a, ss, ds).value;
            ShapedAll(cs, cd) && ComposeFlat(a, FlatAll(ss, ds)) == Ok(FlatAll(cs, cd))
    decreases ss, 0
  {
    if ss != [] {
      ShapedSplit(ss, ds);
      ComposeTreeFlat(a, ss[0], ds[0]);
      ComposeTreesFlat(a, ss[1..], ds[1..]);
      var (s, d) := ComposeTree(a, ss[0], ds[0]).value;
      var (cs, cd) := ComposeTrees(a, ss[1..], ds[1..]).value;
      ShapedJoin(s, d, cs, cd);
      ComposeFlatConcat(a, Flat(ss[0], ds[0]), FlatAll(ss[1..], ds[1..]));
    }
  }

  /** Composing a nested right-hand side asks every one of its modes to line up and its strides to
      fit, and nothing else. */
  lemma {:induction false} ComposeTreeExact(a: seq<Mode>, shape: IntTuple, stride: IntTuple)
    requires Shaped(shape, stride)
    ensures ComposeTree(a, shape, stride).Ok? <==> forall m :: m in Flat(shape, stride) ==> Composable(a, m)
    ensures ComposeTree(a, shape, stride).Err? ==>
              exists m :: m in Flat(shape, stride) && Why(a, m, ComposeTree(a, shape, stride).error)
    decreases shape, 1
  {
    if shape.Int? {
      assert Leaves(shape)[0] == shape.v && Leaves(stride)[0] == stride.v;
      var m := Mode(shape.v, stride.v);
      assert Flat(shape, stride) == [m];
      LeafExact(a, m);
    } else {
      assert LeavesAll(shape.items) == Leaves(shape) && LeavesAll(stride.items) == Leaves(stride);
      ComposeTreesExact(a, shape.items, stride.items);
    }
  }

  lemma {:induction false} ComposeTreesExact(a: seq<Mode>, ss: seq<IntTuple>, ds: seq<IntTuple>)
    requires ShapedAll(ss, ds)
    ensures ComposeTrees(a, ss, ds).Ok? <==> forall m :: m in FlatAll(ss, ds) ==> Composable(a, m)
    ensures ComposeTrees(a, ss, ds).Err? ==>
              exists m :: m in FlatAll(ss, ds) && Why(a, m, ComposeTrees(a, ss, ds).error)
    decreases ss, 0
  {
    if ss != [] {
      ShapedSplit(ss, ds);
      ComposeTreeExact(a, ss[0], ds[0]);
      ComposeTreesExact(a, ss[1..], ds[1..]);
      forall m ensures m in FlatAll(ss, ds) <==> m in Flat(ss[0], ds[0]) || m in FlatAll(ss[1..], ds[1..]) {
      }
    }
  }

  /** A mode that lies within the first mode of `a` is composed to itself. */
  lemma LeafFixed(a: seq<Mode>, m: Mode)
    requires |a| >= 2 && a[0].d == 1 && m.s > 1 && 0 < m.d < a[0].s <= I64_MAX
    requires a[0].s % m.d == 0 && m.s <= a[0].s / m.d
    ensures LeafOut(a, m) == Ok([m])
  {
    DivModUnique(m.s, m.s, 1, 0);
    WalkTakeStep(a, m.s, m.d, m.s);
    assert Walk(a[1..], 1, 1) == Ok([]);
    assert Emit(a[0], m.s, m.d) == [m] && [m] + [] == [m];
  }

  lemma {:induction false} ComposeFixedAll(a: seq<Mode>, bs: seq<Mode>)
    requires forall m :: m in bs ==> LeafOut(a, m) == Ok([m])
    ensures ShapedAll(Shapes(bs), Strides(bs))
    ensures ComposeTrees(a, Shapes(bs), Strides(bs)) == Ok((Shapes(bs), Strides(bs)))
  {
    FlatListModes(bs);
    if bs != [] {
      var b := bs[0];
      ComposeFixedAll(a, bs[1..]);
      ShapedSplit(Shapes(bs), Strides(bs));
      assert Shapes(bs)[1..] == Shapes(bs[1..]) && Strides(bs)[1..] == Strides(bs[1..]);
      assert Mode(b.s, b.d) == b && FlatNode([b]) == (Int(b.s), Int(b.d));
      assert ComposeTree(a, Int(b.s), Int(b.d)) == Ok((Int(b.s), Int(b.d)));
    }
  }

  lemma ComposeFixed(l: Layout, bs: seq<Mode>)
    requires Valid(l) && |bs| >= 2 && Span(bs) < I64_MAX && Size(bs) <= I64_MAX
    requires forall m :: m in bs ==> LeafOut(FlatModes(l), m) == Ok([m])
    ensures Valid(FromFlat(bs)) && Compose(l, FromFlat(bs)) == Ok(FromFlat(bs))
  {
    var rhs := FromFlat(bs);
    FromFlatModes(bs);
    ComposeFixedAll(FlatModes(l), bs);
    assert rhs.shape == Tuple(Shapes(bs)) && rhs.stride == Tuple(Strides(bs));
    NewLayoutValid(rhs.shape, rhs.stride);
  }

  /** The sum of what each mode of `rhs` contributes on its own. */
  function ImageSum(a: seq<Mode>, bs: seq<Mode>, cs: seq<nat>): nat
    requires |bs| == |cs|
  {
    if bs == [] then 0 else
      MulMono(0, cs[0], bs[0].d);
      Offset(a, cs[0] * bs[0].d) + ImageSum(a, bs[1..], cs[1..])
  }

  lemma LeafReads(a: seq<Mode>, m: Mode, i: nat)
    requires a != [] && LeafOut(a, m).Ok?
    ensures Size(OrUnit(LeafOut(a, m).value)) == m.s
    ensures 0 <= (i % m.s) * m.d && Wrapped(OrUnit(LeafOut(a, m).value), i) == Offset(a, (i % m.s) * m.d)
  {
    var out := LeafOut(a, m).value;
    var c: nat := i % m.s;
    MulMono(0, c, m.d);
    LeafOutReads(a, m, c);
    OrUnitWrapped(out, i);
    DigitsMod(out, i);
    OffsetIsDot(out, c);
  }

  lemma OrUnitWrapped(ms: seq<Mode>, i: nat)
    ensures Size(OrUnit(ms)) == Size(ms) && Wrapped(OrUnit(ms), i) == Wrapped(ms, i)
  {
    if ms == [] {
      var u := [Mode(1, 0)];
      assert OrUnit(ms) == u && u[1..] == [];
      assert Dot(u, Digits(u, i)) == Digits(u, i)[0] * 0 + Dot(u[1..], Digits(u, i)[1..]);
    }
  }

  lemma LeafOutReads(a: seq<Mode>, m: Mode, c: nat)
    requires a != [] && LeafOut(a, m).Ok? && c < m.s
    ensures Size(LeafOut(a, m).value) == m.s
    ensures 0 <= c * m.d && Offset(LeafOut(a, m).value, c) == Offset(a, c * m.d)
  {
    MulMono(0, c, m.d);
    if m.s == 1 || m.d == 0 {
      OffsetZero(a);
      MulZero(c, m.d);
      assert [m][1..] == [];
    } else {
      WalkCorrect(a, m.s, m.d, c);
    }
  }

  /** What the result of a composition reads, whatever `rhs` is. */
  lemma {:induction false} ComposeReads(a: seq<Mode>, bs: seq<Mode>, i: nat)
    requires a != [] && ComposeFlat(a, bs).Ok?
    ensures Size(ComposeFlat(a, bs).value) == Size(bs)
    ensures Wrapped(ComposeFlat(a, bs).value, i) == ImageSum(a, bs, Digits(bs, i))
  {
    if bs != [] {
      var m, rest := bs[0], ComposeFlat(a, bs[1..]).value;
      var out := OrUnit(LeafOut(a, m).value);
      LeafReads(a, m, i);
      DivNonneg(i, m.s);
      ComposeReads(a, bs[1..], i / m.s);
      SizeConcat(out, rest);
      WrappedConcat(out, rest, i);
      assert Digits(bs, i)[1..] == Digits(bs[1..], i / m.s);
    }
  }
}
