/** Collectives as the serial code runs them: the groups of a block one after another, every lane's
    result written from the contributions of its group. */
module Collectives {
  import opened Wrappers
  import opened Arith

  datatype ShuffleMode = Up | Down | Xor | Index

  datatype VoteKind = All | Any | Ballot

  /** A kind with the operators its value type gives it. A scan with an identity is exclusive. */
  datatype Kind<!T> =
    | Reduce(op: (T, T) -> T)
    | Scan(op: (T, T) -> T, identity: Option<T>)
    | Shuffle(mode: ShuffleMode)
    | Vote(vote: VoteKind, isTrue: T -> bool, ofInt: int -> T)

  // ---- what each lane is owed

  function Fold<T>(vs: seq<T>, op: (T, T) -> T): T
    requires vs != []
  {
    if |vs| == 1 then vs[0] else op(Fold(vs[..|vs| - 1], op), vs[|vs| - 1])
  }

  /** Remainder as C takes it, toward zero. */
  function TruncMod(x: int, n: pos): int { if x >= 0 then x % n else -((-x) % n) }

  function XorNat(a: nat, b: nat): nat {
    if a == 0 && b == 0 then 0 else (if a % 2 != b % 2 then 1 else 0) + 2 * XorNat(a / 2, b / 2)
  }

  /** The lane of the group that `lane` reads, given its operand: itself when the other is outside. */
  function Source(mode: ShuffleMode, lane: nat, operand: int, size: pos): int
    requires lane < size
  {
    match mode
    case Up => if 0 <= lane - operand < size then lane - operand else lane
    case Down => if 0 <= lane + operand < size then lane + operand else lane
    case Xor => if operand >= 0 && XorNat(lane, operand) < size then XorNat(lane, operand) else lane
    case Index => TruncMod(TruncMod(operand, size) + size, size)
  }

  /** C's remainder differs from `x` by a multiple of `n`. */
  lemma TruncModBounds(x: int, n: pos) returns (q: int)
    ensures 0 - n < TruncMod(x, n) < n && x == n * q + TruncMod(x, n)
  {
    if x >= 0 {
      q := x / n;
      DivMod(x, n);
    } else {
      q := -((-x) / n);
      DivMod(-x, n);
      MulDistribLeft(n, 0, (-x) / n);
    }
  }

  /** The double remainder of an indexed shuffle is the operand modulo the group. */
  lemma IndexWraps(x: int, n: pos)
    ensures TruncMod(TruncMod(x, n) + n, n) == x % n && 0 <= x % n < n
  {
    var q := TruncModBounds(x, n);
    var t := TruncMod(x, n) + n;
    var p := t / n;
    DivMod(t, n);
    MulDistribLeft(n, q, p);
    MulDistribLeft(n, q + p, 1);
    DivModUnique(x, n, q + p - 1, t % n);
  }

  lemma SourceInGroup(mode: ShuffleMode, lane: nat, operand: int, size: pos)
    requires lane < size
    ensures 0 <= Source(mode, lane, operand, size) < size
    ensures mode.Index? ==> Source(mode, lane, operand, size) == operand % size
  {
    if mode.Index? { IndexWraps(operand, size); }
  }

  function MaskOf<T>(vs: seq<T>, isTrue: T -> bool): nat {
    if vs == [] then 0 else MaskOf(vs[..|vs| - 1], isTrue) + if isTrue(vs[|vs| - 1]) then Pow2(|vs| - 1) else 0
  }

  function Poll<T>(vs: seq<T>, vote: VoteKind, isTrue: T -> bool): int {
    match vote
    case All => if forall i :: 0 <= i < |vs| ==> isTrue(vs[i]) then 1 else 0
    case Any => if exists i :: 0 <= i < |vs| && isTrue(vs[i]) then 1 else 0
    case Ballot => MaskOf(vs, isTrue)
  }

  /** What a scan has folded up to `lane`: with it, or without it after an identity. */
  function Prefix<T>(op: (T, T) -> T, identity: Option<T>, vs: seq<T>, lane: nat): T
    requires lane < |vs|
  {
    if identity.None? then Fold(vs[..lane + 1], op)
    else if lane == 0 then identity.value
    else Fold(vs[..lane], op)
  }

  function Shuffled<T>(mode: ShuffleMode, vs: seq<T>, operands: seq<int>, lane: nat): T
    requires lane < |vs| == |operands|
  {
    SourceInGroup(mode, lane, operands[lane], |vs|);
    vs[Source(mode, lane, operands[lane], |vs|)]
  }

  /** The result of `lane` in a group that contributed `vs`, the operands beside them. */
  function LaneResult<T>(kind: Kind<T>, vs: seq<T>, operands: seq<int>, lane: nat): T
    requires lane < |vs| == |operands|
  {
    match kind
    case Reduce(op) => Fold(vs, op)
    case Scan(op, identity) => Prefix(op, identity, vs, lane)
    case Shuffle(mode) => Shuffled(mode, vs, operands, lane)
    case Vote(vote, isTrue, ofInt) => ofInt(Poll(vs, vote, isTrue))
  }

  // ---- the groups

  /** Where the group of thread `i` starts and ends. */
  function GroupStart(i: nat, group: pos): nat {
    DivNonneg(i, group);
    MulMono(0, i / group, group);
    i / group * group
  }

  function GroupEnd(g: nat, group: pos, threads: nat): nat { if g + group < threads then g + group else threads }

  /** Every thread is in one group, the one that starts at the last multiple of its size. */
  lemma OwnGroup(i: nat, group: pos, threads: nat)
    requires i < threads
    ensures GroupStart(i, group) <= i < GroupEnd(GroupStart(i, group), group, threads) &&
            GroupStart(i, group) % group == 0
  {
    DivMod(i, group);
    DivNonneg(i, group);
    MulDiv(group, i / group);
  }

  lemma GroupsPartition(i: nat, g: nat, group: pos, threads: nat)
    requires i < threads && g % group == 0
    ensures g <= i < GroupEnd(g, group, threads) <==> g == GroupStart(i, group)
  {
    OwnGroup(i, group, threads);
    DivExact(g, group);
    if g <= i < g + group {
      DivModUnique(i, group, g / group, i - g);
    }
  }

  // ---- the spelled loops

  /** Lane by lane what a group is owed. */
  function Results<T>(kind: Kind<T>, vs: seq<T>, operands: seq<int>): (r: seq<T>)
    requires |vs| == |operands|
    ensures |r| == |vs| && forall lane :: 0 <= lane < |vs| ==> r[lane] == LaneResult(kind, vs, operands, lane)
  {
    seq(|vs|, lane requires 0 <= lane < |vs| => LaneResult(kind, vs, operands, lane))
  }

  /** Lanes `g` to `ge` of `l` were written, and nothing else. */
  ghost predicate Wrote<T>(before: seq<T>, l: seq<T>, g: nat, ge: nat, results: seq<T>)
    requires g <= ge <= |l| == |before|
  {
    l[..g] == before[..g] && l[g..ge] == results && l[ge..] == before[ge..]
  }

  lemma WroteEach<T>(before: seq<T>, l: seq<T>, g: nat, ge: nat, results: seq<T>)
    requires g <= ge <= |l| == |before| && |results| == ge - g
    requires forall j :: g <= j < ge ==> l[j] == results[j - g]
    requires forall j :: 0 <= j < |l| && !(g <= j < ge) ==> l[j] == before[j]
    ensures Wrote(before, l, g, ge, results)
  {
  }

  method ReduceGroup<T>(op: (T, T) -> T, cv: seq<T>, l: array<T>, g: nat, ge: nat)
    requires g < ge <= |cv| == l.Length
    modifies l
    ensures Wrote(old(l[..]), l[..], g, ge, seq(ge - g, _ => Fold(cv[g..ge], op)))
  {
    var acc := cv[g];
    assert cv[g..g + 1] == [cv[g]];
    for i := g + 1 to ge
      invariant acc == Fold(cv[g..i], op)
    {
      var next := cv[g..i + 1];
      assert next[..|next| - 1] == cv[g..i] && next[|next| - 1] == cv[i];
      acc := op(acc, cv[i]);
    }
    for i := g to ge
      invariant forall j :: g <= j < i ==> l[j] == acc
      invariant forall j :: 0 <= j < l.Length && !(g <= j < i) ==> l[j] == old(l[j])
    {
      l[i] := acc;
    }
    WroteEach(old(l[..]), l[..], g, ge, seq(ge - g, _ => Fold(cv[g..ge], op)));
  }

  lemma FoldNext<T>(op: (T, T) -> T, vs: seq<T>, lane: nat)
    requires lane < |vs|
    ensures Fold(vs[..lane + 1], op) == if lane == 0 then vs[0] else op(Fold(vs[..lane], op), vs[lane])
  {
    var next := vs[..lane + 1];
    assert next[..lane] == vs[..lane];
  }

  method ScanGroup<T>(op: (T, T) -> T, identity: Option<T>, cv: seq<T>, l: array<T>, g: nat, ge: nat)
    requires g < ge <= |cv| == l.Length
    modifies l
    ensures Wrote(old(l[..]), l[..], g, ge,
            seq(ge - g, lane requires 0 <= lane < ge - g => Prefix(op, identity, cv[g..ge], lane)))
  {
    var acc := cv[g];
    ghost var vs := cv[g..ge];
    for i := g to ge
      invariant acc == if i == g then vs[0] else Fold(vs[..i - g], op)
      invariant forall j :: g <= j < i ==> l[j] == Prefix(op, identity, vs, j - g)
      invariant forall j :: 0 <= j < l.Length && !(g <= j < i) ==> l[j] == old(l[j])
    {
      FoldNext(op, vs, i - g);
      if identity.Some? {
        l[i] := if i == g then identity.value else acc;
        if i > g { acc := op(acc, cv[i]); }
      } else {
        if i > g { acc := op(acc, cv[i]); }
        l[i] := acc;
      }
    }
    WroteEach(old(l[..]), l[..], g, ge,
        seq(ge - g, lane requires 0 <= lane < ge - g => Prefix(op, identity, cv[g..ge], lane)));
  }

  method ShuffleGroup<T>(mode: ShuffleMode, cv: seq<T>, co: seq<int>, l: array<T>, g: nat, ge: nat)
    requires g < ge <= |cv| == |co| == l.Length
    modifies l
    ensures Wrote(old(l[..]), l[..], g, ge,
            seq(ge - g, lane requires 0 <= lane < ge - g => Shuffled(mode, cv[g..ge], co[g..ge], lane)))
  {
    for i := g to ge
      invariant forall j :: g <= j < i ==> l[j] == Shuffled(mode, cv[g..ge], co[g..ge], j - g)
      invariant forall j :: 0 <= j < l.Length && !(g <= j < i) ==> l[j] == old(l[j])
    {
      var lane := i - g;
      SourceInGroup(mode, lane, co[i], ge - g);
      l[i] := cv[g + Source(mode, lane, co[i], ge - g)];
      assert co[g..ge][lane] == co[i];
    }
    WroteEach(old(l[..]), l[..], g, ge,
        seq(ge - g, lane requires 0 <= lane < ge - g => Shuffled(mode, cv[g..ge], co[g..ge], lane)));
  }

  method VoteGroup<T>(vote: VoteKind, isTrue: T -> bool, ofInt: int -> T, cv: seq<T>, l: array<T>, g: nat, ge: nat)
    requires g < ge <= |cv| == l.Length
    modifies l
    ensures Wrote(old(l[..]), l[..], g, ge, seq(ge - g, _ => ofInt(Poll(cv[g..ge], vote, isTrue))))
  {
    var all, any, mask: nat := true, false, 0;
    ghost var vs := cv[g..ge];
    for i := g to ge
      invariant all == forall j :: 0 <= j < i - g ==> isTrue(vs[j])
      invariant any == exists j :: 0 <= j < i - g && isTrue(vs[j])
      invariant mask == MaskOf(vs[..i - g], isTrue)
    {
      var f := isTrue(cv[i]);
      assert vs[..i + 1 - g][..i - g] == vs[..i - g] && vs[..i + 1 - g][i - g] == cv[i] == vs[i - g];
      all, any := all && f, any || f;
      // The bit was clear: setting it is adding it.
      mask := mask + if f then Pow2(i - g) else 0;
    }
    assert vs[..ge - g] == vs;
    var result := match vote { case All => if all then 1 else 0 case Any => if any then 1 else 0 case Ballot => mask };
    for i := g to ge
      invariant forall j :: g <= j < i ==> l[j] == ofInt(result)
      invariant forall j :: 0 <= j < l.Length && !(g <= j < i) ==> l[j] == old(l[j])
    {
      l[i] := ofInt(result);
    }
    WroteEach(old(l[..]), l[..], g, ge, seq(ge - g, _ => ofInt(Poll(cv[g..ge], vote, isTrue))));
  }

  method GroupBody<T>(kind: Kind<T>, cv: seq<T>, co: seq<int>, l: array<T>, g: nat, ge: nat)
    requires g < ge <= |cv| == |co| == l.Length
    modifies l
    ensures Wrote(old(l[..]), l[..], g, ge, Results(kind, cv[g..ge], co[g..ge]))
  {
    match kind
    case Reduce(op) => ReduceGroup(op, cv, l, g, ge);
    case Scan(op, identity) => ScanGroup(op, identity, cv, l, g, ge);
    case Shuffle(mode) => ShuffleGroup(mode, cv, co, l, g, ge);
    case Vote(vote, isTrue, ofInt) => VoteGroup(vote, isTrue, ofInt, cv, l, g, ge);
  }

  /** Thread `i` has what its group owes it. */
  ghost predicate Settled<T>(kind: Kind<T>, cv: seq<T>, co: seq<int>, l: seq<T>, group: pos, i: nat)
    requires i < |cv| == |co| == |l|
  {
    var g := GroupStart(i, group);
    var ge := GroupEnd(g, group, |l|);
    g <= i < ge && l[i] == LaneResult(kind, cv[g..ge], co[g..ge], i - g)
  }

  lemma SettleGroup<T>(kind: Kind<T>, cv: seq<T>, co: seq<int>, before: seq<T>, l: seq<T>, group: pos, g: nat)
    requires |cv| == |co| == |l| == |before| && g < |l| && g % group == 0
    requires var ge := GroupEnd(g, group, |l|); Wrote(before, l, g, ge, Results(kind, cv[g..ge], co[g..ge]))
    requires forall i :: 0 <= i < g ==> Settled(kind, cv, co, before, group, i)
    ensures forall i :: 0 <= i < GroupEnd(g, group, |l|) ==> Settled(kind, cv, co, l, group, i)
  {
    var ge := GroupEnd(g, group, |l|);
    forall i | 0 <= i < ge ensures Settled(kind, cv, co, l, group, i) {
      if i < g {
        assert l[i] == l[..g][i] == before[..g][i];
        assert Settled(kind, cv, co, before, group, i);
      } else {
        assert l[i] == l[g..ge][i - g];
        GroupsPartition(i, g, group, |l|);
      }
    }
  }

  /** The whole construct: after it every thread's result is what its group owes it. `cv` holds the
      contributions and `co` the operands, stored by the thread loop before and only read here. */
  method Collective<T>(kind: Kind<T>, cv: seq<T>, co: seq<int>, l: array<T>, group: pos)
    requires |cv| == |co| == l.Length
    modifies l
    ensures forall i :: 0 <= i < l.Length ==> Settled(kind, cv, co, l[..], group, i)
  {
    var nt := l.Length;
    var g := 0;
    while g < nt
      invariant 0 <= g && g % group == 0
      invariant forall i :: 0 <= i < nt && i < g ==> Settled(kind, cv, co, l[..], group, i)
    {
      ghost var before := l[..];
      GroupBody(kind, cv, co, l, g, GroupEnd(g, group, nt));
      SettleGroup(kind, cv, co, before, l[..], group, g);
      NextGroup(g, group);
      g := g + group;
    }
  }

  lemma NextGroup(g: nat, group: pos)
    requires g % group == 0
    ensures (g + group) % group == 0
  {
    DivExact(g, group);
    MulDistribLeft(group, g / group, 1);
    DivModUnique(g + group, group, g / group + 1, 0);
  }

  // ---- what the results mean

  /** An exclusive scan is the fold of the identity and everything before the lane, lane 0 included,
      for an operator with that identity. */
  lemma {:induction false} ExclusiveIsPrefix<T(!new)>(vs: seq<T>, op: (T, T) -> T, id: T, lane: nat)
    requires lane < |vs| && forall x :: op(id, x) == x
    ensures LaneResult(Scan(op, Some(id)), vs, seq(|vs|, i => 0), lane) == Fold([id] + vs[..lane], op)
  {
    if lane == 0 {
      assert [id] + vs[..0] == [id];
    } else {
      IdentityFirst(vs[..lane], op, id);
    }
  }

  lemma {:induction false} IdentityFirst<T(!new)>(vs: seq<T>, op: (T, T) -> T, id: T)
    requires vs != [] && forall x :: op(id, x) == x
    ensures Fold([id] + vs, op) == Fold(vs, op)
  {
    var all := [id] + vs;
    if |vs| == 1 {
      assert all[..1] == [id];
    } else {
      IdentityFirst(vs[..|vs| - 1], op, id);
      assert all[..|all| - 1] == [id] + vs[..|vs| - 1];
    }
  }

  /** The last lane of an inclusive scan has the reduction. */
  lemma LastOfScan<T(!new)>(vs: seq<T>, op: (T, T) -> T, operands: seq<int>)
    requires vs != [] && |operands| == |vs|
    ensures LaneResult(Scan(op, None), vs, operands, |vs| - 1) == LaneResult(Reduce(op), vs, operands, 0)
  {
    assert vs[..|vs|] == vs;
  }

  lemma {:induction false} MaskBound<T(!new)>(vs: seq<T>, isTrue: T -> bool)
    ensures MaskOf(vs, isTrue) < Pow2(|vs|)
  {
    if vs != [] { MaskBound(vs[..|vs| - 1], isTrue); }
  }

  lemma {:induction false} Pow2Split(n: nat, k: nat)
    requires k < n
    ensures Pow2(n) == 2 * Pow2(k) * Pow2(n - 1 - k)
  {
    if k < n - 1 {
      Pow2Split(n - 1, k);
      MulAssoc(2 * Pow2(k), 2, Pow2(n - 2 - k));
      MulSwap(2 * Pow2(k), 2, Pow2(n - 2 - k));
      MulAssoc(2, 2 * Pow2(k), Pow2(n - 2 - k));
    } else {
      assert Pow2(0) == 1;
    }
  }

  /** Bit `lane` of a ballot is that lane's vote, and there are no bits past the lanes: a ballot of up
      to 32 lanes fits the 32-bit mask. */
  lemma {:induction false} BallotBit<T(!new)>(vs: seq<T>, isTrue: T -> bool, lane: nat)
    requires lane < |vs|
    ensures MaskOf(vs, isTrue) / Pow2(lane) % 2 == 1 <==> isTrue(vs[lane])
    ensures MaskOf(vs, isTrue) < Pow2(|vs|)
  {
    var n := |vs|;
    var (front, low) := (vs[..n - 1], MaskOf(vs[..n - 1], isTrue));
    MaskBound(front, isTrue);
    MaskBound(vs, isTrue);
    if lane == n - 1 {
      DivModUnique(MaskOf(vs, isTrue), Pow2(lane), if isTrue(vs[lane]) then 1 else 0, low);
    } else {
      BallotBit(front, isTrue, lane);
      if isTrue(vs[n - 1]) { HigherBit(low, n - 1, lane); }
    }
  }

  /** Adding a power of two leaves the bits below it. */
  lemma HigherBit(low: nat, n: nat, k: nat)
    requires k < n
    ensures (low + Pow2(n)) / Pow2(k) % 2 == low / Pow2(k) % 2
  {
    var p: int, h: int := Pow2(k), Pow2(n - 1 - k);
    Pow2Split(n, k);
    assert Pow2(n) == p * (2 * h) by { MulAssoc(p, 2, h); }
    DivMod(low, p);
    MulDistribLeft(p, low / p, 2 * h);
    DivModUnique(low + Pow2(n), p, low / p + 2 * h, low % p);
    EvenPart(low / p, h);
  }

  lemma EvenPart(x: int, h: int)
    ensures (x + 2 * h) % 2 == x % 2
  {
  }

  /** An exchange by `Xor` with one operand for all is its own inverse. */
  lemma {:induction false} XorTwice(a: nat, b: nat)
    ensures XorNat(XorNat(a, b), b) == a
    decreases a + b
  {
    if a > 0 || b > 0 {
      var x := XorNat(a, b);
      XorTwice(a / 2, b / 2);
      assert x % 2 == (if a % 2 != b % 2 then 1 else 0) && x / 2 == XorNat(a / 2, b / 2);
    }
  }

  lemma XorExchanges(lane: nat, operand: nat, size: pos)
    requires lane < size
    ensures var partner := Source(Xor, lane, operand, size);
            0 <= partner < size && Source(Xor, partner, operand, size) == lane
  {
    XorTwice(lane, operand);
  }

  // ---- folds of numbers

  /** The values of an integer type: `modulus` of them, from `-offset` up. */
  function Wrap(x: int, modulus: pos, offset: nat): int { (x + offset) % modulus - offset }

  function WrapAdd(modulus: pos, offset: nat): (int, int) -> int { (a: int, b: int) => Wrap(a + b, modulus, offset) }

  function Total(vs: seq<int>): int { if vs == [] then 0 else Total(vs[..|vs| - 1]) + vs[|vs| - 1] }

  lemma WrapAbsorbs(x: int, y: int, modulus: pos, offset: nat)
    ensures Wrap(Wrap(x, modulus, offset) + y, modulus, offset) == Wrap(x + y, modulus, offset)
  {
    var n: int := modulus;
    var (q, r) := ((x + offset) / n, (x + offset) % n);
    DivMod(x + offset, n);
    var (p, t) := ((r + y) / n, (r + y) % n);
    DivMod(r + y, n);
    MulDistribLeft(n, q, p);
    DivModUnique(x + y + offset, n, q + p, t);
  }

  /** A sum that wraps at every step is the exact sum wrapped once, so it does not depend on how the
      additions are grouped. */
  lemma {:induction false} SumWrapsOnce(vs: seq<int>, modulus: pos, offset: nat)
    requires vs != [] && forall i :: 0 <= i < |vs| ==> Wrap(vs[i], modulus, offset) == vs[i]
    ensures Fold(vs, WrapAdd(modulus, offset)) == Wrap(Total(vs), modulus, offset)
  {
    var (front, last) := (vs[..|vs| - 1], vs[|vs| - 1]);
    if |vs| == 1 {
      assert Total(front) == 0;
    } else {
      SumWrapsOnce(front, modulus, offset);
      WrapAbsorbs(Total(front), last, modulus, offset);
    }
  }

  /** A floating-point value, as far as `Max` and `Min` can tell them apart. */
  datatype Float = NaN | Num(v: real)

  /** `Max` and `Min` of the emitted code: a NaN is kept, a strictly better value replaces. */
  function Better(max: bool): (Float, Float) -> Float {
    (a: Float, b: Float) => if a.NaN? then a else if b.NaN? || (if max then b.v > a.v else b.v < a.v) then b else a
  }

  /** The fold is a NaN exactly when some contribution is, and otherwise the extreme one of them. */
  lemma {:induction false} ExtremeOfFloats(vs: seq<Float>, max: bool)
    requires vs != []
    ensures Fold(vs, Better(max)).NaN? <==> NaN in vs
    ensures Fold(vs, Better(max)) in vs
    ensures NaN !in vs ==> forall x :: x in vs ==>
            if max then x.v <= Fold(vs, Better(max)).v else x.v >= Fold(vs, Better(max)).v
  {
    var (front, last) := (vs[..|vs| - 1], vs[|vs| - 1]);
    assert vs == front + [last];
    if |vs| > 1 {
      ExtremeOfFloats(front, max);
    }
  }

  // ---- who reads whom

  /** With one operand `d` for all, `Up` brings the value of lane - d and `Down` that of lane + d; where
      there is no such lane the own value stays. */
  lemma ShiftReads<T>(vs: seq<T>, ds: seq<int>, d: int, lane: nat)
    requires lane < |vs| == |ds| && ds[lane] == d
    ensures Shuffled(Up, vs, ds, lane) == if 0 <= lane - d < |vs| then vs[lane - d] else vs[lane]
    ensures Shuffled(Down, vs, ds, lane) == if 0 <= lane + d < |vs| then vs[lane + d] else vs[lane]
  {
  }

  /** Shifting up after shifting down by the same operand brings every value back that was not pushed
      out of the group. */
  lemma ShiftsUndo<T>(vs: seq<T>, down: seq<T>, ds: seq<int>, d: int, lane: nat)
    requires |down| == |ds| == |vs| && forall i: nat :: i < |ds| ==> ds[i] == d && down[i] == Shuffled(Down, vs, ds, i)
    requires lane < |vs| && 0 <= lane - d < |vs|
    ensures Shuffled(Up, down, ds, lane) == vs[lane]
  {
    ShiftReads(down, ds, d, lane);
    ShiftReads(vs, ds, d, lane - d);
    assert down[lane - d] == Shuffled(Down, vs, ds, lane - d);
  }

  /** An exchange reads the lane whose number differs in just the bits of the operand. */
  lemma {:induction false} XorBit(a: nat, b: nat, k: nat)
    ensures XorNat(a, b) / Pow2(k) % 2 == 1 <==> a / Pow2(k) % 2 != b / Pow2(k) % 2
    decreases k
  {
    var x := XorNat(a, b);
    assert x / 2 == XorNat(a / 2, b / 2) && x % 2 == (if a % 2 != b % 2 then 1 else 0);
    if k == 0 {
      assert Pow2(0) == 1;
    } else {
      XorBit(a / 2, b / 2, k - 1);
      HalfDown(x, k);
      HalfDown(a, k);
      HalfDown(b, k);
    }
  }

  lemma HalfDown(x: nat, k: nat)
    requires k > 0
    ensures x / Pow2(k) == x / 2 / Pow2(k - 1)
  {
    assert Pow2(k) == 2 * Pow2(k - 1);
    DivModMul(x, 2, Pow2(k - 1));
  }

  // ---- folds and votes, in plain terms

  /** The fold starts with the first lane and takes the others in order, each on the right. */
  lemma FoldOfThree<T>(a: T, b: T, c: T, op: (T, T) -> T)
    ensures Fold([a, b, c], op) == op(op(a, b), c)
  {
    assert [a, b, c][..2] == [a, b] && [a, b][..1] == [a];
    assert Fold([a], op) == a && Fold([a, b], op) == op(Fold([a, b][..1], op), b);
  }

  /** `All` says that the ballot has every bit, `Any` that it has one. */
  lemma VotesFromBallot<T(!new)>(vs: seq<T>, isTrue: T -> bool)
    ensures Poll(vs, All, isTrue) == (if MaskOf(vs, isTrue) == Pow2(|vs|) - 1 then 1 else 0)
    ensures Poll(vs, Any, isTrue) == (if MaskOf(vs, isTrue) > 0 then 1 else 0)
    ensures Poll(vs, Ballot, isTrue) == MaskOf(vs, isTrue)
  {
    FullMask(vs, isTrue);
  }

  lemma {:induction false} FullMask<T(!new)>(vs: seq<T>, isTrue: T -> bool)
    ensures MaskOf(vs, isTrue) == Pow2(|vs|) - 1 <==> forall i :: 0 <= i < |vs| ==> isTrue(vs[i])
    ensures MaskOf(vs, isTrue) > 0 <==> exists i :: 0 <= i < |vs| && isTrue(vs[i])
    ensures MaskOf(vs, isTrue) < Pow2(|vs|)
  {
    if vs != [] {
      var front := vs[..|vs| - 1];
      FullMask(front, isTrue);
      assert forall i :: 0 <= i < |front| ==> front[i] == vs[i];
      if i :| 0 <= i < |front| && isTrue(front[i]) { assert isTrue(vs[i]); }
    }
  }
}
