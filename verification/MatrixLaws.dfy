/** What the matrix-multiply construct computes, written out over plain indices: element (r, c) of a
    column-major matrix of `m` rows is its element `r + m * c`. */
module MatrixLaws {
  import opened Wrappers
  import opened Arith
  import opened MatrixMultiply

  /** The terms added up from `start`, the first of them first. */
  function Accumulate<W>(add: (W, W) -> W, start: W, terms: seq<W>): W {
    if terms == [] then start else add(Accumulate(add, start, terms[..|terms| - 1]), terms[|terms| - 1])
  }

  lemma PlaceInside(m: pos, cols: pos, r: nat, c: nat)
    requires r < m && c < cols
    ensures 0 <= m * c && r + m * c < m * cols && At(m, r, c) == r + m * c
  {
    MulMono(0, c, m);
    AtInside(m, r, c, cols);
  }

  lemma BlockPlace(m: pos, k: pos, block: pos, r: nat, i: nat)
    requires k % block == 0 && r < m && i < k
    ensures 0 <= i / block < k / block && 0 <= m * (i / block) && r + m * (i / block) < m * (k / block)
    ensures At(m, r, i / block) == r + m * (i / block)
  {
    BlockInside(k, block, i);
    PlaceInside(m, k / block, r, i / block);
  }

  lemma BlockPlaceRight(k: pos, n: pos, block: pos, i: nat, c: nat)
    requires k % block == 0 && i < k && c < n
    ensures 1 <= k / block && 0 <= i / block && 0 <= k / block * c && i / block + k / block * c < k / block * n
    ensures At(k / block, i / block, c) == i / block + k / block * c
  {
    BlockInside(k, block, i);
    PlaceInside(k / block, n, i / block, c);
  }

  /** Row `row` of `A` times column `col` of `B`, term by term. */
  function Terms<W>(mul: (W, W) -> W, f: Factors<W>, row: nat, col: nat): (ts: seq<W>)
    requires |f.a| == f.m * f.k && |f.b| == f.k * f.n && row < f.m && col < f.n
    ensures |ts| == f.k
  {
    seq(f.k, i requires 0 <= i < f.k =>
      PlaceInside(f.m, f.k, row, i);
      PlaceInside(f.k, f.n, i, col);
      mul(f.a[row + f.m * i], f.b[i + f.k * col]))
  }

  /** `A.B + C` without scales: at each element the products of the row and the column, in order. */
  lemma PlainElement<T, W>(ops: Ops<T, W>, f: Factors<W>, c: seq<W>, row: nat, col: nat)
    requires Sized(f) && f.scales.None? && |c| == f.m * f.n && row < f.m && col < f.n
    ensures 0 <= f.m * col && row + f.m * col < |c|
    ensures Product(ops, f, c)[row + f.m * col]
         == Accumulate(ops.add, c[row + f.m * col], Terms(ops.mul, f, row, col))
  {
    var start := ProductAt(ops, f, c, row, col);
    var ts := Terms(ops.mul, f, row, col);
    PlainSum(ops, f, start, row, col, ts, f.k);
    assert ts[..f.k] == ts;
  }

  lemma ProductAt<T, W>(ops: Ops<T, W>, f: Factors<W>, c: seq<W>, row: nat, col: nat) returns (start: W)
    requires Sized(f) && |c| == f.m * f.n && row < f.m && col < f.n
    ensures 0 <= f.m * col && row + f.m * col < |c| && start == c[row + f.m * col]
    ensures Product(ops, f, c)[row + f.m * col] == Dot(ops, f, start, row, col, f.k)
  {
    PlaceInside(f.m, f.n, row, col);
    start := c[row + f.m * col];
    assert Product(ops, f, c)[At(f.m, row, col)] == Dot(ops, f, c[At(f.m, row, col)], row, col, f.k);
  }

  lemma {:induction false} PlainSum<T, W>(ops: Ops<T, W>, f: Factors<W>, start: W, row: nat, col: nat, ts: seq<W>,
      steps: nat)
    requires Sized(f) && f.scales.None? && row < f.m && col < f.n && steps <= f.k
    requires ts == Terms(ops.mul, f, row, col)
    ensures Dot(ops, f, start, row, col, steps) == Accumulate(ops.add, start, ts[..steps])
  {
    if steps > 0 {
      PlainSum(ops, f, start, row, col, ts, steps - 1);
      PlainTerm(ops.mul, f, row, col, steps - 1);
      assert ts[..steps][..steps - 1] == ts[..steps - 1] && ts[..steps][steps - 1] == ts[steps - 1];
    }
  }

  lemma PlainTerm<W>(mul: (W, W) -> W, f: Factors<W>, row: nat, col: nat, i: nat)
    requires Sized(f) && f.scales.None? && row < f.m && col < f.n && i < f.k
    ensures mul(LeftFactor(mul, f, row, i), RightFactor(mul, f, col, i)) == Terms(mul, f, row, col)[i]
  {
    PlaceInside(f.m, f.k, row, i);
    PlaceInside(f.k, f.n, i, col);
  }

  /** A scaled product is the unscaled product of operands scaled beforehand, element (r, i) of `A` by
      the scale of row r and block i / block, and (i, c) of `B` by that of the block and column c. */
  lemma ScaledIsPrescaled<T, W>(ops: Ops<T, W>, f: Factors<W>, g: Factors<W>, c: seq<W>)
    requires Sized(f) && f.scales.Some? && |c| == f.m * f.n && PrescaledBy(ops.mul, f, g, f.scales.value)
    ensures Product(ops, f, c) == Product(ops, g, c)
  {
    forall e | 0 <= e < f.m * f.n ensures Product(ops, f, c)[e] == Product(ops, g, c)[e] {
      ElementInside(f.m, f.n, e);
      var (row: nat, col: nat) := (e % f.m, e / f.m);
      ScaledDot(ops, f, g, c[e], row, col, f.k);
      assert Product(ops, f, c)[At(f.m, row, col)] == Dot(ops, f, c[At(f.m, row, col)], row, col, f.k);
      assert Product(ops, g, c)[At(f.m, row, col)] == Dot(ops, g, c[At(f.m, row, col)], row, col, f.k);
    }
  }

  /** `g` has no scales, and the operands of `f` with the scales multiplied in. */
  ghost predicate PrescaledBy<W>(mul: (W, W) -> W, f: Factors<W>, g: Factors<W>, s: Scales<W>) {
    && Sized(f) && Sized(g) && f.scales == Some(s) && g.scales.None? && g.m == f.m && g.n == f.n && g.k == f.k
    && (forall r: nat, i: nat :: r < f.m && i < f.k ==> LeftScaled(mul, f, g, s, r, i))
    && forall i: nat, c: nat :: i < f.k && c < f.n ==> RightScaled(mul, f, g, s, i, c)
  }

  ghost predicate LeftScaled<W>(mul: (W, W) -> W, f: Factors<W>, g: Factors<W>, s: Scales<W>, r: nat, i: nat) {
    var (p, q) := (r + f.m * i, r + f.m * (i / s.block));
    0 <= p < |f.a| && p < |g.a| && 0 <= q < |s.a| && g.a[p] == mul(f.a[p], s.a[q])
  }

  ghost predicate RightScaled<W>(mul: (W, W) -> W, f: Factors<W>, g: Factors<W>, s: Scales<W>, i: nat, c: nat) {
    var (p, q) := (i + f.k * c, i / s.block + f.k / s.block * c);
    0 <= p < |f.b| && p < |g.b| && 0 <= q < |s.b| && g.b[p] == mul(f.b[p], s.b[q])
  }

  /** There are such operands. */
  function Prescaled<W>(mul: (W, W) -> W, f: Factors<W>): (g: Factors<W>)
    requires |f.a| == f.m * f.k && |f.b| == f.k * f.n && f.scales.Some?
    requires var s := f.scales.value;
             f.k % s.block == 0 && |s.a| == f.m * (f.k / s.block) && |s.b| == f.k / s.block * f.n
  {
    var s := f.scales.value;
    var a := seq(f.m * f.k, e requires 0 <= e < f.m * f.k =>
      ElementInside(f.m, f.k, e);
      BlockPlace(f.m, f.k, s.block, e % f.m, e / f.m);
      mul(f.a[e], s.a[e % f.m + f.m * (e / f.m / s.block)]));
    var b := seq(f.k * f.n, e requires 0 <= e < f.k * f.n =>
      ElementInside(f.k, f.n, e);
      BlockPlaceRight(f.k, f.n, s.block, e % f.k, e / f.k);
      mul(f.b[e], s.b[e % f.k / s.block + f.k / s.block * (e / f.k)]));
    Factors(f.m, f.n, f.k, a, b, None)
  }

  lemma PrescaledIs<W>(mul: (W, W) -> W, f: Factors<W>)
    requires Sized(f) && f.scales.Some?
    ensures PrescaledBy(mul, f, Prescaled(mul, f), f.scales.value)
  {
    var (g, s) := (Prescaled(mul, f), f.scales.value);
    forall r: nat, i: nat | r < f.m && i < f.k ensures LeftScaled(mul, f, g, s, r, i) {
      PlaceInside(f.m, f.k, r, i);
      AtInside(f.m, r, i, f.k);
      BlockPlace(f.m, f.k, s.block, r, i);
    }
    forall i: nat, c: nat | i < f.k && c < f.n ensures RightScaled(mul, f, g, s, i, c) {
      PlaceInside(f.k, f.n, i, c);
      AtInside(f.k, i, c, f.n);
      BlockPlaceRight(f.k, f.n, s.block, i, c);
    }
  }

  lemma {:induction false} ScaledDot<T, W>(ops: Ops<T, W>, f: Factors<W>, g: Factors<W>, start: W, row: nat, col: nat,
      steps: nat)
    requires Sized(f) && f.scales.Some? && PrescaledBy(ops.mul, f, g, f.scales.value)
    requires row < f.m && col < f.n && steps <= f.k
    ensures Dot(ops, f, start, row, col, steps) == Dot(ops, g, start, row, col, steps)
  {
    if steps > 0 {
      ScaledDot(ops, f, g, start, row, col, steps - 1);
      LeftIsScaled(ops.mul, f, g, row, steps - 1);
      RightIsScaled(ops.mul, f, g, col, steps - 1);
    }
  }

  lemma LeftIsScaled<W>(mul: (W, W) -> W, f: Factors<W>, g: Factors<W>, row: nat, i: nat)
    requires Sized(f) && f.scales.Some? && PrescaledBy(mul, f, g, f.scales.value) && row < f.m && i < f.k
    ensures LeftFactor(mul, f, row, i) == LeftFactor(mul, g, row, i)
  {
    assert LeftScaled(mul, f, g, f.scales.value, row, i);
    PlaceInside(f.m, f.k, row, i);
    BlockPlace(f.m, f.k, f.scales.value.block, row, i);
  }

  lemma RightIsScaled<W>(mul: (W, W) -> W, f: Factors<W>, g: Factors<W>, col: nat, i: nat)
    requires Sized(f) && f.scales.Some? && PrescaledBy(mul, f, g, f.scales.value) && col < f.n && i < f.k
    ensures RightFactor(mul, f, col, i) == RightFactor(mul, g, col, i)
  {
    assert RightScaled(mul, f, g, f.scales.value, i, col);
    PlaceInside(f.k, f.n, i, col);
    BlockPlaceRight(f.k, f.n, f.scales.value.block, i, col);
  }

  /** So a scaled element is the sum of the terms of the scaled operands. */
  lemma ScaledElement<T, W>(ops: Ops<T, W>, f: Factors<W>, g: Factors<W>, c: seq<W>, row: nat, col: nat)
    returns (at: nat)
    requires Sized(f) && f.scales.Some? && |c| == f.m * f.n && row < f.m && col < f.n && g == Prescaled(ops.mul, f)
    ensures Sized(g) && at == row + f.m * col && at < |c|
    ensures Product(ops, f, c)[at] == Accumulate(ops.add, c[at], Terms(ops.mul, g, row, col))
  {
    PrescaledIs(ops.mul, f);
    ScaledIsPrescaled(ops, f, g, c);
    at := PlainAt(ops, g, c, row, col);
  }

  lemma PlainAt<T, W>(ops: Ops<T, W>, g: Factors<W>, c: seq<W>, row: nat, col: nat) returns (at: nat)
    requires Sized(g) && g.scales.None? && |c| == g.m * g.n && row < g.m && col < g.n
    ensures at == row + g.m * col && at < |c|
    ensures Product(ops, g, c)[at] == Accumulate(ops.add, c[at], Terms(ops.mul, g, row, col))
  {
    PlainElement(ops, g, c, row, col);
    at := row + g.m * col;
  }

  /** Three times five with scales 2 and 1 is thirty. */
  lemma ScalesCount<T>(ops: Ops<T, int>, f: Factors<int>)
    requires forall x: int, y: int :: ops.add(x, y) == x + y && ops.mul(x, y) == x * y
    requires f == Factors(1, 1, 1, [3], [5], Some(Scales(1, [2], [1])))
    ensures Sized(f) && Product(ops, f, [0]) == [30]
  {
    var g := Factors(1, 1, 1, [6], [5], None);
    OnePrescaled(ops.mul, f, g);
    ScaledIsPrescaled(ops, f, g, [0]);
    PlainElement(ops, g, [0], 0, 0);
    assert Terms(ops.mul, g, 0, 0) == [30] && [30][..0] == [];
  }

  lemma OnePrescaled(mul: (int, int) -> int, f: Factors<int>, g: Factors<int>)
    requires forall x: int, y: int :: mul(x, y) == x * y
    requires f == Factors(1, 1, 1, [3], [5], Some(Scales(1, [2], [1]))) && g == Factors(1, 1, 1, [6], [5], None)
    ensures PrescaledBy(mul, f, g, f.scales.value)
  {
    assert LeftScaled(mul, f, g, f.scales.value, 0, 0) && RightScaled(mul, f, g, f.scales.value, 0, 0);
  }

  // ---- the expanded operand

  /** Of the four places of a group the second nibble half names the one that keeps the second value,
      the first half the one that keeps the first, and the others are zero. */
  lemma ExpandedPlace<W>(m: pos, k: pos, ca: seq<W>, meta: seq<int>, zero: W, r: nat, q: nat, o: nat)
    requires Sparse(m, k, |ca|, |meta|) && r < m && q < k / 4 && o < 4
    ensures 0 <= m * q && r + m * q < |meta| && 0 <= m * (2 * q) && r + m * (2 * q) < |ca|
    ensures 0 <= m * (2 * q + 1) && r + m * (2 * q + 1) < |ca| && 0 <= m * (4 * q + o)
    ensures r + m * (4 * q + o) < |Dense(m, k, ca, meta, zero)|
    ensures var bits := meta[r + m * q] % 16;
            Dense(m, k, ca, meta, zero)[r + m * (4 * q + o)] ==
              if o == bits / 4 then ca[r + m * (2 * q + 1)] else if o == bits % 4 then ca[r + m * (2 * q)] else zero
  {
    PlaceInside(m, k / 4, r, q);
    PlaceInside(m, k / 2, r, 2 * q);
    PlaceInside(m, k / 2, r, 2 * q + 1);
    PlaceInside(m, k, r, 4 * q + o);
    AtInside(m, r, 4 * q + o, k);
    assert (4 * q + o) / 4 == q && (4 * q + o) % 4 == o;
  }

  // ---- what a lane holds in the end

  /** Slots `p` of the fragments of the subgroup at `g` hold row `row` of `A`, column `col` of `B`. */
  ghost predicate HoldRow(f: Fragment, p: seq<nat>, m: nat, row: nat, k: nat) {
    |p| == k && forall i :: 0 <= i < k ==> p[i] < |f.ids| && f.ids[p[i]] == row + m * i
  }

  ghost predicate HoldColumn(f: Fragment, q: seq<nat>, col: nat, k: nat) {
    |q| == k && forall i :: 0 <= i < k ==> q[i] < |f.ids| && f.ids[q[i]] == i + k * col
  }

  lemma SlotValue<T(!new), W>(f: Fragment, slice: seq<T>, size: nat, widen: T -> W, x: nat)
    requires |slice| == |f.ids| && (forall id :: 0 <= id < size ==> id in f.ids) && Agree(f, slice)
    requires x < |f.ids| && f.ids[x] < size
    ensures Logical(f, slice, size, widen)[f.ids[x]] == widen(slice[x])
  {
    var y := SlotOf(f.ids, f.ids[x]);
    if y < x { assert slice[y] == slice[x]; } else if x < y { assert slice[x] == slice[y]; }
  }

  /** The products along the row and the column, from the values the slots hold. */
  function LaneTerms<T, W>(ops: Ops<T, W>, a: seq<T>, b: seq<T>, p: seq<nat>, q: seq<nat>): (ts: seq<W>)
    requires |p| == |q| && (forall i :: 0 <= i < |p| ==> p[i] < |a|) && forall i :: 0 <= i < |q| ==> q[i] < |b|
  {
    seq(|p|, i requires 0 <= i < |p| => ops.mul(ops.widen(a[p[i]]), ops.widen(b[q[i]])))
  }

  /** The values the lanes of the subgroup at `g` hold. */
  ghost predicate Own<T>(sh: seq<T>, f: Fragment, g: nat, part: seq<T>) {
    0 <= g * f.vals && g * f.vals + |f.ids| <= |sh| && part == sh[g * f.vals..g * f.vals + |f.ids|]
  }

  /** `f` is what the id tables make of the values `a` and `b` that the lanes hold. */
  ghost predicate Gathered<T(!new), W>(atom: Atom, widen: T -> W, f: Factors<W>, a: seq<T>, b: seq<T>) {
    && f.m == atom.m && f.n == atom.n && f.k == atom.k && Sized(f) && f.scales.None?
    && Shows(atom.a, a, widen, f.a, f.m * f.k) && Shows(atom.b, b, widen, f.b, f.k * f.n)
  }

  ghost predicate Shows<T(!new), W>(f: Fragment, slice: seq<T>, widen: T -> W, matrix: seq<W>, size: nat) {
    && |slice| == |f.ids| && Agree(f, slice) && (forall id :: 0 <= id < size ==> id in f.ids)
    && matrix == Logical(f, slice, size, widen)
  }

  lemma TermsOfSlots<T(!new), W>(atom: Atom, ops: Ops<T, W>, f: Factors<W>, a: seq<T>, b: seq<T>, row: nat, col: nat,
      p: seq<nat>, q: seq<nat>)
    requires Gathered(atom, ops.widen, f, a, b) && row < f.m && col < f.n
    requires HoldRow(atom.a, p, f.m, row, f.k) && HoldColumn(atom.b, q, col, f.k)
    ensures LaneTerms(ops, a, b, p, q) == Terms(ops.mul, f, row, col)
  {
    forall i: nat | i < f.k ensures LaneTerms(ops, a, b, p, q)[i] == Terms(ops.mul, f, row, col)[i] {
      PlaceInside(f.m, f.k, row, i);
      PlaceInside(f.k, f.n, i, col);
      SlotValue(atom.a, a, f.m * f.k, ops.widen, p[i]);
      SlotValue(atom.b, b, f.k * f.n, ops.widen, q[i]);
    }
  }

  lemma ProductElement<T(!new), W>(atom: Atom, ops: Ops<T, W>, f: Factors<W>, a: seq<T>, b: seq<T>, c: seq<T>,
      m: seq<W>, slot: nat, row: nat, col: nat, p: seq<nat>, q: seq<nat>)
    returns (e: W)
    requires Gathered(atom, ops.widen, f, a, b) && Shows(atom.d, c, ops.widen, m, f.m * f.n)
    requires row < f.m && col < f.n && HoldRow(atom.a, p, f.m, row, f.k) && HoldColumn(atom.b, q, col, f.k)
    requires slot < |atom.d.ids| && atom.d.ids[slot] == row + f.m * col < f.m * f.n
    ensures |m| == f.m * f.n && e == Product(ops, f, m)[atom.d.ids[slot]]
    ensures e == Accumulate(ops.add, ops.widen(c[slot]), LaneTerms(ops, a, b, p, q))
  {
    TermsOfSlots(atom, ops, f, a, b, row, col, p, q);
    SlotValue(atom.d, c, f.m * f.n, ops.widen, slot);
    var at := PlainAt(ops, f, m, row, col);
    e := Product(ops, f, m)[at];
  }

  lemma SubgroupParts<T(!new), W>(atom: Atom, ops: Ops<T, W>, threads: nat, x: Inputs<T>, g: nat)
    returns (a: seq<T>, b: seq<T>, c: seq<T>, f: Factors<W>, m: seq<W>)
    requires Loaded(atom, threads, x, g) && atom.meta.None? && atom.scaling.None?
    ensures Own(x.a, atom.a, g, a) && Own(x.b, atom.b, g, b) && Own(x.c, atom.d, g, c)
    ensures Gathered(atom, ops.widen, f, a, b) && Shows(atom.d, c, ops.widen, m, f.m * f.n)
    ensures |m| == f.m * f.n && ResultOf(atom, ops, threads, x, g) == Product(ops, f, m)
  {
    a, b, c := Slice(x.a, atom.a, g), Slice(x.b, atom.b, g), Slice(x.c, atom.d, g);
    f := FactorsOf(atom, ops, threads, x, g);
    m := Logical(atom.d, c, atom.m * atom.n, ops.widen);
  }

  lemma DeliveredAt<T(!new), W>(atom: Atom, ops: Ops<T, W>, threads: nat, x: Inputs<T>, sd: seq<T>, g: nat)
    returns (d: seq<W>)
    requires Delivered(atom, ops, threads, x, sd, threads) && g % atom.lanes == 0 && g < threads
    ensures Loaded(atom, threads, x, g) && d == ResultOf(atom, ops, threads, x, g) &&
            Holds(atom.d, ops.narrow, d, sd, g)
  {
    d := ResultOf(atom, ops, threads, x, g);
  }

  lemma HeldAs<T, W>(f: Fragment, narrow: W -> T, d: seq<W>, sd: seq<T>, g: nat, slot: nat, e: W)
    returns (at: nat)
    requires Holds(f, narrow, d, sd, g) && slot < |f.ids| && f.ids[slot] < |d| && e == d[f.ids[slot]]
    ensures at == g * f.vals + slot && at < |sd| && sd[at] == narrow(e)
  {
    at := g * f.vals + slot;
  }

  /** Every lane of every subgroup ends with its element of `A.B + C`, from the values the lanes of its
      own subgroup held: for each slot of `D`, and whichever slots of `A` and `B` hold the row and the
      column, the narrowed sum of the widened products in order, from the slot's own `C`. */
  lemma LaneElement<T(!new), W>(atom: Atom, ops: Ops<T, W>, threads: nat, x: Inputs<T>, sd: seq<T>, g: nat, slot: nat,
      row: nat, col: nat, p: seq<nat>, q: seq<nat>)
    returns (a: seq<T>, b: seq<T>, c: seq<T>, e: W, at: nat)
    requires Delivered(atom, ops, threads, x, sd, threads) && g % atom.lanes == 0 && g < threads
    requires atom.meta.None? && atom.scaling.None? && row < atom.m && col < atom.n
    requires slot < |atom.d.ids| && atom.d.ids[slot] == row + atom.m * col < atom.m * atom.n
    requires HoldRow(atom.a, p, atom.m, row, atom.k) && HoldColumn(atom.b, q, col, atom.k)
    ensures Own(x.a, atom.a, g, a) && Own(x.b, atom.b, g, b) && Own(x.c, atom.d, g, c) && |p| == |q|
    ensures at == g * atom.d.vals + slot && at < |sd|
    ensures e == Accumulate(ops.add, ops.widen(c[slot]), LaneTerms(ops, a, b, p, q))
    ensures sd[at] == ops.narrow(e)
  {
    var d := DeliveredAt(atom, ops, threads, x, sd, g);
    a, b, c, e, at := HeldElement(atom, ops, threads, x, sd, d, g, slot, row, col, p, q);
  }

  lemma HeldElement<T(!new), W>(atom: Atom, ops: Ops<T, W>, threads: nat, x: Inputs<T>, sd: seq<T>, d: seq<W>, g: nat,
      slot: nat, row: nat, col: nat, p: seq<nat>, q: seq<nat>)
    returns (a: seq<T>, b: seq<T>, c: seq<T>, e: W, at: nat)
    requires Loaded(atom, threads, x, g) && d == ResultOf(atom, ops, threads, x, g) &&
             Holds(atom.d, ops.narrow, d, sd, g)
    requires atom.meta.None? && atom.scaling.None? && row < atom.m && col < atom.n
    requires slot < |atom.d.ids| && atom.d.ids[slot] == row + atom.m * col < atom.m * atom.n
    requires HoldRow(atom.a, p, atom.m, row, atom.k) && HoldColumn(atom.b, q, col, atom.k)
    ensures Own(x.a, atom.a, g, a) && Own(x.b, atom.b, g, b) && Own(x.c, atom.d, g, c) && |p| == |q|
    ensures at == g * atom.d.vals + slot && at < |sd|
    ensures e == Accumulate(ops.add, ops.widen(c[slot]), LaneTerms(ops, a, b, p, q))
    ensures sd[at] == ops.narrow(e)
  {
    var f, m;
    a, b, c, f, m := SubgroupParts(atom, ops, threads, x, g);
    e := ProductElement(atom, ops, f, a, b, c, m, slot, row, col, p, q);
    at := HeldAs(atom.d, ops.narrow, d, sd, g, slot, e);
  }
}
