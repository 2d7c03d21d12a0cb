/** The matrix-multiply construct as the serial code runs it: subgroup after subgroup, the lanes'
    fragments gathered into logical matrices through id tables, multiplied, and scattered back.
    Matrices are column-major; an element type and the wider type sums are taken in are abstract. */
module MatrixMultiply {
  import opened Wrappers
  import opened Arith

  datatype Ops<!T, !W> = Ops(widen: T -> W, narrow: W -> T, add: (W, W) -> W, mul: (W, W) -> W, zero: W)

  /** How many values of an operand a lane holds, and the logical id of every (lane, value) slot. */
  datatype Fragment = Fragment(vals: nat, ids: seq<nat>)

  datatype Scaling = Scaling(block: pos, a: Fragment, b: Fragment)

  datatype Atom = Atom(m: pos, n: pos, k: pos, lanes: pos, a: Fragment, b: Fragment, d: Fragment,
      meta: Option<Fragment>, scaling: Option<Scaling>)

  /** Every id of a matrix of `size` elements has a slot, and every slot an id. */
  ghost predicate Covers(f: Fragment, lanes: nat, size: nat) {
    && |f.ids| == lanes * f.vals
    && (forall x :: 0 <= x < |f.ids| ==> f.ids[x] < size)
    && forall id :: 0 <= id < size ==> id in f.ids
  }

  /** Slots of one id hold one value: always so where the table has no repeats, and asked of the
      lanes that share an element of a broadcast operand. */
  ghost predicate Agree<T(!new)>(f: Fragment, slice: seq<T>)
    requires |slice| == |f.ids|
  {
    forall x, y :: 0 <= x < y < |f.ids| && f.ids[x] == f.ids[y] ==> slice[x] == slice[y]
  }

  function SlotOf(ids: seq<nat>, id: nat): (x: nat)
    requires id in ids
    ensures x < |ids| && ids[x] == id
  {
    if ids[0] == id then 0 else 1 + SlotOf(ids[1..], id)
  }

  /** The logical matrix the lanes of a subgroup hold in `slice`. */
  ghost function Logical<T, W>(f: Fragment, slice: seq<T>, size: nat, widen: T -> W): (r: seq<W>)
    requires |slice| == |f.ids| && forall id :: 0 <= id < size ==> id in f.ids
    ensures |r| == size && forall id :: 0 <= id < size ==> r[id] == widen(slice[SlotOf(f.ids, id)])
  {
    seq(size, id requires 0 <= id < size => widen(slice[SlotOf(f.ids, id)]))
  }

  // ---- indices

  /** Element (row, col) of a matrix of `m` rows, and (lane, value) of a fragment of `m` values. */
  function At(m: nat, row: nat, col: nat): nat {
    MulMono(0, col, m);
    col * m + row
  }

  lemma AtInside(m: nat, row: nat, col: nat, cols: nat)
    requires row < m && col < cols
    ensures At(m, row, col) < m * cols && At(m, row, col) / m == col && At(m, row, col) % m == row
  {
    MulMono(col + 1, cols, m);
    MulDistrib(col, 1, m);
    DivModUnique(At(m, row, col), m, col, row);
  }

  lemma AtNext(m: nat, col: nat)
    ensures At(m, 0, col + 1) == At(m, m, col) && At(m, 0, 0) == 0
  {
    MulDistrib(col, 1, m);
    MulZero(0, m);
  }

  // ---- gathering

  lemma LaneSlot(vals: nat, g: nat, l: nat, v: nat, lanes: nat)
    requires l < lanes && v < vals
    ensures At(vals, v, g + l) == At(vals, 0, g) + At(vals, v, l) && At(vals, v, l) < lanes * vals
  {
    MulDistrib(g, l, vals);
    AtInside(vals, v, l, lanes);
  }

  ghost predicate Placed<T, W>(ids: seq<nat>, slice: seq<T>, widen: T -> W, out: seq<W>, upTo: nat)
    requires upTo <= |ids| == |slice|
  {
    forall x :: 0 <= x < upTo ==> ids[x] < |out| && out[ids[x]] == widen(slice[x])
  }

  /** Fill a logical matrix from the fragments of the lanes from `g` on. */
  method Gather<T(!new), W(0)>(f: Fragment, lanes: pos, size: nat, sh: seq<T>, g: nat, widen: T -> W)
      returns (out: array<W>)
    requires Covers(f, lanes, size) && At(f.vals, 0, g) + |f.ids| <= |sh|
    requires Agree(f, sh[At(f.vals, 0, g)..At(f.vals, 0, g) + |f.ids|])
    ensures fresh(out) && out[..] == Logical(f, sh[At(f.vals, 0, g)..At(f.vals, 0, g) + |f.ids|], size, widen)
  {
    out := new W[size];
    ghost var slice := sh[At(f.vals, 0, g)..At(f.vals, 0, g) + |f.ids|];
    AtNext(f.vals, 0);
    for l := 0 to lanes
      invariant At(f.vals, 0, l) <= |f.ids| && Placed(f.ids, slice, widen, out[..], At(f.vals, 0, l))
    {
      for v := 0 to f.vals
        invariant At(f.vals, v, l) <= |f.ids| && Placed(f.ids, slice, widen, out[..], At(f.vals, v, l))
      {
        LaneSlot(f.vals, g, l, v, lanes);
        var x := At(f.vals, v, l);
        assert slice[x] == sh[At(f.vals, v, g + l)];
        out[f.ids[x]] := widen(sh[At(f.vals, v, g + l)]);
      }
      AtNext(f.vals, l);
    }
    assert At(f.vals, 0, lanes) == |f.ids|;
    forall id | 0 <= id < size ensures out[id] == widen(slice[SlotOf(f.ids, id)]) {
      assert f.ids[SlotOf(f.ids, id)] == id;
    }
  }

  // ---- 2:4 sparsity

  /** The metadata nibble of group `q` of row `r` of an `m`-row operand. */
  function Nibble(meta: seq<int>, m: pos, r: nat, q: nat): nat
    requires At(m, r, q) < |meta|
  {
    meta[At(m, r, q)] % 16
  }

  /** Element (r, c) of the dense matrix a compressed one stands for: group `c / 4` keeps two values
      at the places the metadata names, the later of them winning a clash. */
  function DenseAt<W>(m: pos, ca: seq<W>, meta: seq<int>, zero: W, r: nat, c: nat): W
    requires r < m && At(m, r, c / 4) < |meta| && At(m, r, 2 * (c / 4) + 1) < |ca|
  {
    var nib := Nibble(meta, m, r, c / 4);
    AtNext(m, 2 * (c / 4));
    if c % 4 == nib / 4 then ca[At(m, r, 2 * (c / 4) + 1)]
    else if c % 4 == nib % 4 then ca[At(m, r, 2 * (c / 4))]
    else zero
  }

  ghost predicate Sparse(m: pos, k: pos, ca: nat, meta: nat) {
    k % 4 == 0 && ca == m * (k / 2) && meta == m * (k / 4)
  }

  lemma SparseInside(m: pos, k: pos, r: nat, c: nat)
    requires k % 4 == 0 && r < m && c < k
    ensures At(m, r, c / 4) < m * (k / 4) && At(m, r, 2 * (c / 4) + 1) < m * (k / 2) &&
            At(m, r, 2 * (c / 4)) < m * (k / 2)
  {
    AtInside(m, r, c / 4, k / 4);
    AtInside(m, r, 2 * (c / 4) + 1, k / 2);
    AtInside(m, r, 2 * (c / 4), k / 2);
  }

  ghost function Dense<W>(m: pos, k: pos, ca: seq<W>, meta: seq<int>, zero: W): (r: seq<W>)
    requires Sparse(m, k, |ca|, |meta|)
    ensures |r| == m * k
  {
    MulPos(m, k);
    seq(m * k, e requires 0 <= e < m * k =>
      ElementInside(m, k, e);
      SparseInside(m, k, e % m, e / m);
      DenseAt(m, ca, meta, zero, e % m, e / m))
  }

  lemma ElementInside(m: pos, cols: nat, e: nat)
    requires e < m * cols
    ensures 0 <= e / m < cols && e % m < m && At(m, e % m, e / m) == e
  {
    DivMod(e, m);
    DivNonneg(e, m);
    DivBound(e, m, cols);
  }

  /** The group and the row an element belongs to have been expanded. */
  predicate Expanded(m: pos, e: nat, q: nat, r: nat) { e / m / 4 < q || (e / m / 4 == q && e % m < r) }

  ghost predicate ExpandedSoFar<W>(m: pos, k: pos, ca: seq<W>, meta: seq<int>, zero: W, mx: seq<W>, q: nat, r: nat)
    requires Sparse(m, k, |ca|, |meta|)
  {
    |mx| == m * k && forall e :: 0 <= e < m * k ==>
        mx[e] == if Expanded(m, e, q, r) then Dense(m, k, ca, meta, zero)[e] else zero
  }

  /** Writing the two values of one group of one row. */
  lemma ExpandGroup<W>(m: pos, k: pos, ca: seq<W>, meta: seq<int>, zero: W, mx: seq<W>, mx': seq<W>, q: nat, r: nat)
    requires Sparse(m, k, |ca|, |meta|) && q < k / 4 && r < m && ExpandedSoFar(m, k, ca, meta, zero, mx, q, r)
    requires At(m, r, q) < |meta| && At(m, r, 2 * q) < |ca| && At(m, r, 2 * q + 1) < |ca|
    requires var nib := Nibble(meta, m, r, q);
             var (x, y) := (At(m, r, 4 * q + nib % 4), At(m, r, 4 * q + nib / 4));
             x < |mx| && y < |mx| && mx' == mx[x := ca[At(m, r, 2 * q)]][y := ca[At(m, r, 2 * q + 1)]]
    ensures ExpandedSoFar(m, k, ca, meta, zero, mx', q, r + 1)
  {
    var nib := Nibble(meta, m, r, q);
    var (x, y) := (At(m, r, 4 * q + nib % 4), At(m, r, 4 * q + nib / 4));
    AtInside(m, r, 4 * q + nib % 4, k);
    AtInside(m, r, 4 * q + nib / 4, k);
    forall e | 0 <= e < m * k ensures mx'[e] ==
        if Expanded(m, e, q, r + 1) then Dense(m, k, ca, meta, zero)[e] else zero {
      ElementInside(m, k, e);
      SparseInside(m, k, e % m, e / m);
      if e % m == r && e / m / 4 == q {
        assert e / m == 4 * q + e / m % 4;
        assert e == x <==> e / m % 4 == nib % 4;
        assert e == y <==> e / m % 4 == nib / 4;
      }
    }
  }

  lemma NextGroupOfRows(m: pos, e: nat, q: nat)
    ensures Expanded(m, e, q, m) <==> Expanded(m, e, q + 1, 0)
  {
    DivMod(e, m);
    DivNonneg(e, m);
  }

  method ExpandSparse<W(0)>(m: pos, k: pos, ca: array<W>, meta: seq<int>, zero: W) returns (mx: array<W>)
    requires Sparse(m, k, ca.Length, |meta|)
    ensures fresh(mx) && mx[..] == Dense(m, k, ca[..], meta, zero)
  {
    MulPos(m, k);
    mx := new W[m * k];
    for i := 0 to m * k
      invariant forall e :: 0 <= e < i ==> mx[e] == zero
    {
      mx[i] := zero;
    }
    assert ExpandedSoFar(m, k, ca[..], meta, zero, mx[..], 0, 0) by {
      forall e | 0 <= e < m * k ensures !Expanded(m, e, 0, 0) { DivNonneg(e, m); }
    }
    for q := 0 to k / 4
      invariant ExpandedSoFar(m, k, ca[..], meta, zero, mx[..], q, 0)
    {
      for r := 0 to m
        invariant ExpandedSoFar(m, k, ca[..], meta, zero, mx[..], q, r)
      {
        SparseInside(m, k, r, 4 * q);
        var nib := Nibble(meta, m, r, q);
        AtInside(m, r, 4 * q + nib % 4, k);
        AtInside(m, r, 4 * q + nib / 4, k);
        ghost var before := mx[..];
        mx[At(m, r, 4 * q + nib % 4)] := ca[At(m, r, 2 * q)];
        mx[At(m, r, 4 * q + nib / 4)] := ca[At(m, r, 2 * q + 1)];
        ExpandGroup(m, k, ca[..], meta, zero, before, mx[..], q, r);
      }
      forall e | 0 <= e < m * k ensures Expanded(m, e, q, m) == Expanded(m, e, q + 1, 0) { NextGroupOfRows(m, e, q); }
    }
    forall e | 0 <= e < m * k ensures Expanded(m, e, k / 4, 0) { ElementInside(m, k, e); }
    assert mx[..] == Dense(m, k, ca[..], meta, zero);
  }

  // ---- the product

  datatype Scales<W> = Scales(block: pos, a: seq<W>, b: seq<W>)

  datatype Factors<W> = Factors(m: pos, n: pos, k: pos, a: seq<W>, b: seq<W>, scales: Option<Scales<W>>)

  ghost predicate ScalesFit<W>(m: pos, n: pos, k: pos, s: Scales<W>) {
    k % s.block == 0 && |s.a| == m * (k / s.block) && |s.b| == k / s.block * n
  }

  ghost predicate Sized<W>(f: Factors<W>) {
    && |f.a| == f.m * f.k && |f.b| == f.k * f.n
    && (f.scales.Some? ==> ScalesFit(f.m, f.n, f.k, f.scales.value))
  }

  /** The factors of step `i` of element (row, col), each with the scale of its block of `k`. */
  function LeftFactor<W>(mul: (W, W) -> W, f: Factors<W>, row: nat, i: nat): W
    requires Sized(f) && row < f.m && i < f.k
  {
    AtInside(f.m, row, i, f.k);
    if f.scales.None? then f.a[At(f.m, row, i)]
    else
      BlockInside(f.k, f.scales.value.block, i);
      AtInside(f.m, row, i / f.scales.value.block, f.k / f.scales.value.block);
      mul(f.a[At(f.m, row, i)], f.scales.value.a[At(f.m, row, i / f.scales.value.block)])
  }

  function RightFactor<W>(mul: (W, W) -> W, f: Factors<W>, col: nat, i: nat): W
    requires Sized(f) && col < f.n && i < f.k
  {
    AtInside(f.k, i, col, f.n);
    if f.scales.None? then f.b[At(f.k, i, col)]
    else
      BlockInside(f.k, f.scales.value.block, i);
      AtInside(f.k / f.scales.value.block, i / f.scales.value.block, col, f.n);
      mul(f.b[At(f.k, i, col)], f.scales.value.b[At(f.k / f.scales.value.block, i / f.scales.value.block, col)])
  }

  lemma BlockInside(k: pos, block: pos, i: nat)
    requires k % block == 0 && i < k
    ensures 0 <= i / block < k / block
  {
    DivNonneg(i, block);
    DivExact(k, block);
    DivBound(i, block, k / block);
  }

  /** The sum from `start` over the first `steps` steps, in ascending order. */
  function Dot<T, W>(ops: Ops<T, W>, f: Factors<W>, start: W, row: nat, col: nat, steps: nat): W
    requires Sized(f) && row < f.m && col < f.n && steps <= f.k
  {
    if steps == 0 then start
    else ops.add(Dot(ops, f, start, row, col, steps - 1),
        ops.mul(LeftFactor(ops.mul, f, row, steps - 1), RightFactor(ops.mul, f, col, steps - 1)))
  }

  /** `A.B + C`, element by element. */
  ghost function Product<T, W>(ops: Ops<T, W>, f: Factors<W>, c: seq<W>): (d: seq<W>)
    requires Sized(f) && |c| == f.m * f.n
    ensures |d| == f.m * f.n
    ensures forall row: nat, col: nat :: row < f.m && col < f.n ==>
              At(f.m, row, col) < |d| && d[At(f.m, row, col)] == Dot(ops, f, c[At(f.m, row, col)], row, col, f.k)
  {
    var d := seq(f.m * f.n, e requires 0 <= e < f.m * f.n =>
      ElementInside(f.m, f.n, e); Dot(ops, f, c[e], e % f.m, e / f.m, f.k));
    assert forall row: nat, col: nat :: row < f.m && col < f.n ==>
             At(f.m, row, col) < |d| && d[At(f.m, row, col)] == Dot(ops, f, c[At(f.m, row, col)], row, col, f.k) by {
      forall row: nat, col: nat | row < f.m && col < f.n
        ensures At(f.m, row, col) < |d| && d[At(f.m, row, col)] == Dot(ops, f, c[At(f.m, row, col)], row, col, f.k)
      {
        AtInside(f.m, row, col, f.n);
      }
    }
    d
  }

  method Element<T, W>(ops: Ops<T, W>, f: Factors<W>, start: W, row: nat, col: nat) returns (s: W)
    requires Sized(f) && row < f.m && col < f.n
    ensures s == Dot(ops, f, start, row, col, f.k)
  {
    s := start;
    for i := 0 to f.k
      invariant s == Dot(ops, f, start, row, col, i)
    {
      s := ops.add(s, ops.mul(LeftFactor(ops.mul, f, row, i), RightFactor(ops.mul, f, col, i)));
    }
  }

  /** The elements before `e` are done. */
  ghost predicate DoneTo<W>(md: seq<W>, want: seq<W>, e: nat) {
    e <= |md| == |want| && forall x :: 0 <= x < e ==> md[x] == want[x]
  }

  method Column<T, W>(ops: Ops<T, W>, f: Factors<W>, c: array<W>, md: array<W>, col: nat, ghost want: seq<W>)
    requires Sized(f) && c.Length == f.m * f.n && c != md && col < f.n && want == Product(ops, f, c[..])
    requires DoneTo(md[..], want, At(f.m, 0, col))
    modifies md
    ensures DoneTo(md[..], want, At(f.m, 0, col + 1))
  {
    for row := 0 to f.m
      invariant DoneTo(md[..], want, At(f.m, row, col))
    {
      AtInside(f.m, row, col, f.n);
      var e := At(f.m, row, col);
      var s := Element(ops, f, c[e], row, col);
      assert s == want[e];
      md[e] := s;
    }
    AtNext(f.m, col);
  }

  method Multiply<T, W(0)>(ops: Ops<T, W>, f: Factors<W>, c: array<W>) returns (md: array<W>)
    requires Sized(f) && c.Length == f.m * f.n
    ensures fresh(md) && md[..] == Product(ops, f, c[..])
  {
    md := new W[c.Length];
    ghost var want := Product(ops, f, c[..]);
    AtNext(f.m, 0);
    for col := 0 to f.n
      invariant c[..] == old(c[..]) && DoneTo(md[..], want, At(f.m, 0, col))
    {
      Column(ops, f, c, md, col, want);
    }
    AllDone(md[..], want, f.m, f.n);
  }

  lemma AllDone<W>(md: seq<W>, want: seq<W>, m: pos, n: pos)
    requires DoneTo(md, want, At(m, 0, n)) && |md| == m * n
    ensures md == want
  {
    assert At(m, 0, n) == |md|;
  }

  // ---- what sparsity means

  /** What stands at place `o` of a group that keeps `k0` at `i0` and `k1` at `i1`. */
  function Kept<W>(o: nat, i0: nat, i1: nat, k0: W, k1: W, zero: W): W {
    if o == i1 then k1 else if o == i0 then k0 else zero
  }

  function Pick<W>(i: nat, b0: W, b1: W, b2: W, b3: W): W {
    if i == 0 then b0 else if i == 1 then b1 else if i == 2 then b2 else b3
  }

  /** The four steps of a group against its dense row add what the two steps of the compressed row
      add, in the same order, where the metadata puts the first value before the second and a zero
      factor adds nothing. */
  lemma GroupSum<T, W(!new)>(ops: Ops<T, W>, s: W, s1: W, s2: W, s3: W, s4: W, k0: W, k1: W, i0: nat, i1: nat,
      b0: W, b1: W, b2: W, b3: W)
    requires i0 < i1 < 4 && ZeroAddsNothing(ops)
    requires s1 == ops.add(s, ops.mul(Kept(0, i0, i1, k0, k1, ops.zero), b0))
    requires s2 == ops.add(s1, ops.mul(Kept(1, i0, i1, k0, k1, ops.zero), b1))
    requires s3 == ops.add(s2, ops.mul(Kept(2, i0, i1, k0, k1, ops.zero), b2))
    requires s4 == ops.add(s3, ops.mul(Kept(3, i0, i1, k0, k1, ops.zero), b3))
    ensures s4 == ops.add(ops.add(s, ops.mul(k0, Pick(i0, b0, b1, b2, b3))), ops.mul(k1, Pick(i1, b0, b1, b2, b3)))
  {
  }

  ghost predicate ZeroAddsNothing<T, W(!new)>(ops: Ops<T, W>) {
    forall x: W, y: W :: ops.add(x, ops.mul(ops.zero, y)) == x
  }

  /** The metadata of a group names two places in ascending order. */
  predicate Ascending(m: pos, meta: seq<int>, row: nat, q: nat) {
    At(m, row, q) < |meta| && Nibble(meta, m, row, q) % 4 < Nibble(meta, m, row, q) / 4
  }

  lemma KeptInside(m: pos, n: pos, k: pos, row: nat, col: nat, q: nat, o: nat)
    requires k % 4 == 0 && row < m && col < n && q < k / 4 && o < 4
    ensures At(m, row, q) < m * (k / 4) && At(m, row, 2 * q) < m * (k / 2) && At(m, row, 2 * q + 1) < m * (k / 2)
    ensures At(k, 4 * q + o, col) < k * n
  {
    AtInside(m, row, q, k / 4);
    AtInside(m, row, 2 * q, k / 2);
    AtInside(m, row, 2 * q + 1, k / 2);
    AtInside(k, 4 * q + o, col, n);
  }

  /** `s` and the two kept products of group `q`. */
  function KeptGroup<T, W>(ops: Ops<T, W>, m: pos, n: pos, k: pos, ca: seq<W>, meta: seq<int>, b: seq<W>, s: W,
      row: nat, col: nat, q: nat): W
    requires Sparse(m, k, |ca|, |meta|) && |b| == k * n && row < m && col < n && q < k / 4
  {
    KeptInside(m, n, k, row, col, q, 0);
    var nib := Nibble(meta, m, row, q);
    KeptInside(m, n, k, row, col, q, nib % 4);
    KeptInside(m, n, k, row, col, q, nib / 4);
    ops.add(ops.add(s, ops.mul(ca[At(m, row, 2 * q)], b[At(k, 4 * q + nib % 4, col)])),
            ops.mul(ca[At(m, row, 2 * q + 1)], b[At(k, 4 * q + nib / 4, col)]))
  }

  /** The sum over the compressed operand: the two kept values of each of the first `groups` groups. */
  function SparseDot<T, W>(ops: Ops<T, W>, m: pos, n: pos, k: pos, ca: seq<W>, meta: seq<int>, b: seq<W>, start: W,
      row: nat, col: nat, groups: nat): W
    requires Sparse(m, k, |ca|, |meta|) && |b| == k * n && row < m && col < n && groups <= k / 4
    decreases groups
  {
    if groups == 0 then start
    else KeptGroup(ops, m, n, k, ca, meta, b, SparseDot(ops, m, n, k, ca, meta, b, start, row, col, groups - 1), row,
        col, groups - 1)
  }

  /** The dense sum over an expanded operand is the sum over the compressed one, term for term, when
      every metadata nibble names two places in ascending order. */
  lemma {:induction false} SparseSum<T, W(!new)>(ops: Ops<T, W>, f: Factors<W>, ca: seq<W>, meta: seq<int>, start: W,
      row: nat, col: nat, groups: nat, dense: W, sparse: W)
    requires Sparse(f.m, f.k, |ca|, |meta|) && Sized(f) && f.scales.None? && row < f.m && col < f.n && groups <= f.k / 4
    requires f.a == Dense(f.m, f.k, ca, meta, ops.zero)
    requires forall q: nat :: q < groups ==> Ascending(f.m, meta, row, q)
    requires ZeroAddsNothing(ops)
    requires dense == Dot(ops, f, start, row, col, 4 * groups)
    requires sparse == SparseDot(ops, f.m, f.n, f.k, ca, meta, f.b, start, row, col, groups)
    ensures dense == sparse
    decreases groups
  {
    if groups > 0 {
      var q := groups - 1;
      var (d, s) := (Dot(ops, f, start, row, col, 4 * q),
          SparseDot(ops, f.m, f.n, f.k, ca, meta, f.b, start, row, col, q));
      SparseSum(ops, f, ca, meta, start, row, col, q, d, s);
      FourSteps(ops, f, ca, meta, start, row, col, q, d, dense);
      SparseDotNext(ops, f.m, f.n, f.k, ca, meta, f.b, start, row, col, q, s);
    }
  }

  lemma SparseDotNext<T, W>(ops: Ops<T, W>, m: pos, n: pos, k: pos, ca: seq<W>, meta: seq<int>, b: seq<W>, start: W,
      row: nat, col: nat, q: nat, s: W)
    requires Sparse(m, k, |ca|, |meta|) && |b| == k * n && row < m && col < n && q < k / 4
    requires s == SparseDot(ops, m, n, k, ca, meta, b, start, row, col, q)
    ensures SparseDot(ops, m, n, k, ca, meta, b, start, row, col, q + 1) ==
            KeptGroup(ops, m, n, k, ca, meta, b, s, row, col, q)
  {
  }

  lemma FourSteps<T, W(!new)>(ops: Ops<T, W>, f: Factors<W>, ca: seq<W>, meta: seq<int>, start: W, row: nat, col: nat,
      q: nat, s: W, t: W)
    requires Sparse(f.m, f.k, |ca|, |meta|) && Sized(f) && f.scales.None? && row < f.m && col < f.n && q < f.k / 4
    requires s == Dot(ops, f, start, row, col, 4 * q) && t == Dot(ops, f, start, row, col, 4 * q + 4)
    requires f.a == Dense(f.m, f.k, ca, meta, ops.zero) && Ascending(f.m, meta, row, q)
    requires ZeroAddsNothing(ops)
    ensures t == KeptGroup(ops, f.m, f.n, f.k, ca, meta, f.b, s, row, col, q)
  {
    var nib := Nibble(meta, f.m, row, q);
    var b0, s0, s1, k0, k1 := DenseStep(ops, f, ca, meta, start, row, col, q, 0);
    var b1, _, s2, _, _ := DenseStep(ops, f, ca, meta, start, row, col, q, 1);
    var b2, _, s3, _, _ := DenseStep(ops, f, ca, meta, start, row, col, q, 2);
    var b3, _, s4, _, _ := DenseStep(ops, f, ca, meta, start, row, col, q, 3);
    KeptValues(ops, f, ca, meta, s0, row, col, q, b0, b1, b2, b3);
    assert s0 == s && s4 == t;
    GroupSum(ops, s0, s1, s2, s3, s4, k0, k1, nib % 4, nib / 4, b0, b1, b2, b3);
  }

  lemma KeptValues<T, W>(ops: Ops<T, W>, f: Factors<W>, ca: seq<W>, meta: seq<int>, s: W, row: nat, col: nat, q: nat,
      b0: W, b1: W, b2: W, b3: W)
    requires Sparse(f.m, f.k, |ca|, |meta|) && Sized(f) && row < f.m && col < f.n && q < f.k / 4
    requires At(f.k, 4 * q, col) + 3 < |f.b|
    requires b0 == f.b[At(f.k, 4 * q, col)] && b1 == f.b[At(f.k, 4 * q, col) + 1] &&
             b2 == f.b[At(f.k, 4 * q, col) + 2] && b3 == f.b[At(f.k, 4 * q, col) + 3]
    ensures At(f.m, row, q) < |meta| && At(f.m, row, 2 * q) < |ca| && At(f.m, row, 2 * q + 1) < |ca|
    ensures var nib := Nibble(meta, f.m, row, q);
            KeptGroup(ops, f.m, f.n, f.k, ca, meta, f.b, s, row, col, q) ==
              ops.add(ops.add(s, ops.mul(ca[At(f.m, row, 2 * q)], Pick(nib % 4, b0, b1, b2, b3))),
                      ops.mul(ca[At(f.m, row, 2 * q + 1)], Pick(nib / 4, b0, b1, b2, b3)))
  {
    SparseInside(f.m, f.k, row, 4 * q);
    var nib := Nibble(meta, f.m, row, q);
    assert At(f.k, 4 * q + nib % 4, col) == At(f.k, 4 * q, col) + nib % 4;
    assert At(f.k, 4 * q + nib / 4, col) == At(f.k, 4 * q, col) + nib / 4;
  }

  /** Step `o` of group `q` multiplies the expanded element with `B`'s. */
  lemma DenseStep<T, W>(ops: Ops<T, W>, f: Factors<W>, ca: seq<W>, meta: seq<int>, start: W, row: nat, col: nat,
      q: nat, o: nat)
    returns (b: W, s: W, s': W, k0: W, k1: W)
    requires Sparse(f.m, f.k, |ca|, |meta|) && Sized(f) && f.scales.None? && row < f.m && col < f.n && q < f.k / 4 &&
             o < 4
    requires f.a == Dense(f.m, f.k, ca, meta, ops.zero)
    ensures At(f.m, row, q) < |meta| && At(f.m, row, 2 * q) < |ca| && At(f.m, row, 2 * q + 1) < |ca|
    ensures k0 == ca[At(f.m, row, 2 * q)] && k1 == ca[At(f.m, row, 2 * q + 1)]
    ensures At(f.k, 4 * q, col) + o < |f.b| && b == f.b[At(f.k, 4 * q, col) + o]
    ensures s == Dot(ops, f, start, row, col, 4 * q + o) && s' == Dot(ops, f, start, row, col, 4 * q + o + 1)
    ensures var nib := Nibble(meta, f.m, row, q);
            s' == ops.add(s, ops.mul(Kept(o, nib % 4, nib / 4, k0, k1, ops.zero), b))
  {
    var c := 4 * q + o;
    SparseInside(f.m, f.k, row, c);
    AtInside(f.m, row, c, f.k);
    AtInside(f.k, c, col, f.n);
    assert c / 4 == q && c % 4 == o;
    b, k0, k1 := f.b[At(f.k, c, col)], ca[At(f.m, row, 2 * q)], ca[At(f.m, row, 2 * q + 1)];
    assert f.a[At(f.m, row, c)] == DenseAt(f.m, ca, meta, ops.zero, row, c);
    s, s' := Dot(ops, f, start, row, col, c), Dot(ops, f, start, row, col, c + 1);
  }

  // ---- the whole construct

  /** The fragments of the subgroup whose first lane is `g`. */
  function Slice<T>(sh: seq<T>, f: Fragment, g: nat): (r: seq<T>)
    requires At(f.vals, 0, g) + |f.ids| <= |sh|
    ensures |r| == |f.ids|
  {
    sh[At(f.vals, 0, g)..At(f.vals, 0, g) + |f.ids|]
  }

  /** An operand's storage: a whole block of fragments, of which those of one subgroup agree. */
  ghost predicate Stored<T(!new)>(f: Fragment, lanes: pos, size: nat, threads: nat, sh: seq<T>, g: nat) {
    && Covers(f, lanes, size) && |sh| == threads * f.vals
    && At(f.vals, 0, g) + |f.ids| <= |sh| && Agree(f, Slice(sh, f, g))
  }

  function LeftSize(atom: Atom): nat {
    MulMono(0, atom.k / 2, atom.m);
    MulPos(atom.m, atom.k);
    if atom.meta.Some? then atom.k / 2 * atom.m else atom.m * atom.k
  }

  datatype Inputs<T> = Inputs(a: seq<T>, b: seq<T>, c: seq<T>, meta: seq<int>, scaleA: seq<T>, scaleB: seq<T>)

  /** What the atom and the kernel check promise of the operands of the subgroup at `g`. */
  ghost predicate Loaded<T(!new)>(atom: Atom, threads: nat, x: Inputs<T>, g: nat) {
    && Stored(atom.a, atom.lanes, LeftSize(atom), threads, x.a, g)
    && Stored(atom.b, atom.lanes, atom.k * atom.n, threads, x.b, g)
    && Stored(atom.d, atom.lanes, atom.m * atom.n, threads, x.c, g)
    && (atom.meta.Some? ==>
          atom.k % 4 == 0 && Stored(atom.meta.value, atom.lanes, atom.m * (atom.k / 4), threads, x.meta, g))
    && (atom.scaling.Some? ==>
          var s := atom.scaling.value;
          atom.k % s.block == 0 &&
          Stored(s.a, atom.lanes, atom.m * (atom.k / s.block), threads, x.scaleA, g) &&
          Stored(s.b, atom.lanes, atom.k / s.block * atom.n, threads, x.scaleB, g))
  }

  function AsIs(v: int): int { v }

  ghost function LeftOf<T(!new), W>(atom: Atom, ops: Ops<T, W>, threads: nat, x: Inputs<T>, g: nat): (a: seq<W>)
    requires Loaded(atom, threads, x, g)
    ensures |a| == atom.m * atom.k
  {
    var a := Logical(atom.a, Slice(x.a, atom.a, g), LeftSize(atom), ops.widen);
    if atom.meta.None? then a
    else Dense(atom.m, atom.k, a,
        Logical(atom.meta.value, Slice(x.meta, atom.meta.value, g), atom.m * (atom.k / 4), AsIs), ops.zero)
  }

  ghost function ScalesOf<T(!new), W>(atom: Atom, ops: Ops<T, W>, threads: nat, x: Inputs<T>,
      g: nat): (r: Option<Scales<W>>)
    requires Loaded(atom, threads, x, g)
    ensures r.Some? ==> ScalesFit(atom.m, atom.n, atom.k, r.value)
  {
    if atom.scaling.None? then None
    else
      var s := atom.scaling.value;
      var blocks := atom.k / s.block;
      var a := Logical(s.a, Slice(x.scaleA, s.a, g), atom.m * blocks, ops.widen);
      var b := Logical(s.b, Slice(x.scaleB, s.b, g), blocks * atom.n, ops.widen);
      Some(Scales(s.block, a, b))
  }

  /** The logical operands of a subgroup. */
  ghost function FactorsOf<T(!new), W>(atom: Atom, ops: Ops<T, W>, threads: nat, x: Inputs<T>, g: nat): (f: Factors<W>)
    requires Loaded(atom, threads, x, g)
    ensures Sized(f) && f.m == atom.m && f.n == atom.n && f.k == atom.k
  {
    var b := Logical(atom.b, Slice(x.b, atom.b, g), atom.k * atom.n, ops.widen);
    Factors(atom.m, atom.n, atom.k, LeftOf(atom, ops, threads, x, g), b, ScalesOf(atom, ops, threads, x, g))
  }

  /** The logical `D` of a subgroup. */
  ghost function ResultOf<T(!new), W>(atom: Atom, ops: Ops<T, W>, threads: nat, x: Inputs<T>, g: nat): (d: seq<W>)
    requires Loaded(atom, threads, x, g)
    ensures |d| == atom.m * atom.n
  {
    Product(ops, FactorsOf(atom, ops, threads, x, g),
        Logical(atom.d, Slice(x.c, atom.d, g), atom.m * atom.n, ops.widen))
  }

  /** The left operand, expanded where it is sparse. */
  method LeftOperand<T(!new), W(0)>(atom: Atom, ops: Ops<T, W>, threads: nat, x: Inputs<T>, g: nat)
      returns (left: array<W>)
    requires Loaded(atom, threads, x, g)
    ensures fresh(left) && left[..] == LeftOf(atom, ops, threads, x, g)
  {
    left := Gather(atom.a, atom.lanes, LeftSize(atom), x.a, g, ops.widen);
    if atom.meta.Some? {
      var me := Gather(atom.meta.value, atom.lanes, atom.m * (atom.k / 4), x.meta, g, AsIs);
      left := ExpandSparse(atom.m, atom.k, left, me[..], ops.zero);
    }
  }

  method GatherScales<T(!new), W(0)>(atom: Atom, ops: Ops<T, W>, threads: nat, x: Inputs<T>, g: nat)
      returns (scales: Option<Scales<W>>)
    requires Loaded(atom, threads, x, g)
    ensures scales == ScalesOf(atom, ops, threads, x, g)
  {
    scales := None;
    if atom.scaling.Some? {
      var s := atom.scaling.value;
      var wa := Gather(s.a, atom.lanes, atom.m * (atom.k / s.block), x.scaleA, g, ops.widen);
      var wb := Gather(s.b, atom.lanes, atom.k / s.block * atom.n, x.scaleB, g, ops.widen);
      scales := Some(Scales(s.block, wa[..], wb[..]));
    }
  }

  /** Gather, expand where the operand is sparse, multiply. */
  method SubgroupProduct<T(!new), W(0)>(atom: Atom, ops: Ops<T, W>, threads: nat, x: Inputs<T>, g: nat)
      returns (md: array<W>)
    requires Loaded(atom, threads, x, g)
    ensures fresh(md) && md[..] == ResultOf(atom, ops, threads, x, g)
  {
    var left := LeftOperand(atom, ops, threads, x, g);
    var mb := Gather(atom.b, atom.lanes, atom.k * atom.n, x.b, g, ops.widen);
    var mc := Gather(atom.d, atom.lanes, atom.m * atom.n, x.c, g, ops.widen);
    var scales := GatherScales(atom, ops, threads, x, g);
    var f := Factors(atom.m, atom.n, atom.k, left[..], mb[..], scales);
    OperandsGathered(atom, ops, threads, x, g, f, mc[..]);
    md := Multiply(ops, f, mc);
  }

  /** What has been gathered is what the result is made of. */
  lemma OperandsGathered<T(!new), W>(atom: Atom, ops: Ops<T, W>, threads: nat, x: Inputs<T>, g: nat, f: Factors<W>,
      c: seq<W>)
    requires Loaded(atom, threads, x, g)
    requires f == Factors(atom.m, atom.n, atom.k, LeftOf(atom, ops, threads, x, g),
                          Logical(atom.b, Slice(x.b, atom.b, g), atom.k * atom.n, ops.widen),
                          ScalesOf(atom, ops, threads, x, g))
    requires c == Logical(atom.d, Slice(x.c, atom.d, g), atom.m * atom.n, ops.widen)
    ensures Sized(f) && |c| == f.m * f.n && Product(ops, f, c) == ResultOf(atom, ops, threads, x, g)
  {
    assert f == FactorsOf(atom, ops, threads, x, g);
  }

  /** The lanes of the subgroup at `g` hold the fragments of `d`. */
  ghost predicate Holds<T, W>(f: Fragment, narrow: W -> T, d: seq<W>, sh: seq<T>, g: nat) {
    At(f.vals, 0, g) + |f.ids| <= |sh| &&
    forall x :: 0 <= x < |f.ids| ==> f.ids[x] < |d| && sh[At(f.vals, 0, g) + x] == narrow(d[f.ids[x]])
  }

  method Scatter<T, W>(f: Fragment, lanes: pos, narrow: W -> T, md: seq<W>, sd: array<T>, g: nat)
    requires Covers(f, lanes, |md|) && At(f.vals, 0, g) + |f.ids| <= sd.Length
    modifies sd
    ensures Holds(f, narrow, md, sd[..], g)
    ensures forall p :: 0 <= p < sd.Length && !(At(f.vals, 0, g) <= p < At(f.vals, 0, g) + |f.ids|) ==>
            sd[p] == old(sd[p])
  {
    ghost var base := At(f.vals, 0, g);
    AtNext(f.vals, 0);
    for l := 0 to lanes
      invariant At(f.vals, 0, l) <= |f.ids|
      invariant forall x :: 0 <= x < At(f.vals, 0, l) ==> sd[base + x] == narrow(md[f.ids[x]])
      invariant forall p :: 0 <= p < sd.Length && !(base <= p < base + |f.ids|) ==> sd[p] == old(sd[p])
    {
      for v := 0 to f.vals
        invariant At(f.vals, v, l) <= |f.ids|
        invariant forall x :: 0 <= x < At(f.vals, v, l) ==> sd[base + x] == narrow(md[f.ids[x]])
        invariant forall p :: 0 <= p < sd.Length && !(base <= p < base + |f.ids|) ==> sd[p] == old(sd[p])
      {
        LaneSlot(f.vals, g, l, v, lanes);
        sd[At(f.vals, v, g + l)] := narrow(md[f.ids[At(f.vals, v, l)]]);
      }
      AtNext(f.vals, l);
    }
    assert At(f.vals, 0, lanes) == |f.ids|;
  }

  /** Only the fragments of the subgroup itself matter to its result. */
  lemma SameSlices<T(!new), W>(atom: Atom, ops: Ops<T, W>, threads: nat, x: Inputs<T>, y: Inputs<T>, g: nat)
    requires Loaded(atom, threads, x, g)
    requires |y.a| == |x.a| && |y.b| == |x.b| && |y.c| == |x.c| && y.meta == x.meta && y.scaleA == x.scaleA &&
             y.scaleB == x.scaleB
    requires Slice(y.a, atom.a, g) == Slice(x.a, atom.a, g) && Slice(y.b, atom.b, g) == Slice(x.b, atom.b, g) &&
             Slice(y.c, atom.d, g) == Slice(x.c, atom.d, g)
    ensures Loaded(atom, threads, y, g) && ResultOf(atom, ops, threads, y, g) == ResultOf(atom, ops, threads, x, g)
  {
  }

  lemma MultiplesApart(g: nat, h: nat, n: pos)
    requires g % n == 0 && h % n == 0 && g < h
    ensures g + n <= h && (g + n) % n == 0
  {
    var a: int, b: int := g / n, h / n;
    DivExact(g, n);
    DivExact(h, n);
    if b <= a { MulMono(b, a, n); }
    MulMono(a + 1, b, n);
    MulDistribLeft(n, a, 1);
    DivModUnique(g + n, n, a + 1, 0);
  }

  lemma SlicesApart(f: Fragment, lanes: pos, g: nat, h: nat)
    requires |f.ids| == lanes * f.vals && g % lanes == 0 && h % lanes == 0 && g < h
    ensures At(f.vals, 0, g) + |f.ids| == At(f.vals, 0, g + lanes) <= At(f.vals, 0, h)
    ensures g + lanes <= h && (g + lanes) % lanes == 0
  {
    MultiplesApart(g, h, lanes);
    MulMono(g + lanes, h, f.vals);
    MulDistrib(g, lanes, f.vals);
  }

  /** `sh` is as `was` from the subgroup at `g` on. */
  ghost predicate Untouched<T>(sh: seq<T>, was: seq<T>, vals: nat, g: nat) {
    |sh| == |was| && forall p :: At(vals, 0, g) <= p < |sh| ==> sh[p] == was[p]
  }

  /** The contents an operand has now: as they were, or `D`'s where it is stored over the operand. */
  ghost predicate Current<T>(now: seq<T>, was: seq<T>, f: Fragment, d: Fragment, sd: seq<T>, sdWas: seq<T>) {
    now == was || (now == sd && was == sdWas && f.vals == d.vals)
  }

  lemma SliceCurrent<T>(now: seq<T>, was: seq<T>, f: Fragment, d: Fragment, sd: seq<T>, sdWas: seq<T>, g: nat)
    requires Current(now, was, f, d, sd, sdWas) && Untouched(sd, sdWas, d.vals, g) &&
             At(f.vals, 0, g) + |f.ids| <= |was|
    ensures |now| == |was| && Slice(now, f, g) == Slice(was, f, g)
  {
  }

  lemma StillLoaded<T(!new), W>(atom: Atom, ops: Ops<T, W>, threads: nat, x: Inputs<T>, y: Inputs<T>, sd: seq<T>,
      sdWas: seq<T>, g: nat)
    requires Loaded(atom, threads, x, g) && Untouched(sd, sdWas, atom.d.vals, g)
    requires Current(y.a, x.a, atom.a, atom.d, sd, sdWas) && Current(y.b, x.b, atom.b, atom.d, sd, sdWas) &&
             Current(y.c, x.c, atom.d, atom.d, sd, sdWas)
    requires y.meta == x.meta && y.scaleA == x.scaleA && y.scaleB == x.scaleB
    ensures Loaded(atom, threads, y, g) && ResultOf(atom, ops, threads, y, g) == ResultOf(atom, ops, threads, x, g)
  {
    SliceCurrent(y.a, x.a, atom.a, atom.d, sd, sdWas, g);
    SliceCurrent(y.b, x.b, atom.b, atom.d, sd, sdWas, g);
    SliceCurrent(y.c, x.c, atom.d, atom.d, sd, sdWas, g);
    SameSlices(atom, ops, threads, x, y, g);
  }

  /** The subgroups before `g` hold their results. */
  ghost predicate Delivered<T(!new), W>(atom: Atom, ops: Ops<T, W>, threads: nat, x: Inputs<T>, sd: seq<T>, g: nat) {
    forall h: nat :: h % atom.lanes == 0 && h < g && h < threads ==>
      Loaded(atom, threads, x, h) && Holds(atom.d, ops.narrow, ResultOf(atom, ops, threads, x, h), sd, h)
  }

  lemma HoldsStill<T, W>(f: Fragment, narrow: W -> T, d: seq<W>, before: seq<T>, sh: seq<T>, h: nat, limit: nat)
    requires Holds(f, narrow, d, before, h) && |sh| == |before| && At(f.vals, 0, h) + |f.ids| <= limit
    requires forall p :: 0 <= p < limit && p < |sh| ==> sh[p] == before[p]
    ensures Holds(f, narrow, d, sh, h)
  {
  }

  lemma DeliverNext<T(!new), W>(atom: Atom, ops: Ops<T, W>, threads: nat, x: Inputs<T>, before: seq<T>, sd: seq<T>,
      g: nat)
    requires g % atom.lanes == 0 && g < threads && Loaded(atom, threads, x, g) && |sd| == |before|
    requires Delivered(atom, ops, threads, x, before, g)
    requires Holds(atom.d, ops.narrow, ResultOf(atom, ops, threads, x, g), sd, g)
    requires forall p :: 0 <= p < At(atom.d.vals, 0, g) && p < |sd| ==> sd[p] == before[p]
    ensures Delivered(atom, ops, threads, x, sd, g + atom.lanes)
  {
    forall h: nat | h % atom.lanes == 0 && h < g + atom.lanes && h < threads
      ensures Loaded(atom, threads, x, h) && Holds(atom.d, ops.narrow, ResultOf(atom, ops, threads, x, h), sd, h)
    {
      if h < g {
        SlicesApart(atom.d, atom.lanes, h, g);
        HoldsStill(atom.d, ops.narrow, ResultOf(atom, ops, threads, x, h), before, sd, h, At(atom.d.vals, 0, g));
      } else if h > g {
        MultiplesApart(g, h, atom.lanes);
      }
    }
  }

  /** The construct: every lane of every subgroup ends with its fragment of that subgroup's
      `A.B + C`, computed from the fragments as they stood before, also where `D` is stored over an
      input. */
  method Mma<T(!new), W(0)>(atom: Atom, ops: Ops<T, W>, threads: nat, sa: array<T>, sb: array<T>, sc: array<T>,
      sd: array<T>, meta: seq<int>, scaleA: seq<T>, scaleB: seq<T>)
    requires threads % atom.lanes == 0 && sd.Length == threads * atom.d.vals
    requires (sa == sd ==> atom.a.vals == atom.d.vals) && (sb == sd ==> atom.b.vals == atom.d.vals)
    requires forall g: nat :: g % atom.lanes == 0 && g < threads ==>
             Loaded(atom, threads, Inputs(sa[..], sb[..], sc[..], meta, scaleA, scaleB), g)
    modifies sd
    ensures Delivered(atom, ops, threads, Inputs(old(sa[..]), old(sb[..]), old(sc[..]), meta, scaleA, scaleB), sd[..],
            threads)
  {
    ghost var x := Inputs(sa[..], sb[..], sc[..], meta, scaleA, scaleB);
    ghost var was := sd[..];
    var g := 0;
    while g < threads
      invariant 0 <= g && g % atom.lanes == 0
      invariant Untouched(sd[..], was, atom.d.vals, g)
      invariant (sa != sd ==> sa[..] == x.a) && (sb != sd ==> sb[..] == x.b) && (sc != sd ==> sc[..] == x.c)
      invariant Delivered(atom, ops, threads, x, sd[..], g)
    {
      assert Loaded(atom, threads, x, g);
      var now := Inputs(sa[..], sb[..], sc[..], meta, scaleA, scaleB);
      StillLoaded(atom, ops, threads, x, now, sd[..], was, g);
      var md := SubgroupProduct(atom, ops, threads, now, g);
      SlicesApart(atom.d, atom.lanes, g, threads);
      ghost var before := sd[..];
      Scatter(atom.d, atom.lanes, ops.narrow, md[..], sd, g);
      DeliverNext(atom, ops, threads, x, before, sd[..], g);
      g := g + atom.lanes;
    }
  }
}
