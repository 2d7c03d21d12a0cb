/** The linear ids of a launch: a thread's coordinates in its block, a block's index in the grid, and
    the slots of the arrays the whole grid shares. */
module LaunchIds {
  import opened Arith

  datatype Extent3 = Extent3(x: nat, y: nat, z: nat) {
    function Count(): nat {
      MulMono(0, z, y);
      MulMono(0, z * y, x);
      z * y * x
    }
  }

  datatype Id3 = Id3(x: nat, y: nat, z: nat)

  ghost predicate Inside(c: Id3, e: Extent3) { c.x < e.x && c.y < e.y && c.z < e.z }

  /** `exec_c`: the coordinates of thread `t` of a block. */
  function ThreadIdx(t: nat, block: Extent3): Id3
    requires block.x > 0 && block.y > 0
  {
    MulPos(block.x, block.y);
    DivNonneg(t, block.x);
    DivNonneg(t, block.x * block.y);
    Id3(t % block.x, t / block.x % block.y, t / (block.x * block.y))
  }

  /** `bl`: the linear index of a block. */
  function Linear(c: Id3, e: Extent3): nat {
    MulMono(0, c.z, e.y);
    MulMono(0, c.z * e.y + c.y, e.x);
    (c.z * e.y + c.y) * e.x + c.x
  }

  /** Coordinates and linear ids are in bijection, `x` fastest: the two formulas, written for a
      thread and for a block, undo each other. */
  lemma IdsOfThread(t: nat, e: Extent3)
    requires t < e.Count() && e.x > 0 && e.y > 0
    ensures Inside(ThreadIdx(t, e), e) && Linear(ThreadIdx(t, e), e) == t
  {
    var (x, y, z) := (e.x, e.y, e.z);
    MulPos(x, y);
    DivNonneg(t, x);
    DivModMul(t, x, y);
    DivMod(t, x);
    DivMod(t / x, y);
    assert t / x / y < z by {
      MulAssoc(z, y, x);
      DivBound(t, x, z * y);
      DivBound(t / x, y, z);
    }
  }

  lemma ThreadOfIds(c: Id3, e: Extent3)
    requires Inside(c, e)
    ensures Linear(c, e) < e.Count() && ThreadIdx(Linear(c, e), e) == c
  {
    var (x, y, z) := (e.x, e.y, e.z);
    var row := c.z * y + c.y;
    MulPos(x, y);
    MulMono(0, c.z, y);
    MulMono(0, row, x);
    DivModUnique(Linear(c, e), x, row, c.x);
    DivModUnique(row, y, c.z, c.y);
    DivModMul(Linear(c, e), x, y);
    assert row + 1 <= z * y by {
      MulMono(c.z + 1, z, y);
      MulDistrib(c.z, 1, y);
    }
    MulMono(row + 1, z * y, x);
    MulDistrib(row, 1, x);
  }

  /** The slot of item `i` of slice `s`, where every slice has `n` items: a block's thread in
      `l_all`, a block's element in `sh_all`, a thread's element in a private array. */
  function Slot(s: nat, n: nat, i: nat): nat {
    MulMono(0, s, n);
    s * n + i
  }

  /** Slices are disjoint and cover the array: each slot is in exactly one slice, at one place. */
  lemma SlotsPartition(slices: nat, n: nat, k: nat)
    requires k < slices * n && n > 0
    ensures 0 <= k / n < slices && k % n < n && Slot(k / n, n, k % n) == k
    ensures forall s: nat, i: nat :: i < n && Slot(s, n, i) == k ==> s == k / n && i == k % n
  {
    DivMod(k, n);
    DivNonneg(k, n);
    DivBound(k, n, slices);
    forall s: nat, i: nat | i < n && Slot(s, n, i) == k ensures s == k / n && i == k % n {
      DivModUnique(k, n, s, i);
    }
  }

  lemma SlotInside(slices: nat, n: nat, s: nat, i: nat)
    requires s < slices && i < n
    ensures Slot(s, n, i) < slices * n
  {
    MulMono(s + 1, slices, n);
    MulDistrib(s, 1, n);
  }

  /** The three nested block loops, `blk2` outermost: they visit the blocks in ascending linear
      index, each once. */
  method BlockLoops(grid: Extent3) returns (order: seq<nat>)
    ensures |order| == grid.Count() && forall i :: 0 <= i < |order| ==> order[i] == i
  {
    order := [];
    for blk2 := 0 to grid.z
      invariant |order| == blk2 * grid.y * grid.x && forall i :: 0 <= i < |order| ==> order[i] == i
    {
      for blk1 := 0 to grid.y
        invariant |order| == (blk2 * grid.y + blk1) * grid.x && forall i :: 0 <= i < |order| ==> order[i] == i
      {
        for blk0 := 0 to grid.x
          invariant |order| == (blk2 * grid.y + blk1) * grid.x + blk0 && forall i :: 0 <= i < |order| ==> order[i] == i
        {
          order := order + [Linear(Id3(blk0, blk1, blk2), grid)];
        }
        MulDistrib(blk2 * grid.y + blk1, 1, grid.x);
      }
      MulDistrib(blk2, 1, grid.y);
    }
  }

  /** `x` runs fastest, then `y`, then `z`. */
  lemma NeighbourIds(c: Id3, e: Extent3)
    ensures Linear(Id3(c.x + 1, c.y, c.z), e) == Linear(c, e) + 1
    ensures Linear(Id3(c.x, c.y + 1, c.z), e) == Linear(c, e) + e.x
    ensures Linear(Id3(c.x, c.y, c.z + 1), e) == Linear(c, e) + e.x * e.y
  {
    MulDistrib(c.z * e.y + c.y, 1, e.x);
    MulDistrib(c.z, 1, e.y);
    MulDistrib(c.z * e.y + c.y, e.y, e.x);
  }
}
