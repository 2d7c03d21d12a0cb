/** Shape expressions (KISS-Ops section 6.20): evaluation over partly known extents, and the byte
    codec with its saturating child lengths. */
module ShapeExprs {
  import opened Wrappers
  import opened Arith

  type byte = x: int | 0 <= x < 256
  type i64 = x: int | I64_MIN <= x <= I64_MAX

  datatype Axis = Idx(a: byte) | Last

  datatype BinOp = Add | Sub | Mul | Div

  datatype DimExpr =
    | Extent(operand: byte, axis: Axis)
    | Const(v: i64)
    | Param(field: byte)
    | Bin(op: BinOp, left: DimExpr, right: DimExpr)

  // ---- evaluation

  /** An extent the caller knows, or a symbolic one. */
  datatype Length = Known(v: i64) | Symbolic

  datatype DimValue = Value(v: i64) | Gap

  datatype ShapeDecline =
    | AxisOutOfRange(operand: byte, axis: byte, rank: nat)
    | LastOnRank0(operand: byte)
    | OperandOutOfRange(operand: byte)
    | ParamOutOfRange(field: byte)
    | DivByZero
    | DivOverflow

  function Read(l: Length): DimValue { if l.Known? then Value(l.v) else Gap }

  function ResolveAxis(operand: byte, axis: Axis, rank: nat): (r: Result<nat, ShapeDecline>)
    ensures r.Ok? ==> r.value < rank
  {
    match axis
    case Last => if rank == 0 then Err(LastOnRank0(operand)) else Ok(rank - 1)
    case Idx(a) => if a >= rank then Err(AxisOutOfRange(operand, a, rank)) else Ok(a)
  }

  /** Quotient toward minus infinity, from the Euclidean one. */
  function FloorDiv(x: int, y: int): int
    requires y != 0
  {
    x / y - (if x % y != 0 && y < 0 then 1 else 0)
  }

  function Apply(op: BinOp, x: i64, y: i64): Result<DimValue, ShapeDecline> {
    match op
    case Add => Ok(Value(Saturate(x + y)))
    case Sub => Ok(Value(Saturate(x - y)))
    case Mul => Ok(Value(Saturate(x * y)))
    case Div =>
      if y == 0 then Err(DivByZero)
      else if x == I64_MIN && y == -1 then Err(DivOverflow)
      else
        FloorDivFits(x, y);
        Ok(Value(FloorDiv(x, y)))
  }

  function EvalDim(e: DimExpr, operands: seq<seq<Length>>, params: seq<Length>): Result<DimValue, ShapeDecline> {
    match e
    case Const(v) => Ok(Value(v))
    case Param(f) => if f < |params| then Ok(Read(params[f])) else Err(ParamOutOfRange(f))
    case Extent(operand, axis) =>
      if operand >= |operands| then Err(OperandOutOfRange(operand))
      else
        (match ResolveAxis(operand, axis, |operands[operand]|)
         case Ok(d) => Ok(Read(operands[operand][d]))
         case Err(why) => Err(why))
    case Bin(op, left, right) =>
      var (l, r) := (EvalDim(left, operands, params), EvalDim(right, operands, params));
      if l.Err? then l
      else if r.Err? then r
      else if l.value.Gap? || r.value.Gap? then Ok(Gap)
      else Apply(op, l.value.v, r.value.v)
  }

  lemma DivisionBounds(x: int, y: int)
    requires y != 0
    ensures x == y * (x / y) + x % y && 0 <= x % y && x % y < (if y > 0 then y else -y)
  {
  }

  /** The quotient is the floor: the remainder it leaves is smaller than the divisor and on its
      side of zero, for either sign. */
  lemma FloorDivIsFloor(x: int, y: int)
    requires y != 0
    ensures var r := x - y * FloorDiv(x, y);
            if y > 0 then 0 <= r < y else y < r <= 0
  {
    DivisionBounds(x, y);
    MulDistribLeft(y, x / y, 1);
  }

  lemma FloorUnique(x: int, y: int, q: int)
    requires y != 0 && (var r := x - y * q; if y > 0 then 0 <= r < y else y < r <= 0)
    ensures q == FloorDiv(x, y)
  {
    FloorDivIsFloor(x, y);
    var d := q - FloorDiv(x, y);
    MulDistribLeft(y, q, FloorDiv(x, y));
    if d >= 1 {
      if y > 0 { MulMono(1, d, y); } else { MulMono(1, d, -y); }
    } else if d <= -1 {
      if y > 0 { MulMono(d, -1, y); } else { MulMono(d, -1, -y); }
    }
  }

  /** One pair of 64-bit numbers has a quotient that is not one. */
  lemma FloorDivFits(x: i64, y: i64)
    requires y != 0
    ensures I64_MIN <= FloorDiv(x, y) <= I64_MAX <==> !(x == I64_MIN && y == -1)
  {
    FloorDivIsFloor(x, y);
    var q, d: int := FloorDiv(x, y), y;
    if d == 1 || d == -1 {
      FloorUnique(x, d, x * d);
    } else {
      var a := if d > 0 then d else -d;
      assert a * q == if d > 0 then d * q else -(d * q) by { MulDistribLeft(q, 0, d); }
      if q > I64_MAX { MulMono(2, a, q); }
      if q < I64_MIN { MulMono(2, a, -q); MulDistribLeft(a, 0, q); }
    }
  }

  // ---- learning more extents

  ghost predicate Fills(l: Length, l': Length) { l.Known? ==> l' == l }

  ghost predicate FillsAll(ls: seq<Length>, ls': seq<Length>) {
    |ls| == |ls'| && forall i :: 0 <= i < |ls| ==> Fills(ls[i], ls'[i])
  }

  ghost predicate FillsOperands(os: seq<seq<Length>>, os': seq<seq<Length>>) {
    |os| == |os'| && forall i :: 0 <= i < |os| ==> FillsAll(os[i], os'[i])
  }

  /** Filling symbolic extents in never changes a value and never lifts a decline. */
  lemma {:induction false} EvalMonotone(e: DimExpr, os: seq<seq<Length>>, ps: seq<Length>, os': seq<seq<Length>>,
      ps': seq<Length>)
    requires FillsOperands(os, os') && FillsAll(ps, ps')
    ensures var (r, r') := (EvalDim(e, os, ps), EvalDim(e, os', ps'));
            (r.Ok? && r.value.Value? ==> r' == r) && (r.Err? ==> r'.Err?)
  {
    match e
    case Bin(op, left, right) =>
      EvalMonotone(left, os, ps, os', ps');
      EvalMonotone(right, os, ps, os', ps');
    case Extent(operand, axis) => if operand < |os| { assert FillsAll(os[operand], os'[operand]); }
    case _ =>
  }

  ghost predicate AllKnown(ls: seq<Length>) { forall i :: 0 <= i < |ls| ==> ls[i].Known? }

  /** With every extent known there is a value or a decline, never a gap. */
  lemma {:induction false} NoGapWhenKnown(e: DimExpr, os: seq<seq<Length>>, ps: seq<Length>)
    requires AllKnown(ps) && forall i :: 0 <= i < |os| ==> AllKnown(os[i])
    ensures EvalDim(e, os, ps).Ok? ==> EvalDim(e, os, ps).value.Value?
  {
    match e
    case Bin(op, left, right) =>
      NoGapWhenKnown(left, os, ps);
      NoGapWhenKnown(right, os, ps);
    case _ =>
  }

  /** A decline's reason can change: with the divisor unknown the right operand declines, and a zero
      there declines before it. */
  lemma DeclineReasonChanges()
    ensures var e := Bin(Add, Bin(Div, Const(1), Param(0)), Param(7));
            EvalDim(e, [], [Symbolic]) == Err(ParamOutOfRange(7)) && EvalDim(e, [], [Known(0)]) == Err(DivByZero)
  {
    var d := Bin(Div, Const(1), Param(0));
    assert EvalDim(d, [], [Symbolic]) == Ok(Gap) && EvalDim(d, [], [Known(0)]) == Err(DivByZero);
  }

  // ---- bytes

  const U16_MAX := 65535
  const LAST_SENTINEL: byte := 0xFF

  function Pow256(k: nat): pos { if k == 0 then 1 else 256 * Pow256(k - 1) }

  /** `to_le_bytes` of an unsigned number of `k` bytes. */
  function LeBytes(n: nat, k: nat): (bs: seq<byte>)
    ensures |bs| == k
  {
    if k == 0 then [] else [n % 256] + LeBytes(n / 256, k - 1)
  }

  function FromLe(bs: seq<byte>): nat { if bs == [] then 0 else bs[0] + 256 * FromLe(bs[1..]) }

  lemma {:induction false} LeRoundTrip(n: nat, k: nat)
    requires n < Pow256(k)
    ensures FromLe(LeBytes(n, k)) == n
  {
    if k > 0 {
      LeRoundTrip(n / 256, k - 1);
      assert LeBytes(n, k)[1..] == LeBytes(n / 256, k - 1);
    }
  }

  lemma {:induction false} LeSpelling(bs: seq<byte>)
    ensures FromLe(bs) < Pow256(|bs|) && LeBytes(FromLe(bs), |bs|) == bs
  {
    if bs != [] {
      LeSpelling(bs[1..]);
      assert FromLe(bs) / 256 == FromLe(bs[1..]) && FromLe(bs) % 256 == bs[0];
      assert bs == [bs[0]] + bs[1..];
    }
  }

  const TWO64 := 0x1_0000_0000_0000_0000

  /** Two's complement. */
  function Unsigned(v: i64): nat { if v < 0 then v + TWO64 else v }

  function Signed(n: nat): i64
    requires n < TWO64
  {
    if n > I64_MAX then n - TWO64 else n
  }

  lemma EightBytes()
    ensures Pow256(8) == TWO64 && Pow256(2) == 65536
  {
    assert Pow256(0) == 1 && Pow256(1) == 256 && Pow256(2) == 65536 && Pow256(3) == 0x100_0000;
    assert Pow256(4) == 0x1_0000_0000 && Pow256(5) == 0x100_0000_0000;
    assert Pow256(6) == 0x1_0000_0000_0000 && Pow256(7) == 0x100_0000_0000_0000;
  }

  function OpTag(op: BinOp): byte {
    match op
    case Add => 0x05
    case Sub => 0x06
    case Mul => 0x07
    case Div => 0x08
  }

  function AxisByte(axis: Axis): byte { if axis.Last? then LAST_SENTINEL else axis.a }

  function Prefixed(body: seq<byte>): (r: seq<byte>)
    ensures |r| == 2 + |body| && r[2..] == body
  {
    LeBytes(Min(|body|, U16_MAX), 2) + body
  }

  /** `push_dim`: a child longer than 65535 bytes gets the length 65535. */
  function Encode(e: DimExpr): (bs: seq<byte>)
    ensures bs != []
  {
    match e
    case Extent(operand, axis) => [0x02, operand, AxisByte(axis)]
    case Const(v) => [0x03] + LeBytes(Unsigned(v), 8)
    case Param(f) => [0x04, f]
    case Bin(op, left, right) => [OpTag(op)] + Prefixed(Encode(left)) + Prefixed(Encode(right))
  }

  datatype CodecDecline = ReservedTag(tag: byte) | UnknownTag(tag: byte) | Truncated | TrailingBytes

  datatype Taken = Taken(e: DimExpr, rest: seq<byte>)

  function TakeDim(bs: seq<byte>): (r: Result<Taken, CodecDecline>)
    ensures r.Ok? ==> |r.value.rest| < |bs|
    decreases |bs|, 0
  {
    if bs == [] then Err(Truncated)
    else
      var (tag, rest) := (bs[0], bs[1..]);
      if tag == 0x02 then TakeExtent(rest)
      else if tag == 0x03 then TakeConst(rest)
      else if tag == 0x04 then (if |rest| < 1 then Err(Truncated) else Ok(Taken(Param(rest[0]), rest[1..])))
      else if 0x05 <= tag <= 0x08 then
        match TakeChild(rest)
        case Err(why) => Err(why)
        case Ok(l) =>
          match TakeChild(l.rest)
          case Err(why) => Err(why)
          case Ok(r) => Ok(Taken(Bin(TagOp(tag), l.e, r.e), r.rest))
      else if tag == 0x00 || 0x09 <= tag <= 0x0B then Err(ReservedTag(tag))
      else Err(UnknownTag(tag))
  }

  function TagOp(tag: byte): BinOp {
    if tag == 0x05 then Add else if tag == 0x06 then Sub else if tag == 0x07 then Mul else Div
  }

  function TakeExtent(rest: seq<byte>): (r: Result<Taken, CodecDecline>)
    ensures r.Ok? ==> |r.value.rest| <= |rest|
  {
    if |rest| < 2 then Err(Truncated)
    else Ok(Taken(Extent(rest[0], if rest[1] == LAST_SENTINEL then Last else Idx(rest[1])), rest[2..]))
  }

  function TakeConst(rest: seq<byte>): (r: Result<Taken, CodecDecline>)
    ensures r.Ok? ==> |r.value.rest| <= |rest|
  {
    if |rest| < 8 then Err(Truncated)
    else
      EightBytes();
      LeSpelling(rest[..8]);
      Ok(Taken(Const(Signed(FromLe(rest[..8]))), rest[8..]))
  }

  function TakeChild(bs: seq<byte>): (r: Result<Taken, CodecDecline>)
    ensures r.Ok? ==> |r.value.rest| < |bs|
    decreases |bs|, 1
  {
    if |bs| < 2 then Err(Truncated)
    else
      var len := FromLe(bs[..2]);
      var rest := bs[2..];
      if |rest| < len then Err(Truncated)
      else
        Whole(TakeDim(rest[..len]), rest[len..])
  }

  /** A child must use up its own bytes. */
  function Whole(r: Result<Taken, CodecDecline>, after: seq<byte>): Result<Taken, CodecDecline> {
    match r
    case Err(why) => Err(why)
    case Ok(t) => if t.rest == [] then Ok(Taken(t.e, after)) else Err(TrailingBytes)
  }

  function Decode(bs: seq<byte>): Result<DimExpr, CodecDecline> {
    match TakeDim(bs)
    case Err(why) => Err(why)
    case Ok(t) => if t.rest == [] then Ok(t.e) else Err(TrailingBytes)
  }

  // ---- the codec's laws

  /** Every child's encoding has a length the prefix can say. */
  predicate Fits(e: DimExpr) {
    e.Bin? ==> Fits(e.left) && Fits(e.right) && |Encode(e.left)| <= U16_MAX && |Encode(e.right)| <= U16_MAX
  }

  /** The index 255 is spelled like `Last`, and read back as it. */
  function Canon(e: DimExpr): DimExpr {
    match e
    case Extent(operand, axis) => Extent(operand, if axis == Idx(LAST_SENTINEL) then Last else axis)
    case Bin(op, left, right) => Bin(op, Canon(left), Canon(right))
    case _ => e
  }

  lemma PrefixLength(body: seq<byte>, tail: seq<byte>)
    ensures FromLe((Prefixed(body) + tail)[..2]) == Min(|body|, U16_MAX)
  {
    EightBytes();
    assert (Prefixed(body) + tail)[..2] == LeBytes(Min(|body|, U16_MAX), 2);
    LeRoundTrip(Min(|body|, U16_MAX), 2);
  }

  /** A child reads back whole if its length fits, and is cut short otherwise. */
  lemma ChildWhole(body: seq<byte>, tail: seq<byte>)
    requires |body| <= U16_MAX
    ensures TakeChild(Prefixed(body) + tail)
         == Whole(TakeDim(body), tail)
  {
    PrefixLength(body, tail);
    var all := Prefixed(body) + tail;
    assert all[2..][..|body|] == body && all[2..][|body|..] == tail;
  }

  lemma ChildCut(body: seq<byte>, tail: seq<byte>)
    requires |body| > U16_MAX && TakeDim(body[..U16_MAX]) == Err(Truncated)
    ensures TakeChild(Prefixed(body) + tail) == Err(Truncated)
  {
    PrefixLength(body, tail);
    var all := Prefixed(body) + tail;
    assert all[2..][..U16_MAX] == body[..U16_MAX];
  }

  /** What is left of a child when the blob ends inside it. */
  lemma ChildEnds(body: seq<byte>, n: nat)
    requires n < 2 + |body|
    requires |body| > U16_MAX ==> TakeDim(body[..U16_MAX]) == Err(Truncated)
    ensures TakeChild(Prefixed(body)[..n]) == Err(Truncated)
  {
    if n >= 2 {
      var all := Prefixed(body)[..n];
      PrefixLength(body, []);
      assert Prefixed(body) + [] == Prefixed(body) && all[..2] == Prefixed(body)[..2];
      assert all[2..] == body[..n - 2];
      if |body| > U16_MAX && n - 2 >= U16_MAX {
        assert all[2..][..U16_MAX] == body[..U16_MAX];
      }
    }
  }

  lemma LeafCut(e: DimExpr, n: nat)
    requires !e.Bin? && n < |Encode(e)|
    ensures TakeDim(Encode(e)[..n]) == Err(Truncated)
  {
    if n > 0 {
      assert Encode(e)[..n][0] == Encode(e)[0];
    }
  }

  /** A blob cut short never decodes to something else. */
  lemma {:induction false} CutIsTruncated(e: DimExpr, n: nat)
    requires n < |Encode(e)|
    ensures TakeDim(Encode(e)[..n]) == Err(Truncated)
    decreases e, 1
  {
    if !e.Bin? {
      LeafCut(e, n);
    } else if n > 0 {
      CutBehindTag(e, n);
      ChildrenCut(e, n - 1);
      BothCut(Encode(e)[..n], e.op, Encode(e)[..n][1..]);
    }
  }

  lemma CutBehindTag(e: DimExpr, n: pos)
    requires e.Bin? && n < |Encode(e)|
    ensures var children := Prefixed(Encode(e.left)) + Prefixed(Encode(e.right));
            n - 1 < |children| && Encode(e)[..n][0] == OpTag(e.op) && Encode(e)[..n][1..] == children[..n - 1]
  {
  }

  /** Two children cut short: one of them is truncated. */
  lemma {:induction false} ChildrenCut(e: DimExpr, n: nat)
    requires e.Bin? && n < |Prefixed(Encode(e.left)) + Prefixed(Encode(e.right))|
    ensures var rest := (Prefixed(Encode(e.left)) + Prefixed(Encode(e.right)))[..n];
            TakeChild(rest) == Err(Truncated) ||
            (TakeChild(rest).Ok? && TakeChild(TakeChild(rest).value.rest) == Err(Truncated))
    decreases e, 0
  {
    var (l, r) := (e.left, e.right);
    var (x, y) := (Prefixed(Encode(l)), Prefixed(Encode(r)));
    if n < |x| {
      assert (x + y)[..n] == x[..n];
      LongChild(l);
      ChildEnds(Encode(l), n);
    } else {
      assert (x + y)[..n] == x + y[..n - |x|];
      LongChild(r);
      ChildEnds(Encode(r), n - |x|);
      LeftChild(l, y[..n - |x|]);
    }
  }

  lemma {:induction false} LongChild(e: DimExpr)
    ensures |Encode(e)| > U16_MAX ==> TakeDim(Encode(e)[..U16_MAX]) == Err(Truncated)
    decreases e, 2
  {
    if |Encode(e)| > U16_MAX { CutIsTruncated(e, U16_MAX); }
  }

  lemma {:induction false} LeftChild(e: DimExpr, tail: seq<byte>)
    ensures TakeChild(Prefixed(Encode(e)) + tail)
         == if Fits(e) && |Encode(e)| <= U16_MAX then Ok(Taken(Canon(e), tail)) else Err(Truncated)
    decreases e, 2
  {
    if |Encode(e)| <= U16_MAX {
      ChildWhole(Encode(e), tail);
      TakeEncoded(e, []);
      assert Encode(e) + [] == Encode(e);
    } else {
      CutIsTruncated(e, U16_MAX);
      ChildCut(Encode(e), tail);
    }
  }

  lemma ConstEncoded(v: i64, tail: seq<byte>)
    ensures TakeConst(LeBytes(Unsigned(v), 8) + tail) == Ok(Taken(Const(v), tail))
  {
    EightBytes();
    LeRoundTrip(Unsigned(v), 8);
    var rest := LeBytes(Unsigned(v), 8) + tail;
    assert rest[..8] == LeBytes(Unsigned(v), 8) && rest[8..] == tail;
  }

  lemma LeafEncoded(e: DimExpr, tail: seq<byte>)
    requires !e.Bin?
    ensures TakeDim(Encode(e) + tail) == Ok(Taken(Canon(e), tail))
  {
    var all := Encode(e) + tail;
    if e.Extent? {
      assert all[1..] == [e.operand, AxisByte(e.axis)] + tail && all[1..][2..] == tail;
    } else if e.Param? {
      assert all[1..] == [e.field] + tail && all[1..][1..] == tail;
    } else {
      assert all[1..] == LeBytes(Unsigned(e.v), 8) + tail;
      ConstEncoded(e.v, tail);
    }
  }

  lemma {:induction false} TakeEncoded(e: DimExpr, tail: seq<byte>)
    ensures TakeDim(Encode(e) + tail) == if Fits(e) then Ok(Taken(Canon(e), tail)) else Err(Truncated)
    decreases e, 1
  {
    if e.Bin? {
      var (x, y) := (Prefixed(Encode(e.left)), Prefixed(Encode(e.right)));
      var (l, r) := (Encode(e.left), Encode(e.right));
      LeftChild(e.left, y + tail);
      LeftChild(e.right, tail);
      BothTaken(e.op, x, y, tail, Canon(e.left), Canon(e.right), Fits(e.left) && |l| <= U16_MAX,
                Fits(e.right) && |r| <= U16_MAX);
    } else {
      LeafEncoded(e, tail);
    }
  }

  lemma BinTaken(bs: seq<byte>, op: BinOp, rest: seq<byte>, mid: seq<byte>)
    requires bs != [] && bs[0] == OpTag(op) && bs[1..] == rest
    requires TakeChild(rest).Ok? ==> TakeChild(rest).value.rest == mid
    ensures TakeDim(bs) ==
              if TakeChild(rest).Err? then Err(TakeChild(rest).error)
              else if TakeChild(mid).Err? then Err(TakeChild(mid).error)
              else Ok(Taken(Bin(op, TakeChild(rest).value.e, TakeChild(mid).value.e), TakeChild(mid).value.rest))
  {
  }

  lemma BothTaken(op: BinOp, x: seq<byte>, y: seq<byte>, tail: seq<byte>, l: DimExpr, r: DimExpr, left: bool,
      right: bool)
    requires TakeChild(x + (y + tail)) == if left then Ok(Taken(l, y + tail)) else Err(Truncated)
    requires TakeChild(y + tail) == if right then Ok(Taken(r, tail)) else Err(Truncated)
    ensures TakeDim([OpTag(op)] + x + y + tail)
         == if left && right then Ok(Taken(Bin(op, l, r), tail)) else Err(Truncated)
  {
    BehindTag(OpTag(op), x, y, tail);
    BinTaken([OpTag(op)] + x + y + tail, op, x + (y + tail), y + tail);
  }

  lemma BothCut(bs: seq<byte>, op: BinOp, rest: seq<byte>)
    requires bs != [] && bs[0] == OpTag(op) && bs[1..] == rest
    requires TakeChild(rest) == Err(Truncated) ||
             (TakeChild(rest).Ok? && TakeChild(TakeChild(rest).value.rest) == Err(Truncated))
    ensures TakeDim(bs) == Err(Truncated)
  {
    BinTaken(bs, op, rest, if TakeChild(rest).Ok? then TakeChild(rest).value.rest else []);
  }

  lemma BehindTag(tag: byte, x: seq<byte>, y: seq<byte>, tail: seq<byte>)
    ensures var all := [tag] + x + y + tail;
            all[0] == tag && all[1..] == x + (y + tail)
  {
  }

  /** Decoding an encoding gives the expression back if every child's length fits its prefix, and
      declines as truncated otherwise: never another expression. */
  lemma DecodeEncode(e: DimExpr)
    ensures Decode(Encode(e)) == if Fits(e) then Ok(Canon(e)) else Err(Truncated)
  {
    TakeEncoded(e, []);
    assert Encode(e) + [] == Encode(e);
  }

  lemma ConstReencodes(rest: seq<byte>)
    requires TakeConst(rest).Ok?
    ensures var t := TakeConst(rest).value;
            t.e.Const? && rest == LeBytes(Unsigned(t.e.v), 8) + t.rest
  {
    EightBytes();
    LeSpelling(rest[..8]);
    assert rest == rest[..8] + rest[8..];
  }

  lemma {:induction false} TakeReencodes(bs: seq<byte>)
    requires TakeDim(bs).Ok?
    ensures var t := TakeDim(bs).value;
            bs == Encode(t.e) + t.rest && Fits(t.e) && Canon(t.e) == t.e
    decreases |bs|, 0
  {
    var (tag, rest) := (bs[0], bs[1..]);
    assert bs == [tag] + rest;
    if tag == 0x02 {
      assert rest == [rest[0], rest[1]] + rest[2..];
    } else if tag == 0x03 {
      ConstReencodes(rest);
    } else if tag == 0x04 {
      assert rest == [rest[0]] + rest[1..];
    } else {
      BinReencodes(tag, rest);
    }
  }

  lemma {:induction false} BinReencodes(tag: byte, rest: seq<byte>)
    requires 0x05 <= tag <= 0x08 && TakeChild(rest).Ok? && TakeChild(TakeChild(rest).value.rest).Ok?
    ensures var (l, r) := (TakeChild(rest).value, TakeChild(TakeChild(rest).value.rest).value);
            var e := Bin(TagOp(tag), l.e, r.e);
            [tag] + rest == Encode(e) + r.rest && Fits(e) && Canon(e) == e
    decreases |rest|, 2
  {
    var l := TakeChild(rest).value;
    var r := TakeChild(l.rest).value;
    ChildReencodes(rest);
    ChildReencodes(l.rest);
    assert OpTag(TagOp(tag)) == tag;
    BinPieces(tag, rest, l.rest, r.rest, Prefixed(Encode(l.e)), Prefixed(Encode(r.e)));
  }

  lemma BinPieces(tag: byte, rest: seq<byte>, mid: seq<byte>, end: seq<byte>, x: seq<byte>, y: seq<byte>)
    requires rest == x + mid && mid == y + end
    ensures [tag] + rest == [tag] + x + y + end
  {
  }

  lemma {:induction false} ChildReencodes(bs: seq<byte>)
    requires TakeChild(bs).Ok?
    ensures var t := TakeChild(bs).value;
            bs == Prefixed(Encode(t.e)) + t.rest && Fits(t.e) && Canon(t.e) == t.e && |Encode(t.e)| <= U16_MAX
    decreases |bs|, 1
  {
    var len := FromLe(bs[..2]);
    var body := bs[2..][..len];
    var t := TakeChild(bs).value;
    TakeReencodes(body);
    assert body == Encode(t.e) by {
      assert Encode(t.e) + [] == Encode(t.e);
    }
    LengthSpelled(bs[..2]);
    Pieces(bs, len);
  }

  lemma Pieces(bs: seq<byte>, len: nat)
    requires 2 + len <= |bs|
    ensures bs == bs[..2] + bs[2..][..len] + bs[2..][len..]
  {
  }

  lemma LengthSpelled(two: seq<byte>)
    requires |two| == 2
    ensures FromLe(two) <= U16_MAX && LeBytes(FromLe(two), 2) == two
  {
    EightBytes();
    LeSpelling(two);
  }

  /** Every accepted blob is the encoding of what it decodes to, so no two blobs decode alike. */
  lemma EncodeDecode(bs: seq<byte>)
    requires Decode(bs).Ok?
    ensures Encode(Decode(bs).value) == bs && Fits(Decode(bs).value) && Canon(Decode(bs).value) == Decode(bs).value
  {
    TakeReencodes(bs);
    var e := Decode(bs).value;
    assert Encode(e) + [] == Encode(e);
  }

  // ---- the encoder as it runs

  class ByteBuf {
    var bytes: seq<byte>

    constructor ()
      ensures bytes == []
    {
      bytes := [];
    }

    method Extend(more: seq<byte>)
      modifies this
      ensures bytes == old(bytes) + more
    {
      bytes := bytes + more;
    }
  }

  /** Appends the encoding; a child is first encoded into a buffer of its own. */
  method PushDim(e: DimExpr, out: ByteBuf)
    modifies out
    ensures out.bytes == old(out.bytes) + Encode(e)
    decreases e, 1
  {
    match e
    case Extent(operand, axis) => out.Extend([0x02, operand, AxisByte(axis)]);
    case Const(v) => out.Extend([0x03] + LeBytes(Unsigned(v), 8));
    case Param(f) => out.Extend([0x04, f]);
    case Bin(op, left, right) =>
      out.Extend([OpTag(op)]);
      PushChild(left, out);
      PushChild(right, out);
      Regroup(old(out.bytes), [OpTag(op)], Prefixed(Encode(left)), Prefixed(Encode(right)));
  }

  lemma Regroup(a: seq<byte>, b: seq<byte>, c: seq<byte>, d: seq<byte>)
    ensures a + b + c + d == a + (b + c + d) && a + b + c == a + (b + c)
  {
  }

  method PushChild(e: DimExpr, out: ByteBuf)
    modifies out
    ensures out.bytes == old(out.bytes) + Prefixed(Encode(e))
    decreases e, 2
  {
    var buf := new ByteBuf();
    PushDim(e, buf);
    assert buf.bytes == Encode(e);
    var len := if |buf.bytes| <= U16_MAX then |buf.bytes| else U16_MAX;
    out.Extend(LeBytes(len, 2));
    out.Extend(buf.bytes);
    Regroup(old(out.bytes), LeBytes(len, 2), Encode(e), []);
  }

  method EncodeDim(e: DimExpr) returns (bs: seq<byte>)
    ensures bs == Encode(e)
    ensures Decode(bs) == if Fits(e) then Ok(Canon(e)) else Err(Truncated)
  {
    DecodeEncode(e);
    var out := new ByteBuf();
    PushDim(e, out);
    assert [] + Encode(e) == Encode(e);
    bs := out.bytes;
  }
}
