/** What a shape expression evaluates to, over unbounded integers: the exact value where every value
    on the way fits 64 bits, the nearest end of the range where a sum, difference or product does not,
    and the first reason to decline in the order the operands are read. */
module ShapeValues {
  import opened Wrappers
  import opened Arith
  import opened ShapeExprs

  /** `q` is the quotient of `x` by `y` toward minus infinity: what it leaves is on the divisor's side
      of zero and smaller than it. */
  ghost predicate QuotientOf(x: int, y: int, q: int) {
    y != 0 && var rest := x - y * q; if y > 0 then 0 <= rest < y else y < rest <= 0
  }

  ghost predicate ResultOf(op: BinOp, x: int, y: int, v: int) {
    match op
    case Add => v == x + y
    case Sub => v == x - y
    case Mul => v == x * y
    case Div => QuotientOf(x, y, v)
  }

  /** The expression has the exact value `v`, and every expression in it a value of 64 bits. */
  ghost predicate HasValue(e: DimExpr, os: seq<seq<Length>>, ps: seq<Length>, v: int) {
    && InI64(v)
    && match e
       case Const(c) => v == c
       case Param(f) => f < |ps| && ps[f].Known? && v == ps[f].v
       case Extent(o, Idx(a)) => o < |os| && a < |os[o]| && os[o][a].Known? && v == os[o][a].v
       case Extent(o, Last) => o < |os| && os[o] != [] && os[o][|os[o]| - 1].Known? && v == os[o][|os[o]| - 1].v
       case Bin(op, left, right) =>
         exists x, y :: HasValue(left, os, ps, x) && HasValue(right, os, ps, y) && ResultOf(op, x, y, v)
  }

  lemma QuotientIs(x: int, y: int, q: int)
    requires QuotientOf(x, y, q)
    ensures q == FloorDiv(x, y)
  {
    FloorUnique(x, y, q);
  }

  /** An expression with an exact value evaluates to it. */
  lemma {:induction false} EvaluatesToValue(e: DimExpr, os: seq<seq<Length>>, ps: seq<Length>, v: int)
    requires HasValue(e, os, ps, v)
    ensures EvalDim(e, os, ps) == Ok(Value(v))
  {
    match e
    case Bin(op, left, right) =>
      var x, y :| HasValue(left, os, ps, x) && HasValue(right, os, ps, y) && ResultOf(op, x, y, v);
      EvaluatesToValue(left, os, ps, x);
      EvaluatesToValue(right, os, ps, y);
      if op.Div? {
        QuotientIs(x, y, v);
        FloorDivFits(x, y);
      }
    case _ =>
  }

  /** What an operator makes of two values: the exact result, or the end of the range it is past. */
  lemma OperatorValue(op: BinOp, left: DimExpr, right: DimExpr, os: seq<seq<Length>>, ps: seq<Length>, x: i64, y: i64)
    requires EvalDim(left, os, ps) == Ok(Value(x)) && EvalDim(right, os, ps) == Ok(Value(y))
    ensures var r := EvalDim(Bin(op, left, right), os, ps);
            match op
            case Add => r == Ok(Value(if x + y > I64_MAX then I64_MAX else if x + y < I64_MIN then I64_MIN else x + y))
            case Sub => r == Ok(Value(if x - y > I64_MAX then I64_MAX else if x - y < I64_MIN then I64_MIN else x - y))
            case Mul => r == Ok(Value(if x * y > I64_MAX then I64_MAX else if x * y < I64_MIN then I64_MIN else x * y))
            case Div =>
              if y == 0 then r == Err(DivByZero)
              else if x == I64_MIN && y == -1 then r == Err(DivOverflow)
              else r.Ok? && r.value.Value? && QuotientOf(x, y, r.value.v)
  {
    if op.Div? && y != 0 {
      FloorDivIsFloor(x, y);
      FloorDivFits(x, y);
    }
  }

  /** Why an expression is declined, the first reason in the order it is read. */
  ghost predicate Refused(e: DimExpr, os: seq<seq<Length>>, ps: seq<Length>, why: ShapeDecline) {
    match e
    case Const(_) => false
    case Param(f) => f >= |ps| && why == ParamOutOfRange(f)
    case Extent(o, Idx(a)) =>
      if o >= |os| then why == OperandOutOfRange(o) else a >= |os[o]| && why == AxisOutOfRange(o, a, |os[o]|)
    case Extent(o, Last) => if o >= |os| then why == OperandOutOfRange(o) else os[o] == [] && why == LastOnRank0(o)
    case Bin(op, left, right) =>
      Refused(left, os, ps, why) ||
      (EvalDim(left, os, ps).Ok? && Refused(right, os, ps, why)) ||
      (op.Div? && EvalDim(right, os, ps) == Ok(Value(0)) && why == DivByZero &&
       EvalDim(left, os, ps).Ok? && EvalDim(left, os, ps).value.Value?) ||
      (op.Div? && EvalDim(left, os, ps) == Ok(Value(I64_MIN)) && EvalDim(right, os, ps) == Ok(Value(-1)) &&
       why == DivOverflow)
  }

  lemma {:induction false} DeclinedWhenRefused(e: DimExpr, os: seq<seq<Length>>, ps: seq<Length>, why: ShapeDecline)
    ensures EvalDim(e, os, ps) == Err(why) <==> Refused(e, os, ps, why)
  {
    match e
    case Bin(op, left, right) =>
      DeclinedWhenRefused(left, os, ps, why);
      DeclinedWhenRefused(right, os, ps, why);
      if EvalDim(left, os, ps).Err? { DeclinedWhenRefused(left, os, ps, EvalDim(left, os, ps).error); }
    case Extent(o, axis) =>
    case _ =>
  }

  /** A gap is what reads a symbolic extent and is not declined. */
  ghost predicate ReadsSymbolic(e: DimExpr, os: seq<seq<Length>>, ps: seq<Length>) {
    match e
    case Const(_) => false
    case Param(f) => f < |ps| && ps[f].Symbolic?
    case Extent(o, Idx(a)) => o < |os| && a < |os[o]| && os[o][a].Symbolic?
    case Extent(o, Last) => o < |os| && os[o] != [] && os[o][|os[o]| - 1].Symbolic?
    case Bin(_, left, right) => ReadsSymbolic(left, os, ps) || ReadsSymbolic(right, os, ps)
  }

  lemma {:induction false} GapWhenSymbolic(e: DimExpr, os: seq<seq<Length>>, ps: seq<Length>)
    requires EvalDim(e, os, ps).Ok?
    ensures EvalDim(e, os, ps) == Ok(Gap) <==> ReadsSymbolic(e, os, ps)
  {
    match e
    case Bin(op, left, right) =>
      GapWhenSymbolic(left, os, ps);
      GapWhenSymbolic(right, os, ps);
    case _ =>
  }

  // ---- the wire form

  lemma SmallLe(n: byte)
    ensures LeBytes(n, 2) == [n, 0] && LeBytes(n, 8) == [n, 0, 0, 0, 0, 0, 0, 0]
  {
    Zeros(1);
    Zeros(7);
    assert LeBytes(0, 1) == [0] && LeBytes(0, 7) == [0, 0, 0, 0, 0, 0, 0];
    assert [n] + [0, 0, 0, 0, 0, 0, 0] == [n, 0, 0, 0, 0, 0, 0, 0];
  }

  lemma {:induction false} Zeros(k: nat)
    ensures LeBytes(0, k) == seq(k, _ => 0)
  {
    if k > 0 {
      Zeros(k - 1);
    }
  }

  /** The leaves: an extent with its axis, the last one as 0xFF; a constant in eight bytes, lowest first
      and negative ones in two's complement; a parameter. */
  lemma LeafBytes()
    ensures Encode(Extent(1, Last)) == [0x02, 0x01, 0xFF] && Encode(Extent(0, Idx(3))) == [0x02, 0x00, 0x03]
    ensures Encode(Const(1)) == [0x03, 1, 0, 0, 0, 0, 0, 0, 0] && Encode(Param(4)) == [0x04, 0x04]
    ensures Encode(Const(-1)) == [0x03, 255, 255, 255, 255, 255, 255, 255, 255]
  {
    SmallLe(1);
    AllOnes();
  }

  lemma AllOnes()
    ensures LeBytes(Unsigned(-1), 8) == [255, 255, 255, 255, 255, 255, 255, 255]
  {
    EightBytes();
    var bs: seq<byte> := [255, 255, 255, 255, 255, 255, 255, 255];
    LeSpelling(bs);
    FromLeOnes(8);
    assert bs == seq(8, _ => 255);
  }

  lemma {:induction false} FromLeOnes(k: nat)
    ensures FromLe(seq(k, _ => 255)) == Pow256(k) - 1
  {
    if k > 0 {
      FromLeOnes(k - 1);
      assert seq(k, _ => 255)[1..] == seq(k - 1, _ => 255);
    }
  }

  /** An operator: its tag, and each child behind its length in two bytes. */
  lemma OperatorBytes(op: BinOp)
    ensures Encode(Bin(op, Param(0), Const(2))) ==
            [match op case Add => 0x05 case Sub => 0x06 case Mul => 0x07 case Div => 0x08] +
            [0x02, 0x00, 0x04, 0x00] + [0x09, 0x00, 0x03, 2, 0, 0, 0, 0, 0, 0, 0]
  {
    ParamChild();
    ConstChild();
  }

  lemma ParamChild()
    ensures Prefixed(Encode(Param(0))) == [0x02, 0x00, 0x04, 0x00]
  {
    SmallLe(2);
    assert Encode(Param(0)) == [0x04, 0];
  }

  lemma ConstChild()
    ensures Prefixed(Encode(Const(2))) == [0x09, 0x00, 0x03, 2, 0, 0, 0, 0, 0, 0, 0]
  {
    SmallLe(2);
    SmallLe(9);
    var body := [0x03, 2, 0, 0, 0, 0, 0, 0, 0];
    assert Encode(Const(2)) == body && |body| == 9;
  }

  /** What else a first byte can be: reserved, unknown, or missing. */
  lemma TagDeclines(bs: seq<byte>)
    ensures bs == [] ==> Decode(bs) == Err(Truncated)
    ensures bs != [] && bs[0] in {0x00, 0x09, 0x0A, 0x0B} ==> Decode(bs) == Err(ReservedTag(bs[0]))
    ensures bs != [] && (bs[0] == 0x01 || bs[0] > 0x0B) ==> Decode(bs) == Err(UnknownTag(bs[0]))
  {
  }
}
