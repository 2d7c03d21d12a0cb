/** Structure keys and their token: the printer and the strict reader (KISS-CLASSIFY sections 6.6 and
    6.7). A target stands as its token text; interning it is the business of `Targets`. */
module StructureKeys {
  import opened Wrappers
  import opened Arith
  import opened Text
  import opened KeyCodes
  import Targets

  const VERSION := 6
  const MAX_RANK := 8
  const MAX_OPERANDS := 8

  /** The storage axis read at each logical position. */
  type LayoutOrder = seq<nat>

  datatype OperandKey = OperandKey(contig: Contiguity, bcast: nat, vec: VecWidth, div: DivBucket, flipped: bool,
      dequant: Option<DequantForm>)

  datatype ContractionKey = ContractionKey(m: SizeClass, n: SizeClass, k: SizeClass, kDiv: DivBucket,
      batch: Option<SizeClass>,
                                           lhsOrder: LayoutOrder, rhsOrder: LayoutOrder,
                                           wdt: DType, acc: DType, out: DType, mp: Precision, scale: Option<DType>)

  datatype AccMp = AccMp(acc: DType, mp: Precision)

  datatype StructureKey = StructureKey(version: nat, cellClass: CellClass, dtype: DType, target: string,
      idx: IdxWidth, work: WorkClass,
                                       rank: nat, operands: seq<OperandKey>, reduceAxes: nat,
                                       contraction: Option<ContractionKey>, accMp: Option<AccMp>)

  predicate IsIdentity(o: LayoutOrder) { forall i :: 0 <= i < |o| ==> o[i] == i }

  predicate IsPermutation(o: LayoutOrder) {
    && (forall i :: 0 <= i < |o| ==> o[i] < |o|)
    && forall i, j :: 0 <= i < j < |o| ==> o[i] != o[j]
  }

  function Identity(rank: nat): (o: LayoutOrder)
    ensures |o| == rank && IsIdentity(o)
  {
    seq(rank, i => i)
  }

  /** What the constructors of the key's parts guarantee: fixed-size arrays, byte masks, interned
      targets, orders that are permutations. */
  ghost predicate Constructible(k: StructureKey) {
    && Targets.WellFormed(k.target)
    && k.rank <= MAX_RANK && |k.operands| <= MAX_OPERANDS && k.reduceAxes < 256
    && (forall i :: 0 <= i < |k.operands| ==> k.operands[i].bcast < 256)
    && (k.contraction.Some? ==>
          var c := k.contraction.value;
          IsPermutation(c.lhsOrder) && |c.lhsOrder| <= MAX_RANK && IsPermutation(c.rhsOrder) &&
              |c.rhsOrder| <= MAX_RANK)
  }

  /** `AccMp::new`: the pair, unless it says nothing the compute dtype does not. */
  function NewAccMp(compute: DType, acc: DType, mp: Precision): Option<AccMp> {
    if Fold(acc) == Fold(compute) && mp.St? then None else Some(AccMp(Fold(acc), mp))
  }

  // ---- printing

  function OperandFields(o: OperandKey): seq<string>
    requires o.bcast < 256
  {
    [ContigCode(o.contig), Hex2(o.bcast), VecCode(o.vec), DivCode(o.div), FlipCode(o.flipped)]
    + (if o.dequant.Some? then [DequantCode(o.dequant.value)] else [])
  }

  function OperandText(o: OperandKey): string
    requires o.bcast < 256
  {
    Join(OperandFields(o), '/')
  }

  function OperandTexts(os: seq<OperandKey>): (r: seq<string>)
    requires forall i :: 0 <= i < |os| ==> os[i].bcast < 256
    ensures |r| == |os| && forall i :: 0 <= i < |os| ==> r[i] == OperandText(os[i])
  {
    seq(|os|, i requires 0 <= i < |os| => OperandText(os[i]))
  }

  function OperandsField(os: seq<OperandKey>): string
    requires forall i :: 0 <= i < |os| ==> os[i].bcast < 256
  {
    if os == [] then "" else Join(OperandTexts(os), ';')
  }

  /** `all_axes_mask`. */
  function AllAxes(rank: nat): nat { Pow2(rank) - 1 }

  function LastAxis(rank: nat): nat
    requires rank > 0
  {
    Pow2(rank - 1)
  }

  /** `reduce_field_code`: `rall` before `rlast`. */
  function ReduceField(axes: nat, rank: nat): string
    requires axes < 256
  {
    if axes == 0 then "-"
    else if rank > 0 && axes == AllAxes(rank) then "rall"
    else if rank > 0 && axes == LastAxis(rank) then "rlast"
    else "x" + Hex2(axes)
  }

  /** `order_digits`. */
  function OrderDigits(o: LayoutOrder): string {
    if o == [] then "" else Decimal(o[0]) + OrderDigits(o[1..])
  }

  function OrderFields(tag: string, o: LayoutOrder): seq<string> {
    if IsIdentity(o) then [] else [tag + OrderDigits(o)]
  }

  function Geometry(c: ContractionKey): seq<string> {
    (if c.batch.Some? then [['b', SizeCode(c.batch.value)]] else [])
    + OrderFields("ol", c.lhsOrder) + OrderFields("or", c.rhsOrder)
  }

  function PrecisionGroup(c: ContractionKey): (r: seq<string>)
    ensures |r| == 4
  {
    [DTypeCode(c.wdt), DTypeCode(c.acc), DTypeCode(c.out), MpCode(c.mp)]
  }

  function ScaleFields(c: ContractionKey): seq<string> {
    if c.scale.Some? then ["q" + DTypeCode(c.scale.value)] else []
  }

  function Sizes(c: ContractionKey): string { [SizeCode(c.m), SizeCode(c.n), SizeCode(c.k)] }

  function ContractionFields(c: ContractionKey): (r: seq<string>)
    ensures |r| >= 6
  {
    [Sizes(c), DivCode(c.kDiv)] + Geometry(c) + PrecisionGroup(c) + ScaleFields(c)
  }

  function ContractionField(c: ContractionKey): string { "c" + Join(ContractionFields(c), '/') }

  /** The `(acc + mp)` field a key prints, re-derived rather than trusted. */
  function PrintedAccMp(k: StructureKey): Option<AccMp> {
    if k.accMp.Some? then NewAccMp(k.dtype, k.accMp.value.acc, k.accMp.value.mp) else None
  }

  /** The optional tenth field; which one it is, the cell class decides. */
  function TenthField(k: StructureKey): seq<string> {
    if k.cellClass.Ctr? then
      if k.contraction.Some? then [ContractionField(k.contraction.value)] else []
    else
      match PrintedAccMp(k)
      case Some(a) => [DTypeCode(a.acc) + "/" + MpCode(a.mp)]
      case None => []
  }

  function NineFields(k: StructureKey): (r: seq<string>)
    requires k.reduceAxes < 256 && forall i :: 0 <= i < |k.operands| ==> k.operands[i].bcast < 256
    ensures |r| == 9
  {
    ["sk" + Decimal(k.version), ClassCode(k.cellClass), DTypeCode(k.dtype), k.target, IdxCode(k.idx), WorkCode(k.work),
     "r" + Decimal(k.rank), OperandsField(k.operands), ReduceField(k.reduceAxes, k.rank)]
  }

  /** `to_token`. */
  function ToToken(k: StructureKey): string
    requires k.reduceAxes < 256 && forall i :: 0 <= i < |k.operands| ==> k.operands[i].bcast < 256
  {
    Join(NineFields(k) + TenthField(k), '|')
  }

  // ---- declines

  datatype TokenDecline =
    | ReservedDtype(spelling: string)
    | Unrecognized
    | UnsupportedSchemaVersion(version: nat)
    | BadVersionPrefix
    | BadAccMpField
    | RedundantAccMpField
    | NonCanonicalReduceField
    | BadReduceField
    | UnknownDtype
    | ElementDtypeAsAccumulator
    | UnknownCellClass
    | BadOperandSubKey
    | BadDequantForm
    | ReduceNotGatedToRdc
    | RdcWithoutReduce
    | ContractionPresenceMismatch
    | BadContractionField

  // ---- reading

  predicate Lead(s: string, prefix: string) { prefix <= s }

  function After(s: string, prefix: string): string
    requires Lead(s, prefix)
  {
    s[|prefix|..]
  }

  predicate AllDigits(s: string) { forall i :: 0 <= i < |s| ==> '0' <= s[i] <= '9' }

  /** `parse_canonical_version`: canonical spelling first, then the number. */
  function ReadVersion(field: string): Option<nat> {
    if !Lead(field, "sk") then None else
      var digits := After(field, "sk");
      if digits == "" || !AllDigits(digits) then None
      else if |digits| > 1 && digits[0] == '0' then None
      else ParseUnsigned(digits, 10, 65535)
  }

  function ReadRank(field: string): Option<nat> {
    if Lead(field, "r") then ParseUnsigned(After(field, "r"), 10, 255) else None
  }

  /** `parse_operand`. */
  function ReadOperand(field: string): Option<OperandKey> {
    var f := Split(field, {'/'});
    if |f| != 5 && |f| != 6 then None
    else if |f| == 6 && DequantFrom(f[5]).None? then None
    else
      var (contig, bcast, vec, div, flip) := (ContigFrom(f[0]), ParseUnsigned(f[1], 16, 255), VecFrom(f[2]),
          DivFrom(f[3]), FlipFrom(f[4]));
      if contig.None? || bcast.None? || vec.None? || div.None? || flip.None? then None
      else Some(OperandKey(contig.value, bcast.value, vec.value, div.value, flip.value,
                           if |f| == 6 then DequantFrom(f[5]) else None))
  }

  function ReadEach(fields: seq<string>): (r: Option<seq<OperandKey>>)
    ensures r.Some? ==> |r.value| == |fields|
    ensures r.Some? ==> forall i :: 0 <= i < |fields| ==> ReadOperand(fields[i]) == Some(r.value[i])
    ensures (exists i :: 0 <= i < |fields| && ReadOperand(fields[i]).None?) ==> r.None?
    ensures (forall i :: 0 <= i < |fields| ==> ReadOperand(fields[i]).Some?) ==> r.Some?
  {
    if fields == [] then Some([]) else
      var (first, rest) := (ReadOperand(fields[0]), ReadEach(fields[1..]));
      if first.Some? && rest.Some? then Some([first.value] + rest.value) else None
  }

  function ReadOperands(field: string): Option<seq<OperandKey>> {
    if field == "" then Some([]) else
      var fields := Split(field, {';'});
      if |fields| > MAX_OPERANDS then None else ReadEach(fields)
  }

  /** `parse_reduce_field`. The source shifts a byte by the rank, which is why a rank past the
      ceiling has no meaning here. */
  function ReadReduce(field: string, rank: nat): Result<nat, TokenDecline>
    requires rank <= MAX_RANK
  {
    if field == "-" then Ok(0)
    else if field == "rall" then (if rank > 0 then Ok(AllAxes(rank)) else Err(NonCanonicalReduceField))
    else if field == "rlast" then (if rank > 0 then Ok(LastAxis(rank)) else Err(BadReduceField))
    else if !Lead(field, "x") then Err(Unrecognized)
    else
      match ParseUnsigned(After(field, "x"), 16, 255)
      case None => Err(Unrecognized)
      case Some(mask) =>
        if mask > AllAxes(rank) then Err(BadReduceField)
        else if mask == 0 || (rank > 0 && (mask == AllAxes(rank) || mask == LastAxis(rank)))
            then Err(NonCanonicalReduceField)
        else Ok(mask)
  }

  /** `parse_acc_mp`. */
  function ReadAccMp(field: string, compute: DType): Result<AccMp, TokenDecline> {
    var parts := Split(field, {'/'});
    if |parts| != 2 then Err(BadAccMpField)
    else
      match DTypeFrom(parts[0])
      case None => Err(Unrecognized)
      case Some(acc) =>
        if IsReserved(acc) then Err(ReservedDtype(parts[0]))
        else if IsMxElement(acc) then Err(ElementDtypeAsAccumulator)
        else
          match MpFrom(parts[1])
          case None => Err(BadAccMpField)
          case Some(mp) =>
            match NewAccMp(compute, acc, mp)
            case Some(a) => Ok(a)
            case None => Err(RedundantAccMpField)
  }

  /** `order_from_digits`: `rank` digits, each below `rank`, none twice. */
  function ReadDigits(s: string, rank: nat, seen: set<nat>): Option<LayoutOrder> {
    if s == "" then Some([])
    else
      match DigitValue(s[0], 10)
      case None => None
      case Some(d) =>
        if d >= rank || d in seen then None
        else
          match ReadDigits(s[1..], rank, seen + {d})
          case Some(o) => Some([d] + o)
          case None => None
  }

  function ReadOrder(s: string, rank: nat): Option<LayoutOrder> {
    if |s| == 0 || |s| > MAX_RANK || |s| != rank then None else ReadDigits(s, rank, {})
  }

  /** An optional component at the front of what is left of the geometry. */
  datatype Taken<T> = Taken(value: T, rest: seq<string>)

  function TakeBatch(mid: seq<string>): Option<Taken<Option<SizeClass>>> {
    if mid == [] || !Lead(mid[0], "b") then Some(Taken(None, mid))
    else if |mid[0]| != 2 then None
    else
      match SizeFrom(mid[0][1])
      case Some(b) => Some(Taken(Some(b), mid[1..]))
      case None => None
  }

  function TakeOrder(mid: seq<string>, tag: string, rank: nat): Option<Taken<LayoutOrder>> {
    if mid == [] || !Lead(mid[0], tag) then Some(Taken(Identity(rank), mid))
    else
      match ReadOrder(After(mid[0], tag), rank)
      case Some(o) => Some(Taken(o, mid[1..]))
      case None => None
  }

  datatype GeometryRead = GeometryRead(batch: Option<SizeClass>, lhs: LayoutOrder, rhs: LayoutOrder)

  /** The optional components, in their fixed order, with nothing left over. */
  function ReadGeometry(mid: seq<string>): Option<GeometryRead> {
    match TakeBatch(mid)
    case None => None
    case Some(b) =>
      var rank := if b.value.Some? then 3 else 2;
      match TakeOrder(b.rest, "ol", rank)
      case None => None
      case Some(l) =>
        match TakeOrder(l.rest, "or", rank)
        case None => None
        case Some(r) => if r.rest != [] then None else Some(GeometryRead(b.value, l.value, r.value))
  }

  function Usable(code: string): Option<DType> {
    match DTypeFrom(code)
    case Some(d) => if IsReserved(d) then None else Some(d)
    case None => None
  }

  function UsableAcc(code: string): Option<DType> {
    match Usable(code)
    case Some(d) => if IsMxElement(d) then None else Some(d)
    case None => None
  }

  /** The contraction group less its scale coordinate. */
  function ReadGroup(comps: seq<string>, scale: Option<DType>): Option<ContractionKey> {
    if |comps| < 6 then None else
      var prec := comps[|comps| - 4..];
      var geometry := ReadGeometry(comps[2..|comps| - 4]);
      var sizes := comps[0];
      if geometry.None? || |sizes| != 3 then None
      else
        var (m, n, k) := (SizeFrom(sizes[0]), SizeFrom(sizes[1]), SizeFrom(sizes[2]));
        var (kDiv, wdt, acc, out, mp) := (DivFrom(comps[1]), Usable(prec[0]), UsableAcc(prec[1]), Usable(prec[2]),
            MpFrom(prec[3]));
        if m.None? || n.None? || k.None? || kDiv.None? || wdt.None? || acc.None? || out.None? || mp.None? then None
        else Some(ContractionKey(m.value, n.value, k.value, kDiv.value, geometry.value.batch, geometry.value.lhs,
            geometry.value.rhs,
                                 wdt.value, acc.value, out.value, mp.value, scale))
  }

  /** The components of the group, the last of them a scale coordinate or not. */
  function ReadComponents(comps: seq<string>): Option<ContractionKey>
    requires comps != []
  {
    var last := comps[|comps| - 1];
    if !Lead(last, "q") then ReadGroup(comps, None)
    else
      match Usable(After(last, "q"))
      case None => None
      case Some(d) => ReadGroup(comps[..|comps| - 1], Some(d))
  }

  function ReadContraction(field: string): Option<ContractionKey> {
    if Lead(field, "c") then ReadComponents(Split(After(field, "c"), {'/'})) else None
  }

  /** The tenth field, dispatched by class. */
  datatype Tenth = Tenth(contraction: Option<ContractionKey>, accMp: Option<AccMp>)

  function ReadTenth(parts: seq<string>, cls: CellClass, dtype: DType): Option<Tenth>
    requires |parts| == 9 || |parts| == 10
  {
    if cls.Ctr? != (|parts| == 10 && Lead(parts[9], "c")) then None
    else if |parts| == 9 then Some(Tenth(None, None))
    else if cls.Ctr? then
      match ReadContraction(parts[9])
      case Some(c) => Some(Tenth(Some(c), None))
      case None => None
    else
      match ReadAccMp(parts[9], dtype)
      case Ok(a) => Some(Tenth(None, Some(a)))
      case Err(_) => None
  }

  function ReadParts(parts: seq<string>): Option<StructureKey>
    requires |parts| == 9 || |parts| == 10
  {
    var (version, cls, dtype) := (ReadVersion(parts[0]), ClassFrom(parts[1]), Usable(parts[2]));
    var (idx, work, rank) := (IdxFrom(parts[4]), WorkFrom(parts[5]), ReadRank(parts[6]));
    if version != Some(VERSION) || cls.None? || dtype.None? || Targets.Verdict(parts[3]).Some? || idx.None? ||
        work.None? || rank.None? then None
    else if rank.value > MAX_RANK then None
    else
      var (operands, reduce) := (ReadOperands(parts[7]), ReadReduce(parts[8], rank.value));
      if operands.None? || reduce.Err? || (reduce.value == 0) == cls.value.Rdc? then None
      else
        match ReadTenth(parts, cls.value, dtype.value)
        case None => None
        case Some(tenth) =>
          Some(StructureKey(VERSION, cls.value, dtype.value, parts[3], idx.value, work.value, rank.value,
              operands.value,
                            reduce.value, tenth.contraction, tenth.accMp))
  }

  /** `from_token`. */
  function FromToken(token: string): Option<StructureKey> {
    var parts := Split(token, {'|'});
    if |parts| != 9 && |parts| != 10 then None else ReadParts(parts)
  }
}
