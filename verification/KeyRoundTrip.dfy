/** Printing a structure key and reading it back: which keys survive, and what of them. */
module KeyRoundTrip {
  import opened Wrappers
  import opened Arith
  import opened Text
  import opened KeyCodes
  import opened StructureKeys
  import Targets

  // ---- operands

  lemma HexClean(n: nat)
    requires n < 256
    ensures Clean(Hex2(n), CUTS) && |Hex2(n)| == 2
  {
  }

  lemma {:induction false} JoinClean(parts: seq<string>, sep: char, cuts: set<char>)
    requires parts != [] && sep !in cuts && forall i :: 0 <= i < |parts| ==> Clean(parts[i], cuts)
    ensures Clean(Join(parts, sep), cuts)
  {
    if |parts| > 1 {
      JoinClean(parts[1..], sep, cuts);
    }
  }

  lemma OperandFieldsClean(o: OperandKey)
    requires o.bcast < 256
    ensures forall i :: 0 <= i < |OperandFields(o)| ==> Clean(OperandFields(o)[i], CUTS)
  {
    ContigRoundTrip(o.contig, "");
    HexClean(o.bcast);
    VecRoundTrip(o.vec, "");
    DivRoundTrip(o.div, "");
    FlipRoundTrip(o.flipped, "");
    if o.dequant.Some? {
      DequantRoundTrip(o.dequant.value, "");
    }
  }

  lemma OperandRoundTrip(o: OperandKey)
    requires o.bcast < 256
    ensures ReadOperand(OperandText(o)) == Some(o)
    ensures Clean(OperandText(o), {'|', ';'}) && OperandText(o) != ""
  {
    OperandFieldsClean(o);
    var f := OperandFields(o);
    SplitJoin(f, '/');
    JoinClean(f, '/', {'|', ';'});
    ContigRoundTrip(o.contig, "");
    ParseHex2(o.bcast);
    VecRoundTrip(o.vec, "");
    DivRoundTrip(o.div, "");
    FlipRoundTrip(o.flipped, "");
    if o.dequant.Some? {
      DequantRoundTrip(o.dequant.value, "");
    }
  }

  lemma {:induction false} JoinNonempty(parts: seq<string>, sep: char)
    requires parts != [] && parts[0] != ""
    ensures Join(parts, sep) != ""
  {
  }

  lemma OperandsRoundTrip(os: seq<OperandKey>)
    requires |os| <= MAX_OPERANDS && forall i :: 0 <= i < |os| ==> os[i].bcast < 256
    ensures ReadOperands(OperandsField(os)) == Some(os)
    ensures Clean(OperandsField(os), {'|'})
  {
    if os != [] {
      var texts := OperandTexts(os);
      forall i | 0 <= i < |os| ensures ReadOperand(texts[i]) == Some(os[i]) && Clean(texts[i], {'|', ';'}) &&
          texts[i] != "" {
        OperandRoundTrip(os[i]);
      }
      SplitJoin(texts, ';');
      JoinClean(texts, ';', {'|'});
      JoinNonempty(texts, ';');
      assert ReadEach(texts).Some? && ReadEach(texts).value == os;
    }
  }

  // ---- the reduce field

  lemma AxesBounds(rank: nat)
    requires rank <= MAX_RANK
    ensures AllAxes(rank) < 256 && (rank > 0 ==> LastAxis(rank) <= AllAxes(rank) && LastAxis(rank) > 0)
  {
    assert Pow2(0) == 1 && Pow2(1) == 2 && Pow2(2) == 4 && Pow2(3) == 8;
    assert Pow2(4) == 16 && Pow2(5) == 32 && Pow2(6) == 64;
    assert Pow2(7) == 128 && Pow2(8) == 256;
  }

  /** A set of axes the frame has reads back; one that names an axis it lacks does not. */
  lemma ReduceRoundTrip(axes: nat, rank: nat)
    requires axes < 256 && rank <= MAX_RANK
    ensures ReadReduce(ReduceField(axes, rank), rank) == if axes <= AllAxes(rank) then Ok(axes) else Err(BadReduceField)
    ensures Clean(ReduceField(axes, rank), {'|'})
  {
    AxesBounds(rank);
    ParseHex2(axes);
    HexClean(axes);
    var field := ReduceField(axes, rank);
    if field[0] == 'x' {
      assert After(field, "x") == Hex2(axes);
    }
  }

  // ---- the contraction group

  lemma DecimalDigit(d: nat)
    requires d < 10
    ensures Decimal(d) == [Digit(d)] && DigitValue(Digit(d), 10) == Some(d)
  {
  }

  lemma {:induction false} DigitsRoundTrip(o: LayoutOrder, rank: nat, seen: set<nat>)
    requires rank <= MAX_RANK
    requires forall i :: 0 <= i < |o| ==> o[i] < rank && o[i] !in seen
    requires forall i, j :: 0 <= i < j < |o| ==> o[i] != o[j]
    ensures |OrderDigits(o)| == |o| && ReadDigits(OrderDigits(o), rank, seen) == Some(o)
    ensures Clean(OrderDigits(o), CUTS)
  {
    if o != [] {
      DecimalDigit(o[0]);
      DigitsRoundTrip(o[1..], rank, seen + {o[0]});
      assert OrderDigits(o)[1..] == OrderDigits(o[1..]);
      assert [o[0]] + o[1..] == o;
    }
  }

  lemma OrderRoundTrip(o: LayoutOrder, rank: nat)
    requires IsPermutation(o) && 0 < |o| <= MAX_RANK
    ensures ReadOrder(OrderDigits(o), rank) == if |o| == rank then Some(o) else None
    ensures Clean(OrderDigits(o), CUTS)
  {
    DigitsRoundTrip(o, |o|, {});
  }

  /** The rank of a contraction's operands, as the reader rebuilds it. */
  function CellRank(c: ContractionKey): nat { if c.batch.Some? then 3 else 2 }

  function FoldOrder(o: LayoutOrder, rank: nat): LayoutOrder { if IsIdentity(o) then Identity(rank) else o }

  predicate OrderFits(o: LayoutOrder, rank: nat) { IsIdentity(o) || |o| == rank }

  lemma TakeOrderRoundTrip(tag: string, o: LayoutOrder, rest: seq<string>, rank: nat)
    requires IsPermutation(o) && |o| <= MAX_RANK && |tag| == 2
    requires rest == [] || !Lead(rest[0], tag)
    ensures TakeOrder(OrderFields(tag, o) + rest, tag, rank)
         == if OrderFits(o, rank) then Some(Taken(FoldOrder(o, rank), rest)) else None
    ensures forall i :: 0 <= i < |OrderFields(tag, o)| ==> Clean(OrderFields(tag, o)[i], CUTS) || !Clean(tag, CUTS)
  {
    if IsIdentity(o) {
      assert OrderFields(tag, o) + rest == rest;
    } else {
      OrderRoundTrip(o, rank);
      assert After(tag + OrderDigits(o), tag) == OrderDigits(o);
      assert (OrderFields(tag, o) + rest)[1..] == rest;
    }
  }

  lemma OrderFieldsLead(tag: string, o: LayoutOrder, prefix: string)
    requires |tag| == 2 && prefix != "" && |prefix| <= 2 && !(prefix <= tag)
    ensures OrderFields(tag, o) == [] || !Lead(OrderFields(tag, o)[0], prefix)
  {
    if !IsIdentity(o) {
      var s := tag + OrderDigits(o);
      assert s[..|prefix|] == tag[..|prefix|];
    }
  }

  lemma GeometryClean(c: ContractionKey)
    requires IsPermutation(c.lhsOrder) && |c.lhsOrder| <= MAX_RANK && IsPermutation(c.rhsOrder) &&
             |c.rhsOrder| <= MAX_RANK
    ensures forall i :: 0 <= i < |Geometry(c)| ==> Clean(Geometry(c)[i], CUTS)
  {
    TakeOrderRoundTrip("ol", c.lhsOrder, [], 2);
    TakeOrderRoundTrip("or", c.rhsOrder, [], 2);
    BatchRoundTrip(c.batch, []);
  }

  lemma OrdersDiffer(l: LayoutOrder, r: LayoutOrder)
    ensures var (x, y) := (OrderFields("ol", l), OrderFields("or", r));
            (x + y == [] || !Lead((x + y)[0], "b")) && (y == [] || !Lead(y[0], "ol"))
  {
    assert "ol"[0] != "b"[0] && "or"[0] != "b"[0] && "or"[1] != "ol"[1];
    OrderFieldsLead("ol", l, "b");
    OrderFieldsLead("or", r, "b");
    OrderFieldsLead("or", r, "ol");
  }

  lemma BatchTaken(c: ContractionKey)
    ensures TakeBatch(Geometry(c)) ==
            Some(Taken(c.batch, OrderFields("ol", c.lhsOrder) + OrderFields("or", c.rhsOrder)))
  {
    var rest := OrderFields("ol", c.lhsOrder) + OrderFields("or", c.rhsOrder);
    OrdersDiffer(c.lhsOrder, c.rhsOrder);
    BatchRoundTrip(c.batch, rest);
    assert Geometry(c) == (if c.batch.Some? then [['b', SizeCode(c.batch.value)]] else []) + rest;
  }

  lemma OrdersTaken(l: LayoutOrder, r: LayoutOrder, rank: nat)
    requires IsPermutation(l) && |l| <= MAX_RANK && IsPermutation(r) && |r| <= MAX_RANK
    ensures TakeOrder(OrderFields("ol", l) + OrderFields("or", r), "ol", rank)
         == if OrderFits(l, rank) then Some(Taken(FoldOrder(l, rank), OrderFields("or", r))) else None
    ensures TakeOrder(OrderFields("or", r), "or", rank)
         == if OrderFits(r, rank) then Some(Taken(FoldOrder(r, rank), [])) else None
  {
    OrdersDiffer(l, r);
    TakeOrderRoundTrip("ol", l, OrderFields("or", r), rank);
    TakeOrderRoundTrip("or", r, [], rank);
    assert OrderFields("or", r) + [] == OrderFields("or", r);
  }

  lemma GeometryRoundTrip(c: ContractionKey)
    requires IsPermutation(c.lhsOrder) && |c.lhsOrder| <= MAX_RANK && IsPermutation(c.rhsOrder) &&
             |c.rhsOrder| <= MAX_RANK
    ensures ReadGeometry(Geometry(c))
         == if OrderFits(c.lhsOrder, CellRank(c)) && OrderFits(c.rhsOrder, CellRank(c))
            then Some(GeometryRead(c.batch, FoldOrder(c.lhsOrder, CellRank(c)), FoldOrder(c.rhsOrder, CellRank(c))))
                else None
  {
    BatchTaken(c);
    OrdersTaken(c.lhsOrder, c.rhsOrder, CellRank(c));
  }

  lemma BatchRoundTrip(batch: Option<SizeClass>, rest: seq<string>)
    requires rest == [] || !Lead(rest[0], "b")
    ensures var mid := (if batch.Some? then [['b', SizeCode(batch.value)]] else []) + rest;
            TakeBatch(mid) == Some(Taken(batch, rest))
    ensures batch.Some? ==> Clean(['b', SizeCode(batch.value)], CUTS)
  {
    if batch.Some? {
      SizeRoundTrip(batch.value, 't');
      assert ([['b', SizeCode(batch.value)]] + rest)[1..] == rest;
    } else {
      assert [] + rest == rest;
    }
  }

  /** A contraction group reads back iff its orders fit the cell's rank, none of its dtypes is
      reserved and it does not accumulate in an MX element. */
  predicate ContractionReadable(c: ContractionKey) {
    && OrderFits(c.lhsOrder, CellRank(c)) && OrderFits(c.rhsOrder, CellRank(c))
    && !IsReserved(c.wdt) && !IsReserved(c.acc) && !IsMxElement(c.acc) && !IsReserved(c.out)
    && (c.scale.Some? ==> !IsReserved(c.scale.value))
  }

  function CanonContraction(c: ContractionKey): ContractionKey {
    c.(lhsOrder := FoldOrder(c.lhsOrder, CellRank(c)), rhsOrder := FoldOrder(c.rhsOrder, CellRank(c)),
       wdt := Fold(c.wdt), acc := Fold(c.acc), out := Fold(c.out),
       scale := if c.scale.Some? then Some(Fold(c.scale.value)) else None)
  }

  lemma UsableRoundTrip(d: DType)
    ensures Usable(DTypeCode(d)) == if IsReserved(d) then None else Some(Fold(d))
    ensures UsableAcc(DTypeCode(d)) == if IsReserved(d) || IsMxElement(d) then None else Some(Fold(d))
  {
    DTypeRoundTrip(d);
  }

  lemma GroupRoundTrip(c: ContractionKey, scale: Option<DType>)
    requires IsPermutation(c.lhsOrder) && |c.lhsOrder| <= MAX_RANK && IsPermutation(c.rhsOrder) &&
             |c.rhsOrder| <= MAX_RANK
    ensures ReadGroup([Sizes(c), DivCode(c.kDiv)] + Geometry(c) + PrecisionGroup(c), scale)
         == if ContractionReadable(c.(scale := None)) then Some(CanonContraction(c).(scale := scale)) else None
  {
    var comps := [Sizes(c), DivCode(c.kDiv)] + Geometry(c) + PrecisionGroup(c);
    assert comps[|comps| - 4..] == PrecisionGroup(c) && comps[2..|comps| - 4] == Geometry(c);
    GeometryRoundTrip(c);
    SizeRoundTrip(c.m, 't');
    SizeRoundTrip(c.n, 't');
    SizeRoundTrip(c.k, 't');
    DivRoundTrip(c.kDiv, "");
    UsableRoundTrip(c.wdt);
    UsableRoundTrip(c.acc);
    UsableRoundTrip(c.out);
    MpRoundTrip(c.mp, "");
  }

  lemma ContractionFieldsClean(c: ContractionKey)
    requires IsPermutation(c.lhsOrder) && |c.lhsOrder| <= MAX_RANK && IsPermutation(c.rhsOrder) &&
             |c.rhsOrder| <= MAX_RANK
    ensures forall i :: 0 <= i < |ContractionFields(c)| ==> Clean(ContractionFields(c)[i], CUTS)
  {
    GeometryClean(c);
    SizeRoundTrip(c.m, 't');
    SizeRoundTrip(c.n, 't');
    SizeRoundTrip(c.k, 't');
    DivRoundTrip(c.kDiv, "");
    DTypeRoundTrip(c.wdt);
    DTypeRoundTrip(c.acc);
    DTypeRoundTrip(c.out);
    MpRoundTrip(c.mp, "");
    if c.scale.Some? {
      DTypeRoundTrip(c.scale.value);
    }
    var (x, y, z) := ([Sizes(c), DivCode(c.kDiv)], PrecisionGroup(c), ScaleFields(c));
    assert forall i :: 0 <= i < |x| ==> Clean(x[i], CUTS);
    assert forall i :: 0 <= i < |y| ==> Clean(y[i], CUTS);
    assert forall i :: 0 <= i < |z| ==> Clean(z[i], CUTS);
  }

  /** A scale coordinate at the end is told from an `<mp>` code by its `q`. */
  lemma ScaleTaken(group: seq<string>, d: DType)
    ensures ReadComponents(group + ["q" + DTypeCode(d)])
         == if IsReserved(d) then None else ReadGroup(group, Some(Fold(d)))
  {
    var last := "q" + DTypeCode(d);
    assert After(last, "q") == DTypeCode(d);
    assert (group + [last])[..|group|] == group;
    UsableRoundTrip(d);
  }

  lemma NoScaleTaken(front: seq<string>, mp: Precision)
    ensures ReadComponents(front + [MpCode(mp)]) == ReadGroup(front + [MpCode(mp)], None)
  {
    assert MpCode(mp)[0] != "q"[0];
  }

  lemma ComponentsRoundTrip(c: ContractionKey)
    requires IsPermutation(c.lhsOrder) && |c.lhsOrder| <= MAX_RANK && IsPermutation(c.rhsOrder) &&
             |c.rhsOrder| <= MAX_RANK
    ensures ReadComponents(ContractionFields(c)) == if ContractionReadable(c) then Some(CanonContraction(c)) else None
  {
    var group := [Sizes(c), DivCode(c.kDiv)] + Geometry(c) + PrecisionGroup(c);
    if c.scale.Some? {
      ScaleTaken(group, c.scale.value);
      GroupRoundTrip(c, Some(Fold(c.scale.value)));
    } else {
      var front := [Sizes(c), DivCode(c.kDiv)] + Geometry(c) + PrecisionGroup(c)[..3];
      assert group == front + [MpCode(c.mp)] && ContractionFields(c) == group;
      NoScaleTaken(front, c.mp);
      GroupRoundTrip(c, None);
    }
  }

  lemma ContractionRoundTrip(c: ContractionKey)
    requires IsPermutation(c.lhsOrder) && |c.lhsOrder| <= MAX_RANK && IsPermutation(c.rhsOrder) &&
             |c.rhsOrder| <= MAX_RANK
    ensures ReadContraction(ContractionField(c)) == if ContractionReadable(c) then Some(CanonContraction(c)) else None
    ensures Clean(ContractionField(c), {'|'}) && Lead(ContractionField(c), "c")
  {
    var comps := ContractionFields(c);
    ContractionFieldsClean(c);
    SplitJoin(comps, '/');
    JoinClean(comps, '/', {'|'});
    assert After(ContractionField(c), "c") == Join(comps, '/');
    ComponentsRoundTrip(c);
  }

  // ---- the tenth field and the whole token

  /** What a key's optional field must not hold for the token to be read. A `c64` or `c128`
      accumulator outside a contraction starts the field with the `c` that announces one. */
  predicate TenthReadable(k: StructureKey) {
    if k.cellClass.Ctr? then k.contraction.Some? && ContractionReadable(k.contraction.value)
    else
      match PrintedAccMp(k)
      case Some(a) => !IsReserved(a.acc) && !IsMxElement(a.acc) && !a.acc.Complex64? && !a.acc.Complex128?
      case None => true
  }

  predicate Readable(k: StructureKey) {
    && k.version == VERSION && !IsReserved(k.dtype)
    && k.reduceAxes <= AllAxes(k.rank) && (k.reduceAxes != 0) == k.cellClass.Rdc?
    && TenthReadable(k)
  }

  /** The key a token denotes: dtypes folded, identity orders at the cell's rank, and only the
      optional field the class has. */
  function Canon(k: StructureKey): StructureKey {
    k.(dtype := Fold(k.dtype),
       contraction := if k.cellClass.Ctr? && k.contraction.Some? then Some(CanonContraction(k.contraction.value))
           else None,
       accMp := if k.cellClass.Ctr? then None else PrintedAccMp(k))
  }

  lemma AccMpRoundTrip(a: AccMp, compute: DType)
    requires NewAccMp(compute, a.acc, a.mp) == Some(a)
    ensures var text := DTypeCode(a.acc) + "/" + MpCode(a.mp);
            Clean(text, {'|'}) && (Lead(text, "c") <==> a.acc.Complex64? || a.acc.Complex128?) &&
            ReadAccMp(text, Fold(compute)) ==
              if IsReserved(a.acc) then Err(ReservedDtype(DTypeCode(a.acc)))
              else if IsMxElement(a.acc) then Err(ElementDtypeAsAccumulator) else Ok(a)
  {
    var text := DTypeCode(a.acc) + "/" + MpCode(a.mp);
    DTypeRoundTrip(a.acc);
    MpRoundTrip(a.mp, "");
    DTypeLead(a.acc);
    var parts := [DTypeCode(a.acc), MpCode(a.mp)];
    SplitJoin(parts, '/');
    assert Join(parts, '/') == text;
    assert text[0] == DTypeCode(a.acc)[0];
  }

  lemma TenthRoundTrip(k: StructureKey, nine: seq<string>)
    requires Constructible(k) && |nine| == 9
    ensures forall i :: 0 <= i < |TenthField(k)| ==> Clean(TenthField(k)[i], {'|'})
    ensures ReadTenth(nine + TenthField(k), k.cellClass, Fold(k.dtype))
         == if TenthReadable(k) then Some(Tenth(Canon(k).contraction, Canon(k).accMp)) else None
  {
    if k.cellClass.Ctr? {
      if k.contraction.Some? {
        ContractionRoundTrip(k.contraction.value);
      }
    } else if PrintedAccMp(k).Some? {
      AccMpRoundTrip(PrintedAccMp(k).value, k.dtype);
    }
  }

  lemma VersionRoundTrip(version: nat)
    ensures ReadVersion("sk" + Decimal(version)) == Some(VERSION) <==> version == VERSION
    ensures Clean("sk" + Decimal(version), {'|'})
  {
    var field := "sk" + Decimal(version);
    assert After(field, "sk") == Decimal(version);
    NumberOfDecimal(version);
    assert Decimal(6) == "6";
  }

  lemma RankRoundTrip(rank: nat)
    requires rank <= MAX_RANK
    ensures ReadRank("r" + Decimal(rank)) == Some(rank) && Clean("r" + Decimal(rank), {'|'})
  {
    assert After("r" + Decimal(rank), "r") == Decimal(rank);
    ParseDecimal(rank, 255);
  }

  lemma NineFieldsClean(k: StructureKey)
    requires Constructible(k)
    ensures forall i :: 0 <= i < 9 ==> Clean(NineFields(k)[i], {'|'})
  {
    var f := NineFields(k);
    assert Clean(f[0], {'|'}) by { VersionRoundTrip(k.version); }
    assert Clean(f[1], {'|'}) by { ClassRoundTrip(k.cellClass, ""); }
    assert Clean(f[2], {'|'}) by { DTypeRoundTrip(k.dtype); }
    assert Clean(f[3], {'|'}) by { Targets.WellFormedClean(k.target); }
    assert Clean(f[4], {'|'}) by { IdxRoundTrip(k.idx, ""); }
    assert Clean(f[5], {'|'}) by { WorkRoundTrip(k.work, ""); }
    assert Clean(f[6], {'|'}) by { RankRoundTrip(k.rank); }
    assert Clean(f[7], {'|'}) by { OperandsRoundTrip(k.operands); }
    assert Clean(f[8], {'|'}) by { ReduceRoundTrip(k.reduceAxes, k.rank); }
  }

  lemma PartsRoundTrip(k: StructureKey)
    requires Constructible(k)
    ensures ReadParts(NineFields(k) + TenthField(k)) == if Readable(k) then Some(Canon(k)) else None
  {
    TenthRoundTrip(k, NineFields(k));
    HeadRoundTrip(k);
    CellRoundTrip(k);
    var parts := NineFields(k) + TenthField(k);
    assert parts[..9] == NineFields(k);
  }

  /** The fields every class has. */
  lemma HeadRoundTrip(k: StructureKey)
    requires Constructible(k)
    ensures var f := NineFields(k);
            (ReadVersion(f[0]) == Some(VERSION) <==> k.version == VERSION) && ClassFrom(f[1]) == Some(k.cellClass) &&
            Usable(f[2]) == (if IsReserved(k.dtype) then None else Some(Fold(k.dtype))) &&
            f[3] == k.target && Targets.Verdict(f[3]).None? && IdxFrom(f[4]) == Some(k.idx)
  {
    var f := NineFields(k);
    assert ReadVersion(f[0]) == Some(VERSION) <==> k.version == VERSION by { VersionRoundTrip(k.version); }
    assert ClassFrom(f[1]) == Some(k.cellClass) by { ClassRoundTrip(k.cellClass, ""); }
    assert Usable(f[2]) == (if IsReserved(k.dtype) then None else Some(Fold(k.dtype))) by { UsableRoundTrip(k.dtype); }
    assert Targets.Verdict(f[3]).None? by { Targets.VerdictIsGrammar(k.target); }
    IdxRoundTrip(k.idx, "");
  }

  lemma CellRoundTrip(k: StructureKey)
    requires Constructible(k)
    ensures var f := NineFields(k);
            WorkFrom(f[5]) == Some(k.work) && ReadRank(f[6]) == Some(k.rank) &&
                ReadOperands(f[7]) == Some(k.operands) &&
            ReadReduce(f[8], k.rank) ==
              if k.reduceAxes <= AllAxes(k.rank) then Ok(k.reduceAxes) else Err(BadReduceField)
  {
    var f := NineFields(k);
    assert WorkFrom(f[5]) == Some(k.work) by { WorkRoundTrip(k.work, ""); }
    assert ReadRank(f[6]) == Some(k.rank) by { RankRoundTrip(k.rank); }
    assert ReadOperands(f[7]) == Some(k.operands) by { OperandsRoundTrip(k.operands); }
    ReduceRoundTrip(k.reduceAxes, k.rank);
  }

  /** The reader takes a printed token back exactly when the key is readable, and then it gives the
      key the token denotes. */
  lemma TokenRoundTrip(k: StructureKey)
    requires Constructible(k)
    ensures FromToken(ToToken(k)) == if Readable(k) then Some(Canon(k)) else None
  {
    var parts := NineFields(k) + TenthField(k);
    NineFieldsClean(k);
    TenthRoundTrip(k, NineFields(k));
    SplitJoin(parts, '|');
    PartsRoundTrip(k);
  }

  // ---- what the token forgets

  lemma {:induction false} CanonPrintsTheSame(k: StructureKey)
    requires Constructible(k) && Readable(k)
    ensures Constructible(Canon(k)) && Readable(Canon(k)) && Canon(Canon(k)) == Canon(k)
    ensures ToToken(Canon(k)) == ToToken(k)
  {
    var k' := Canon(k);
    assert NineFields(k') == NineFields(k);
    if k.cellClass.Ctr? {
      CanonContractionPrints(k.contraction.value);
    }
    assert TenthField(k') == TenthField(k);
  }

  lemma CanonContractionPrints(c: ContractionKey)
    requires IsPermutation(c.lhsOrder) && IsPermutation(c.rhsOrder) && ContractionReadable(c)
    ensures var c' := CanonContraction(c);
            ContractionReadable(c') && CanonContraction(c') == c' && IsPermutation(c'.lhsOrder) &&
                IsPermutation(c'.rhsOrder) &&
            |c'.lhsOrder| == |c'.rhsOrder| == CellRank(c) && ContractionField(c') == ContractionField(c)
  {
    var c' := CanonContraction(c);
    FoldOrderKeeps("ol", c.lhsOrder, CellRank(c));
    FoldOrderKeeps("or", c.rhsOrder, CellRank(c));
    assert ContractionFields(c') == ContractionFields(c);
  }

  lemma FoldOrderKeeps(tag: string, o: LayoutOrder, rank: nat)
    requires IsPermutation(o) && OrderFits(o, rank)
    ensures var o' := FoldOrder(o, rank);
            OrderFields(tag, o') == OrderFields(tag, o) && FoldOrder(o', rank) == o' && IsPermutation(o') &&
                |o'| == rank
  {
    if IsIdentity(FoldOrder(o, rank)) {
      assert FoldOrder(o, rank) == Identity(rank);
    }
  }

  lemma SameTokenSameKey(k: StructureKey, k': StructureKey)
    requires Constructible(k) && Readable(k) && Constructible(k') && Readable(k')
    ensures ToToken(k) == ToToken(k') ==> Canon(k) == Canon(k')
  {
    TokenRoundTrip(k);
    TokenRoundTrip(k');
  }

  /** Tokens identify keys: two readable keys print the same token iff they denote the same key. */
  lemma TokensIdentify(k: StructureKey, k': StructureKey)
    requires Constructible(k) && Readable(k) && Constructible(k') && Readable(k')
    ensures ToToken(k) == ToToken(k') <==> Canon(k) == Canon(k')
  {
    SameTokenSameKey(k, k');
    CanonPrintsTheSame(k);
    CanonPrintsTheSame(k');
  }

  /** Reading a printed token and printing it again changes nothing. */
  lemma ReprintsIdentically(k: StructureKey)
    requires Constructible(k) && Readable(k)
    ensures var r := FromToken(ToToken(k));
            r.Some? && Constructible(r.value) && ToToken(r.value) == ToToken(k)
  {
    TokenRoundTrip(k);
    CanonPrintsTheSame(k);
  }

  lemma Sm89WellFormed()
    ensures Targets.WellFormed("cuda:sm89")
  {
    var s, ns, cap := "cuda:sm89", "cuda", "sm89";
    assert s == ns + ":" + cap && ns != "" && cap != "" && ':' !in ns && ':' !in cap;
    assert forall i :: 0 <= i < |s| ==> !Targets.Forbidden(s[i]);
  }

  function WideningReduction(acc: DType): StructureKey {
    StructureKey(6, Rdc, F16, "cuda:sm89", Idx32, OneWarp, 1, [], 1, None, Some(AccMp(acc, St)))
  }

  lemma WideningReadable(acc: DType)
    requires acc == Complex64 || acc == F32
    ensures Constructible(WideningReduction(acc)) && Canon(WideningReduction(acc)) == WideningReduction(acc)
    ensures Readable(WideningReduction(acc)) <==> acc == F32
  {
    Sm89WellFormed();
    assert Pow2(1) == 2 && Pow2(0) == 1;
  }

  lemma WideningRead(acc: DType, k: StructureKey)
    requires (acc == Complex64 || acc == F32) && k == WideningReduction(acc)
    ensures Constructible(k) && FromToken(ToToken(k)) == if acc == F32 then Some(k) else None
  {
    WideningReadable(acc);
    TokenRoundTrip(k);
  }

  /** A reduction in `f16` that accumulates in `c64` prints a token the reader refuses, where one
      that accumulates in `f32` is read back. */
  lemma ComplexAccumulatorRefused(refused: StructureKey, read: StructureKey)
    requires refused == WideningReduction(Complex64) && read == WideningReduction(F32)
    ensures Constructible(refused) && FromToken(ToToken(refused)).None?
    ensures Constructible(read) && FromToken(ToToken(read)) == Some(read)
  {
    WideningRead(Complex64, refused);
    WideningRead(F32, read);
  }
}
