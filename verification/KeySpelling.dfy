/** Which accepted tokens print back byte for byte. The reader is meant to let one spelling through
    for each key; it lets through five kinds of others, and no more. */
module KeySpelling {
  import opened Wrappers
  import opened Arith
  import opened Text
  import opened KeyCodes
  import opened StructureKeys
  import opened KeyRoundTrip
  import opened KeyReading
  import Targets

  // ---- numbers with one spelling

  predicate PlainDecimal(s: string) { s != "" && AllDigits(s) && (|s| > 1 ==> s[0] != '0') }

  predicate PlainHex(s: string) { |s| == 2 && forall i :: 0 <= i < 2 ==> '0' <= s[i] <= '9' || 'a' <= s[i] <= 'f' }

  lemma {:induction false} NumberOfNonzero(s: string)
    requires s != "" && AllDigits(s) && s[0] != '0'
    ensures NumberOf(s, 10).Some? && NumberOf(s, 10).value > 0
  {
    var front := s[..|s| - 1];
    if front == "" {
      assert NumberOf(front, 10) == Some(0);
    } else {
      NumberOfNonzero(front);
    }
  }

  /** A decimal number has one plain spelling. */
  lemma {:induction false} DecimalUnique(s: string)
    requires PlainDecimal(s)
    ensures NumberOf(s, 10).Some? && Decimal(NumberOf(s, 10).value) == s
  {
    var front := s[..|s| - 1];
    assert s == front + [s[|s| - 1]];
    if front == "" {
      assert NumberOf(front, 10) == Some(0);
    } else {
      DecimalUnique(front);
      NumberOfNonzero(front);
      DecimalSnoc(NumberOf(front, 10).value, DigitValue(s[|s| - 1], 10).value);
    }
  }

  /** The spelling of a number ends in its last digit. */
  lemma DecimalSnoc(v: pos, d: nat)
    requires d < 10
    ensures Decimal(v * 10 + d) == Decimal(v) + [Digit(d)]
  {
    assert (v * 10 + d) / 10 == v && (v * 10 + d) % 10 == d;
  }

  lemma {:induction false} DecimalPlain(n: nat)
    ensures PlainDecimal(Decimal(n)) && (n > 0 ==> Decimal(n)[0] != '0')
  {
    if n >= 10 {
      DecimalPlain(n / 10);
    }
  }

  /** A version is read up to 65535 and a rank up to 255. */
  lemma NumbersRead(n: nat)
    ensures ReadVersion("sk" + Decimal(n)) == (if n <= 65535 then Some(n) else None)
    ensures ReadRank("r" + Decimal(n)) == (if n <= 255 then Some(n) else None)
  {
    DecimalPlain(n);
    NumberOfDecimal(n);
    assert After("sk" + Decimal(n), "sk") == Decimal(n) && After("r" + Decimal(n), "r") == Decimal(n);
    assert Decimal(n)[0] != '+';
  }

  lemma {:induction false} ZeroInFront(s: string)
    ensures NumberOf("0" + s, 10) == NumberOf(s, 10)
  {
    if s == "" {
      assert "0" + s == "0" && "0"[..0] == "";
      assert NumberOf("", 10) == Some(0) && DigitValue('0', 10) == Some(0);
    } else {
      ZeroInFront(s[..|s| - 1]);
      assert ("0" + s)[..|s|] == "0" + s[..|s| - 1];
    }
  }

  /** The spellings beside the printed one that are let through: a sign, leading zeros, capital hex
      digits, and an identity order spelled out. */
  lemma LooseSpellings(n: nat)
    requires n <= 255
    ensures ReadRank("r+" + Decimal(n)) == Some(n) && ReadRank("r0" + Decimal(n)) == Some(n)
    ensures ParseUnsigned("0A", 16, 255) == Some(10) && ParseUnsigned("+a", 16, 255) == Some(10)
    ensures ReadOrder("01", 2) == Some([0, 1])
  {
    LooseRanks(n);
    HexTen();
    LooseOrder();
  }

  lemma LooseRanks(n: nat)
    requires n <= 255
    ensures ReadRank("r+" + Decimal(n)) == Some(n) && ReadRank("r0" + Decimal(n)) == Some(n)
  {
    NumberOfDecimal(n);
    SignedRank(Decimal(n), n);
    ZeroInFront(Decimal(n));
    PaddedRank(Decimal(n), n);
  }

  lemma SignedRank(digits: string, n: nat)
    requires digits != "" && NumberOf(digits, 10) == Some(n) && n <= 255
    ensures ReadRank("r+" + digits) == Some(n)
  {
    assert After("r+" + digits, "r") == "+" + digits && ("+" + digits)[1..] == digits;
  }

  lemma PaddedRank(digits: string, n: nat)
    requires NumberOf("0" + digits, 10) == Some(n) && n <= 255
    ensures ReadRank("r0" + digits) == Some(n)
  {
    assert After("r0" + digits, "r") == "0" + digits;
  }

  lemma LooseOrder()
    ensures ReadOrder("01", 2) == Some([0, 1])
  {
    assert "01"[1..] == "1" && "1"[1..] == "";
    assert ReadDigits("", 2, {} + {0} + {1}) == Some([]);
    assert ReadDigits("1", 2, {} + {0}) == Some([1] + []);
    assert [0] + ([1] + []) == [0, 1];
  }

  lemma HexTen()
    ensures ParseUnsigned("0A", 16, 255) == Some(10) && ParseUnsigned("+a", 16, 255) == Some(10)
  {
    assert "0A"[..1] == "0" && "0"[..0] == "" && "+a"[1..] == "a" && "a"[..0] == "";
    assert NumberOf("", 16) == Some(0) && NumberOf("0", 16) == Some(0);
  }

  lemma ReadDecimal(s: string, max: nat)
    requires ParseUnsigned(s, 10, max).Some?
    ensures Decimal(ParseUnsigned(s, 10, max).value) == s <==> PlainDecimal(s)
  {
    DecimalPlain(ParseUnsigned(s, 10, max).value);
    if PlainDecimal(s) {
      DecimalUnique(s);
    }
  }

  lemma ReadHex(s: string)
    requires ParseUnsigned(s, 16, 255).Some?
    ensures Hex2(ParseUnsigned(s, 16, 255).value) == s <==> PlainHex(s)
  {
    if PlainHex(s) {
      assert s[..1] == [s[0]] && s[..1][..0] == "";
      var (h, l) := (DigitValue(s[0], 16).value, DigitValue(s[1], 16).value);
      assert NumberOf(s[..1], 16) == Some(h);
      assert NumberOf(s, 16) == Some(h * 16 + l);
      assert (h * 16 + l) / 16 == h && (h * 16 + l) % 16 == l;
    }
  }

  // ---- the fields

  predicate PlainOperand(field: string) {
    var f := Split(field, {'/'});
    |f| > 1 && PlainHex(f[1])
  }

  predicate PlainOperands(field: string) {
    field == "" || forall i :: 0 <= i < |Split(field, {';'})| ==> PlainOperand(Split(field, {';'})[i])
  }

  /** At rank 1 the last axis is all the axes, and `rall` is its spelling. */
  predicate PlainReduce(field: string, rank: nat) {
    (Lead(field, "x") ==> PlainHex(After(field, "x"))) && !(field == "rlast" && rank == 1)
  }

  /** An order that says nothing: `ol01`, `or012` and the like. */
  predicate IdleOrder(comp: string) {
    (Lead(comp, "ol") || Lead(comp, "or")) && (comp[2..] == "01" || comp[2..] == "012")
  }

  predicate PlainContraction(field: string) {
    Lead(field, "c") && forall i :: 0 <= i < |Split(After(field, "c"), {'/'})| ==>
        !IdleOrder(Split(After(field, "c"), {'/'})[i])
  }

  /** What a caller can check of a token's leaves: no sign, no leading zero and no capital in a
      number, no `rlast` at rank 1, no identity order spelled out. */
  predicate PlainToken(token: string) {
    var parts := Split(token, {'|'});
    && |parts| >= 9
    && Lead(parts[6], "r") && PlainDecimal(After(parts[6], "r"))
    && PlainOperands(parts[7])
    && PlainReduce(parts[8], if ReadRank(parts[6]).Some? then ReadRank(parts[6]).value else 0)
    && (|parts| == 10 && parts[1] == "ctr" ==> PlainContraction(parts[9]))
  }

  lemma OperandSpelling(field: string)
    requires ReadOperand(field).Some?
    ensures ReadOperand(field).value.bcast < 256
    ensures OperandText(ReadOperand(field).value) == field <==> PlainOperand(field)
  {
    var f := Split(field, {'/'});
    var o := ReadOperand(field).value;
    JoinSplit(field, '/');
    ContigRoundTrip(o.contig, f[0]);
    ReadHex(f[1]);
    VecRoundTrip(o.vec, f[2]);
    DivRoundTrip(o.div, f[3]);
    FlipRoundTrip(o.flipped, f[4]);
    if |f| == 6 {
      DequantRoundTrip(o.dequant.value, f[5]);
    }
    var g := OperandFields(o);
    assert |f| == |g| && (forall i :: 0 <= i < |f| && i != 1 ==> f[i] == g[i]);
    if PlainOperand(field) {
      assert f == g;
    } else if OperandText(o) == field {
      OperandFieldsClean(o);
      SplitJoin(g, '/');
    }
  }

  lemma OperandsSpelling(field: string)
    requires ReadOperands(field).Some?
    ensures forall i :: 0 <= i < |ReadOperands(field).value| ==> ReadOperands(field).value[i].bcast < 256
    ensures OperandsField(ReadOperands(field).value) == field <==> PlainOperands(field)
  {
    if field != "" {
      var fields := Split(field, {';'});
      var os := ReadOperands(field).value;
      JoinSplit(field, ';');
      forall i | 0 <= i < |os| ensures os[i].bcast < 256 &&
          (OperandText(os[i]) == fields[i] <==> PlainOperand(fields[i])) {
        OperandSpelling(fields[i]);
      }
      OperandTextsSpelling(os, fields);
    }
  }

  lemma OperandTextsSpelling(os: seq<OperandKey>, fields: seq<string>)
    requires |os| == |fields| > 0 && forall i :: 0 <= i < |os| ==> os[i].bcast < 256
    requires forall i :: 0 <= i < |fields| ==> Clean(fields[i], {';'})
    ensures Join(OperandTexts(os), ';') == Join(fields, ';') <==>
            forall i :: 0 <= i < |os| ==> OperandText(os[i]) == fields[i]
  {
    var texts := OperandTexts(os);
    forall i | 0 <= i < |os| ensures Clean(texts[i], {';'}) {
      OperandRoundTrip(os[i]);
    }
    SplitJoin(texts, ';');
    SplitJoin(fields, ';');
    if forall i :: 0 <= i < |os| ==> OperandText(os[i]) == fields[i] {
      assert texts == fields;
    }
  }

  lemma ReduceSpelling(field: string, rank: nat)
    requires rank <= MAX_RANK && ReadReduce(field, rank).Ok?
    ensures ReadReduce(field, rank).value < 256
    ensures ReduceField(ReadReduce(field, rank).value, rank) == field <==> PlainReduce(field, rank)
  {
    var axes := ReadReduce(field, rank).value;
    ReduceAccepted(field, rank);
    AxesBounds(rank);
    if Lead(field, "x") {
      assert field == "x" + After(field, "x") && field[0] == 'x';
      assert "-"[0] != 'x' && "rall"[0] != 'x' && "rlast"[0] != 'x';
      ReadHex(After(field, "x"));
      HexClean(axes);
      assert ReduceField(axes, rank) == "x" + Hex2(axes);
      assert After("x" + Hex2(axes), "x") == Hex2(axes);
    } else if field == "rlast" {
      LastIsAll(rank);
      assert "rlast" != "rall";
    }
  }

  lemma LastIsAll(rank: nat)
    requires 0 < rank <= MAX_RANK
    ensures LastAxis(rank) == AllAxes(rank) <==> rank == 1
  {
    assert Pow2(rank) == 2 * Pow2(rank - 1);
    if rank > 1 {
      assert Pow2(rank - 1) == 2 * Pow2(rank - 2);
    } else {
      assert Pow2(0) == 1;
    }
  }

  // ---- the contraction group

  lemma IdleDigits(s: string, rank: nat)
    requires rank == 2 || rank == 3
    requires ReadOrder(s, rank).Some?
    ensures IsIdentity(ReadOrder(s, rank).value) <==> s == "01" || s == "012"
  {
    OrderAccepted(s, rank);
    var o := ReadOrder(s, rank).value;
    DecimalDigit(0);
    DecimalDigit(1);
    DecimalDigit(2);
    assert OrderDigits([]) == "";
    assert OrderDigits([2]) == "2" by { assert [2][1..] == []; }
    assert OrderDigits([1]) == "1" by { assert [1][1..] == []; }
    assert OrderDigits([1, 2]) == "12" by { assert [1, 2][1..] == [2]; }
    assert OrderDigits([0, 1]) == "01" by { assert [0, 1][1..] == [1]; }
    assert OrderDigits([0, 1, 2]) == "012" by { assert [0, 1, 2][1..] == [1, 2]; }
    assert Identity(2) == [0, 1] && Identity(3) == [0, 1, 2];
    if IsIdentity(o) {
      assert o == Identity(rank);
    }
    if s == "01" || s == "012" {
      DigitsSame(o, Identity(rank));
    }
  }

  lemma {:induction false} DigitsSame(o: LayoutOrder, o': LayoutOrder)
    requires |o| == |o'| && OrderDigits(o) == OrderDigits(o')
    requires forall i :: 0 <= i < |o| ==> o[i] < 10 && o'[i] < 10
    ensures o == o'
  {
    if o != [] {
      DecimalDigit(o[0]);
      DecimalDigit(o'[0]);
      assert OrderDigits(o)[0] == Digit(o[0]) && OrderDigits(o')[0] == Digit(o'[0]);
      assert OrderDigits(o)[1..] == OrderDigits(o[1..]) && OrderDigits(o')[1..] == OrderDigits(o'[1..]);
      DigitsSame(o[1..], o'[1..]);
    }
  }

  predicate Idle(comps: seq<string>) { exists i :: 0 <= i < |comps| && IdleOrder(comps[i]) }

  lemma IdleConcat(x: seq<string>, y: seq<string>)
    ensures Idle(x + y) <==> Idle(x) || Idle(y)
  {
    if Idle(x) {
      var i :| 0 <= i < |x| && IdleOrder(x[i]);
      assert IdleOrder((x + y)[i]);
    }
    if Idle(y) {
      var i :| 0 <= i < |y| && IdleOrder(y[i]);
      assert IdleOrder((x + y)[|x| + i]);
    }
  }

  /** What an optional component consumed. */
  function Front(mid: seq<string>, rest: seq<string>): seq<string>
    requires |rest| <= |mid|
  {
    mid[..|mid| - |rest|]
  }

  /** An order that was taken prints itself, unless it is idle and prints nothing. */
  lemma TakeOrderSpelling(mid: seq<string>, tag: string, rank: nat)
    requires (tag == "ol" || tag == "or") && (rank == 2 || rank == 3) && TakeOrder(mid, tag, rank).Some?
    ensures var t := TakeOrder(mid, tag, rank).value;
            |t.rest| <= |mid| && mid == Front(mid, t.rest) + t.rest &&
            OrderFields(tag, t.value) == if Idle(Front(mid, t.rest)) then [] else Front(mid, t.rest)
  {
    var t := TakeOrder(mid, tag, rank).value;
    var front := Front(mid, t.rest);
    if mid != [] && Lead(mid[0], tag) {
      assert front == [mid[0]];
      var digits := After(mid[0], tag);
      assert mid[0] == tag + digits;
      OrderAccepted(digits, rank);
      IdleDigits(digits, rank);
      assert Idle(front) <==> IdleOrder(mid[0]);
    } else {
      assert front == [];
    }
  }

  lemma TakeBatchSpelling(mid: seq<string>)
    requires TakeBatch(mid).Some?
    ensures var t := TakeBatch(mid).value;
            |t.rest| <= |mid| && mid == Front(mid, t.rest) + t.rest && !Idle(Front(mid, t.rest)) &&
            Front(mid, t.rest) == if t.value.Some? then [['b', SizeCode(t.value.value)]] else []
  {
    var t := TakeBatch(mid).value;
    if t.value.Some? {
      SizeRoundTrip(t.value.value, mid[0][1]);
      assert mid[0] == ['b', mid[0][1]];
    }
  }

  /** Leaving the idle pieces out changes the list iff there are some. */
  lemma WithoutIdle(x: seq<string>, y: seq<string>, z: seq<string>)
    requires !Idle(x)
    ensures var (y', z') := (if Idle(y) then [] else y, if Idle(z) then [] else z);
            x + y' + z' == x + (y + z) <==> !Idle(x + (y + z))
  {
    var (y', z') := (if Idle(y) then [] else y, if Idle(z) then [] else z);
    IdleConcat(x, y + z);
    IdleConcat(y, z);
    if !Idle(y) && !Idle(z) {
      Assoc(x, y, z);
    } else {
      assert |x + y' + z'| < |x + (y + z)|;
    }
  }

  lemma GeometrySpelling(mid: seq<string>, c: ContractionKey)
    requires ReadGeometry(mid) == Some(GeometryRead(c.batch, c.lhsOrder, c.rhsOrder))
    ensures Geometry(c) == mid <==> !Idle(mid)
  {
    var rank := if c.batch.Some? then 3 else 2;
    var b := TakeBatch(mid).value;
    var l := TakeOrder(b.rest, "ol", rank).value;
    TakeBatchSpelling(mid);
    TakeOrderSpelling(b.rest, "ol", rank);
    TakeOrderSpelling(l.rest, "or", rank);
    assert Front(l.rest, []) == l.rest;
    WithoutIdle(Front(mid, b.rest), Front(b.rest, l.rest), l.rest);
  }

  lemma LeadNotIdle(s: string)
    requires s != "" && s[0] != 'o'
    ensures !IdleOrder(s)
  {
    assert "ol"[0] == 'o' && "or"[0] == 'o';
  }

  lemma GroupSpelling(comps: seq<string>, scale: Option<DType>)
    requires ReadGroup(comps, scale).Some?
    ensures var c := ReadGroup(comps, scale).value;
            [Sizes(c), DivCode(c.kDiv)] + Geometry(c) + PrecisionGroup(c) == comps <==> !Idle(comps)
  {
    var c := ReadGroup(comps, scale).value;
    var (ends, mid, prec) := (comps[..2], comps[2..|comps| - 4], comps[|comps| - 4..]);
    assert comps == ends + mid + prec;
    GeometrySpelling(mid, c);
    EndsSpelling(comps, scale);
    IdleConcat(ends + mid, prec);
    IdleConcat(ends, mid);
    var g := [Sizes(c), DivCode(c.kDiv)] + Geometry(c) + PrecisionGroup(c);
    assert g[2..|g| - 4] == Geometry(c);
  }

  lemma EndsSpelling(comps: seq<string>, scale: Option<DType>)
    requires ReadGroup(comps, scale).Some?
    ensures var c := ReadGroup(comps, scale).value;
            comps[..2] == [Sizes(c), DivCode(c.kDiv)] && comps[|comps| - 4..] == PrecisionGroup(c) &&
            !Idle(comps[..2]) && !Idle(comps[|comps| - 4..])
  {
    var c := ReadGroup(comps, scale).value;
    SizesSpelling(comps[..2], c);
    PrecisionsSpelling(comps[|comps| - 4..], c);
  }

  lemma SizesSpelling(ends: seq<string>, c: ContractionKey)
    requires |ends| == 2 && |ends[0]| == 3 && DivFrom(ends[1]) == Some(c.kDiv)
    requires SizeFrom(ends[0][0]) == Some(c.m) && SizeFrom(ends[0][1]) == Some(c.n) && SizeFrom(ends[0][2]) == Some(c.k)
    ensures ends == [Sizes(c), DivCode(c.kDiv)] && !Idle(ends)
  {
    SizeRoundTrip(c.m, ends[0][0]);
    SizeRoundTrip(c.n, ends[0][1]);
    SizeRoundTrip(c.k, ends[0][2]);
    assert ends[0] == Sizes(c);
    DivRoundTrip(c.kDiv, ends[1]);
    LeadNotIdle(ends[1]);
  }

  lemma PrecisionsSpelling(prec: seq<string>, c: ContractionKey)
    requires |prec| == 4 && Usable(prec[0]) == Some(c.wdt) && Usable(prec[1]) == Some(c.acc) &&
             Usable(prec[2]) == Some(c.out)
    requires MpFrom(prec[3]) == Some(c.mp)
    ensures prec == PrecisionGroup(c) && !Idle(prec)
  {
    PrecisionSpelling(c.wdt, prec[0]);
    PrecisionSpelling(c.acc, prec[1]);
    PrecisionSpelling(c.out, prec[2]);
    MpRoundTrip(c.mp, prec[3]);
    LeadNotIdle(prec[3]);
  }

  lemma PrecisionSpelling(d: DType, code: string)
    requires Usable(code) == Some(d)
    ensures DTypeCode(d) == code && !IdleOrder(code)
  {
    UsableAccepted(code);
    DTypeRoundTrip(d);
    DTypeLead(d);
    LeadNotIdle(code);
  }

  lemma ContractionSpelling(field: string)
    requires ReadContraction(field).Some?
    ensures ContractionField(ReadContraction(field).value) == field <==> PlainContraction(field)
  {
    var comps := Split(After(field, "c"), {'/'});
    var c := ReadContraction(field).value;
    assert field == "c" + After(field, "c");
    JoinSplit(After(field, "c"), '/');
    ComponentsSpelling(comps);
    assert PlainContraction(field) <==> !Idle(comps);
    if ContractionField(c) == field {
      ContractionAccepted(field);
      ContractionFieldsClean(c);
      SplitJoin(ContractionFields(c), '/');
      assert After(ContractionField(c), "c") == Join(ContractionFields(c), '/');
    }
  }

  lemma ComponentsSpelling(comps: seq<string>)
    requires comps != [] && ReadComponents(comps).Some?
    ensures ContractionFields(ReadComponents(comps).value) == comps <==> !Idle(comps)
  {
    var c := ReadComponents(comps).value;
    var last := comps[|comps| - 1];
    if Lead(last, "q") {
      var front := comps[..|comps| - 1];
      var d := Usable(After(last, "q")).value;
      UsableAccepted(After(last, "q"));
      assert last == "q" + DTypeCode(d) && comps == front + [last];
      GroupSpelling(front, Some(d));
      LeadNotIdle(last);
      IdleConcat(front, [last]);
      assert ContractionFields(c)[..|ContractionFields(c)| - 1] ==
             [Sizes(c), DivCode(c.kDiv)] + Geometry(c) + PrecisionGroup(c);
    } else {
      GroupSpelling(comps, None);
      assert ContractionFields(c) == [Sizes(c), DivCode(c.kDiv)] + Geometry(c) + PrecisionGroup(c);
    }
  }

  // ---- the whole token

  /** The key an accepted list of fields denotes, and the printed fields beside the read ones. */
  lemma FixedFields(parts: seq<string>)
    requires (|parts| == 9 || |parts| == 10) && ReadParts(parts).Some?
    ensures var k := ReadParts(parts).value;
            "sk" + Decimal(k.version) == parts[0] && ClassCode(k.cellClass) == parts[1] &&
                DTypeCode(k.dtype) == parts[2] &&
            k.target == parts[3] && IdxCode(k.idx) == parts[4] && WorkCode(k.work) == parts[5]
  {
    var k := ReadParts(parts).value;
    assert parts[0] == "sk" + After(parts[0], "sk");
    ReadDecimal(After(parts[0], "sk"), 65535);
    ClassRoundTrip(k.cellClass, parts[1]);
    UsableAccepted(parts[2]);
    IdxRoundTrip(k.idx, parts[4]);
    WorkRoundTrip(k.work, parts[5]);
  }

  predicate PlainTenth(parts: seq<string>)
    requires |parts| >= 9
  {
    |parts| == 10 && parts[1] == "ctr" ==> PlainContraction(parts[9])
  }

  lemma TenthSpelling(parts: seq<string>)
    requires (|parts| == 9 || |parts| == 10) && ReadParts(parts).Some?
    ensures |TenthField(ReadParts(parts).value)| == |parts| - 9
    ensures TenthField(ReadParts(parts).value) == parts[9..] <==> PlainTenth(parts)
  {
    var k := ReadParts(parts).value;
    UsableAccepted(parts[2]);
    TenthAccepted(parts, k.cellClass, k.dtype);
    ClassRoundTrip(k.cellClass, parts[1]);
    ClassRoundTrip(Ctr, parts[1]);
    if k.cellClass.Ctr? {
      ContractionSpelling(parts[9]);
    }
  }

  lemma LeafFields(parts: seq<string>)
    requires (|parts| == 9 || |parts| == 10) && ReadParts(parts).Some?
    ensures var k := ReadParts(parts).value;
            k.rank <= MAX_RANK && k.reduceAxes < 256 &&
                (forall i :: 0 <= i < |k.operands| ==> k.operands[i].bcast < 256) &&
            ("r" + Decimal(k.rank) == parts[6] <==> PlainDecimal(After(parts[6], "r"))) &&
            (OperandsField(k.operands) == parts[7] <==> PlainOperands(parts[7])) &&
            (ReduceField(k.reduceAxes, k.rank) == parts[8] <==> PlainReduce(parts[8], k.rank))
  {
    var k := ReadParts(parts).value;
    assert parts[6] == "r" + After(parts[6], "r") && After("r" + Decimal(k.rank), "r") == Decimal(k.rank);
    ReadDecimal(After(parts[6], "r"), 255);
    OperandsSpelling(parts[7]);
    ReduceSpelling(parts[8], k.rank);
  }

  lemma SameFields(nine: seq<string>, tenth: seq<string>, parts: seq<string>)
    requires |nine| == 9 && |parts| == 9 + |tenth|
    requires forall i :: 0 <= i < 6 ==> nine[i] == parts[i]
    ensures nine + tenth == parts <==>
            nine[6] == parts[6] && nine[7] == parts[7] && nine[8] == parts[8] && tenth == parts[9..]
  {
    assert (nine + tenth)[9..] == tenth;
    if nine[6] == parts[6] && nine[7] == parts[7] && nine[8] == parts[8] {
      assert nine == parts[..9];
      assert parts == parts[..9] + parts[9..];
    }
  }

  predicate BytesSmall(k: StructureKey) {
    k.reduceAxes < 256 && forall i :: 0 <= i < |k.operands| ==> k.operands[i].bcast < 256
  }

  lemma FieldsSpelling(k: StructureKey, parts: seq<string>)
    requires BytesSmall(k) && |parts| == 9 + |TenthField(k)|
    requires "sk" + Decimal(k.version) == parts[0] && ClassCode(k.cellClass) == parts[1] &&
             DTypeCode(k.dtype) == parts[2]
    requires k.target == parts[3] && IdxCode(k.idx) == parts[4] && WorkCode(k.work) == parts[5]
    ensures NineFields(k) + TenthField(k) == parts <==>
              "r" + Decimal(k.rank) == parts[6] && OperandsField(k.operands) == parts[7] &&
              ReduceField(k.reduceAxes, k.rank) == parts[8] && TenthField(k) == parts[9..]
  {
    SameFields(NineFields(k), TenthField(k), parts);
  }

  lemma PartsSpelling(parts: seq<string>)
    requires (|parts| == 9 || |parts| == 10) && ReadParts(parts).Some?
    ensures var k := ReadParts(parts).value;
            BytesSmall(k) &&
            (NineFields(k) + TenthField(k) == parts <==>
               PlainDecimal(After(parts[6], "r")) && PlainOperands(parts[7]) && PlainReduce(parts[8], k.rank) &&
                   PlainTenth(parts))
  {
    var k := ReadParts(parts).value;
    FixedFields(parts);
    LeafFields(parts);
    TenthSpelling(parts);
    FieldsSpelling(k, parts);
  }

  /** An accepted token prints back byte for byte iff its leaves are plain. */
  lemma PrintsBack(token: string)
    requires FromToken(token).Some?
    ensures Constructible(FromToken(token).value)
    ensures ToToken(FromToken(token).value) == token <==> PlainToken(token)
  {
    AcceptedIsNormal(token);
    var parts := Split(token, {'|'});
    var k := FromToken(token).value;
    PartsSpelling(parts);
    JoinSplit(token, '|');
    NineFieldsClean(k);
    TenthRoundTrip(k, NineFields(k));
    SplitJoin(NineFields(k) + TenthField(k), '|');
    assert PlainToken(token) <==> NineFields(k) + TenthField(k) == parts;
  }

  /** The reader takes `rlast` at rank 1 for the one axis there is, whose spelling is `rall`. */
  lemma LastOfOneAxis()
    ensures ReadReduce("rlast", 1) == ReadReduce("rall", 1) == Ok(1) && ReduceField(1, 1) == "rall"
  {
    assert "rlast" != "-" && "rlast" != "rall" && "rall" != "-";
    assert Pow2(1) == 2 && Pow2(0) == 1;
  }
}
