/** `parse_token`, which says why a token is declined, and its agreement with the strict reader. */
module KeyVerdicts {
  import opened Wrappers
  import opened Arith
  import opened Text
  import opened KeyCodes
  import opened StructureKeys
  import opened KeyRoundTrip
  import opened KeyReading
  import opened KeySpelling
  import Targets

  predicate SpellsReserved(atom: string) { DTypeFrom(atom).Some? && IsReserved(DTypeFrom(atom).value) }

  function FirstReserved(atoms: seq<string>): (r: Option<string>)
    ensures r.None? <==> forall i :: 0 <= i < |atoms| ==> !SpellsReserved(atoms[i])
  {
    if atoms == [] then None else if SpellsReserved(atoms[0]) then Some(atoms[0]) else FirstReserved(atoms[1..])
  }

  /** `check_subkeys`. */
  function CheckSubkeys(fields: seq<string>): (r: Option<TokenDecline>) {
    if fields == [] then None
    else
      var f := Split(fields[0], {'/'});
      if |f| == 5 || (|f| == 6 && f[5] in {"dl", "dc"}) then CheckSubkeys(fields[1..])
      else Some(if |f| == 6 then BadDequantForm else BadOperandSubKey)
  }

  /** `attribute_bad_contraction`: what is definitely wrong with a contraction group. */
  function BadGroup(comps: seq<string>): Option<TokenDecline> {
    if |comps| < 6 then Some(BadContractionField)
    else
      var prec := comps[|comps| - 4..];
      var dtypes := FirstBadDtype(prec[..3]);
      if dtypes.Some? then dtypes
      else if MpFrom(prec[3]).None? then Some(BadContractionField)
      else if DTypeFrom(prec[1]).Some? && IsMxElement(DTypeFrom(prec[1]).value) then Some(ElementDtypeAsAccumulator)
      else None
  }

  function FirstBadDtype(codes: seq<string>): Option<TokenDecline> {
    if codes == [] then None
    else if DTypeFrom(codes[0]).None? then Some(BadContractionField)
    else if IsReserved(DTypeFrom(codes[0]).value) then Some(ReservedDtype(codes[0]))
    else FirstBadDtype(codes[1..])
  }

  function BadContraction(field: string): Option<TokenDecline> {
    if !Lead(field, "c") then Some(BadContractionField)
    else
      var comps := Split(After(field, "c"), {'/'});
      var last := comps[|comps| - 1];
      if !Lead(last, "q") then BadGroup(comps)
      else
        var scale := DTypeFrom(After(last, "q"));
        if scale.None? then Some(UnknownDtype)
        else if IsReserved(scale.value) then Some(ReservedDtype(After(last, "q")))
        else BadGroup(comps[..|comps| - 1])
  }

  /** `parse_reduce_field` at any 8-bit rank. The reduce field is read before the rank is held to the
      ceiling, and a byte shifted by eight places or more, or 16 bits by 16 or more, has no defined
      result: `shifted` stands for whatever reading comes of it. */
  function ReduceAtRank(field: string, rank: nat, shifted: Result<nat, TokenDecline>): Result<nat, TokenDecline> {
    if rank <= MAX_RANK then ReadReduce(field, rank)
    else if field == "-" then Ok(0)
    else if field == "rall" then (if rank < 16 then Ok(255) else shifted)
    else if field == "rlast" then shifted
    else if !Lead(field, "x") then Err(Unrecognized)
    else
      match ParseUnsigned(After(field, "x"), 16, 255)
      case None => Err(Unrecognized)
      case Some(mask) => if rank < 16 && mask in {0, 255} then Err(NonCanonicalReduceField) else shifted
  }

  /** The verdicts given before the strict decode, in order; `None` is no objection. */
  function ReduceVerdict(parts: seq<string>, shifted: Result<nat, TokenDecline>): Option<TokenDecline> {
    if |parts| > 8 && ReadRank(parts[6]).Some? then
      match ReduceAtRank(parts[8], ReadRank(parts[6]).value, shifted)
      case Ok(_) => None
      case Err(e) => Some(e)
    else None
  }

  function TenthVerdict(parts: seq<string>, cls: CellClass, dtype: DType): Option<TokenDecline> {
    if |parts| != 10 then None
    else if cls.Ctr? then BadContraction(parts[9])
    else
      match ReadAccMp(parts[9], dtype)
      case Ok(_) => None
      case Err(e) => Some(e)
  }

  function FieldVerdicts(parts: seq<string>): Option<TokenDecline> {
    if |parts| != 9 && |parts| != 10 then None
    else if ClassFrom(parts[1]).None? then Some(UnknownCellClass)
    else if DTypeFrom(parts[2]).None? then Some(UnknownDtype)
    else
      var cls := ClassFrom(parts[1]).value;
      var subkeys := if parts[7] == "" then None else CheckSubkeys(Split(parts[7], {';'}));
      if subkeys.Some? then subkeys
      else if parts[8] != "-" && !cls.Rdc? then Some(ReduceNotGatedToRdc)
      else if parts[8] == "-" && cls.Rdc? then Some(RdcWithoutReduce)
      else if cls.Ctr? && |parts| == 9 then Some(ContractionPresenceMismatch)
      else TenthVerdict(parts, cls, DTypeFrom(parts[2]).value)
  }

  /** `parse_token`. */
  function ParseToken(token: string, shifted: Result<nat, TokenDecline>): Result<StructureKey, TokenDecline> {
    var parts := Split(token, {'|'});
    match ReadVersion(parts[0])
    case None => Err(BadVersionPrefix)
    case Some(version) =>
      if version != VERSION then Err(UnsupportedSchemaVersion(version))
      else
        match FirstReserved(Split(token, {'|', '/'}))
        case Some(spelling) => Err(ReservedDtype(spelling))
        case None =>
          var (reduce, fields) := (ReduceVerdict(parts, shifted), FieldVerdicts(parts));
          if reduce.Some? then Err(reduce.value)
          else if fields.Some? then Err(fields.value)
          else
            match FromToken(token)
            case Some(k) => Ok(k)
            case None => Err(Unrecognized)
  }

  // ---- no verdict turns down what the strict reader accepts

  lemma {:induction false} SubkeysAccepted(fields: seq<string>)
    requires forall i :: 0 <= i < |fields| ==> ReadOperand(fields[i]).Some?
    ensures CheckSubkeys(fields).None?
  {
    if fields != [] {
      SubkeysAccepted(fields[1..]);
      var f := Split(fields[0], {'/'});
      if |f| == 6 {
        DequantRoundTrip(DequantFrom(f[5]).value, f[5]);
      }
    }
  }

  lemma GroupPasses(comps: seq<string>, scale: Option<DType>)
    requires ReadGroup(comps, scale).Some?
    ensures BadGroup(comps).None?
  {
    var codes := comps[|comps| - 4..][..3];
    assert codes[1..][0] == codes[1] && codes[1..][1..][0] == codes[2] && codes[1..][1..][1..] == [];
    assert FirstBadDtype(codes[1..][1..]).None?;
    assert FirstBadDtype(codes[1..]).None?;
  }

  lemma ContractionPasses(field: string)
    requires ReadContraction(field).Some?
    ensures BadContraction(field).None?
  {
    var comps := Split(After(field, "c"), {'/'});
    var last := comps[|comps| - 1];
    if Lead(last, "q") {
      GroupPasses(comps[..|comps| - 1], Usable(After(last, "q")));
    } else {
      GroupPasses(comps, None);
    }
  }

  lemma ReduceSign(field: string, rank: nat)
    requires rank <= MAX_RANK && ReadReduce(field, rank).Ok?
    ensures ReadReduce(field, rank).value == 0 <==> field == "-"
  {
    AxesBounds(rank);
  }

  lemma FieldsPass(parts: seq<string>, shifted: Result<nat, TokenDecline>)
    requires (|parts| == 9 || |parts| == 10) && ReadParts(parts).Some?
    ensures ReduceVerdict(parts, shifted).None? && FieldVerdicts(parts).None?
  {
    var k := ReadParts(parts).value;
    ReduceSign(parts[8], k.rank);
    if parts[7] != "" {
      SubkeysAccepted(Split(parts[7], {';'}));
    }
    if |parts| == 10 && k.cellClass.Ctr? {
      ContractionPasses(parts[9]);
    }
  }

  // ---- and no atom of it is a reserved spelling

  /** Atoms that cannot be a reserved spelling, which starts with `f` and holds an `m`. */
  predicate Harmless(atom: string) {
    || atom == "" || atom[0] != 'f' || 'm' !in atom || ';' in atom || ':' in atom
    || (DTypeFrom(atom).Some? && !IsReserved(DTypeFrom(atom).value))
  }

  lemma HarmlessNotReserved(atom: string)
    requires Harmless(atom)
    ensures !SpellsReserved(atom)
  {
    if SpellsReserved(atom) {
      var d := DTypeFrom(atom).value;
      DTypeSpelling(atom);
      DTypeRoundTrip(d);
      DTypeLead(d);
      CodeChars(d);
    }
  }

  lemma CodeChars(d: DType)
    ensures ';' !in DTypeCode(d) && ':' !in DTypeCode(d)
  {
  }

  predicate AllHarmless(atoms: seq<string>) { forall i :: 0 <= i < |atoms| ==> Harmless(atoms[i]) }

  lemma WholeAtom(s: string)
    requires Clean(s, {'/'}) && Harmless(s)
    ensures AllHarmless(Split(s, {'/'}))
  {
    SplitClean(s, {'/'});
  }

  lemma {:induction false} NumberChars(s: string, radix: nat)
    requires radix <= 16 && NumberOf(s, radix).Some?
    ensures Clean(s, {'/', ';', 'm'})
  {
    if s != "" {
      NumberChars(s[..|s| - 1], radix);
      assert s == s[..|s| - 1] + [s[|s| - 1]];
    }
  }

  lemma ParsedChars(s: string, radix: nat, max: nat)
    requires radix <= 16 && ParseUnsigned(s, radix, max).Some?
    ensures Clean(s, {'/', ';', 'm'}) && 'm' !in s
  {
    if s[0] == '+' {
      NumberChars(s[1..], radix);
      assert s == [s[0]] + s[1..];
    } else {
      NumberChars(s, radix);
    }
  }

  lemma OperandHarmless(field: string)
    requires ReadOperand(field).Some?
    ensures AllHarmless(Split(field, {'/'}))
  {
    var f := Split(field, {'/'});
    var o := ReadOperand(field).value;
    ContigRoundTrip(o.contig, f[0]);
    ParsedChars(f[1], 16, 255);
    VecRoundTrip(o.vec, f[2]);
    DivRoundTrip(o.div, f[3]);
    FlipRoundTrip(o.flipped, f[4]);
    assert Harmless(f[0]) && Harmless(f[1]) && Harmless(f[2]) && Harmless(f[3]) && Harmless(f[4]);
    if |f| == 6 {
      DequantRoundTrip(o.dequant.value, f[5]);
      assert Harmless(f[5]);
    }
  }

  lemma {:induction false} InSplitEach(parts: seq<string>, seps: set<char>, i: nat)
    requires i < |parts| && Clean(parts[i], seps)
    ensures parts[i] in SplitEach(parts, seps)
  {
    if i == 0 {
      SplitClean(parts[0], seps);
    } else {
      InSplitEach(parts[1..], seps, i - 1);
    }
  }

  /** The operand list is split on `/` alone here, so an atom may straddle two operands; then it
      holds a `;`. Otherwise it is a leaf of one of them. */
  lemma OperandsHarmless(field: string)
    requires ReadOperands(field).Some?
    ensures AllHarmless(Split(field, {'/'}))
  {
    var atoms := Split(field, {'/'});
    if field != "" {
      forall i | 0 <= i < |atoms| ensures Harmless(atoms[i]) {
        if ';' !in atoms[i] {
          InSplitEach(atoms, {';'}, i);
          SplitTwice(field, '/', ';');
          SplitTwice(field, ';', '/');
          assert {'/', ';'} == {';', '/'};
          var j := SplitEachIn(Split(field, {';'}), {'/'}, atoms[i]);
          OperandHarmless(Split(field, {';'})[j]);
        }
      }
    }
  }

  lemma ReduceHarmless(field: string, rank: nat)
    requires rank <= MAX_RANK && ReadReduce(field, rank).Ok?
    ensures AllHarmless(Split(field, {'/'}))
  {
    if Lead(field, "x") && field != "-" && field != "rall" && field != "rlast" {
      ParsedChars(After(field, "x"), 16, 255);
      assert field == "x" + After(field, "x");
    }
    WholeAtom(field);
  }

  predicate Geometric(mid: seq<string>) { forall i :: 0 <= i < |mid| ==> mid[i] != "" && mid[i][0] in {'b', 'o'} }

  lemma TakeOrderGeometric(mid: seq<string>, tag: string, rank: nat)
    requires tag != "" && tag[0] == 'o' && TakeOrder(mid, tag, rank).Some? &&
             Geometric(TakeOrder(mid, tag, rank).value.rest)
    ensures Geometric(mid)
  {
    if mid != [] && Lead(mid[0], tag) {
      assert mid[0][0] == 'o' && mid == [mid[0]] + mid[1..];
    }
  }

  lemma TakeBatchGeometric(mid: seq<string>)
    requires TakeBatch(mid).Some? && Geometric(TakeBatch(mid).value.rest)
    ensures Geometric(mid)
  {
    if mid != [] && Lead(mid[0], "b") {
      assert mid[0][0] == 'b' && mid == [mid[0]] + mid[1..];
    }
  }

  lemma GeometryLeads(mid: seq<string>)
    requires ReadGeometry(mid).Some?
    ensures Geometric(mid)
  {
    var b := TakeBatch(mid).value;
    var rank := if b.value.Some? then 3 else 2;
    var l := TakeOrder(b.rest, "ol", rank).value;
    TakeOrderGeometric(l.rest, "or", rank);
    TakeOrderGeometric(b.rest, "ol", rank);
    TakeBatchGeometric(mid);
  }

  lemma GroupHarmless(comps: seq<string>, scale: Option<DType>)
    requires ReadGroup(comps, scale).Some?
    ensures AllHarmless(comps[1..]) && comps[0] != ""
  {
    var mid, prec := comps[2..|comps| - 4], comps[|comps| - 4..];
    GroupParts(comps, scale);
    GeometryLeads(mid);
    GeometricHarmless(mid);
    PrecisionHarmless(prec);
    PartsHarmless(comps, mid, prec);
  }

  lemma GroupParts(comps: seq<string>, scale: Option<DType>)
    requires ReadGroup(comps, scale).Some?
    ensures |comps| >= 6 && comps[0] != "" && ReadGeometry(comps[2..|comps| - 4]).Some? && Harmless(comps[1])
    ensures var prec := comps[|comps| - 4..];
            Usable(prec[0]).Some? && Usable(prec[1]).Some? && Usable(prec[2]).Some? && MpFrom(prec[3]).Some?
  {
    DivRoundTrip(DivFrom(comps[1]).value, comps[1]);
  }

  lemma PartsHarmless(comps: seq<string>, mid: seq<string>, prec: seq<string>)
    requires |comps| >= 6 && mid == comps[2..|comps| - 4] && prec == comps[|comps| - 4..]
    requires Harmless(comps[1]) && AllHarmless(mid) && AllHarmless(prec)
    ensures AllHarmless(comps[1..])
  {
    assert comps[1..] == ([comps[1]] + mid) + prec;
    HarmlessConcat([comps[1]], mid);
    HarmlessConcat([comps[1]] + mid, prec);
  }

  lemma GeometricHarmless(mid: seq<string>)
    requires Geometric(mid)
    ensures AllHarmless(mid)
  {
  }

  lemma PrecisionHarmless(prec: seq<string>)
    requires |prec| == 4 && Usable(prec[0]).Some? && Usable(prec[1]).Some? && Usable(prec[2]).Some? &&
             MpFrom(prec[3]).Some?
    ensures AllHarmless(prec)
  {
    MpRoundTrip(MpFrom(prec[3]).value, prec[3]);
    assert Harmless(prec[0]) && Harmless(prec[1]) && Harmless(prec[2]) && Harmless(prec[3]);
  }

  lemma HarmlessConcat(x: seq<string>, y: seq<string>)
    requires AllHarmless(x) && AllHarmless(y)
    ensures AllHarmless(x + y)
  {
  }

  lemma ComponentsHarmless(comps: seq<string>)
    requires comps != [] && ReadComponents(comps).Some?
    ensures AllHarmless(comps[1..]) && comps[0] != ""
  {
    var last := comps[|comps| - 1];
    if Lead(last, "q") {
      var front := comps[..|comps| - 1];
      GroupHarmless(front, Usable(After(last, "q")));
      LastApart(comps);
      assert last[0] == 'q';
      OneMoreHarmless(front[1..], last);
    } else {
      GroupHarmless(comps, None);
    }
  }

  lemma LastApart(comps: seq<string>)
    requires |comps| > 1
    ensures comps[1..] == comps[..|comps| - 1][1..] + [comps[|comps| - 1]]
  {
  }

  lemma OneMoreHarmless(atoms: seq<string>, atom: string)
    requires AllHarmless(atoms) && atom != "" && atom[0] == 'q'
    ensures AllHarmless(atoms + [atom])
  {
  }

  lemma ContractionHarmless(field: string)
    requires ReadContraction(field).Some?
    ensures AllHarmless(Split(field, {'/'}))
  {
    var rest := After(field, "c");
    var comps := Split(rest, {'/'});
    assert field == ['c'] + rest;
    SplitCons('c', rest, {'/'});
    ComponentsHarmless(comps);
    var atoms := [['c'] + comps[0]] + comps[1..];
    assert Split(field, {'/'}) == atoms;
    forall i | 0 <= i < |atoms| ensures Harmless(atoms[i]) {
      if i > 0 { assert atoms[i] == comps[1..][i - 1]; }
    }
  }

  lemma AccMpHarmless(field: string, compute: DType)
    requires ReadAccMp(field, compute).Ok?
    ensures AllHarmless(Split(field, {'/'}))
  {
    var parts := Split(field, {'/'});
    MpRoundTrip(MpFrom(parts[1]).value, parts[1]);
    assert Harmless(parts[0]) && Harmless(parts[1]);
  }

  lemma FieldHarmless(parts: seq<string>, i: nat)
    requires (|parts| == 9 || |parts| == 10) && ReadParts(parts).Some? && i < |parts|
    ensures AllHarmless(Split(parts[i], {'/'}))
  {
    var k := ReadParts(parts).value;
    if i == 7 {
      OperandsHarmless(parts[7]);
    } else if i == 8 {
      ReduceHarmless(parts[8], k.rank);
    } else if i == 9 {
      if k.cellClass.Ctr? { ContractionHarmless(parts[9]); } else { AccMpHarmless(parts[9], k.dtype); }
    } else {
      FixedHarmless(parts, i);
      WholeAtom(parts[i]);
    }
  }

  lemma FixedHarmless(parts: seq<string>, i: nat)
    requires (|parts| == 9 || |parts| == 10) && ReadParts(parts).Some? && i < 7
    ensures Clean(parts[i], {'/'}) && Harmless(parts[i])
  {
    var k := ReadParts(parts).value;
    FixedFields(parts);
    if i == 0 {
      VersionHarmless(parts[0]);
    } else if i == 1 {
      ClassHarmless(k.cellClass);
    } else if i == 2 {
      DTypeHarmless(parts[2], k.dtype);
    } else if i == 3 {
      TargetHarmless(parts[3]);
    } else if i == 4 {
      IdxHarmless(k.idx);
    } else if i == 5 {
      WorkHarmless(k.work);
    } else {
      RankHarmless(parts[6]);
    }
  }

  lemma VersionHarmless(field: string)
    requires ReadVersion(field).Some?
    ensures Clean(field, {'/'}) && Harmless(field)
  {
    assert field == "sk" + After(field, "sk");
  }

  lemma ClassHarmless(v: CellClass)
    ensures Clean(ClassCode(v), {'/'}) && Harmless(ClassCode(v))
  {
  }

  lemma DTypeHarmless(code: string, d: DType)
    requires Usable(code) == Some(d) && DTypeCode(d) == code
    ensures Clean(code, {'/'}) && Harmless(code)
  {
    DTypeRoundTrip(d);
  }

  lemma TargetHarmless(field: string)
    requires Targets.Verdict(field).None?
    ensures Clean(field, {'/'}) && Harmless(field)
  {
    Targets.VerdictIsGrammar(field);
    Targets.WellFormedClean(field);
  }

  lemma IdxHarmless(v: IdxWidth)
    ensures Clean(IdxCode(v), {'/'}) && Harmless(IdxCode(v))
  {
  }

  lemma WorkHarmless(v: WorkClass)
    ensures Clean(WorkCode(v), {'/'}) && Harmless(WorkCode(v))
  {
  }

  lemma RankHarmless(field: string)
    requires ReadRank(field).Some?
    ensures Clean(field, {'/'}) && Harmless(field)
  {
    ParsedChars(After(field, "r"), 10, 255);
    assert field == "r" + After(field, "r");
  }

  lemma NoReservedAtom(token: string)
    requires FromToken(token).Some?
    ensures FirstReserved(Split(token, {'|', '/'})).None?
  {
    var parts := Split(token, {'|'});
    var atoms := Split(token, {'|', '/'});
    SplitTwice(token, '|', '/');
    forall j | 0 <= j < |atoms| ensures !SpellsReserved(atoms[j]) {
      var i := SplitEachIn(parts, {'/'}, atoms[j]);
      FieldHarmless(parts, i);
      HarmlessNotReserved(atoms[j]);
    }
  }

  /** The two readers accept the same tokens and read the same keys, whatever comes of a shift past the
      width: the typed one adds reasons, never a refusal. */
  lemma ReadersAgree(token: string, shifted: Result<nat, TokenDecline>)
    ensures ParseToken(token, shifted).Ok? <==> FromToken(token).Some?
    ensures ParseToken(token, shifted).Ok? ==> FromToken(token) == Some(ParseToken(token, shifted).value)
  {
    if FromToken(token).Some? {
      NoReservedAtom(token);
      FieldsPass(Split(token, {'|'}), shifted);
    }
  }

  /** Only past the ceiling can the shift show, and there only in the reason: both readers decline. */
  lemma ShiftOnlyInTheReason(token: string, x: Result<nat, TokenDecline>, y: Result<nat, TokenDecline>)
    ensures ParseToken(token, x) != ParseToken(token, y) ==>
              FromToken(token).None? && |Split(token, {'|'})| > 8 &&
              ReadRank(Split(token, {'|'})[6]).Some? && ReadRank(Split(token, {'|'})[6]).value > MAX_RANK &&
              ParseToken(token, x).Err? && ParseToken(token, y).Err?
  {
    ReadersAgree(token, x);
    ReadersAgree(token, y);
  }

  /** A reserved dtype is declined as reserved, whichever of the plainly spelled positions holds it
      and whatever else is wrong with the fields after the version. */
  lemma ReservedIsSaid(token: string, i: nat, shifted: Result<nat, TokenDecline>)
    requires ReadVersion(Split(token, {'|'})[0]) == Some(VERSION)
    requires i < |Split(token, {'|', '/'})| && SpellsReserved(Split(token, {'|', '/'})[i])
    ensures ParseToken(token, shifted).Err? && ParseToken(token, shifted).error.ReservedDtype?
    ensures FromToken(token).None?
  {
    if FromToken(token).Some? {
      NoReservedAtom(token);
    }
  }

  // ---- the reasons are true

  /** What a reason says of the fields of a token. */
  ghost predicate Says(parts: seq<string>, e: TokenDecline)
    requires parts != []
  {
    match e
    case BadVersionPrefix => ReadVersion(parts[0]).None?
    case UnsupportedSchemaVersion(v) => ReadVersion(parts[0]) == Some(v) && v != 6
    case UnknownCellClass => |parts| > 8 && ClassFrom(parts[1]).None?
    case UnknownDtype => |parts| > 8 && (DTypeFrom(parts[2]).None? || (|parts| == 10 && ScaleUnknown(parts[9])))
    case BadOperandSubKey => |parts| > 8 && HasOperand(parts[7], f => |f| != 5 && |f| != 6)
    case BadDequantForm => |parts| > 8 && HasOperand(parts[7], f => |f| == 6 && f[5] != "dl" && f[5] != "dc")
    case ReduceNotGatedToRdc => |parts| > 8 && parts[8] != "-" && parts[1] != "rdc"
    case RdcWithoutReduce => |parts| > 8 && parts[8] == "-" && parts[1] == "rdc"
    case ContractionPresenceMismatch => |parts| == 9 && parts[1] == "ctr"
    case BadAccMpField => |parts| == 10 && parts[1] != "ctr"
    case RedundantAccMpField =>
      |parts| == 10 && var f := Split(parts[9], {'/'});
                       |f| == 2 && f[1] == "st" && DTypeFrom(f[0]).Some? && DTypeFrom(f[0]) == DTypeFrom(parts[2])
    case ElementDtypeAsAccumulator => |parts| == 10 && exists f :: f in Atoms(parts[9]) && ElementCode(f)
    case BadContractionField => |parts| == 10 && parts[1] == "ctr"
    case ReservedDtype(code) => SpellsReserved(code)
    case NonCanonicalReduceField => |parts| > 8 && (parts[8] == "rall" || Lead(parts[8], "x"))
    case BadReduceField => |parts| > 8 && (parts[8] == "rlast" || Lead(parts[8], "x"))
    case Unrecognized => true
  }

  ghost predicate HasOperand(field: string, bad: seq<string> -> bool) {
    exists o :: o in Split(field, {';'}) && bad(Split(o, {'/'}))
  }

  predicate ElementCode(code: string) { DTypeFrom(code).Some? && IsMxElement(DTypeFrom(code).value) }

  ghost predicate ScaleUnknown(field: string) {
    exists f :: f in Atoms(field) && Lead(f, "q") && DTypeFrom(After(f, "q")).None?
  }

  /** The components of a tenth field, without the mark of a contraction. */
  function Atoms(field: string): seq<string> {
    Split(if Lead(field, "c") then After(field, "c") else field, {'/'})
  }

  lemma {:induction false} SubkeyReason(fields: seq<string>)
    requires CheckSubkeys(fields).Some?
    ensures CheckSubkeys(fields).value == BadOperandSubKey ==>
              exists o :: o in fields && |Split(o, {'/'})| != 5 && |Split(o, {'/'})| != 6
    ensures CheckSubkeys(fields).value == BadDequantForm ==>
              exists o :: o in fields && var f := Split(o, {'/'}); |f| == 6 && f[5] != "dl" && f[5] != "dc"
    ensures CheckSubkeys(fields).value in {BadOperandSubKey, BadDequantForm}
  {
    var f := Split(fields[0], {'/'});
    if |f| == 5 || (|f| == 6 && f[5] in {"dl", "dc"}) {
      SubkeyReason(fields[1..]);
    } else {
      assert fields[0] in fields;
    }
  }

  lemma {:induction false} DtypeReason(codes: seq<string>)
    requires FirstBadDtype(codes).Some?
    ensures var e := FirstBadDtype(codes).value;
            e == BadContractionField || (e.ReservedDtype? && SpellsReserved(e.spelling))
  {
    if DTypeFrom(codes[0]).Some? && !IsReserved(DTypeFrom(codes[0]).value) { DtypeReason(codes[1..]); }
  }

  lemma GroupReason(comps: seq<string>)
    requires BadGroup(comps).Some?
    ensures var e := BadGroup(comps).value;
            e == BadContractionField || (e.ReservedDtype? && SpellsReserved(e.spelling)) ||
            (e == ElementDtypeAsAccumulator && exists f :: f in comps && ElementCode(f))
  {
    if |comps| >= 6 {
      var prec := comps[|comps| - 4..];
      if FirstBadDtype(prec[..3]).Some? {
        DtypeReason(prec[..3]);
      } else {
        assert prec[1] in comps;
      }
    }
  }

  lemma ContractionReason(field: string)
    requires BadContraction(field).Some?
    ensures var e := BadContraction(field).value;
            e == BadContractionField || (e.ReservedDtype? && SpellsReserved(e.spelling)) ||
            (e == UnknownDtype && ScaleUnknown(field)) ||
            (e == ElementDtypeAsAccumulator && exists f :: f in Atoms(field) && ElementCode(f))
  {
    if Lead(field, "c") {
      var comps := Split(After(field, "c"), {'/'});
      var last := comps[|comps| - 1];
      assert last in Atoms(field);
      if !Lead(last, "q") {
        GroupReason(comps);
      } else if DTypeFrom(After(last, "q")).Some? && !IsReserved(DTypeFrom(After(last, "q")).value) {
        GroupReason(comps[..|comps| - 1]);
        assert forall f :: f in comps[..|comps| - 1] ==> f in Atoms(field);
      }
    }
  }

  lemma TenthReason(parts: seq<string>, cls: CellClass, dtype: DType)
    requires |parts| == 9 || |parts| == 10
    requires ClassFrom(parts[1]) == Some(cls) && DTypeFrom(parts[2]) == Some(dtype)
    requires TenthVerdict(parts, cls, dtype).Some?
    ensures Says(parts, TenthVerdict(parts, cls, dtype).value)
  {
    ClassRoundTrip(cls, parts[1]);
    DTypeSpelling(parts[2]);
    if cls.Ctr? {
      ContractionReason(parts[9]);
    } else {
      AccMpReason(parts, dtype);
    }
  }

  lemma AccMpReason(parts: seq<string>, dtype: DType)
    requires |parts| == 10 && parts[1] != "ctr" && DTypeFrom(parts[2]) == Some(dtype) && ReadAccMp(parts[9], dtype).Err?
    ensures Says(parts, ReadAccMp(parts[9], dtype).error)
  {
    var f := Split(parts[9], {'/'});
    DTypeSpelling(parts[2]);
    if |f| == 2 && DTypeFrom(f[0]).Some? {
      DTypeSpelling(f[0]);
      if !IsReserved(DTypeFrom(f[0]).value) && !IsMxElement(DTypeFrom(f[0]).value) {
        if MpFrom(f[1]).Some? { MpRoundTrip(MpFrom(f[1]).value, f[1]); }
      } else if IsMxElement(DTypeFrom(f[0]).value) {
        ElementAtom(parts[9], f[0]);
      }
    }
  }

  /** An element code in front of a field is an atom of it. */
  lemma ElementAtom(field: string, code: string)
    requires Split(field, {'/'}) != [] && Split(field, {'/'})[0] == code && ElementCode(code)
    ensures code in Atoms(field)
  {
    var d := DTypeFrom(code).value;
    DTypeSpelling(code);
    DTypeLead(d);
    FrontOfSplit(field, {'/'});
  }

  lemma FrontOfSplit(s: string, seps: set<char>)
    ensures Split(s, seps)[0] <= s
  {
  }

  lemma FieldReason(parts: seq<string>)
    requires parts != [] && FieldVerdicts(parts).Some?
    ensures Says(parts, FieldVerdicts(parts).value)
  {
    if ClassFrom(parts[1]).Some? && DTypeFrom(parts[2]).Some? {
      var cls := ClassFrom(parts[1]).value;
      ClassRoundTrip(cls, parts[1]);
      if parts[7] != "" && CheckSubkeys(Split(parts[7], {';'})).Some? {
        SubkeyReason(Split(parts[7], {';'}));
      } else if (parts[8] == "-") == cls.Rdc? {
        assert cls.Rdc? <==> parts[1] == "rdc";
      } else if !(cls.Ctr? && |parts| == 9) {
        TenthReason(parts, cls, DTypeFrom(parts[2]).value);
      }
    }
  }

  /** Every reason the typed reader gives is true of the token, for every rank within the ceiling. */
  lemma ReasonIsTrue(token: string, shifted: Result<nat, TokenDecline>)
    requires ParseToken(token, shifted).Err?
    requires var parts := Split(token, {'|'});
             |parts| > 6 && ReadRank(parts[6]).Some? ==> ReadRank(parts[6]).value <= 8
    ensures Says(Split(token, {'|'}), ParseToken(token, shifted).error)
  {
    var parts := Split(token, {'|'});
    if ReadVersion(parts[0]) == Some(VERSION) && FirstReserved(Split(token, {'|', '/'})).None? {
      if ReduceVerdict(parts, shifted).None? && FieldVerdicts(parts).Some? {
        FieldReason(parts);
      }
    } else if ReadVersion(parts[0]) == Some(VERSION) {
      ReservedReason(Split(token, {'|', '/'}));
    }
  }

  lemma {:induction false} ReservedReason(atoms: seq<string>)
    requires FirstReserved(atoms).Some?
    ensures SpellsReserved(FirstReserved(atoms).value)
  {
    if !SpellsReserved(atoms[0]) { ReservedReason(atoms[1..]); }
  }
}
