/** The codec as the program runs it: a string built by appending, operands read into slots, a
    cursor over the optional components, a set of digits already seen. Each is shown to compute
    what `StructureKeys` says. */
module KeyCodec {
  import opened Wrappers
  import opened Text
  import opened KeyCodes
  import opened StructureKeys
  import KeyReading
  import KeyRoundTrip

  lemma {:induction false} JoinSnoc(parts: seq<string>, x: string, sep: char)
    requires parts != []
    ensures Join(parts + [x], sep) == Join(parts, sep) + ([sep] + x)
  {
    if |parts| == 1 {
      assert (parts + [x])[1..] == [x];
    } else {
      JoinSnoc(parts[1..], x, sep);
      assert (parts + [x])[1..] == parts[1..] + [x];
    }
  }

  method WriteOperand(o: OperandKey) returns (text: string)
    requires o.bcast < 256
    ensures text == OperandText(o)
  {
    var fields := [ContigCode(o.contig), Hex2(o.bcast), VecCode(o.vec), DivCode(o.div), FlipCode(o.flipped)];
    text := ContigCode(o.contig);
    assert fields[..1] == [ContigCode(o.contig)];
    for i := 1 to 5
      invariant text == Join(fields[..i], '/')
    {
      assert fields[..i + 1] == fields[..i] + [fields[i]];
      JoinSnoc(fields[..i], fields[i], '/');
      text := text + "/" + fields[i];
    }
    assert fields[..5] == fields && fields + [] == fields;
    if o.dequant.Some? {
      JoinSnoc(fields, DequantCode(o.dequant.value), '/');
      text := text + "/" + DequantCode(o.dequant.value);
    }
  }

  /** What `i` operands have spelled so far. */
  ghost function Spelled(os: seq<OperandKey>, i: nat): string
    requires i <= |os| && forall j :: 0 <= j < |os| ==> os[j].bcast < 256
  {
    OperandsField(os[..i])
  }

  lemma SpelledNext(os: seq<OperandKey>, i: nat)
    requires i < |os| && forall j :: 0 <= j < |os| ==> os[j].bcast < 256
    ensures Spelled(os, i + 1) == (if i == 0 then "" else Spelled(os, i) + ";") + OperandText(os[i])
  {
    var texts := OperandTexts(os[..i]);
    assert OperandTexts(os[..i + 1]) == texts + [OperandText(os[i])];
    if i > 0 {
      JoinSnoc(texts, OperandText(os[i]), ';');
    }
  }

  method WriteOperands(os: seq<OperandKey>) returns (ops: string)
    requires forall i :: 0 <= i < |os| ==> os[i].bcast < 256
    ensures ops == OperandsField(os)
  {
    ops := "";
    for i := 0 to |os|
      invariant ops == Spelled(os, i)
    {
      SpelledNext(os, i);
      if i > 0 { ops := ops + ";"; }
      var text := WriteOperand(os[i]);
      ops := ops + text;
    }
    assert os[..|os|] == os;
  }

  /** One more component, behind what `comps` already spell. */
  method Append(ghost comps: seq<string>, text: string, x: string) returns (longer: string)
    requires comps != [] && text == Join(comps, '/')
    ensures longer == text + "/" + x && longer == Join(comps + [x], '/')
  {
    JoinSnoc(comps, x, '/');
    longer := text + "/" + x;
  }

  method WriteGeometry(c: ContractionKey) returns (text: string)
    ensures text == Join([Sizes(c), DivCode(c.kDiv)] + Geometry(c), '/')
  {
    ghost var head := [Sizes(c), DivCode(c.kDiv)];
    text := Sizes(c) + "/" + DivCode(c.kDiv);
    assert text == Join(head, '/');
    ghost var batch: seq<string> := if c.batch.Some? then [['b', SizeCode(c.batch.value)]] else [];
    ghost var (l, r) := (OrderFields("ol", c.lhsOrder), OrderFields("or", c.rhsOrder));
    if c.batch.Some? {
      text := Append(head, text, ['b', SizeCode(c.batch.value)]);
    }
    assert text == Join(head + batch, '/') by { assert head + [] == head; }
    if !IsIdentity(c.lhsOrder) {
      text := Append(head + batch, text, "ol" + OrderDigits(c.lhsOrder));
    }
    assert text == Join(head + batch + l, '/') by { assert head + batch + [] == head + batch; }
    if !IsIdentity(c.rhsOrder) {
      text := Append(head + batch + l, text, "or" + OrderDigits(c.rhsOrder));
    }
    assert text == Join(head + batch + l + r, '/') by { assert head + batch + l + [] == head + batch + l; }
    assert head + batch + l + r == head + Geometry(c);
  }

  method WritePrecision(c: ContractionKey, ghost front: seq<string>, text: string) returns (longer: string)
    requires front != [] && text == Join(front, '/')
    ensures longer == Join(front + PrecisionGroup(c), '/')
  {
    longer := Append(front, text, DTypeCode(c.wdt));
    longer := Append(front + [DTypeCode(c.wdt)], longer, DTypeCode(c.acc));
    longer := Append(front + [DTypeCode(c.wdt)] + [DTypeCode(c.acc)], longer, DTypeCode(c.out));
    longer := Append(front + [DTypeCode(c.wdt)] + [DTypeCode(c.acc)] + [DTypeCode(c.out)], longer, MpCode(c.mp));
    assert front + [DTypeCode(c.wdt)] + [DTypeCode(c.acc)] + [DTypeCode(c.out)] + [MpCode(c.mp)] ==
           front + PrecisionGroup(c);
  }

  /** The contraction group, one component appended after the other. */
  method WriteContraction(c: ContractionKey) returns (field: string)
    ensures field == ContractionField(c)
  {
    ghost var front := [Sizes(c), DivCode(c.kDiv)] + Geometry(c);
    field := WriteGeometry(c);
    field := WritePrecision(c, front, field);
    ghost var group := front + PrecisionGroup(c);
    if c.scale.Some? {
      field := Append(group, field, "q" + DTypeCode(c.scale.value));
    }
    assert field == Join(group + ScaleFields(c), '/') by { assert group + [] == group; }
    field := "c" + field;
  }

  method WriteNine(fields: seq<string>) returns (token: string)
    requires |fields| == 9
    ensures token == Join(fields, '|')
  {
    token := fields[0];
    assert fields[..1] == [fields[0]];
    for i := 1 to 9
      invariant token == Join(fields[..i], '|')
    {
      assert fields[..i + 1] == fields[..i] + [fields[i]];
      JoinSnoc(fields[..i], fields[i], '|');
      token := token + "|" + fields[i];
    }
    assert fields[..9] == fields;
  }

  method WriteTenth(k: StructureKey) returns (tenth: Option<string>)
    ensures TenthField(k) == if tenth.Some? then [tenth.value] else []
  {
    tenth := None;
    if !k.cellClass.Ctr? {
      var a := PrintedAccMp(k);
      if a.Some? { tenth := Some(DTypeCode(a.value.acc) + "/" + MpCode(a.value.mp)); }
    } else if k.contraction.Some? {
      var field := WriteContraction(k.contraction.value);
      tenth := Some(field);
    }
  }

  method WriteToken(k: StructureKey) returns (token: string)
    requires k.reduceAxes < 256 && forall i :: 0 <= i < |k.operands| ==> k.operands[i].bcast < 256
    ensures token == ToToken(k)
    ensures Constructible(k) ==>
              FromToken(token) == if KeyRoundTrip.Readable(k) then Some(KeyRoundTrip.Canon(k)) else None
  {
    if Constructible(k) {
      KeyRoundTrip.TokenRoundTrip(k);
    }
    var ops := WriteOperands(k.operands);
    var reduce := ReduceField(k.reduceAxes, k.rank);
    var nine := ["sk" + Decimal(k.version), ClassCode(k.cellClass), DTypeCode(k.dtype), k.target, IdxCode(k.idx),
        WorkCode(k.work),
                 "r" + Decimal(k.rank), ops, reduce];
    assert nine == NineFields(k);
    token := WriteNine(nine);
    var tenth := WriteTenth(k);
    token := AppendTenth(nine, token, tenth);
  }

  method AppendTenth(ghost nine: seq<string>, text: string, tenth: Option<string>) returns (token: string)
    requires nine != [] && text == Join(nine, '|')
    ensures token == Join(nine + (if tenth.Some? then [tenth.value] else []), '|')
  {
    if tenth.Some? {
      JoinSnoc(nine, tenth.value, '|');
      token := text + "|" + tenth.value;
    } else {
      assert nine + [] == nine;
      token := text;
    }
  }

  // ---- reading

  /** `order_from_digits`, with the digits used so far in `seen`. */
  method ReadOrderDigits(s: string, rank: nat) returns (r: Option<LayoutOrder>)
    ensures r == ReadOrder(s, rank)
    ensures r.Some? ==> IsPermutation(r.value) && |r.value| == rank && OrderDigits(r.value) == s
  {
    if |s| == 0 || |s| > MAX_RANK || |s| != rank { return None; }
    var perm: LayoutOrder := [];
    var seen: set<nat> := {};
    ghost var whole := ReadDigits(s, rank, {});
    assert s[0..] == s && (whole.Some? ==> [] + whole.value == whole.value);
    for i := 0 to |s|
      invariant whole == match ReadDigits(s[i..], rank, seen) { case Some(o) => Some(perm + o) case None => None }
    {
      assert s[i..][0] == s[i] && s[i..][1..] == s[i + 1..];
      var d := DigitValue(s[i], 10);
      if d.None? || d.value >= rank || d.value in seen { return None; }
      ghost var rest := ReadDigits(s[i + 1..], rank, seen + {d.value});
      assert rest.Some? ==> perm + ([d.value] + rest.value) == (perm + [d.value]) + rest.value;
      perm, seen := perm + [d.value], seen + {d.value};
    }
    assert s[|s|..] == "" && perm + [] == perm;
    r := Some(perm);
    assert r == ReadOrder(s, rank);
    KeyReading.OrderAccepted(s, rank);
  }

  /** The optional components between `<kdiv>` and the precision group, taken by a cursor. */
  method ReadGeometryCursor(mid: seq<string>) returns (r: Option<GeometryRead>)
    ensures r == ReadGeometry(mid)
  {
    var cur := 0;
    var batch: Option<SizeClass> := None;
    assert mid[0..] == mid;
    if cur < |mid| && Lead(mid[cur], "b") {
      if |mid[cur]| != 2 { return None; }
      batch := SizeFrom(mid[cur][1]);
      if batch.None? { return None; }
      cur := cur + 1;
    }
    assert TakeBatch(mid) == Some(Taken(batch, mid[cur..]));
    var rank := if batch.Some? then 3 else 2;
    var lhs, rhs := Identity(rank), Identity(rank);
    ghost var left := mid[cur..];
    if cur < |mid| && Lead(mid[cur], "ol") {
      var o := ReadOrderDigits(After(mid[cur], "ol"), rank);
      if o.None? { return None; }
      lhs, cur := o.value, cur + 1;
    }
    assert TakeOrder(left, "ol", rank) == Some(Taken(lhs, mid[cur..]));
    left := mid[cur..];
    if cur < |mid| && Lead(mid[cur], "or") {
      var o := ReadOrderDigits(After(mid[cur], "or"), rank);
      if o.None? { return None; }
      rhs, cur := o.value, cur + 1;
    }
    assert TakeOrder(left, "or", rank) == Some(Taken(rhs, mid[cur..]));
    if cur < |mid| { return None; }
    r := Some(GeometryRead(batch, lhs, rhs));
  }

  /** The operand slots, filled left to right. */
  method ReadOperandSlots(field: string) returns (r: Option<seq<OperandKey>>)
    ensures r == ReadOperands(field)
  {
    if field == "" { return Some([]); }
    var fields := Split(field, {';'});
    if |fields| > MAX_OPERANDS { return None; }
    var slots: seq<OperandKey> := [];
    for i := 0 to |fields|
      invariant |slots| == i && forall j :: 0 <= j < i ==> ReadOperand(fields[j]) == Some(slots[j])
    {
      var o := ReadOperand(fields[i]);
      if o.None? { return None; }
      slots := slots + [o.value];
    }
    assert ReadEach(fields).Some? && ReadEach(fields).value == slots;
    r := Some(slots);
  }
}
