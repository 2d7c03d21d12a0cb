/** What the strict reader accepts: only readable keys in normal form, and exactly which accepted
    tokens print back byte for byte. */
module KeyReading {
  import opened Wrappers
  import opened Arith
  import opened Text
  import opened KeyCodes
  import opened StructureKeys
  import opened KeyRoundTrip
  import Targets

  // ---- the parts of an accepted key

  lemma {:induction false} DigitsAccepted(s: string, rank: nat, seen: set<nat>)
    requires ReadDigits(s, rank, seen).Some?
    ensures var o := ReadDigits(s, rank, seen).value;
            |o| == |s| && (forall i :: 0 <= i < |o| ==> o[i] < rank && o[i] !in seen) &&
            (forall i, j :: 0 <= i < j < |o| ==> o[i] != o[j]) &&
            (rank <= MAX_RANK ==> OrderDigits(o) == s)
  {
    if s != "" {
      var d := DigitValue(s[0], 10).value;
      DigitsAccepted(s[1..], rank, seen + {d});
      var rest := ReadDigits(s[1..], rank, seen + {d}).value;
      var o := [d] + rest;
      assert o[1..] == rest;
      if rank <= MAX_RANK {
        DecimalDigit(d);
        assert s == [s[0]] + s[1..];
      }
    }
  }

  lemma OrderAccepted(s: string, rank: nat)
    requires ReadOrder(s, rank).Some?
    ensures IsPermutation(ReadOrder(s, rank).value) && |ReadOrder(s, rank).value| == rank
    ensures rank <= MAX_RANK ==> OrderDigits(ReadOrder(s, rank).value) == s
  {
    DigitsAccepted(s, rank, {});
  }

  lemma TakeOrderAccepted(mid: seq<string>, tag: string, rank: nat)
    requires TakeOrder(mid, tag, rank).Some?
    ensures var o := TakeOrder(mid, tag, rank).value.value;
            IsPermutation(o) && |o| == rank && FoldOrder(o, rank) == o
  {
    if mid != [] && Lead(mid[0], tag) {
      OrderAccepted(After(mid[0], tag), rank);
    }
    var o := TakeOrder(mid, tag, rank).value.value;
    if IsIdentity(o) {
      assert o == Identity(rank);
    }
  }

  lemma GeometryAccepted(mid: seq<string>)
    requires ReadGeometry(mid).Some?
    ensures var g := ReadGeometry(mid).value;
            var rank := if g.batch.Some? then 3 else 2;
            IsPermutation(g.lhs) && IsPermutation(g.rhs) && |g.lhs| == |g.rhs| == rank &&
            FoldOrder(g.lhs, rank) == g.lhs && FoldOrder(g.rhs, rank) == g.rhs
  {
    var b := TakeBatch(mid).value;
    var rank := if b.value.Some? then 3 else 2;
    TakeOrderAccepted(b.rest, "ol", rank);
    TakeOrderAccepted(TakeOrder(b.rest, "ol", rank).value.rest, "or", rank);
  }

  lemma UsableAccepted(code: string)
    requires Usable(code).Some?
    ensures !IsReserved(Usable(code).value) && Fold(Usable(code).value) == Usable(code).value
    ensures DTypeCode(Usable(code).value) == code
  {
    DTypeSpelling(code);
  }

  lemma GroupAccepted(comps: seq<string>, scale: Option<DType>)
    requires ReadGroup(comps, scale).Some? &&
             (scale.Some? ==> !IsReserved(scale.value) && Fold(scale.value) == scale.value)
    ensures var c := ReadGroup(comps, scale).value;
            ContractionReadable(c) && CanonContraction(c) == c && IsPermutation(c.lhsOrder) &&
                IsPermutation(c.rhsOrder) &&
            |c.lhsOrder| == |c.rhsOrder| == CellRank(c)
  {
    var prec := comps[|comps| - 4..];
    GeometryAccepted(comps[2..|comps| - 4]);
    UsableAccepted(prec[0]);
    UsableAccepted(prec[1]);
    UsableAccepted(prec[2]);
  }

  lemma ContractionAccepted(field: string)
    requires ReadContraction(field).Some?
    ensures var c := ReadContraction(field).value;
            ContractionReadable(c) && CanonContraction(c) == c && IsPermutation(c.lhsOrder) &&
                IsPermutation(c.rhsOrder) &&
            |c.lhsOrder| == |c.rhsOrder| == CellRank(c)
  {
    var comps := Split(After(field, "c"), {'/'});
    var last := comps[|comps| - 1];
    if Lead(last, "q") {
      UsableAccepted(After(last, "q"));
      GroupAccepted(comps[..|comps| - 1], Usable(After(last, "q")));
    } else {
      GroupAccepted(comps, None);
    }
  }

  lemma AccMpAccepted(field: string, compute: DType)
    requires ReadAccMp(field, compute).Ok?
    ensures var a := ReadAccMp(field, compute).value;
            !IsReserved(a.acc) && !IsMxElement(a.acc) && NewAccMp(compute, a.acc, a.mp) == Some(a) &&
            field == DTypeCode(a.acc) + "/" + MpCode(a.mp)
  {
    var parts := Split(field, {'/'});
    var acc := DTypeFrom(parts[0]).value;
    DTypeSpelling(parts[0]);
    MpRoundTrip(MpFrom(parts[1]).value, parts[1]);
    JoinSplit(field, '/');
    assert Join(parts, '/') == parts[0] + ("/" + parts[1]);
  }

  lemma ReduceAccepted(field: string, rank: nat)
    requires rank <= MAX_RANK && ReadReduce(field, rank).Ok?
    ensures ReadReduce(field, rank).value <= AllAxes(rank) < 256
  {
    AxesBounds(rank);
  }

  lemma TenthAccepted(parts: seq<string>, cls: CellClass, dtype: DType)
    requires |parts| == 9 || |parts| == 10
    requires Fold(dtype) == dtype && ReadTenth(parts, cls, dtype).Some?
    ensures var t := ReadTenth(parts, cls, dtype).value;
            if cls.Ctr? then
              |parts| == 10 && t.accMp.None? && t.contraction.Some? &&
              var c := t.contraction.value;
              ContractionReadable(c) && CanonContraction(c) == c && IsPermutation(c.lhsOrder) &&
                  IsPermutation(c.rhsOrder) &&
              |c.lhsOrder| == |c.rhsOrder| == CellRank(c)
            else
              t.contraction.None? && (t.accMp.Some? <==> |parts| == 10) &&
              (t.accMp.Some? ==>
                 var a := t.accMp.value;
                 !IsReserved(a.acc) && !IsMxElement(a.acc) && !a.acc.Complex64? && !a.acc.Complex128? &&
                 NewAccMp(dtype, a.acc, a.mp) == Some(a) && parts[9] == DTypeCode(a.acc) + "/" + MpCode(a.mp))
  {
    if cls.Ctr? {
      ContractionAccepted(parts[9]);
    } else if |parts| == 10 {
      AccMpAccepted(parts[9], dtype);
      var a := ReadAccMp(parts[9], dtype).value;
      DTypeLead(a.acc);
      assert parts[9][0] == DTypeCode(a.acc)[0];
      assert !Lead(parts[9], "c");
    }
  }

  /** What the fields of an accepted token make: a key the constructors can build. */
  lemma AcceptedFields(parts: seq<string>)
    requires (|parts| == 9 || |parts| == 10) && ReadParts(parts).Some?
    ensures var k := ReadParts(parts).value;
            Targets.WellFormed(k.target) && k.rank <= MAX_RANK && |k.operands| <= MAX_OPERANDS && k.reduceAxes < 256 &&
            !IsReserved(k.dtype) && Fold(k.dtype) == k.dtype && k.reduceAxes <= AllAxes(k.rank) &&
            (k.reduceAxes == 0) == !k.cellClass.Rdc? &&
            k.version == VERSION && forall i :: 0 <= i < |k.operands| ==> k.operands[i].bcast < 256
  {
    var k := ReadParts(parts).value;
    UsableAccepted(parts[2]);
    ReduceAccepted(parts[8], k.rank);
    Targets.VerdictIsGrammar(parts[3]);
  }

  lemma AcceptedTenth(parts: seq<string>)
    requires (|parts| == 9 || |parts| == 10) && ReadParts(parts).Some?
    ensures var k := ReadParts(parts).value;
            ReadTenth(parts, k.cellClass, k.dtype) == Some(Tenth(k.contraction, k.accMp))
  {
  }

  lemma AcceptedKey(parts: seq<string>)
    requires (|parts| == 9 || |parts| == 10) && ReadParts(parts).Some?
    ensures var k := ReadParts(parts).value;
            Constructible(k) && Readable(k) && Canon(k) == k
  {
    var k := ReadParts(parts).value;
    AcceptedFields(parts);
    AcceptedTenth(parts);
    TenthAccepted(parts, k.cellClass, k.dtype);
    NormalParts(k);
  }

  /** Whatever the reader accepts is a readable key in normal form: printing it gives a token that
      reads back to the same key. */
  lemma AcceptedIsNormal(token: string)
    requires FromToken(token).Some?
    ensures var k := FromToken(token).value;
            Constructible(k) && Readable(k) && Canon(k) == k && FromToken(ToToken(k)) == Some(k)
  {
    AcceptedKey(Split(token, {'|'}));
    TokenRoundTrip(FromToken(token).value);
  }

  lemma NormalParts(k: StructureKey)
    requires Fold(k.dtype) == k.dtype
    requires if k.cellClass.Ctr? then k.contraction.Some? && k.accMp.None? &&
             CanonContraction(k.contraction.value) == k.contraction.value
             else k.contraction.None? && (k.accMp.Some? ==>
                 NewAccMp(k.dtype, k.accMp.value.acc, k.accMp.value.mp) == k.accMp)
    ensures Canon(k) == k
  {
    if k.cellClass.Ctr? {
      assert Some(CanonContraction(k.contraction.value)) == k.contraction;
    }
  }
}
