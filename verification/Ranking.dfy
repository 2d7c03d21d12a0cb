/** `winner_of`: the measured candidates of a cell reduced to one row. */
module Ranking {
  import opened Wrappers
  import opened Sorting
  import opened Dispatch

  function ImplementorCode(i: Implementor): string {
    match i
    case Generated => "gen"
    case Cublas => "cublas"
    case Cutlass => "cutlass"
    case Cudnn => "cudnn"
    case Bespoke => "bespoke"
  }

  lemma CodesDiffer(i: Implementor, j: Implementor)
    ensures ImplementorCode(i) == ImplementorCode(j) ==> i == j
  {
  }

  /** A timing that can be a measurement at all. */
  predicate Sound(c: Candidate) { c.median.Finite? && c.median.v > 0.0 }

  predicate NumLe(a: Num, b: Num) { b.NotFinite? || (a.Finite? && a.v <= b.v) }

  predicate EntryLe(a: Option<string>, b: Option<string>) { a.None? || (b.Some? && LessEq(a.value, b.value)) }

  /** `rank_order`: median, then spelling, then entry point. The last two only make it reproducible. */
  predicate RankOrder(a: Candidate, b: Candidate) {
    if a.median != b.median then NumLe(a.median, b.median)
    else if a.implementor != b.implementor then LessEq(ImplementorCode(a.implementor), ImplementorCode(b.implementor))
    else EntryLe(a.entry, b.entry)
  }

  lemma EntryOrders(a: Option<string>, b: Option<string>, c: Option<string>)
    ensures EntryLe(a, b) || EntryLe(b, a)
    ensures EntryLe(a, b) && EntryLe(b, a) ==> a == b
    ensures EntryLe(a, b) && EntryLe(b, c) ==> EntryLe(a, c)
  {
    if a.Some? && b.Some? {
      LessEqTotal(a.value, b.value);
      if c.Some? && EntryLe(a, b) && EntryLe(b, c) { LessEqTrans(a.value, b.value, c.value); }
    }
  }

  lemma CodeOrders(a: Implementor, b: Implementor, c: Implementor)
    ensures var (x, y, z) := (ImplementorCode(a), ImplementorCode(b), ImplementorCode(c));
            (LessEq(x, y) || LessEq(y, x)) && (LessEq(x, y) && LessEq(y, x) ==> a == b) &&
                (LessEq(x, y) && LessEq(y, z) ==> LessEq(x, z))
  {
    var (x, y, z) := (ImplementorCode(a), ImplementorCode(b), ImplementorCode(c));
    LessEqTotal(x, y);
    CodesDiffer(a, b);
    if LessEq(x, y) && LessEq(y, z) { LessEqTrans(x, y, z); }
  }

  lemma RankTrans(a: Candidate, b: Candidate, c: Candidate)
    requires RankOrder(a, b) && RankOrder(b, c)
    ensures RankOrder(a, c)
  {
    CodeOrders(a.implementor, b.implementor, c.implementor);
    CodeOrders(b.implementor, c.implementor, a.implementor);
    EntryOrders(a.entry, b.entry, c.entry);
  }

  /** The order is total and tells any two candidates apart. */
  lemma RankOrders()
    ensures TotalPreorder(RankOrder)
    ensures forall a: Candidate, b: Candidate :: RankOrder(a, b) && RankOrder(b, a) ==> a == b
  {
    forall a: Candidate, b: Candidate
        ensures (RankOrder(a, b) || RankOrder(b, a)) && (RankOrder(a, b) && RankOrder(b, a) ==> a == b) {
      CodeOrders(a.implementor, b.implementor, a.implementor);
      EntryOrders(a.entry, b.entry, a.entry);
    }
    forall a: Candidate, b: Candidate, c: Candidate | RankOrder(a, b) && RankOrder(b, c) ensures RankOrder(a, c) {
      RankTrans(a, b, c);
    }
  }

  function Retain(cs: seq<Candidate>): (r: seq<Candidate>)
    ensures forall c :: c in r <==> c in cs && Sound(c)
  {
    if cs == [] then [] else if Sound(cs[0]) then [cs[0]] + Retain(cs[1..]) else Retain(cs[1..])
  }

  lemma {:induction false} RetainCounts(cs: seq<Candidate>, c: Candidate)
    ensures multiset(Retain(cs))[c] == if Sound(c) then multiset(cs)[c] else 0
  {
    if cs != [] {
      RetainCounts(cs[1..], c);
      assert cs == [cs[0]] + cs[1..];
    }
  }

  function Ranked(cs: seq<Candidate>): seq<Candidate> { Sort(Retain(cs), RankOrder) }

  lemma RankedSound(cs: seq<Candidate>)
    ensures InOrder(Ranked(cs), RankOrder) && multiset(Ranked(cs)) == multiset(Retain(cs))
    ensures forall c :: c in Ranked(cs) <==> c in cs && Sound(c)
  {
    RankOrders();
    SortSorts(Retain(cs), RankOrder);
    forall c ensures c in Ranked(cs) <==> c in cs && Sound(c) {
      assert c in multiset(Ranked(cs)) <==> c in multiset(Retain(cs));
    }
  }

  /** How much faster the first of a ranking is than the second; 1 when there is no second. */
  predicate IsMargin(ranked: seq<Candidate>, margin: Num) {
    && margin.Finite? && margin.v >= 1.0
    && (|ranked| == 1 ==> margin.v == 1.0)
    && (|ranked| >= 2 ==>
          Sound(ranked[0]) && Sound(ranked[1]) && margin.v * ranked[0].median.v == ranked[1].median.v)
  }

  lemma RankedEmpty(cs: seq<Candidate>)
    ensures |Ranked(cs)| == |Retain(cs)|
    ensures Retain(cs) == [] <==> forall c :: c in cs ==> !Sound(c)
  {
    if Retain(cs) == [] {
      forall c | c in cs ensures !Sound(c) { assert c !in Retain(cs); }
    } else {
      assert Retain(cs)[0] in Retain(cs);
    }
  }

  /** The row is the fastest sound candidate's, with every sound candidate behind it in order of
      time; there is none exactly when no candidate is sound. */
  method WinnerOf(token: string, candidates: seq<Candidate>, measuredOn: Option<HwStamp>) returns (r: Option<Row>)
    ensures r.None? <==> forall c :: c in candidates ==> !Sound(c)
    ensures r.Some? ==>
              var cs := Ranked(candidates);
              cs != [] && IsMargin(cs, r.value.margin) &&
              r.value == Row(token, cs[0].implementor, cs[0].entry, r.value.margin, cs, Measured, measuredOn)
  {
    RankedEmpty(candidates);
    ghost var none := Retain(candidates) == [];
    var cs := Retain(candidates);
    if cs == [] { return None; }
    assert !none;
    cs := Sort(cs, RankOrder);
    var margin := MarginOf(candidates, cs);
    r := Some(Row(token, cs[0].implementor, cs[0].entry, margin, cs, Measured, measuredOn));
  }

  /** The ratio of the first two times. */
  method MarginOf(ghost candidates: seq<Candidate>, cs: seq<Candidate>) returns (margin: Num)
    requires cs == Ranked(candidates) && cs != []
    ensures IsMargin(cs, margin)
  {
    margin := Finite(1.0);
    if |cs| >= 2 {
      TopTwo(candidates);
      margin := Finite(cs[1].median.v / cs[0].median.v);
    }
  }

  lemma TopTwo(candidates: seq<Candidate>)
    requires |Ranked(candidates)| >= 2
    ensures var cs := Ranked(candidates);
            Sound(cs[0]) && Sound(cs[1]) && cs[1].median.v / cs[0].median.v >= 1.0 &&
            cs[1].median.v / cs[0].median.v * cs[0].median.v == cs[1].median.v
  {
    var cs := Ranked(candidates);
    RankedSound(candidates);
    assert cs[0] in cs && cs[1] in cs && RankOrder(cs[0], cs[1]);
    QuotientAtLeastOne(cs[1].median.v, cs[0].median.v);
  }

  lemma QuotientAtLeastOne(x: real, y: real)
    requires x >= y > 0.0
    ensures x / y >= 1.0 && x / y * y == x
  {
  }

  /** The first of the ranking is at least as fast as every sound candidate. */
  lemma FastestFirst(cs: seq<Candidate>, c: Candidate)
    requires c in cs && Sound(c)
    ensures Ranked(cs) != [] && Sound(Ranked(cs)[0]) && Ranked(cs)[0].median.v <= c.median.v
  {
    RankedSound(cs);
    var i :| 0 <= i < |Ranked(cs)| && Ranked(cs)[i] == c;
    assert Ranked(cs)[0] in Ranked(cs);
    assert i > 0 ==> RankOrder(Ranked(cs)[0], Ranked(cs)[i]);
  }

  /** The ranking, and so the row, does not depend on the order the candidates come in. */
  lemma RankingIgnoresOrder(cs: seq<Candidate>, cs': seq<Candidate>)
    requires multiset(cs) == multiset(cs')
    ensures Ranked(cs) == Ranked(cs')
  {
    RankOrders();
    RankedSound(cs);
    RankedSound(cs');
    forall c ensures multiset(Retain(cs))[c] == multiset(Retain(cs'))[c] {
      RetainCounts(cs, c);
      RetainCounts(cs', c);
    }
    assert multiset(Retain(cs)) == multiset(Retain(cs'));
    OrderedOnce(Ranked(cs), Ranked(cs'), RankOrder);
  }

  /** Of two candidates in the ranking the one before is faster; at equal times its implementor's code
      comes first in byte order, and at equal codes it names no entry point or an earlier one. */
  lemma RankedBy(cs: seq<Candidate>, i: nat, j: nat)
    requires i < j < |Ranked(cs)|
    ensures var (a, b) := (Ranked(cs)[i], Ranked(cs)[j]);
            a.median.Finite? && b.median.Finite? && a.median.v > 0.0 &&
            (a.median.v < b.median.v ||
             (a.median.v == b.median.v &&
              (Less(ImplementorCode(a.implementor), ImplementorCode(b.implementor)) ||
               (a.implementor == b.implementor &&
                (a.entry == None || a.entry == b.entry || (b.entry.Some? && Less(a.entry.value, b.entry.value)))))))
  {
    RankedSound(cs);
    var (a, b) := (Ranked(cs)[i], Ranked(cs)[j]);
    assert a in Ranked(cs) && b in Ranked(cs) && RankOrder(a, b);
    CodesDiffer(a.implementor, b.implementor);
  }

  /** In that order the codes are bespoke, cublas, cudnn, cutlass, gen. */
  lemma CodeOrder()
    ensures Less(ImplementorCode(Bespoke), ImplementorCode(Cublas))
    ensures Less(ImplementorCode(Cublas), ImplementorCode(Cudnn))
    ensures Less(ImplementorCode(Cudnn), ImplementorCode(Cutlass))
    ensures Less(ImplementorCode(Cutlass), ImplementorCode(Generated))
  {
    assert DecidedAt("bespoke", "cublas", 0);
    LessIsLexicographic("bespoke", "cublas");
    assert DecidedAt("cublas", "cudnn", 2) by { assert "cublas"[..2] == "cu" == "cudnn"[..2]; }
  }

  /** Ranked are the candidates with a finite time above zero, as often as they come. */
  lemma RankedMembers(cs: seq<Candidate>, c: Candidate)
    ensures multiset(Ranked(cs))[c] ==
            if c.median != NotFinite && c.median.v > 0.0 then multiset(cs)[c] else 0
  {
    RankedSound(cs);
    RetainCounts(cs, c);
  }
}
