/** The routing table: rows keyed by a structure-key token, and the rules by which measurements
    replace one another. Times and margins are rationals, or not finite. */
module Dispatch {
  import opened Wrappers
  import opened Sorting
  import StructureKeys
  import KeyRoundTrip

  datatype Implementor = Generated | Cublas | Cutlass | Cudnn | Bespoke

  datatype Provenance = Measured | Seeded | Reported

  datatype HwStamp = HwStamp(target: string, device: string, runtime: string, captured: nat)

  /** A floating-point time or ratio: rounding is not the point, being finite is. */
  datatype Num = Finite(v: real) | NotFinite

  datatype Candidate = Candidate(implementor: Implementor, median: Num, entry: Option<string>)

  datatype Row = Row(token: string, winner: Implementor, winnerEntry: Option<string>, margin: Num,
      ranked: seq<Candidate>,
                     provenance: Provenance, measuredOn: Option<HwStamp>)

  const MIN_FLIP_MARGIN := 1.10

  predicate IsObserved(p: Provenance) { p.Measured? || p.Reported? }

  function Captured(r: Row): nat { if r.measuredOn.Some? then r.measuredOn.value.captured else 0 }

  // ---- the order of tokens

  /** `str::cmp`: the first differing byte decides, and a prefix comes first. */
  predicate LessEq(a: string, b: string) {
    a == "" || (b != "" && (a[0] < b[0] || (a[0] == b[0] && LessEq(a[1..], b[1..]))))
  }

  predicate Less(a: string, b: string) { LessEq(a, b) && a != b }

  lemma {:induction false} LessEqTotal(a: string, b: string)
    ensures LessEq(a, b) || LessEq(b, a)
    ensures LessEq(a, b) && LessEq(b, a) ==> a == b
  {
    if a != "" && b != "" {
      LessEqTotal(a[1..], b[1..]);
      assert a == [a[0]] + a[1..] && b == [b[0]] + b[1..];
    }
  }

  lemma {:induction false} LessEqTrans(a: string, b: string, c: string)
    requires LessEq(a, b) && LessEq(b, c)
    ensures LessEq(a, c)
  {
    if a != "" && a[0] == b[0] && b[0] == c[0] {
      LessEqTrans(a[1..], b[1..], c[1..]);
    }
  }

  predicate TokenOrder(x: Row, y: Row) { LessEq(x.token, y.token) }

  lemma TokenOrders()
    ensures TotalPreorder(TokenOrder)
  {
    forall x: Row, y: Row ensures TokenOrder(x, y) || TokenOrder(y, x) { LessEqTotal(x.token, y.token); }
    forall x: Row, y: Row, z: Row | TokenOrder(x, y) && TokenOrder(y, z) ensures TokenOrder(x, z) {
      LessEqTrans(x.token, y.token, z.token);
    }
  }

  // ---- tables

  /** The first row of a token, which is the one a scan finds. */
  function Find(rows: seq<Row>, token: string): (r: Option<Row>)
    ensures r.Some? ==> r.value.token == token && r.value in rows
    ensures r.None? <==> forall i :: 0 <= i < |rows| ==> rows[i].token != token
  {
    if rows == [] then None else if rows[0].token == token then Some(rows[0]) else Find(rows[1..], token)
  }

  /** The last row of a token. */
  function FindLast(rows: seq<Row>, token: string): Option<Row> {
    if rows == [] then None
    else if rows[|rows| - 1].token == token then Some(rows[|rows| - 1])
    else FindLast(rows[..|rows| - 1], token)
  }

  predicate StrictlySorted(rows: seq<Row>) { forall i, j :: 0 <= i < j < |rows| ==> Less(rows[i].token, rows[j].token) }

  predicate Unique(rows: seq<Row>) { forall i, j :: 0 <= i < j < |rows| ==> rows[i].token != rows[j].token }

  lemma {:induction false} FindIs(rows: seq<Row>, token: string, i: nat)
    requires Unique(rows) && i < |rows| && rows[i].token == token
    ensures Find(rows, token) == Some(rows[i])
  {
    if i > 0 { FindIs(rows[1..], token, i - 1); }
  }

  /** A strictly sorted table is determined by what it answers. */
  lemma {:induction false} TableUnique(s: seq<Row>, t: seq<Row>)
    requires StrictlySorted(s) && StrictlySorted(t) && forall token :: Find(s, token) == Find(t, token)
    ensures s == t
    decreases |s| + |t|
  {
    SameEmpty(s, t);
    SameEmpty(t, s);
    if s != [] {
      HeadsSame(s, t);
      forall token ensures Find(s[1..], token) == Find(t[1..], token) {
        assert Find(s, token) == Find(t, token);
        if token == s[0].token {
          assert Find(s[1..], token).None? && Find(t[1..], token).None?;
        }
      }
      TableUnique(s[1..], t[1..]);
      assert s == [s[0]] + s[1..] && t == [t[0]] + t[1..];
    }
  }

  lemma SameEmpty(s: seq<Row>, t: seq<Row>)
    requires forall token :: Find(s, token) == Find(t, token)
    ensures s == [] ==> t == []
  {
    if t != [] {
      assert Find(s, t[0].token) == Find(t, t[0].token) == Some(t[0]);
    }
  }

  lemma HeadsSame(s: seq<Row>, t: seq<Row>)
    requires StrictlySorted(s) && StrictlySorted(t) && forall token :: Find(s, token) == Find(t, token)
    requires s != [] && t != []
    ensures s[0] == t[0]
  {
    assert Find(t, s[0].token) == Find(s, s[0].token) == Some(s[0]);
    assert Find(s, t[0].token) == Find(t, t[0].token) == Some(t[0]);
    var i :| 0 <= i < |t| && t[i] == s[0];
    var j :| 0 <= j < |s| && s[j] == t[0];
    LessEqTotal(s[0].token, t[0].token);
  }

  // ---- normalize

  function Reverse(rows: seq<Row>): seq<Row> { if rows == [] then [] else Reverse(rows[1..]) + [rows[0]] }

  /** `dedup_by` token: the first of each run of equal tokens. */
  function Dedup(rows: seq<Row>): (r: seq<Row>)
    ensures forall i :: 0 <= i < |r| ==> r[i] in rows
    ensures rows != [] ==> r != [] && r[0] == rows[0]
    decreases |rows|
  {
    if |rows| <= 1 then rows
    else if rows[0].token == rows[1].token then Dedup([rows[0]] + rows[2..])
    else [rows[0]] + Dedup(rows[1..])
  }

  function Normalized(rows: seq<Row>): seq<Row> { Dedup(Sort(Reverse(rows), TokenOrder)) }

  lemma {:induction false} FindAppend(rows: seq<Row>, r: Row, token: string)
    ensures Find(rows + [r], token) ==
            if Find(rows, token).Some? then Find(rows, token) else if r.token == token then Some(r) else None
  {
    if rows == [] {
      assert rows + [r] == [r] && [r][1..] == [];
    } else {
      assert (rows + [r])[1..] == rows[1..] + [r];
      FindAppend(rows[1..], r, token);
    }
  }

  lemma {:induction false} LastPrepend(r: Row, rows: seq<Row>, token: string)
    ensures FindLast([r] + rows, token) ==
            if FindLast(rows, token).Some? then FindLast(rows, token) else if r.token == token then Some(r) else None
  {
    if rows == [] {
      assert [r] + rows == [r] && [r][..0] == [];
    } else {
      assert ([r] + rows)[..|rows|] == [r] + rows[..|rows| - 1];
      LastPrepend(r, rows[..|rows| - 1], token);
    }
  }

  lemma {:induction false} FindReverse(rows: seq<Row>, token: string)
    ensures Find(Reverse(rows), token) == FindLast(rows, token)
  {
    if rows != [] {
      FindReverse(rows[1..], token);
      FindAppend(Reverse(rows[1..]), rows[0], token);
      LastPrepend(rows[0], rows[1..], token);
      assert rows == [rows[0]] + rows[1..];
    }
  }

  lemma {:induction false} FindIsFirst(rows: seq<Row>, token: string)
    ensures Find(rows, token) == First(rows, (r: Row) => r.token == token)
  {
    if rows != [] { FindIsFirst(rows[1..], token); }
  }

  lemma FindSort(rows: seq<Row>, token: string)
    ensures Find(Sort(rows, TokenOrder), token) == Find(rows, token)
  {
    forall x: Row, y: Row | x.token == token && y.token == token ensures TokenOrder(x, y) { LessEqTotal(token, token); }
    SortFirst(rows, TokenOrder, (r: Row) => r.token == token);
    FindIsFirst(rows, token);
    FindIsFirst(Sort(rows, TokenOrder), token);
  }

  lemma {:induction false} FindDedup(rows: seq<Row>, token: string)
    ensures Find(Dedup(rows), token) == Find(rows, token)
    decreases |rows|
  {
    if |rows| > 1 {
      if rows[0].token == rows[1].token {
        var shorter := [rows[0]] + rows[2..];
        FindDedup(shorter, token);
        assert shorter[1..] == rows[2..] && rows[1..][1..] == rows[2..];
      } else {
        FindDedup(rows[1..], token);
        assert ([rows[0]] + Dedup(rows[1..]))[1..] == Dedup(rows[1..]);
      }
    }
  }

  lemma {:induction false} DedupSorted(rows: seq<Row>)
    requires InOrder(rows, TokenOrder)
    ensures StrictlySorted(Dedup(rows))
    decreases |rows|
  {
    if |rows| > 1 {
      if rows[0].token == rows[1].token {
        DedupSorted([rows[0]] + rows[2..]);
      } else {
        DedupSorted(rows[1..]);
        var r := Dedup(rows[1..]);
        forall j | 0 <= j < |r| ensures Less(rows[0].token, r[j].token) {
          DedupAfter(rows, r[j]);
        }
      }
    }
  }

  lemma DedupAfter(rows: seq<Row>, x: Row)
    requires InOrder(rows, TokenOrder) && |rows| > 1 && rows[0].token != rows[1].token && x in rows[1..]
    ensures Less(rows[0].token, x.token)
  {
    var k :| 1 <= k < |rows| && rows[k] == x;
    assert TokenOrder(rows[0], rows[k]) && TokenOrder(rows[0], rows[1]);
    if x.token == rows[0].token {
      assert k > 1 ==> TokenOrder(rows[1], rows[k]);
      LessEqTotal(rows[0].token, rows[1].token);
    }
  }

  /** Normalizing leaves one row a token, in order, and of several it keeps the last written. */
  lemma NormalizedLastWriter(rows: seq<Row>)
    ensures StrictlySorted(Normalized(rows))
    ensures forall token :: Find(Normalized(rows), token) == FindLast(rows, token)
  {
    TokenOrders();
    SortSorts(Reverse(rows), TokenOrder);
    DedupSorted(Sort(Reverse(rows), TokenOrder));
    forall token ensures Find(Normalized(rows), token) == FindLast(rows, token) {
      FindReverse(rows, token);
      FindSort(Reverse(rows), token);
      FindDedup(Sort(Reverse(rows), TokenOrder), token);
    }
  }

  lemma {:induction false} UniqueFirstIsLast(rows: seq<Row>, token: string)
    requires Unique(rows)
    ensures FindLast(rows, token) == Find(rows, token)
  {
    if rows != [] {
      var last := rows[|rows| - 1];
      UniqueFirstIsLast(rows[..|rows| - 1], token);
      assert rows == rows[..|rows| - 1] + [last];
      FindAppend(rows[..|rows| - 1], last, token);
    }
  }

  // ---- merge, one token at a time

  /** A row that may enter a table at all: a finite margin, and reported rows only from the target
      their token names. */
  predicate Admissible(inc: Row) {
    inc.margin.Finite? &&
    (inc.provenance.Reported? ==>
       var k := StructureKeys.FromToken(inc.token);
       k.Some? && inc.measuredOn.Some? && k.value.target == inc.measuredOn.value.target)
  }

  predicate SameRoute(inc: Row, cur: Row) {
    inc.winner == cur.winner && (cur.winnerEntry.None? || inc.winnerEntry == cur.winnerEntry)
  }

  predicate ClearsFloor(inc: Row) { inc.margin.Finite? && inc.margin.v >= MIN_FLIP_MARGIN }

  predicate Replaces(inc: Row, cur: Row) {
    && IsObserved(inc.provenance)
    && (IsObserved(cur.provenance) ==> Captured(inc) > Captured(cur))
    && (SameRoute(inc, cur) || ClearsFloor(inc))
  }

  /** What one incoming row makes of its cell. */
  function Decide(cur: Option<Row>, inc: Row): Option<Row> {
    if !Admissible(inc) then cur
    else if cur.None? || Replaces(inc, cur.value) then Some(inc)
    else cur
  }

  /** What a whole feed makes of a token's cell. */
  function Fold(cur: Option<Row>, incoming: seq<Row>, token: string): Option<Row>
    decreases |incoming|
  {
    if incoming == [] then cur
    else Fold(if incoming[0].token == token then Decide(cur, incoming[0]) else cur, incoming[1..], token)
  }

  lemma {:induction false} FoldSnoc(cur: Option<Row>, incoming: seq<Row>, inc: Row, token: string)
    ensures Fold(cur, incoming + [inc], token)
         == if inc.token == token then Decide(Fold(cur, incoming, token), inc) else Fold(cur, incoming, token)
    decreases |incoming|
  {
    if incoming == [] {
      assert incoming + [inc] == [inc] && [inc][1..] == [];
    } else {
      assert (incoming + [inc])[1..] == incoming[1..] + [inc];
      FoldSnoc(if incoming[0].token == token then Decide(cur, incoming[0]) else cur, incoming[1..], inc, token);
    }
  }

  lemma {:induction false} FoldConcat(cur: Option<Row>, xs: seq<Row>, ys: seq<Row>, token: string)
    ensures Fold(cur, xs + ys, token) == Fold(Fold(cur, xs, token), ys, token)
    decreases |xs|
  {
    if xs == [] {
      assert xs + ys == ys;
    } else {
      assert (xs + ys)[1..] == xs[1..] + ys;
      FoldConcat(if xs[0].token == token then Decide(cur, xs[0]) else cur, xs[1..], ys, token);
    }
  }

  function Position(rows: seq<Row>, token: string): (k: nat)
    ensures k <= |rows| && (forall i :: 0 <= i < k ==> rows[i].token != token) &&
            (k < |rows| ==> rows[k].token == token)
  {
    if rows == [] || rows[0].token == token then 0 else 1 + Position(rows[1..], token)
  }

  lemma FindAfterUpdate(rows: seq<Row>, k: nat, inc: Row)
    requires Unique(rows) && k < |rows| && rows[k].token == inc.token
    ensures Unique(rows[k := inc])
    ensures forall token :: Find(rows[k := inc], token) == if token == inc.token then Some(inc) else Find(rows, token)
  {
    var rows' := rows[k := inc];
    forall token ensures Find(rows', token) == if token == inc.token then Some(inc) else Find(rows, token) {
      if token == inc.token {
        FindIs(rows', token, k);
      } else if Find(rows, token).Some? {
        var i :| 0 <= i < |rows| && rows[i].token == token;
        FindIs(rows, token, i);
        FindIs(rows', token, i);
      }
    }
  }

  lemma FindAfterPush(rows: seq<Row>, inc: Row)
    requires Unique(rows) && Find(rows, inc.token).None?
    ensures Unique(rows + [inc])
    ensures forall token :: Find(rows + [inc], token) == if token == inc.token then Some(inc) else Find(rows, token)
  {
    forall token ensures Find(rows + [inc], token) == if token == inc.token then Some(inc) else Find(rows, token) {
      FindAppend(rows, inc, token);
    }
  }

  /** A table that merging `feed`, in one go or in several, makes of the empty one. */
  ghost predicate BuiltBy(rows: seq<Row>, feed: seq<Row>) {
    StrictlySorted(rows) && forall token :: Find(rows, token) == Fold(None, feed, token)
  }

  lemma BuiltMore(rows: seq<Row>, feed: seq<Row>, after: seq<Row>, more: seq<Row>)
    requires BuiltBy(rows, feed) && StrictlySorted(after)
    requires forall token :: Find(after, token) == Fold(Find(rows, token), more, token)
    ensures BuiltBy(after, feed + more)
  {
    forall token ensures Find(after, token) == Fold(None, feed + more, token) {
      FoldConcat(None, feed, more, token);
      assert Find(rows, token) == Fold(None, feed, token);
    }
  }

  class DispatchTable {
    var entries: seq<Row>

    ghost predicate Valid() reads this { StrictlySorted(entries) }

    constructor ()
      ensures Valid() && BuiltBy(entries, [])
    {
      entries := [];
    }

    constructor FromEntries(rows: seq<Row>)
      ensures Valid() && forall token :: Find(entries, token) == FindLast(rows, token)
    {
      NormalizedLastWriter(rows);
      entries := Normalized(rows);
    }

    /** Sorted and unique again, the last writer of a token kept. */
    method Normalize()
      modifies this
      ensures Valid() && forall token :: Find(entries, token) == FindLast(old(entries), token)
    {
      NormalizedLastWriter(entries);
      entries := Reverse(entries);
      entries := Sort(entries, TokenOrder);
      entries := Dedup(entries);
    }

    /** `merge`: every cell becomes what the feed, in order, makes of it. */
    method Merge(incoming: seq<Row>)
      requires Unique(entries)
      modifies this
      ensures Valid() && forall token :: Find(entries, token) == Fold(Find(old(entries), token), incoming, token)
      ensures forall feed :: BuiltBy(old(entries), feed) ==> BuiltBy(entries, feed + incoming)
    {
      ghost var before := entries;
      for i := 0 to |incoming|
        invariant Unique(entries)
        invariant forall token :: Find(entries, token) == Fold(Find(before, token), incoming[..i], token)
      {
        var inc := incoming[i];
        ghost var then' := entries;
        Offer(inc);
        assert incoming[..i + 1] == incoming[..i] + [inc];
        forall token ensures Find(entries, token) == Fold(Find(before, token), incoming[..i + 1], token) {
          FoldSnoc(Find(before, token), incoming[..i], inc, token);
          assert Find(then', token) == Fold(Find(before, token), incoming[..i], token);
        }
      }
      assert incoming[..|incoming|] == incoming;
      forall token ensures FindLast(entries, token) == Find(entries, token) { UniqueFirstIsLast(entries, token); }
      Normalize();
      forall feed | BuiltBy(before, feed) ensures BuiltBy(entries, feed + incoming) {
        BuiltMore(before, feed, entries, incoming);
      }
    }

    /** One row of the feed. */
    method Offer(inc: Row)
      requires Unique(entries)
      modifies this
      ensures Unique(entries)
      ensures forall token :: Find(entries, token) ==
                if token == inc.token then Decide(Find(old(entries), token), inc) else Find(old(entries), token)
    {
      if !inc.margin.Finite? { return; }
      if inc.provenance.Reported? {
        var k := StructureKeys.FromToken(inc.token);
        if k.None? || inc.measuredOn.None? || k.value.target != inc.measuredOn.value.target { return; }
      }
      var k := Position(entries, inc.token);
      if k == |entries| {
        FindAfterPush(entries, inc);
        entries := entries + [inc];
      } else {
        var cur := entries[k];
        FindIs(entries, inc.token, k);
        if !IsObserved(inc.provenance) { return; }
        if IsObserved(cur.provenance) && Captured(inc) <= Captured(cur) { return; }
        if !SameRoute(inc, cur) && !ClearsFloor(inc) { return; }
        FindAfterUpdate(entries, k, inc);
        entries := entries[k := inc];
      }
    }

    /** `lookup`: the row of the key's token. */
    method Lookup(key: StructureKeys.StructureKey) returns (r: Option<Row>)
      requires key.reduceAxes < 256 && forall i :: 0 <= i < |key.operands| ==> key.operands[i].bcast < 256
      ensures r == Find(entries, StructureKeys.ToToken(key))
    {
      var token := StructureKeys.ToToken(key);
      var k := Position(entries, token);
      FindAtPosition(entries, token);
      r := if k < |entries| then Some(entries[k]) else None;
    }
  }

  lemma {:induction false} FindAtPosition(rows: seq<Row>, token: string)
    ensures var k := Position(rows, token);
            Find(rows, token) == if k < |rows| then Some(rows[k]) else None
  {
    if rows != [] && rows[0].token != token { FindAtPosition(rows[1..], token); }
  }

  // ---- what every feed keeps

  /** A cell once filled stays filled, an observed row never goes back to a seed, and the capture
      times of a cell's observed rows never decrease. */
  ghost predicate Later(cur: Option<Row>, cur': Option<Row>) {
    cur.Some? ==>
      cur'.Some? && cur'.value.token == cur.value.token &&
      (IsObserved(cur.value.provenance) ==>
         IsObserved(cur'.value.provenance) && Captured(cur'.value) >= Captured(cur.value))
  }

  lemma {:induction false} FeedsOnlyAdvance(cur: Option<Row>, incoming: seq<Row>, token: string)
    requires cur.Some? ==> cur.value.token == token
    ensures Later(cur, Fold(cur, incoming, token))
    decreases |incoming|
  {
    if incoming != [] {
      var next := if incoming[0].token == token then Decide(cur, incoming[0]) else cur;
      FeedsOnlyAdvance(next, incoming[1..], token);
    }
  }

  /** The rows of the feed that bear on a token's cell and clear the noise floor. */
  ghost predicate HasFlip(incoming: seq<Row>, token: string) {
    exists i :: 0 <= i < |incoming| && incoming[i].token == token && Admissible(incoming[i]) && ClearsFloor(incoming[i])
  }

  /** Without a row at or above the noise floor the implementor a cell routes to stays, and so does
      the entry point once there is one. */
  lemma {:induction false} RoutesAreSticky(cur: Row, incoming: seq<Row>, token: string)
    requires !HasFlip(incoming, token)
    ensures var r := Fold(Some(cur), incoming, token);
            r.Some? && r.value.winner == cur.winner &&
            (cur.winnerEntry.Some? ==> r.value.winnerEntry == cur.winnerEntry)
    decreases |incoming|
  {
    if incoming != [] {
      var next := if incoming[0].token == token then Decide(Some(cur), incoming[0]) else Some(cur);
      assert !HasFlip(incoming[1..], token) by {
        forall i | 0 <= i < |incoming[1..]|
            ensures !(incoming[1..][i].token == token && Admissible(incoming[1..][i]) &&
            ClearsFloor(incoming[1..][i])) {
          assert incoming[1..][i] == incoming[i + 1];
        }
      }
      RoutesAreSticky(next.value, incoming[1..], token);
    }
  }

  /** A row of the result was there before or came in admissibly. */
  lemma {:induction false} RowsComeFrom(cur: Option<Row>, incoming: seq<Row>, token: string)
    ensures var r := Fold(cur, incoming, token);
            r == cur || (r.Some? && r.value in incoming && r.value.token == token && Admissible(r.value))
    decreases |incoming|
  {
    if incoming != [] {
      RowsComeFrom(if incoming[0].token == token then Decide(cur, incoming[0]) else cur, incoming[1..], token);
    }
  }

  /** Merging a feed in two parts is merging it whole: the same table, row for row. */
  lemma MergesCompose(a: seq<Row>, b: seq<Row>, c: seq<Row>, d: seq<Row>, xs: seq<Row>, ys: seq<Row>)
    requires StrictlySorted(c) && StrictlySorted(d)
    requires forall token :: Find(b, token) == Fold(Find(a, token), xs, token)
    requires forall token :: Find(c, token) == Fold(Find(b, token), ys, token)
    requires forall token :: Find(d, token) == Fold(Find(a, token), xs + ys, token)
    ensures c == d
  {
    forall token ensures Find(c, token) == Find(d, token) {
      FoldConcat(Find(a, token), xs, ys, token);
      assert Find(b, token) == Fold(Find(a, token), xs, token);
    }
    TableUnique(c, d);
  }

  /** Whatever feeds built a table, a reported row in it only ever answers for the target it was
      observed on. */
  lemma ReportedStaysHome(rows: seq<Row>, feed: seq<Row>, key: StructureKeys.StructureKey)
    requires BuiltBy(rows, feed) && KeyRoundTrip.Readable(key) && StructureKeys.Constructible(key)
    requires Find(rows, StructureKeys.ToToken(key)).Some?
    requires Find(rows, StructureKeys.ToToken(key)).value.provenance.Reported?
    ensures Find(rows, StructureKeys.ToToken(key)).value.measuredOn.Some?
    ensures Find(rows, StructureKeys.ToToken(key)).value.measuredOn.value.target == key.target
  {
    var token := StructureKeys.ToToken(key);
    assert Find(rows, token) == Fold(None, feed, token);
    RowsComeFrom(None, feed, token);
    KeyRoundTrip.TokenRoundTrip(key);
  }

  // ---- what a feed brings in

  /** The row was measured or reported, and reported only of the target its token names. */
  ghost predicate Observation(r: Row) {
    r.margin.Finite? && !r.provenance.Seeded? &&
    (r.provenance.Reported? ==>
       StructureKeys.FromToken(r.token).Some? && r.measuredOn.Some? &&
       StructureKeys.FromToken(r.token).value.target == r.measuredOn.value.target)
  }

  ghost function TimeOf(r: Row): nat {
    match r.measuredOn
    case Some(stamp) => stamp.captured
    case None => 0
  }

  /** An empty cell takes the first row that comes with a finite margin and, if reported, from its own
      target. */
  lemma FirstRowFills(inc: Row)
    ensures Fold(None, [inc], inc.token) ==
            if Observation(inc) || (inc.provenance.Seeded? && inc.margin.Finite?) then Some(inc) else None
  {
    assert [inc][1..] == [];
  }

  /** A filled cell takes an observation over a seed or an older observation exactly when the route
      stays, to the same implementor and entry point, or the margin is at least 1.10; it takes no
      other row. */
  lemma RowTakesOver(cur: Row, inc: Row)
    ensures Fold(Some(cur), [inc], inc.token) ==
            if Observation(inc) &&
               (cur.provenance.Seeded? || TimeOf(inc) > TimeOf(cur)) &&
               ((inc.winner == cur.winner && (cur.winnerEntry == None || inc.winnerEntry == cur.winnerEntry)) ||
                inc.margin.v >= 1.10)
            then Some(inc) else Some(cur)
  {
    assert [inc][1..] == [];
  }

  /** An observation with a margin of at least 1.10, captured after all others of its token, is what
      the feed leaves in the cell, whatever came before or after it. */
  lemma LatestClearWinner(cur: Option<Row>, feed: seq<Row>, i: nat)
    requires i < |feed| && Observation(feed[i]) && feed[i].margin.v >= 1.10
    requires cur.Some? ==> cur.value.provenance.Seeded? || TimeOf(cur.value) < TimeOf(feed[i])
    requires forall j :: 0 <= j < |feed| && j != i && feed[j].token == feed[i].token ==>
               feed[j].provenance.Seeded? || TimeOf(feed[j]) < TimeOf(feed[i])
    ensures Fold(cur, feed, feed[i].token) == Some(feed[i])
  {
    var (inc, before, after) := (feed[i], feed[..i], feed[i + 1..]);
    assert feed == (before + [inc]) + after;
    FoldConcat(cur, before + [inc], after, inc.token);
    FoldConcat(cur, before, [inc], inc.token);
    var mid := Fold(cur, before, inc.token);
    RowsComeFrom(cur, before, inc.token);
    if mid.Some? {
      RowTakesOver(mid.value, inc);
    } else {
      FirstRowFills(inc);
    }
    OlderRowsPass(inc, after);
  }

  lemma {:induction false} OlderRowsPass(cur: Row, feed: seq<Row>)
    requires Observation(cur)
    requires forall j :: 0 <= j < |feed| && feed[j].token == cur.token ==>
               feed[j].provenance.Seeded? || TimeOf(feed[j]) < TimeOf(cur)
    ensures Fold(Some(cur), feed, cur.token) == Some(cur)
  {
    if feed != [] {
      OlderRowsPass(cur, feed[1..]);
    }
  }

  /** The first place the two differ, or where the first ends, decides. */
  ghost predicate DecidedAt(a: string, b: string, k: nat) {
    k <= |a| && k < |b| && a[..k] == b[..k] && (k < |a| ==> a[k] < b[k])
  }

  lemma DecidedBehind(a: string, b: string, k: nat)
    requires a != "" && b != "" && a[0] == b[0]
    ensures DecidedAt(a, b, k + 1) <==> DecidedAt(a[1..], b[1..], k)
    ensures !DecidedAt(a, b, 0)
  {
    if k < |a| && k < |b| {
      assert a[..k + 1] == [a[0]] + a[1..][..k] && b[..k + 1] == [b[0]] + b[1..][..k];
      assert a[1..][..k] == a[..k + 1][1..] && b[1..][..k] == b[..k + 1][1..];
    }
  }

  /** Tokens are ordered byte by byte, and a token comes after its own beginnings. */
  lemma {:induction false} LessIsLexicographic(a: string, b: string)
    ensures Less(a, b) <==> exists k: nat :: DecidedAt(a, b, k)
  {
    if a != "" && b != "" && a[0] == b[0] {
      LessIsLexicographic(a[1..], b[1..]);
      assert a == [a[0]] + a[1..] && b == [b[0]] + b[1..];
      if k: nat :| DecidedAt(a[1..], b[1..], k) {
        DecidedBehind(a, b, k);
      }
      if k: nat :| DecidedAt(a, b, k) {
        DecidedBehind(a, b, if k > 0 then k - 1 else 0);
      }
    } else {
      assert a[..0] == b[..0];
      assert Less(a, b) ==> DecidedAt(a, b, 0);
      if a != "" && b != "" { DifferentHeads(a, b); }
    }
  }

  lemma DifferentHeads(a: string, b: string)
    requires a != "" && b != "" && a[0] != b[0]
    ensures forall k :: 0 < k <= |a| && k <= |b| ==> a[..k] != b[..k]
  {
    forall k | 0 < k <= |a| && k <= |b| ensures a[..k] != b[..k] {
      assert a[..k][0] == a[0] && b[..k][0] == b[0];
    }
  }
}
