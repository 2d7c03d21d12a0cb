/** Target tokens, `<namespace>:<capability-set>`: the grammar of KISS-CLASSIFY section 6.8 and the
    table that interns them under a double-checked lock. Tokens are byte strings. */
module Targets {
  import opened Wrappers
  import opened Text

  datatype TargetError =
    | ForbiddenByte(byte: char, at: nat)
    | Separators(count: nat)
    | EmptyNamespace
    | EmptyCapabilitySet
    | TableFull

  predicate Forbidden(b: char) {
    b as int >= 128 || b as int <= 0x20 || b as int == 0x7f || b in {'|', ';', '/'}
  }

  function Count(s: string, c: char): nat {
    if s == "" then 0 else (if s[0] == c then 1 else 0) + Count(s[1..], c)
  }

  /** Where `c` first stands, or the length. */
  function FirstAt(s: string, c: char): (k: nat)
    ensures k <= |s| && (forall i :: 0 <= i < k ==> s[i] != c) && (k < |s| ==> s[k] == c)
  {
    if s == "" || s[0] == c then 0 else 1 + FirstAt(s[1..], c)
  }

  /** What the standard asks of a token, said without an algorithm. */
  ghost predicate WellFormed(s: string) {
    && (forall i :: 0 <= i < |s| ==> !Forbidden(s[i]))
    && exists ns, cap :: s == ns + ":" + cap && ns != "" && cap != "" && ':' !in ns && ':' !in cap
  }

  /** `validate`: the first violation, in the order the code looks for them. */
  function Verdict(s: string): (r: Option<TargetError>) {
    var k := FirstForbidden(s, 0);
    if k < |s| then Some(ForbiddenByte(s[k], k))
    else if Count(s, ':') != 1 then Some(Separators(Count(s, ':')))
    else if FirstAt(s, ':') == 0 then Some(EmptyNamespace)
    else if FirstAt(s, ':') == |s| - 1 then Some(EmptyCapabilitySet)
    else None
  }

  function FirstForbidden(s: string, from: nat): (k: nat)
    requires from <= |s|
    ensures from <= k <= |s| && (forall i :: from <= i < k ==> !Forbidden(s[i])) && (k < |s| ==> Forbidden(s[k]))
    decreases |s| - from
  {
    if from == |s| || Forbidden(s[from]) then from else FirstForbidden(s, from + 1)
  }

  lemma {:induction false} CountConcat(a: string, b: string, c: char)
    ensures Count(a + b, c) == Count(a, c) + Count(b, c)
  {
    if a == "" {
      assert a + b == b;
    } else {
      assert (a + b)[1..] == a[1..] + b;
      CountConcat(a[1..], b, c);
    }
  }

  lemma {:induction false} CountZero(s: string, c: char)
    ensures Count(s, c) == 0 <==> c !in s
  {
    if s != "" {
      CountZero(s[1..], c);
      assert s == [s[0]] + s[1..];
    }
  }

  /** The namespace and the capability set of a token. */
  function Namespace(s: string): string { s[..FirstAt(s, ':')] }

  function CapabilitySet(s: string): string
    requires ':' in s
  {
    s[FirstAt(s, ':') + 1..]
  }

  /** `validate` accepts exactly the well-formed tokens, and a token is its two components. */
  lemma VerdictIsGrammar(s: string)
    ensures Verdict(s).None? <==> WellFormed(s)
    ensures WellFormed(s) ==> ':' in s && Namespace(s) + ":" + CapabilitySet(s) == s
  {
    var k := FirstAt(s, ':');
    if k < |s| {
      assert s == s[..k] + ":" + s[k + 1..];
      CountConcat(s[..k] + ":", s[k + 1..], ':');
      CountConcat(s[..k], ":", ':');
      CountZero(s[..k], ':');
      CountZero(s[k + 1..], ':');
      assert Count(":", ':') == 1;
    } else {
      CountZero(s, ':');
    }
    if WellFormed(s) {
      var ns, cap :| s == ns + ":" + cap && ns != "" && cap != "" && ':' !in ns && ':' !in cap;
      assert s[|ns|] == ':';
      assert k == |ns| && s[..k] == ns && s[k + 1..] == cap;
    }
  }

  /** The bytes a token may hold are the printable ones of ASCII but for the three separators. */
  lemma AllowedBytes(b: char)
    ensures !Forbidden(b) <==> 0x21 <= b as int <= 0x7e && b != '|' && b != ';' && b != '/'
  {
  }

  ghost predicate AllAllowed(s: string) { forall i :: 0 <= i < |s| ==> !Forbidden(s[i]) }

  /** A forbidden byte is reported first, and the first of them. */
  lemma ByteReason(s: string)
    ensures forall b, at: nat :: Verdict(s) == Some(ForbiddenByte(b, at)) <==>
                                 at < |s| && s[at] == b && Forbidden(b) && forall i :: 0 <= i < at ==> !Forbidden(s[i])
    ensures FirstForbidden(s, 0) < |s| <==> !AllAllowed(s)
  {
    var f := FirstForbidden(s, 0);
  }

  lemma NoneBehind(s: string) returns (k: nat)
    requires Count(s, ':') == 1
    ensures k == FirstAt(s, ':') && k < |s| && ':' !in s[k + 1..]
  {
    CountZero(s, ':');
    k := FirstAt(s, ':');
    assert s == s[..k] + ":" + s[k + 1..];
    CountConcat(s[..k] + ":", s[k + 1..], ':');
    CountConcat(s[..k], ":", ':');
    CountZero(s[k + 1..], ':');
    assert Count(":", ':') == 1;
  }

  /** The one colon of a token, at its start or its end. */
  lemma OneColon(s: string)
    requires Count(s, ':') == 1
    ensures FirstAt(s, ':') < |s|
    ensures ":" <= s <==> FirstAt(s, ':') == 0
    ensures EndsInColon(s) <==> FirstAt(s, ':') == |s| - 1
  {
    var k := NoneBehind(s);
    assert k < |s| - 1 ==> s[|s| - 1] in s[k + 1..];
  }

  /** The violation reported: the first byte that is not allowed; then the number of colons, if it is not
      one; then an empty part, the namespace before the capability set. */
  lemma VerdictReason(s: string)
    ensures forall b, at: nat :: Verdict(s) == Some(ForbiddenByte(b, at)) <==>
                                 at < |s| && s[at] == b && Forbidden(b) && forall i :: 0 <= i < at ==> !Forbidden(s[i])
    ensures forall n: nat :: Verdict(s) == Some(Separators(n)) <==> AllAllowed(s) && n == multiset(s)[':'] && n != 1
    ensures Verdict(s) == Some(EmptyNamespace) <==> AllAllowed(s) && multiset(s)[':'] == 1 && ":" <= s
    ensures Verdict(s) == Some(EmptyCapabilitySet) <==>
              AllAllowed(s) && multiset(s)[':'] == 1 && !(":" <= s) && EndsInColon(s)
  {
    ByteReason(s);
    CountIsMultiplicity(s, ':');
    if Count(s, ':') == 1 { OneColon(s); }
  }

  predicate EndsInColon(s: string) { s != "" && s[|s| - 1] == ':' }

  lemma {:induction false} CountIsMultiplicity(s: string, c: char)
    ensures Count(s, c) == multiset(s)[c]
  {
    if s != "" {
      CountIsMultiplicity(s[1..], c);
      assert s == [s[0]] + s[1..];
    }
  }

  /** A well-formed token is one field of a key. */
  lemma WellFormedClean(s: string)
    requires WellFormed(s)
    ensures Clean(s, {'|', '/', ';'}) && ':' in s
  {
    VerdictIsGrammar(s);
  }

  method Validate(token: string) returns (r: Option<TargetError>)
    ensures r == Verdict(token)
    ensures r.None? <==> WellFormed(token)
  {
    VerdictIsGrammar(token);
    var at := 0;
    while at < |token|
      invariant 0 <= at <= |token| && FirstForbidden(token, 0) == FirstForbidden(token, at)
    {
      if Forbidden(token[at]) { return Some(ForbiddenByte(token[at], at)); }
      at := at + 1;
    }
    var colons := 0;
    for i := 0 to |token|
      invariant colons == Count(token[..i], ':')
    {
      assert token[..i + 1] == token[..i] + [token[i]];
      CountConcat(token[..i], [token[i]], ':');
      if token[i] == ':' { colons := colons + 1; }
    }
    assert token[..|token|] == token;
    if colons != 1 { return Some(Separators(colons)); }
    var split := FirstAt(token, ':');
    if split == 0 { return Some(EmptyNamespace); }
    if split == |token| - 1 { return Some(EmptyCapabilitySet); }
    r := None;
  }

  // ---- interning

  const U16_MAX := 65535

  ghost predicate GoodTable(table: seq<string>) {
    && |table| <= U16_MAX + 1
    && (forall i :: 0 <= i < |table| ==> WellFormed(table[i]))
    && forall i, j :: 0 <= i < j < |table| ==> table[i] != table[j]
  }

  function Position(table: seq<string>, token: string): (k: nat)
    ensures k <= |table| && token !in table[..k] && (k < |table| ==> table[k] == token)
  {
    if table == [] then 0
    else if table[0] == token then 0
    else
      var k := Position(table[1..], token);
      assert table[..k + 1] == [table[0]] + table[1..][..k];
      k + 1
  }

  /** The table as one thread sees it. */
  class InternTable {
    var table: seq<string>

    ghost predicate Valid() reads this { GoodTable(table) }

    constructor ()
      ensures Valid() && table == []
    {
      table := [];
    }

    /** `TargetId::parse`: the same token always gets the same id, ids are never reassigned, and a
        refusal changes nothing. */
    method Parse(token: string) returns (r: Result<nat, TargetError>)
      requires Valid()
      modifies this
      ensures Valid()
      ensures old(table) <= table <= old(table) + [token]
      ensures r.Ok? ==> r.value <= 65535 && r.value < |table| && table[r.value] == token
      ensures r.Err? ==> table == old(table)
      ensures token in old(table) ==> r.Ok? && table == old(table)
      ensures r.Err? <==> !WellFormed(token) || (token !in old(table) && |old(table)| == 65536)
      ensures r.Err? && WellFormed(token) ==> r.error == TableFull
    {
      var verdict := Validate(token);
      if verdict.Some? { return Err(verdict.value); }
      var k := Position(table, token);
      if k < |table| { return Ok(k); }
      assert table[..k] == table;
      if |table| > U16_MAX { return Err(TableFull); }
      table := table + [token];
      r := Ok(|table| - 1);
    }

    /** `TargetId::as_str`. */
    method AsStr(id: nat) returns (token: string)
      requires Valid() && id < |table|
      ensures token == table[id] && WellFormed(token)
    {
      token := table[id];
    }
  }
}
