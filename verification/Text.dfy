/** Splitting and joining text on separators, and the numbers a token spells. */
module Text {
  import opened Wrappers

  predicate Clean(s: string, seps: set<char>) { forall i :: 0 <= i < |s| ==> s[i] !in seps }

  /** `str::split` on any of `seps`. */
  function Split(s: string, seps: set<char>): (r: seq<string>)
    ensures r != []
  {
    if s == "" then [""]
    else
      var r := Split(s[1..], seps);
      if s[0] in seps then [""] + r else [[s[0]] + r[0]] + r[1..]
  }

  function Join(parts: seq<string>, sep: char): string
    requires parts != []
  {
    if |parts| == 1 then parts[0] else parts[0] + ([sep] + Join(parts[1..], sep))
  }

  lemma {:induction false} SplitClean(a: string, seps: set<char>)
    requires Clean(a, seps)
    ensures Split(a, seps) == [a]
  {
    if a != "" {
      SplitClean(a[1..], seps);
      assert [a[0]] + a[1..] == a;
    }
  }

  lemma {:induction false} SplitAt(a: string, sep: char, b: string, seps: set<char>)
    requires Clean(a, seps) && sep in seps
    ensures Split(a + ([sep] + b), seps) == [a] + Split(b, seps)
  {
    var all := a + ([sep] + b);
    if a == "" {
      assert all[1..] == b;
    } else {
      SplitAt(a[1..], sep, b, seps);
      assert all[1..] == a[1..] + ([sep] + b);
      assert [a[0]] + a[1..] == a;
    }
  }

  /** Joining undoes splitting, and splitting undoes joining when no part holds the separator. */
  lemma {:induction false} SplitJoin(parts: seq<string>, sep: char)
    requires parts != [] && forall i :: 0 <= i < |parts| ==> Clean(parts[i], {sep})
    ensures Split(Join(parts, sep), {sep}) == parts
  {
    if |parts| == 1 {
      SplitClean(parts[0], {sep});
    } else {
      SplitJoin(parts[1..], sep);
      SplitAt(parts[0], sep, Join(parts[1..], sep), {sep});
      assert [parts[0]] + parts[1..] == parts;
    }
  }

  lemma {:induction false} JoinSplit(s: string, sep: char)
    ensures Join(Split(s, {sep}), sep) == s
    ensures forall i :: 0 <= i < |Split(s, {sep})| ==> Clean(Split(s, {sep})[i], {sep})
  {
    if s != "" {
      JoinSplit(s[1..], sep);
      var r := Split(s[1..], {sep});
      if s[0] == sep {
        assert ([""] + r)[1..] == r;
      } else {
        var q := [[s[0]] + r[0]] + r[1..];
        assert q[1..] == r[1..];
        assert Join(q, sep) == [s[0]] + s[1..];
      }
    }
  }

  /** Every part split in its turn. */
  function SplitEach(parts: seq<string>, seps: set<char>): seq<string> {
    if parts == [] then [] else Split(parts[0], seps) + SplitEach(parts[1..], seps)
  }

  lemma SplitCons(c: char, s: string, seps: set<char>)
    ensures var r := Split(s, seps);
            Split([c] + s, seps) == if c in seps then [""] + r else [[c] + r[0]] + r[1..]
  {
    assert ([c] + s)[1..] == s;
  }

  lemma SplitEachCons(x: string, rest: seq<string>, seps: set<char>)
    ensures SplitEach([x] + rest, seps) == Split(x, seps) + SplitEach(rest, seps)
  {
    assert ([x] + rest)[1..] == rest;
  }

  /** Splitting on two separators at once is splitting on one and then on the other. */
  lemma {:induction false} SplitTwice(s: string, a: char, b: char)
    requires a != b
    ensures Split(s, {a, b}) == SplitEach(Split(s, {a}), {b})
  {
    if s == "" {
      assert Split(s, {a}) == [""] + [];
      SplitEachCons("", [], {b});
    } else {
      SplitTwice(s[1..], a, b);
      var parts := Split(s[1..], {a});
      if s[0] == a {
        SplitEachBreak(parts, {b});
      } else {
        assert parts == [parts[0]] + parts[1..];
        SplitEachGrow(s[0], parts[0], parts[1..], {b});
      }
    }
  }

  lemma Assoc(x: seq<string>, y: seq<string>, z: seq<string>)
    ensures x + (y + z) == (x + y) + z
  {
  }

  lemma SplitEachBreak(parts: seq<string>, seps: set<char>)
    ensures SplitEach([""] + parts, seps) == [""] + SplitEach(parts, seps)
  {
    SplitEachCons("", parts, seps);
  }

  lemma HeadInFront(first: seq<string>, others: seq<string>, head: string)
    requires first != []
    ensures ([head] + first[1..]) + others == [head] + (first + others)[1..] && (first + others)[0] == first[0]
  {
  }

  lemma SplitEachGrow(c: char, p: string, rest: seq<string>, seps: set<char>)
    ensures var r := SplitEach([p] + rest, seps);
            r != [] &&
            SplitEach([[c] + p] + rest, seps) == if c in seps then [""] + r else [[c] + r[0]] + r[1..]
  {
    var first, others := Split(p, seps), SplitEach(rest, seps);
    SplitEachCons(p, rest, seps);
    SplitEachCons([c] + p, rest, seps);
    SplitCons(c, p, seps);
    Assoc([""], first, others);
    HeadInFront(first, others, [c] + first[0]);
  }

  lemma {:induction false} SplitEachIn(parts: seq<string>, seps: set<char>, x: string) returns (i: nat)
    requires x in SplitEach(parts, seps)
    ensures i < |parts| && x in Split(parts[i], seps)
  {
    if x in Split(parts[0], seps) {
      i := 0;
    } else {
      i := SplitEachIn(parts[1..], seps, x);
      i := i + 1;
    }
  }

  // ---- numbers

  function DigitValue(c: char, radix: nat): Option<nat>
    requires radix <= 16
  {
    var d := if '0' <= c <= '9' then c as int - '0' as int
             else if 'a' <= c <= 'f' then c as int - 'a' as int + 10
             else if 'A' <= c <= 'F' then c as int - 'A' as int + 10
             else 16;
    if d < radix then Some(d) else None
  }

  function NumberOf(s: string, radix: nat): Option<nat>
    requires radix <= 16
  {
    if s == "" then Some(0)
    else
      var (front, last) := (NumberOf(s[..|s| - 1], radix), DigitValue(s[|s| - 1], radix));
      if front.Some? && last.Some? then Some(front.value * radix + last.value) else None
  }

  /** `from_str_radix` of an unsigned type whose largest value is `max`: one leading `+` and any
      number of leading zeros are let through. */
  function ParseUnsigned(s: string, radix: nat, max: nat): (r: Option<nat>)
    requires radix <= 16
    ensures r.Some? ==> r.value <= max
  {
    var digits := if s != "" && s[0] == '+' then s[1..] else s;
    if digits == "" then None
    else
      match NumberOf(digits, radix)
      case Some(n) => if n <= max then Some(n) else None
      case None => None
  }

  function Digit(d: nat): char
    requires d < 16
  {
    if d < 10 then ('0' as int + d) as char else ('a' as int + d - 10) as char
  }

  function Decimal(n: nat): (s: string)
    ensures s != "" && forall i :: 0 <= i < |s| ==> '0' <= s[i] <= '9'
  {
    if n < 10 then [Digit(n)] else Decimal(n / 10) + [Digit(n % 10)]
  }

  /** `{:02x}` of a byte. */
  function Hex2(n: nat): string
    requires n < 256
  {
    [Digit(n / 16), Digit(n % 16)]
  }

  lemma {:induction false} NumberOfDecimal(n: nat)
    ensures NumberOf(Decimal(n), 10) == Some(n)
  {
    var s := Decimal(n);
    if n < 10 {
      assert s[..0] == "";
    } else {
      NumberOfDecimal(n / 10);
      assert s[..|s| - 1] == Decimal(n / 10);
    }
  }

  lemma ParseDecimal(n: nat, max: nat)
    requires n <= max
    ensures ParseUnsigned(Decimal(n), 10, max) == Some(n)
  {
    NumberOfDecimal(n);
  }

  lemma ParseHex2(n: nat)
    requires n < 256
    ensures ParseUnsigned(Hex2(n), 16, 255) == Some(n)
  {
    var s := Hex2(n);
    assert s[..1] == [s[0]] && s[..1][..0] == "";
    assert NumberOf(s[..1], 16) == Some(n / 16);
    assert NumberOf(s, 16) == Some(n / 16 * 16 + n % 16);
  }
}
