/** Facts about division and remainder by a positive number, stated once so that the layout
    proofs never ask the solver for non-linear arithmetic. */
module Arith {

  const I64_MAX: int := 0x7fff_ffff_ffff_ffff
  const I64_MIN: int := -0x8000_0000_0000_0000

  predicate InI64(x: int) { I64_MIN <= x <= I64_MAX }

  type pos = x: int | 1 <= x witness 1

  /** What a saturating 64-bit operation gives for the exact result `x`. */
  function Saturate(x: int): (r: int)
    ensures InI64(r)
  {
    if x > I64_MAX then I64_MAX else if x < I64_MIN then I64_MIN else x
  }

  function Min(a: int, b: int): int { if a <= b then a else b }

  function Pow2(n: nat): pos { if n == 0 then 1 else 2 * Pow2(n - 1) }

  lemma MulMono(a: int, b: int, c: int)
    requires a <= b && 0 <= c
    ensures a * c <= b * c
  {
  }

  lemma MulAssoc(a: int, b: int, c: int)
    ensures a * (b * c) == a * b * c
  {
  }

  lemma MulDistrib(a: int, b: int, c: int)
    ensures (a + b) * c == a * c + b * c && (a - b) * c == a * c - b * c
  {
  }

  lemma MulSwap(a: int, b: int, c: int)
    ensures a * (b * c) == b * (a * c)
  {
  }

  lemma MulPred(a: int, b: int)
    ensures (a - 1) * b == a * b - b
  {
  }

  lemma MulZero(a: int, b: int)
    requires a == 0 || b == 0
    ensures a * b == 0
  {
  }

  lemma MulOne(a: int, b: int)
    requires a == 1
    ensures a * b == b
  {
  }

  lemma MulDistribLeft(c: int, a: int, b: int)
    ensures c * (a + b) == c * a + c * b && c * (a - b) == c * a - c * b
  {
  }

  lemma MulPos(a: int, b: int)
    requires 1 <= a && 1 <= b
    ensures a <= a * b && b <= a * b
  {
    MulMono(1, b, a);
    MulMono(1, a, b);
  }

  lemma DivMod(x: int, n: int)
    requires 0 < n
    ensures x == n * (x / n) + x % n && 0 <= x % n < n
  {
  }

  /** A quotient and a remainder in range are the quotient and the remainder. */
  lemma DivModUnique(x: int, n: int, q: int, r: int)
    requires 0 < n && 0 <= r < n && x == n * q + r
    ensures x / n == q && x % n == r
  {
    DivMod(x, n);
    var dq := x / n - q;
    MulDistribLeft(n, x / n, q);
    if dq >= 1 {
      MulMono(1, dq, n);
    } else if dq <= -1 {
      MulMono(dq, -1, n);
    }
  }

  lemma DivNonneg(x: int, n: int)
    requires 0 <= x && 0 < n
    ensures 0 <= x / n <= x
  {
    var q := x / n;
    DivMod(x, n);
    if q <= -1 {
      MulMono(q, -1, n);
    } else {
      MulMono(1, n, q);
    }
  }

  /** `x / n < b` when `x < n * b`. */
  lemma DivBound(x: int, n: int, b: int)
    requires 0 < n && x < n * b
    ensures x / n < b
  {
    DivMod(x, n);
    if x / n >= b {
      MulMono(b, x / n, n);
    }
  }

  /** Taking the multiples of `n` out of a number below `n * b`. */
  lemma TakeOut(x: nat, n: int, b: int) returns (q: nat, r: nat)
    requires 0 < n && x < n * b
    ensures q * n + r == x && q < b && r < n
  {
    DivMod(x, n);
    DivNonneg(x, n);
    DivBound(x, n, b);
    q, r := x / n, x % n;
  }

  /** Dividing by a product is dividing twice, and the remainder has two digits. */
  lemma DivModMul(x: int, a: int, b: int)
    requires 0 < a && 0 < b
    ensures 0 < a * b
    ensures x / (a * b) == x / a / b
    ensures x % (a * b) == x % a + a * (x / a % b)
  {
    MulPos(a, b);
    var q, r := x / a, x % a;
    DivMod(x, a);
    DivMod(q, b);
    var lo := r + a * (q % b);
    assert x == (a * b) * (q / b) + lo by {
      MulDistribLeft(a, b * (q / b), q % b);
      MulAssoc(a, b, q / b);
    }
    assert 0 <= lo < a * b by {
      MulMono(0, q % b, a);
      MulMono(q % b, b - 1, a);
      MulPred(b, a);
    }
    DivModUnique(x, a * b, q / b, lo);
  }

  /** Exact division undoes multiplication. */
  lemma DivExact(x: int, n: int)
    requires 0 < n && x % n == 0
    ensures x == n * (x / n)
  {
    DivMod(x, n);
  }

  lemma DivPos(x: pos, n: pos)
    requires x % n == 0
    ensures 1 <= x / n && x == n * (x / n)
  {
    DivMod(x, n);
    DivNonneg(x, n);
  }

  lemma MultipleMul(x: int, n: pos, k: int)
    requires x % n == 0
    ensures k * x % n == 0
  {
    DivExact(x, n);
    MulAssoc(k, n, x / n);
    MulAssoc(n, k, x / n);
    DivModUnique(k * x, n, k * (x / n), 0);
  }

  lemma MulDiv(n: int, q: int)
    requires 0 < n
    ensures n * q / n == q && n * q % n == 0
  {
    DivModUnique(n * q, n, q, 0);
  }

  function CeilDiv(n: pos, d: pos): (r: pos)
    ensures n <= r * d < n + d
  {
    DivMod(n, d);
    DivNonneg(n, d);
    MulDistrib(n / d, 1, d);
    n / d + if n % d != 0 then 1 else 0
  }

  lemma CeilIs(n: pos, d: pos, q: pos)
    requires n <= q * d < n + d
    ensures CeilDiv(n, d) == q
  {
    var r: pos := CeilDiv(n, d);
    if r < q {
      MulMono(r + 1, q, d);
      MulDistrib(r, 1, d);
    } else if r > q {
      MulMono(q + 1, r, d);
      MulDistrib(q, 1, d);
    }
  }
}
