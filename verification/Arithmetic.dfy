/** Division, remainder and products, for a divisor that is not a constant. */
module Arithmetic {

  function Min(a: int, b: int): int {
    if a < b then a else b
  }

  function Max(a: int, b: int): int {
    if a < b then b else a
  }

  /** Division rounded up. */
  function DivCeil(n: nat, d: nat): nat
    requires d > 0
  {
    if n % d == 0 then n / d else n / d + 1
  }

  /** The only quotient and remainder of `n` by `b`. */
  lemma DivModUnique(n: int, q: int, r: int, b: int)
    requires b > 0 && 0 <= r < b && n == q * b + r
    ensures n / b == q && n % b == r
  {
    var d := n / b - q;
    assert d * b == r - n % b;
    assert d >= 1 ==> d * b >= b;
    assert d <= -1 ==> d * b <= -b;
  }

  /** Taking one divisor off takes one off the quotient and leaves the remainder. */
  lemma DivModStep(n: int, b: int)
    requires b > 0
    ensures (n - b) / b == n / b - 1 && (n - b) % b == n % b
  {
    DivModUnique(n - b, n / b - 1, n % b, b);
  }

  lemma DivMonotone(m: nat, n: nat, b: nat)
    requires m <= n && b > 0
    ensures m / b <= n / b
  {
    var d := m / b - n / b;
    assert d * b == (m - m % b) - (n - n % b);
    assert d >= 1 ==> d * b >= b;
  }

  lemma MulMonotone(m: int, n: int, b: nat)
    requires m <= n
    ensures m * b <= n * b
  {}

  /** A quotient lies below an integer exactly when the dividend lies below that many divisors. */
  lemma DivBelow(n: nat, b: nat, i: nat)
    requires b > 0
    ensures n / b < i <==> n < i * b
  {
    var q, r := n / b, n % b;
    assert n == q * b + r;
    if q < i {
      MulMonotone(q + 1, i, b);
      assert (q + 1) * b == q * b + b;
    } else {
      MulMonotone(i, q, b);
    }
  }

  /** Rounding up differs from rounding the number before down by exactly one. */
  lemma DivCeilPrevious(n: nat, b: nat)
    requires n > 0 && b > 0
    ensures DivCeil(n, b) == (n - 1) / b + 1
  {
    var q, r := n / b, n % b;
    assert n == q * b + r;
    if r == 0 {
      assert q * b == (q - 1) * b + b;
      DivModUnique(n - 1, q - 1, b - 1, b);
    } else {
      DivModUnique(n - 1, q, r - 1, b);
    }
  }

  /** A range of positions reaches into at most one piece more than its length needs. */
  lemma PiecesCovering(start: nat, end: nat, b: nat)
    requires start < end && b > 0
    ensures DivCeil(end, b) - start / b <= DivCeil(end - start, b) + 1
  {
    var first, needed := start / b, DivCeil(end - start, b);
    DivCeilPrevious(end, b);
    DivCeilPrevious(end - start, b);
    hide DivCeil;
    DivBelow(end - start - 1, b, needed);
    DivBelow(start, b, first + 1);
    assert (first + 1 + needed) * b == (first + 1) * b + needed * b;
    assert end - 1 < (first + 1 + needed) * b;
    DivBelow(end - 1, b, first + 1 + needed);
  }

  /** A product as repeated addition: what an offset is to a proof that goes block by block. */
  function Times(i: nat, unit: nat): nat {
    if i == 0 then 0 else unit + Times(i - 1, unit)
  }

  lemma {:induction false} TimesIsProduct(i: nat, unit: nat)
    ensures Times(i, unit) == i * unit
  {
    if i > 0 {
      TimesIsProduct(i - 1, unit);
      assert i * unit == (i - 1) * unit + unit;
    }
  }

  lemma {:induction false} TimesAdds(i: nat, j: nat, unit: nat)
    ensures Times(i + j, unit) == Times(i, unit) + Times(j, unit)
  {
    if i > 0 {
      TimesAdds(i - 1, j, unit);
    }
  }
}
