/** Division, multiplication and powers of two. */
module Arithmetic {

  function Pow2(n: nat): (p: nat)
    ensures p > 0
  {
    if n == 0 then 1 else 2 * Pow2(n - 1)
  }

  lemma Pow2Next(n: nat)
    ensures Pow2(n + 1) == 2 * Pow2(n)
  {
  }

  lemma SmallMultiple(x: int, d: int)
    requires -d < x * d < d
    ensures x == 0
  {
    assert x >= 1 ==> x * d >= d;
    assert x <= -1 ==> x * d <= -d;
  }

  lemma ModOfShifted(n: int, q: int, d: nat, r: nat)
    requires r < d && n == q * d + r
    ensures n / d == q && n % d == r
  {
    var k := n / d - q;
    assert n == n / d * d + n % d;
    assert k * d == n / d * d - q * d;
    SmallMultiple(k, d);
  }

  lemma DivModUnique(q: nat, r: nat, d: nat)
    requires r < d
    ensures (q * d + r) / d == q && (q * d + r) % d == r
  {
    ModOfShifted(q * d + r, q, d, r);
  }

  lemma DivModParts(n: nat, d: nat)
    requires d > 0
    ensures n / d * d <= n < n / d * d + d && n == n / d * d + n % d
  {
  }

  lemma MulMonotone(a: nat, b: nat, c: nat)
    requires a <= b
    ensures a * c <= b * c
  {
    assert b * c == a * c + (b - a) * c;
  }

  lemma DivMonotone(q: nat, n: nat, d: nat)
    requires d > 0 && n >= q * d
    ensures n / d >= q
  {
    if n / d < q {
      MulMonotone(n / d + 1, q, d);
      assert false;
    }
  }

  lemma PlusMultiple(a: nat, b: nat, d: nat)
    requires d > 0 && a % d == 0 && b % d == 0
    ensures (a + b) % d == 0
  {
    DivModParts(a, d);
    DivModParts(b, d);
    assert (a / d + b / d) * d == a / d * d + b / d * d;
    DivModUnique(a / d + b / d, 0, d);
  }
}
