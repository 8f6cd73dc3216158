/** The few facts about products and remainders the address computations need. */
module Arithmetic {

  function Pow2(k: nat): (p: nat)
    ensures p > 0
  {
    if k == 0 then 1 else 2 * Pow2(k - 1)
  }

  function DivideRoundUp(a: nat, b: nat): nat
    requires b > 0
  {
    (a + b - 1) / b
  }

  lemma DivMod(n: int, d: int)
    requires d > 0
    ensures n == d * (n / d) + n % d && 0 <= n % d < d
    ensures n >= 0 ==> n / d >= 0
  {}

  lemma MulGrows(d: int, k: int)
    requires d > 0 && k >= 1
    ensures d * k >= d
  {}

  lemma MulNonPositive(k: int, d: int)
    requires d > 0 && k <= 0
    ensures k * d <= 0
  {
    if k < 0 { MulGrows(d, -k); }
  }

  lemma Distribute(d: int, a: int, b: int)
    ensures d * (a - b) == d * a - d * b
    ensures d * (a + b) == d * a + d * b
  {}

  lemma DivModUnique(n: int, d: int, q: int, r: int)
    requires d > 0 && n == d * q + r && 0 <= r < d
    ensures n / d == q && n % d == r
  {
    DivMod(n, d);
    QuotientUnique(d, q, r, n / d, n % d);
  }

  lemma QuotientUnique(d: int, q: int, r: int, p: int, s: int)
    requires d > 0 && d * q + r == d * p + s && 0 <= r < d && 0 <= s < d
    ensures q == p && r == s
  {
    Distribute(d, q, p);
    Distribute(d, p, q);
    if q > p { MulGrows(d, q - p); }
    if p > q { MulGrows(d, p - q); }
  }

  lemma ProductBelow(i: int, m: int, e: int)
    requires 0 <= i < m && e > 0
    ensures 0 <= i * e && i * e + e <= m * e
  {
    Distribute(e, m, i);
    MulGrows(e, m - i);
    if i > 0 { MulGrows(e, i); }
  }

  lemma ExactQuotient(n: nat, d: int)
    requires d > 0 && n % d == 0
    ensures n / d >= 0 && n == n / d * d
  {
    DivMod(n, d);
  }

  lemma MultipleOfMultiple(n: nat, d: int, c: int)
    requires d > 0 && c > 0 && n % d == 0 && d % c == 0
    ensures n % c == 0
  {
    ExactQuotient(n, d);
    ProductMultiple(n / d, d, c);
  }

  lemma ProductMultiple(a: int, b: int, d: int)
    requires d > 0 && b % d == 0
    ensures (a * b) % d == 0
  {
    DivMod(b, d);
    var q := b / d;
    assert a * (d * q) == d * (a * q);
    DivModUnique(a * b, d, a * q, 0);
  }

  lemma SumMultiple(a: int, b: int, d: int)
    requires d > 0 && a % d == 0 && b % d == 0
    ensures (a + b) % d == 0
  {
    DivMod(a, d);
    DivMod(b, d);
    Distribute(d, a / d, b / d);
    DivModUnique(a + b, d, a / d + b / d, 0);
  }

  lemma HalveRemainder(p: nat, q: nat)
    requires q > 0
    ensures p % (2 * q) == 2 * ((p / 2) % q) + p % 2
  {
    var h := p / 2;
    DivMod(h, q);
    var t, r := h / q, h % q;
    assert 2 * (q * t) == (2 * q) * t;
    DivModUnique(p, 2 * q, t, 2 * r + p % 2);
  }

  lemma {:induction false} Pow2Multiple(k: nat)
    requires k >= 4
    ensures Pow2(k) % 16 == 0 && Pow2(k) >= 16
  {
    if k == 4 {
      assert Pow2(4) == 16;
    } else {
      Pow2Multiple(k - 1);
    }
  }
}
