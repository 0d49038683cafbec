/** Small facts about products, quotients and remainders of integers. */
module Arith {

  lemma MulLe(a: int, b: int, w: int)
    requires a <= b && w >= 0
    ensures a * w <= b * w
  {
    assert (b - a) * w >= 0;
  }

  lemma MulLt(a: int, b: int, w: int)
    requires a < b && w > 0
    ensures a * w + w <= b * w
  {
    MulLe(a + 1, b, w);
  }

  lemma Distribute(a: int, b: int, w: int)
    ensures (a + b) * w == a * w + b * w
    ensures (a - b) * w == a * w - b * w
    ensures w * (a + b) == w * a + w * b
    ensures w * (a - b) == w * a - w * b
  {}

  lemma Assoc(a: int, b: int, c: int)
    ensures a * b * c == a * (b * c)
  {}

  lemma MultipleGrows(m: nat, d: nat)
    requires d >= 1
    ensures m * d >= m
  {
    MulLe(1, d, m);
  }

  /** A multiple of m strictly between -m and m is zero. */
  lemma SmallMultiple(m: int, d: int)
    requires m > 0
    requires -m < m * d < m
    ensures d == 0
  {
    if d >= 1 {
      MultipleGrows(m, d);
    }
  }

  /** Quotient and remainder are determined by their defining equation. */
  lemma DivModUnique(x: int, m: int, q: int, r: int)
    requires m > 0
    requires x == m * q + r
    requires 0 <= r < m
    ensures x / m == q && x % m == r
  {
    var d := x / m - q;
    assert m * d == r - x % m;
    SmallMultiple(m, d);
  }

  lemma MultipleMod(q: int, m: int)
    requires m > 0
    ensures (m * q) % m == 0
    ensures (m * q) / m == q
  {
    DivModUnique(m * q, m, q, 0);
  }

  lemma HalfDiv(a: nat, m: nat)
    requires m > 0
    ensures a / (2 * m) * (2 * m) == 2 * (a / 2 / m * m)
  {
    var q, r := a / 2 / m, a / 2 % m;
    assert a / 2 == m * q + r;
    DivModUnique(a, 2 * m, q, 2 * r + a % 2);
  }
}
