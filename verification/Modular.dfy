/** Congruences, common divisors and inverses. */
module Modular {
  import opened Arith

  /** x and y differ by a multiple of m. */
  ghost predicate Cong(x: int, y: int, m: int)
    requires m > 0
  {
    (x - y) % m == 0
  }

  /** d divides every common divisor's witness: the divisors shared by x and y. */
  ghost predicate CommonDivisor(d: int, x: int, y: int)
  {
    d > 0 && x % d == 0 && y % d == 0
  }

  ghost predicate IsGcd(g: int, x: int, y: int)
  {
    && CommonDivisor(g, x, y)
    && forall d :: CommonDivisor(d, x, y) ==> g % d == 0
  }

  ghost predicate IsPrime(p: int)
  {
    p > 1 && forall d :: 1 < d < p ==> p % d != 0
  }

  // ------------------------------------------------------------ congruence

  lemma CongBy(x: int, y: int, m: int, k: int)
    requires m > 0
    requires x == y + m * k
    ensures Cong(x, y, m)
  {
    MultipleMod(k, m);
  }

  lemma CongWitness(x: int, y: int, m: int) returns (k: int)
    requires m > 0
    requires Cong(x, y, m)
    ensures x == y + m * k
  {
    k := (x - y) / m;
  }

  lemma CongRefl(x: int, m: int)
    requires m > 0
    ensures Cong(x, x, m)
  {
    CongBy(x, x, m, 0);
  }

  lemma CongSym(x: int, y: int, m: int)
    requires m > 0
    requires Cong(x, y, m)
    ensures Cong(y, x, m)
  {
    var k := CongWitness(x, y, m);
    assert m * -k == -(m * k);
    CongBy(y, x, m, -k);
  }

  lemma CongTrans(x: int, y: int, z: int, m: int)
    requires m > 0
    requires Cong(x, y, m) && Cong(y, z, m)
    ensures Cong(x, z, m)
  {
    var k := CongWitness(x, y, m);
    var l := CongWitness(y, z, m);
    Distribute(k, l, m);
    CongBy(x, z, m, k + l);
  }

  lemma CongShift(x: int, y: int, m: int)
    requires m > 0 && Cong(x, y, m)
    ensures Cong(x + m, y, m) && Cong(x - m, y, m)
  {
    hide Cong;
    CongBy(x + m, x, m, 1);
    CongBy(x - m, x, m, -1);
    CongTrans(x + m, x, y, m);
    CongTrans(x - m, x, y, m);
  }

  lemma CongAdd(x: int, y: int, x': int, y': int, m: int)
    requires m > 0
    requires Cong(x, y, m) && Cong(x', y', m)
    ensures Cong(x + x', y + y', m)
    ensures Cong(x - x', y - y', m)
  {
    var k := CongWitness(x, y, m);
    var l := CongWitness(x', y', m);
    Distribute(k, l, m);
    CongBy(x + x', y + y', m, k + l);
    CongBy(x - x', y - y', m, k - l);
  }

  lemma CongMul(x: int, y: int, x': int, y': int, m: int)
    requires m > 0
    requires Cong(x, y, m) && Cong(x', y', m)
    ensures Cong(x * x', y * y', m)
  {
    var k := CongWitness(x, y, m);
    var l := CongWitness(x', y', m);
    ProductOfSums(y, y', m, k, l);
    CongBy(x * x', y * y', m, k * y' + l * y + m * k * l);
  }

  lemma ProductOfSums(y: int, y': int, m: int, k: int, l: int)
    ensures (y + m * k) * (y' + m * l) == y * y' + m * (k * y' + l * y + m * k * l)
  {}

  lemma CongScale(c: int, x: int, y: int, m: int)
    requires m > 0
    requires Cong(x, y, m)
    ensures Cong(c * x, c * y, m)
    ensures Cong(x * c, y * c, m)
  {
    CongRefl(c, m);
    CongMul(c, c, x, y, m);
    CongMul(x, y, c, c, m);
  }

  lemma CongMod(x: int, m: int)
    requires m > 0
    ensures Cong(x % m, x, m) && Cong(x, x % m, m)
  {
    CongBy(x, x % m, m, x / m);
    CongSym(x, x % m, m);
  }

  /** Congruent numbers have the same residue. */
  lemma CongResidue(x: int, y: int, m: int)
    requires m > 0
    requires Cong(x, y, m)
    ensures x % m == y % m
  {
    var k := CongWitness(x, y, m);
    Distribute(y / m, k, m);
    DivModUnique(x, m, y / m + k, y % m);
  }

  lemma CongUnique(x: int, y: int, m: int)
    requires 0 <= x < m && 0 <= y < m
    requires Cong(x, y, m)
    ensures x == y
  {
    var k := CongWitness(x, y, m);
    SmallMultiple(m, k);
  }

  /** Two may be cancelled modulo an odd number. */
  lemma CongHalf(x: int, y: int, m: int)
    requires m > 0 && m % 2 == 1
    requires Cong(2 * x, 2 * y, m)
    ensures Cong(x, y, m)
  {
    var k := CongWitness(2 * x, 2 * y, m);
    var h := m / 2;
    assert m * k == 2 * (h * k) + k;
    assert k % 2 == 0;
    assert m * k == 2 * (m * (k / 2));
    CongBy(x, y, m, k / 2);
  }

  // -------------------------------------------------------- common divisors

  lemma DividesSum(d: int, x: int, y: int)
    requires d > 0 && x % d == 0
    ensures (x + y) % d == 0 <==> y % d == 0
    ensures (x - y) % d == 0 <==> y % d == 0
    ensures (y - x) % d == 0 <==> y % d == 0
  {
    var q, r := x / d, y / d;
    var y' := y % d;
    Distribute(q, r, d);
    DivModUnique(x + y, d, q + r, y');
    DivModUnique(y - x, d, r - q, y');
    if y' == 0 {
      DivModUnique(x - y, d, q - r, 0);
    } else {
      Distribute(q - r, 1, d);
      DivModUnique(x - y, d, q - r - 1, d - y');
    }
  }

  lemma DividesMultiple(d: int, x: int, c: int)
    requires d > 0 && x % d == 0
    ensures (c * x) % d == 0 && (x * c) % d == 0
  {
    var q := x / d;
    assert x == d * q;
    Assoc(d, q, c);
    MultipleMod(q * c, d);
    assert c * x == x * c;
  }

  /** A divisor of an odd number that divides 2 x divides x. */
  lemma OddDivisor(d: int, m: int, x: int)
    requires d > 0 && m % 2 == 1
    requires m % d == 0
    ensures (2 * x) % d == 0 <==> x % d == 0
  {
    if x % d == 0 {
      DividesMultiple(d, x, 2);
    }
    if (2 * x) % d == 0 {
      OddFactor(d, m);
      ZeroCong(2 * x, d);
      CongBy(2 * 0, 0, d, 0);
      CongHalf(x, 0, d);
    }
  }

  lemma ZeroCong(x: int, m: int)
    requires m > 0
    ensures Cong(x, 0, m) <==> x % m == 0
  {}

  lemma OddFactor(d: int, m: int)
    requires d > 0 && m % 2 == 1 && m % d == 0
    ensures d % 2 == 1
  {
    var q := m / d;
    assert m == d * q;
    if d % 2 == 0 {
      Assoc(2, d / 2, q);
    }
  }

  // ---------------------------------------------------------------- primes

  /** Bezout coefficients of x and y, by Euclid's algorithm. */
  lemma {:induction false} Bezout(x: nat, y: nat) returns (g: int, s: int, t: int)
    requires x > 0 || y > 0
    ensures IsGcd(g, x, y)
    ensures s * x + t * y == g
    decreases y
  {
    if y == 0 {
      g, s, t := x, 1, 0;
      DivModUnique(x, x, 1, 0);
    } else {
      var q, r := x / y, x % y;
      var s', t';
      g, s', t' := Bezout(y, r);
      s, t := t', s' - q * t';
      assert x == q * y + r;
      BezoutStep(s', t', q, y, r);
      forall d ensures CommonDivisor(d, x, y) <==> CommonDivisor(d, y, r)
      {
        if d > 0 && y % d == 0 {
          DividesMultiple(d, y, q);
          DividesSum(d, q * y, r);
        }
      }
    }
  }

  lemma BezoutStep(s: int, t: int, q: int, y: int, r: int)
    ensures t * (q * y + r) + (s - q * t) * y == s * y + t * r
  {}

  /** A number not divisible by the prime p has an inverse modulo p. */
  lemma InverseExists(x: int, p: int) returns (i: int)
    requires IsPrime(p) && x % p != 0
    ensures 0 <= i < p && Cong(i * x, 1, p)
  {
    var g, s, t := Bezout(x % p, p);
    if 1 < g {
      LargeFactor(g, p);
      assert g == p;
      LargeFactor(g, x % p);
    }
    i := s % p;
    CongMod(s, p);
    CongMod(x, p);
    CongMul(s % p, s, x, x % p, p);
    CongBy(s * (x % p), 1, p, -t);
    CongTrans(i * x, s * (x % p), 1, p);
  }

  lemma LargeFactor(d: int, n: int)
    requires d > 0 && n > 0 && n % d == 0
    ensures d <= n
  {
    var q := n / d;
    assert n == d * q;
  }

  /** Euclid's lemma. */
  lemma PrimeDivides(p: int, x: int, y: int)
    requires IsPrime(p) && (x * y) % p == 0
    ensures x % p == 0 || y % p == 0
  {
    if x % p != 0 {
      var i := InverseExists(x, p);
      CongScale(y, i * x, 1, p);
      DividesMultiple(p, x * y, i);
      assert (i * x) * y == i * (x * y);
      ZeroCong(i * (x * y), p);
      CongSym(i * x * y, 0, p);
      CongTrans(0, i * x * y, 1 * y, p);
      CongSym(0, y, p);
    }
  }

  lemma CongCancel(c: int, x: int, y: int, p: int)
    requires IsPrime(p) && c % p != 0
    requires Cong(c * x, c * y, p)
    ensures Cong(x, y, p)
  {
    Distribute(x, y, c);
    PrimeDivides(p, c, x - y);
  }

  /** Below a prime, everything is coprime to it. */
  lemma PrimeGcd(g: int, x: int, p: int)
    requires IsPrime(p) && x % p != 0 && IsGcd(g, x, p)
    ensures g == 1
  {
    LargeFactor(g, p);
  }
}
