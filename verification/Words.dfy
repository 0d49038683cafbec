/** Machine words of the C code as bounded integers.
    Wrap-around is written out with `%`; the bit operators that mix whole words
    (`|`, `&` with a mask) are defined bit by bit, and the lemmas below say when
    they act as sums. */
module Words {
  import opened Arith

  /** `uint32_t` */
  type word = x: int | 0 <= x < 0x1_0000_0000

  /** `uint8_t` */
  type byte = x: int | 0 <= x < 256

  function Pow2(n: nat): (r: nat)
    ensures r > 0
  {
    if n == 0 then 1 else 2 * Pow2(n - 1)
  }

  /** C's `a | b` on non-negative operands. */
  function Or(a: nat, b: nat): nat
  {
    if a == 0 && b == 0 then 0
    else (if a % 2 == 1 || b % 2 == 1 then 1 else 0) + 2 * Or(a / 2, b / 2)
  }

  /** C's `a & b` on non-negative operands. */
  function And(a: nat, b: nat): nat
  {
    if a == 0 || b == 0 then 0
    else (if a % 2 == 1 && b % 2 == 1 then 1 else 0) + 2 * And(a / 2, b / 2)
  }

  lemma OrZero(a: nat)
    ensures Or(a, 0) == a && Or(0, a) == a
  {
    if a > 0 {
      OrZero(a / 2);
    }
  }

  /** Operands that share no bit position, because one is below 2^k and the other
      a multiple of it: `|` is addition. */
  lemma {:induction false} OrDisjoint(a: nat, q: nat, k: nat, m: nat)
    requires m == Pow2(k)
    requires a < m
    ensures Or(a, q * m) == a + q * m
    ensures Or(q * m, a) == a + q * m
    decreases k
  {
    hide Or;
    if k == 0 {
      OrZero(q);
    } else {
      var h := Pow2(k - 1);
      OrDisjoint(a / 2, q, k - 1, h);
      OrStep(a, q, h);
      assert q * m == 2 * (q * h);
    }
  }

  lemma OrStep(a: nat, q: nat, h: nat)
    ensures Or(a, q * (2 * h)) == a % 2 + 2 * Or(a / 2, q * h)
    ensures Or(q * (2 * h), a) == a % 2 + 2 * Or(q * h, a / 2)
  {
    hide Or;
    var b := q * h;
    assert q * (2 * h) == 2 * b;
    OrUnfold(a, 2 * b);
    OrUnfold(2 * b, a);
  }

  lemma OrUnfold(a: nat, b: nat)
    ensures Or(a, b) == (if a % 2 == 1 || b % 2 == 1 then 1 else 0) + 2 * Or(a / 2, b / 2)
  {
    if a == 0 && b == 0 {
      OrZero(0);
    }
  }

  /** A mask of ones above bit k keeps exactly the part above bit k. */
  lemma {:induction false} AndHighMask(a: nat, ones: nat, j: nat, k: nat, m: nat)
    requires ones == Pow2(j) - 1 && m == Pow2(k)
    requires a < Pow2(j + k)
    ensures And(a, ones * m) == a / m * m
    decreases k
  {
    hide And;
    if k == 0 {
      AndAllOnes(a, j);
    } else {
      var h := Pow2(k - 1);
      AndHighMask(a / 2, ones, j, k - 1, h);
      MaskStep(a, ones, h);
      HalfDiv(a, h);
    }
  }

  lemma MaskStep(a: nat, ones: nat, h: nat)
    ensures And(a, ones * (2 * h)) == 2 * And(a / 2, ones * h)
  {
    hide And;
    var b := ones * h;
    assert ones * (2 * h) == 2 * b;
    AndUnfold(a, 2 * b);
  }

  lemma AndUnfold(a: nat, b: nat)
    ensures And(a, b) == (if a % 2 == 1 && b % 2 == 1 then 1 else 0) + 2 * And(a / 2, b / 2)
  {}

  lemma {:induction false} AndAllOnes(a: nat, n: nat)
    requires a < Pow2(n)
    ensures And(a, Pow2(n) - 1) == a
  {
    if n == 0 {
      assert a == 0;
    } else {
      hide And;
      AndAllOnes(a / 2, n - 1);
      AndUnfold(a, Pow2(n) - 1);
    }
  }

  /** `x | 0x80000000` on a word whose top bit is clear. */
  lemma OrTopBit(x: word)
    requires x < 0x8000_0000
    ensures Or(x, 0x8000_0000) == x + 0x8000_0000
  {
    hide Or;
    PowersOfTwo();
    OrDisjoint(x, 1, 31, 0x8000_0000);
  }

  lemma PowersOfTwo()
    ensures Pow2(1) == 2 && Pow2(2) == 4 && Pow2(3) == 8 && Pow2(4) == 16
    ensures Pow2(5) == 32 && Pow2(6) == 64 && Pow2(7) == 128 && Pow2(8) == 256
    ensures Pow2(31) == 0x8000_0000 && Pow2(32) == 0x1_0000_0000
  {
    assert Pow2(8) == 256;
    assert Pow2(16) == 65536;
    assert Pow2(24) == 0x100_0000;
  }
}
