/** Bit positions of integers: shifting by i bits as i halvings or doublings. */
module Bits {
  import opened Words
  import opened Limbs

  /** x >> i */
  function Shr(x: nat, i: nat): nat
  {
    if i == 0 then x else Shr(x, i - 1) / 2
  }

  /** x << i, unbounded */
  function Dbl(x: int, i: nat): int
  {
    if i == 0 then x else 2 * Dbl(x, i - 1)
  }

  /** Number of significant bits. */
  ghost predicate IsBitLength(x: nat, n: nat)
  {
    && Shr(x, n) == 0
    && (n > 0 ==> Shr(x, n - 1) == 1)
  }

  lemma {:induction false} ShrAdd(x: nat, i: nat, j: nat)
    ensures Shr(Shr(x, i), j) == Shr(x, i + j)
  {
    if j > 0 {
      ShrAdd(x, i, j - 1);
      assert i + j - 1 == i + (j - 1);
    }
  }

  lemma ShrHalf(x: nat, i: nat)
    ensures Shr(x / 2, i) == Shr(x, i + 1)
  {
    ShrAdd(x, 1, i);
    assert Shr(x, 1) == x / 2;
  }

  lemma {:induction false} DblAdd(x: int, y: int, i: nat)
    ensures Dbl(x + y, i) == Dbl(x, i) + Dbl(y, i)
    ensures Dbl(x - y, i) == Dbl(x, i) - Dbl(y, i)
  {
    if i > 0 {
      DblAdd(x, y, i - 1);
    }
  }

  lemma {:induction false} DblDbl(x: int, i: nat, j: nat)
    ensures Dbl(Dbl(x, i), j) == Dbl(x, i + j)
  {
    if j > 0 {
      DblDbl(x, i, j - 1);
      assert i + j - 1 == i + (j - 1);
    }
  }

  lemma {:induction false} DblMono(x: int, y: int, i: nat)
    ensures x <= y <==> Dbl(x, i) <= Dbl(y, i)
    ensures Dbl(0, i) == 0
  {
    if i > 0 {
      DblMono(x, y, i - 1);
    }
  }

  lemma {:induction false} DblMul(x: int, i: nat)
    ensures Dbl(x, i) == x * Pow2(i)
  {
    if i > 0 {
      DblMul(x, i - 1);
      assert x * Pow2(i) == 2 * (x * Pow2(i - 1));
    }
  }

  /** Shifting down and up again rounds down to a multiple of 2^i. */
  lemma {:induction false} ShrBounds(x: nat, i: nat)
    ensures Dbl(Shr(x, i), i) <= x < Dbl(Shr(x, i) + 1, i)
  {
    if i > 0 {
      ShrBounds(x, i - 1);
      var q := Shr(x, i - 1);
      DblMono(2 * (q / 2), q, i - 1);
      DblMono(q + 1, 2 * (q / 2 + 1), i - 1);
      DblDouble(q / 2, i - 1);
      DblDouble(q / 2 + 1, i - 1);
    }
  }

  lemma DblDouble(x: int, i: nat)
    ensures Dbl(2 * x, i) == Dbl(x, i + 1)
  {
    DblAdd(x, x, i);
  }

  /** x = 2^i * q + r determines q as x >> i. */
  lemma {:induction false} ShrOfSum(q: nat, r: nat, i: nat)
    requires r < Dbl(1, i)
    ensures Dbl(q, i) >= 0
    ensures Shr(Dbl(q, i) + r, i) == q
    decreases i
  {
    DblMono(0, q, i);
    if i > 0 {
      ShrOfSum(q, r / 2, i - 1);
      ShrHalf(Dbl(q, i) + r, i - 1);
      assert (Dbl(q, i) + r) / 2 == Dbl(q, i - 1) + r / 2;
    }
  }

  lemma Dbl32(x: int)
    ensures Dbl(x, 32) == 0x1_0000_0000 * x
  {
    DblMul(x, 32);
    PowersOfTwo();
  }

  /** Moving up n limbs is moving up 32 n bits. */
  lemma {:induction false} ShlIsDbl(x: int, n: nat)
    ensures Shl(x, n) == Dbl(x, 32 * n)
  {
    if n > 0 {
      ShlIsDbl(x, n - 1);
      DblDbl(x, 32 * (n - 1), 32);
      Dbl32(Dbl(x, 32 * (n - 1)));
    }
  }

  // ------------------------------------------------- bits of limb sequences

  /** Bits 32 and up are the limbs above the first. */
  lemma ShrLimb(s: seq<word>)
    requires |s| > 0
    ensures Val(s) >= 0 && Val(s[1..]) >= 0
    ensures Shr(Val(s), 32) == Val(s[1..])
  {
    hide *;
    ValLow(s);
    ValBound(s[1..]);
    Dbl32(1);
    Dbl32(Val(s[1..]));
    ShrOfSum(Val(s[1..]), s[0], 32);
  }

  lemma {:induction false} ShrLimbs(s: seq<word>, j: nat)
    requires j <= |s|
    ensures Val(s) >= 0 && Val(s[j..]) >= 0
    ensures Shr(Val(s), 32 * j) == Val(s[j..])
  {
    ValBound(s);
    if j == 0 {
      assert s[0..] == s;
    } else {
      ShrLimbs(s, j - 1);
      ShrLimb(s[j - 1..]);
      assert s[j - 1..][1..] == s[j..];
      ShrAdd(Val(s), 32 * (j - 1), 32);
    }
  }

  /** Adding a multiple of 2^m above bit i leaves bit i alone. */
  lemma {:induction false} ShrAbove(a: nat, r: nat, i: nat, m: nat)
    ensures Dbl(r, i + m) >= 0 && Dbl(r, m) >= 0
    ensures Shr(a + Dbl(r, i + m), i) == Shr(a, i) + Dbl(r, m)
    decreases i
  {
    DblMono(0, r, i + m);
    DblMono(0, r, m);
    if i > 0 {
      ShrAbove(a, r, i - 1, m + 1);
      assert i - 1 + (m + 1) == i + m;
      assert Dbl(r, m + 1) == 2 * Dbl(r, m);
    }
  }

  lemma BitOfLowLimb(s: seq<word>, k: nat)
    requires |s| > 0 && k < 32
    ensures Val(s) >= 0
    ensures Shr(Val(s), k) % 2 == Shr(s[0], k) % 2
  {
    var r := Val(s[1..]);
    assert Dbl(r, 32 - k) == 2 * Dbl(r, 31 - k);
    hide *;
    ValLow(s);
    ValBound(s[1..]);
    Dbl32(r);
    ShrAbove(s[0], r, k, 32 - k);
    SameParity(Shr(Val(s), k), Shr(s[0], k), Dbl(r, 31 - k));
  }

  /** Bit 32 j + k of the value is bit k of limb j. */
  lemma BitOfLimb(s: seq<word>, j: nat, k: nat)
    requires j < |s| && k < 32
    ensures Val(s) >= 0
    ensures Shr(Val(s), 32 * j + k) % 2 == Shr(s[j], k) % 2
  {
    hide *;
    ShrLimbs(s, j);
    ShrAdd(Val(s), 32 * j, k);
    BitOfLowLimb(s[j..], k);
  }

  /** A single-bit mask tests that bit. */
  lemma {:induction false} AndBit(a: nat, k: nat)
    ensures And(a, Pow2(k)) == 0 <==> Shr(a, k) % 2 == 0
    decreases k
  {
    hide And;
    AndUnfold(a, Pow2(k));
    if k == 0 {
      AndZero(a / 2);
    } else {
      AndBit(a / 2, k - 1);
      ShrHalf(a, k - 1);
    }
  }

  lemma AndZero(a: nat)
    ensures And(a, 0) == 0
  {}

  /** Bits at and above the bit length are zero. */
  lemma {:induction false} ShrZeroUp(x: nat, n: nat, m: nat)
    requires Shr(x, n) == 0 && n <= m
    ensures Shr(x, m) == 0
  {
    if n < m {
      ShrZeroUp(x, n, m - 1);
    }
  }

  lemma {:induction false} BitLengthUnique(x: nat, m: nat, n: nat)
    requires IsBitLength(x, m) && IsBitLength(x, n)
    ensures m == n
  {
    if m < n {
      ShrZeroUp(x, m, n - 1);
    } else if n < m {
      ShrZeroUp(x, n, m - 1);
    }
  }
}
