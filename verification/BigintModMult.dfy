/** Shift-and-subtract modular multiplication for any modulus that fills its limbs. */
module BigintModMult {
  import opened Arith
  import opened Words
  import opened Limbs
  import opened Bits
  import opened Bigint
  import opened BigintMult
  import opened BigintMod
  import opened Modular

  method TestBit(bi: array<word>, bit: nat, size: nat) returns (r: nat)
    requires size <= bi.Length && bit < 32 * size
    ensures 0 <= Val(bi[..size])
    ensures r != 0 <==> Shr(Val(bi[..size]), bit) % 2 == 1
  {
    hide *;
    ValBound(bi[..size]);
    BitOfLimb(bi[..size], bit / 32, bit % 32);
    AndBit(bi[bit / 32], bit % 32);
    r := And(bi[bit / 32], Pow2(bit % 32));
  }

  method NumDwords(bi: array<word>, size: nat) returns (n: nat)
    requires size <= bi.Length
    ensures n <= size
    ensures n > 0 ==> bi[n - 1] != 0
    ensures forall j :: n <= j < size ==> bi[j] == 0
  {
    var i := size - 1;
    while i >= 0 && bi[i] == 0
      invariant -1 <= i < size
      invariant forall j :: i < j < size ==> bi[j] == 0
    {
      i := i - 1;
    }
    return i + 1;
  }

  method NumBits(bi: array<word>, size: nat) returns (n: nat)
    requires size <= bi.Length
    ensures 0 <= Val(bi[..size]) && IsBitLength(Val(bi[..size]), n)
    ensures size > 0 && bi[size - 1] != 0 ==> 32 * (size - 1) < n
    ensures n <= 32 * size
  {
    var dwords := NumDwords(bi, size);
    ValBound(bi[..size]);
    ValZero(bi[..size]);
    if dwords == 0 {
      return 0;
    }
    var tmp: nat := bi[dwords - 1];
    var i := 0;
    ghost var top := tmp;
    while tmp != 0
      invariant tmp == Shr(top, i)
      invariant i > 0 ==> Shr(top, i - 1) > 0
      decreases tmp
    {
      tmp := tmp / 2;
      i := i + 1;
    }
    TopLimbBits(bi[..size], dwords, i);
    return (dwords - 1) * 32 + i;
  }

  /** The bit length of the highest nonzero limb decides that of the value. */
  lemma TopLimbBits(s: seq<word>, n: nat, i: nat)
    requires 0 < n <= |s| && s[n - 1] != 0
    requires forall j :: n <= j < |s| ==> s[j] == 0
    requires Shr(s[n - 1], i) == 0 && (i > 0 ==> Shr(s[n - 1], i - 1) > 0)
    ensures 0 <= Val(s) && 0 < i <= 32
    ensures IsBitLength(Val(s), (n - 1) * 32 + i)
  {
    ShrLimbs(s, n - 1);
    ValBound(s);
    ValLow(s[n - 1..]);
    ValZero(s[n - 1..][1..]);
    ShrAdd(Val(s), 32 * (n - 1), i);
    ShrAdd(Val(s), 32 * (n - 1), i - 1);
    if i > 32 {
      ShrWord(s[n - 1]);
      ShrZeroUp(s[n - 1], 32, i - 1);
    }
  }

  lemma ShrWord(x: word)
    ensures Shr(x, 32) == 0
  {
    Dbl32(0);
    Dbl32(1);
    ShrOfSum(0, x, 32);
  }

  // ------------------------------------------------------- shifting left

  lemma {:induction false} ShrLe(x: nat, i: nat)
    ensures Shr(x, i) <= x
  {
    if i > 0 {
      ShrLe(x, i - 1);
    }
  }

  /** x << b over a limb boundary: q moves into the next limb, r * 2^b stays, with
      room for b more bits. */
  lemma ShiftWord(x: word, b: nat) returns (r: nat)
    requires 0 < b < 32
    ensures 0 <= Shr(x, 32 - b) < Dbl(1, b)
    ensures Dbl(x, b) % 0x1_0000_0000 == r * Pow2(b)
    ensures Dbl(x, b) == r * Pow2(b) + 0x1_0000_0000 * Shr(x, 32 - b)
    ensures r * Pow2(b) + Dbl(1, b) <= 0x1_0000_0000
  {
    hide *;
    var m := 32 - b;
    var q := Shr(x, m);
    ShrBounds(x, m);
    r := x - Dbl(q, m);
    DblAdd(q, 1, m);
    DblMul(r, b);
    ShiftSplit(x, q, r, m, b);
    DivModUnique(Dbl(x, b), 0x1_0000_0000, q, Dbl(r, b));
  }

  lemma ShiftSplit(x: word, q: nat, r: nat, m: nat, b: nat)
    requires m + b == 32 && x == Dbl(q, m) + r && r < Dbl(1, m)
    ensures Dbl(x, b) == 0x1_0000_0000 * q + Dbl(r, b)
    ensures 0 <= Dbl(r, b) && 0 < Dbl(1, b)
    ensures Dbl(r, b) + Dbl(1, b) <= 0x1_0000_0000
    ensures q < Dbl(1, b)
  {
    hide *;
    SplitSum(x, q, r, m, b);
    RemainderRoom(r, m, b);
    HighPart(x, q, m, b);
  }

  lemma SplitSum(x: word, q: nat, r: nat, m: nat, b: nat)
    requires m + b == 32 && x == Dbl(q, m) + r
    ensures Dbl(x, b) == 0x1_0000_0000 * q + Dbl(r, b)
  {
    hide *;
    DblAdd(Dbl(q, m), r, b);
    DblDbl(q, m, b);
    Dbl32(q);
  }

  lemma RemainderRoom(r: nat, m: nat, b: nat)
    requires m + b == 32 && r < Dbl(1, m)
    ensures 0 <= Dbl(r, b) && 0 < Dbl(1, b) && Dbl(r, b) + Dbl(1, b) <= 0x1_0000_0000
  {
    hide *;
    DblMono(r + 1, Dbl(1, m), b);
    DblDbl(1, m, b);
    Dbl32(1);
    DblAdd(r, 1, b);
    DblMono(0, r, b);
    DblMono(1, 0, b);
  }

  lemma HighPart(x: word, q: nat, m: nat, b: nat)
    requires m + b == 32 && Dbl(q, m) <= x
    ensures q < Dbl(1, b)
  {
    hide *;
    DblMono(Dbl(1, b), q, m);
    DblDbl(1, b, m);
    Dbl32(1);
  }

  method ShiftedLimb(x: word, carry: word, b: nat) returns (limb: word, out: word)
    requires 0 < b < 32 && carry < Dbl(1, b)
    ensures out < Dbl(1, b)
    ensures limb + out * 0x1_0000_0000 == Dbl(x, b) + carry
  {
    hide *;
    ghost var r := ShiftWord(x, b);
    DblMul(1, b);
    ShrLe(x, 32 - b);
    OrDisjoint(carry, r, b, Pow2(b));
    limb := Or(Dbl(x, b) % 0x1_0000_0000, carry);
    out := Shr(x, 32 - b);
  }

  /** modM = mod << shift, for a modulus with a nonzero top limb: all of it lands in
      the upper half of the double-width buffer. */
  method ShiftModulus(modM: array<word>, mod: array<word>, size: nat, shift: nat)
    requires 0 < size && 2 * size <= modM.Length && size <= mod.Length && modM != mod
    requires 0 <= Val(mod[..size]) && shift <= 64 * size && IsBitLength(Val(mod[..size]), 64 * size - shift)
    requires 32 * size <= shift < 32 * size + 32
    requires forall j :: 0 <= j < 2 * size ==> modM[j] == 0
    modifies modM
    ensures Val(modM[..2 * size]) == Dbl(Val(mod[..size]), shift)
    ensures modM[2 * size..] == old(modM[2 * size..])
  {
    hide *;
    var dwordShift := shift / 32;
    var bitShift := shift % 32;
    ghost var m := mod[..size];
    assert dwordShift == size;
    if bitShift > 0 {
      var carry: word := 0;
      DblMono(1, 0, bitShift);
      ValEmpty(modM[size..size + 0]);
      ValEmpty(m[..0]);
      for i := 0 to size
        invariant carry < Dbl(1, bitShift)
        invariant Val(modM[size..size + i]) + Shl(carry, i) == Dbl(Val(m[..i]), bitShift)
        invariant forall j :: 0 <= j < size ==> modM[j] == 0
        invariant forall j :: 2 * size <= j < modM.Length ==> modM[j] == old(modM[j])
      {
        ghost var c, below := carry, modM[size..size + i];
        var limb;
        limb, carry := ShiftedLimb(mod[i], carry, bitShift);
        modM[dwordShift + i] := limb;
        assert modM[size..size + (i + 1)] == below + [limb];
        ValAppend(modM[size..size + (i + 1)], below, limb);
        ShiftColumn(m, i, limb, carry, c, bitShift);
      }
      assert m[..size] == m;
      ValBound(modM[size..size + size]);
      NothingAbove(m, shift, bitShift, Val(modM[size..size + size]), carry);
      ShlMono(0, 0, size);
    } else {
      Set(modM, dwordShift, mod, size);
      DblNone(Val(m));
      assert forall j :: 0 <= j < size ==> modM[j] == modM[..size][j];
      assert modM[size..size + size] == m;
    }
    assert modM[..2 * size][size..] == modM[size..size + size];
    UpperHalf(modM[..2 * size], m, shift);
  }

  lemma DblNone(x: int)
    ensures Dbl(x, 0) == x
  {}

  lemma ShiftColumn(m: seq<word>, i: nat, limb: word, out: word, c: word, b: nat)
    requires i < |m|
    requires limb + out * 0x1_0000_0000 == Dbl(m[i], b) + c
    ensures Shl(limb, i) + Shl(out, i + 1) + Dbl(Val(m[..i]), b) == Dbl(Val(m[..i + 1]), b) + Shl(c, i)
  {
    ShlCarry(limb, out, i);
    ShlAdd(Dbl(m[i], b), c, i);
    ValSnoc(m, i);
    DblAdd(Val(m[..i]), Shl(m[i], i), b);
    ShlIsDbl(m[i], i);
    ShlIsDbl(Dbl(m[i], b), i);
    DblDbl(m[i], b, 32 * i);
    DblDbl(m[i], 32 * i, b);
  }

  /** A value of n bits moved up by b fits into the limbs if n + b does, so nothing is
      carried out at the top. */
  lemma NothingAbove(m: seq<word>, shift: nat, b: nat, v: int, carry: word)
    requires 32 * |m| <= shift < 64 * |m| && 0 <= Val(m) && IsBitLength(Val(m), 64 * |m| - shift)
    requires b == shift - 32 * |m|
    requires 0 <= v && v + Shl(carry, |m|) == Dbl(Val(m), b)
    ensures carry == 0
  {
    var n := 64 * |m| - shift;
    ShrBounds(Val(m), n);
    DblMono(Val(m) + 1, Dbl(1, n), b);
    DblDbl(1, n, b);
    DblAdd(Val(m), 1, b);
    DblMono(1, 0, b);
    ShlIsDbl(1, |m|);
    ShlMono(1, carry, |m|);
  }

  lemma UpperHalf(s: seq<word>, m: seq<word>, shift: nat)
    requires |s| == 2 * |m| && shift >= 32 * |m|
    requires forall j :: 0 <= j < |m| ==> s[j] == 0
    requires Val(s[|m|..]) == Dbl(Val(m), shift - 32 * |m|)
    ensures Val(s) == Dbl(Val(m), shift)
  {
    ValSplit(s, |m|);
    ValZero(s[..|m|]);
    ShlIsDbl(Val(s[|m|..]), |m|);
    DblDbl(Val(m), shift - 32 * |m|, 32 * |m|);
  }

  /** The two half-width shifts, with one bit carried across, shift the whole buffer. */
  method RShiftWide(modM: array<word>, size: nat)
    requires 0 < size && 2 * size <= modM.Length
    modifies modM
    ensures 2 * Val(modM[..2 * size]) + old(modM[0]) % 2 == old(Val(modM[..2 * size]))
  {
    hide *;
    ghost var s := modM[..2 * size];
    RShift(modM, 0, size);
    ghost var s' := modM[..2 * size];
    assert s'[..size] == modM[0..0 + size] && s[..size] == old(modM[0..0 + size]);
    assert s'[size..] == s[size..];
    LowHalfTop(s', s, size);
    HighBitIn(s[size - 1], s[size]);
    assert modM[size - 1] == s'[size - 1] && modM[size] == s'[size];
    modM[size - 1] := Or(modM[size - 1], (modM[size] as int * 0x8000_0000) % 0x1_0000_0000);
    ghost var t := modM[..2 * size];
    RShift(modM, size, size);
    ghost var t' := modM[..2 * size];
    assert t'[..size] == t[..size] && t'[size..] == modM[size..size + size];
    assert t[size..] == s[size..];
    JoinHalves(t', s', s, size);
    ShiftedRightVal(t', s);
    LowLimb(s);
  }

  lemma LowLimb(s: seq<word>)
    requires |s| > 0
    ensures Limb(s, 0) == s[0]
  {}

  lemma LowHalfTop(s': seq<word>, s: seq<word>, n: nat)
    requires |s'| == |s| == 2 * n && n > 0
    requires ShiftedRight(s'[..n], s[..n])
    ensures s'[n - 1] == s[n - 1] / 2
  {
    assert s'[..n][n - 1] == s'[n - 1] && s[..n][n - 1] == s[n - 1];
  }

  lemma JoinHalves(t: seq<word>, s': seq<word>, s: seq<word>, n: nat)
    requires |t| == |s'| == |s| == 2 * n && n > 0
    requires ShiftedRight(s'[..n], s[..n]) && ShiftedRight(t[n..], s[n..])
    requires t[..n - 1] == s'[..n - 1]
    requires t[n - 1] == ShiftLimb(s[n - 1], s[n])
    ensures ShiftedRight(t, s)
  {
    forall j | 0 <= j < 2 * n ensures t[j] == ShiftLimb(s[j], Limb(s, j + 1))
    {
      if j < n - 1 {
        assert t[j] == t[..n - 1][j] == s'[..n - 1][j] == s'[..n][j];
        assert s[..n][j] == s[j] && s[..n][j + 1] == s[j + 1];
      } else if j >= n {
        assert t[n..][j - n] == t[j] && s[n..][j - n] == s[j];
        assert Limb(s[n..], j - n + 1) == Limb(s, j + 1);
      }
    }
  }

  /** What the subtract-and-shift loop keeps: the selected buffer x is the product
      modulo m, below twice the shifted modulus. */
  ghost predicate Reducing(x: int, product: int, m: int, shift: int)
  {
    && m > 0 && -1 <= shift
    && 0 <= x < Dbl(m, shift + 1)
    && Cong(x, product, m)
  }

  lemma ReducingStart(product: int, m: nat, size: nat, shift: nat)
    requires 0 <= product < Shl(1, 2 * size)
    requires shift <= 64 * size && IsBitLength(m, 64 * size - shift) && m > 0
    ensures Reducing(product, product, m, shift)
  {
    var n := 64 * size - shift;
    assert n > 0;
    ShrBounds(m, n - 1);
    DblMono(Dbl(1, n - 1), m, shift + 1);
    DblDbl(1, n - 1, shift + 1);
    ShlIsDbl(1, 2 * size);
    CongRefl(product, m);
  }

  lemma TakenCong(x: int, w: int, product: int, m: int, shift: nat)
    requires m > 0 && Cong(x, product, m) && w == x - Dbl(m, shift)
    ensures Cong(w, product, m)
  {
    DblMul(m, shift);
    var k: int := Pow2(shift);
    CongBy(w, x, m, -k);
    CongTrans(w, x, product, m);
  }

  /** One round: w = x - (m << shift) is taken if it did not borrow. */
  lemma ReducingStep(x: int, w: int, borrow: word, product: int, m: int, shift: nat, size: nat)
    requires Reducing(x, product, m, shift)
    requires borrow <= 1 && 0 <= w < Shl(1, 2 * size) && x < Shl(1, 2 * size)
    requires w - Shl(borrow, 2 * size) == x - Dbl(m, shift)
    ensures Reducing(if borrow == 1 then x else w, product, m, shift - 1)
  {
    CarryValue(borrow, 2 * size);
    DblMono(0, m, shift);
    if borrow == 0 {
      TakenCong(x, w, product, m, shift);
      hide Cong;
    }
  }

  lemma ReducingDone(x: int, product: int, m: int)
    requires Reducing(x, product, m, -1)
    ensures x == product % m
  {
    CongResidue(x, product, m);
    DivModUnique(x, m, 0, x);
  }

  lemma LowPart(s: seq<word>, n: nat)
    requires n <= |s| && Val(s) < Shl(1, n)
    ensures Val(s[..n]) == Val(s)
  {
    ValSplit(s, n);
    ValBound(s[..n]);
    ValBound(s[n..]);
    ShlMono(1, Val(s[n..]), n);
    ShlMono(0, 0, n);
  }

  lemma ShiftedHalf(m: int, shift: nat, v: int, v': int, bit: int)
    requires v == Dbl(m, shift) && 0 <= bit <= 1 && 2 * v' + bit == v
    ensures shift > 0 ==> v' == Dbl(m, shift - 1)
  {}

  /** Subtracts the shifted modulus from cur into other, then shifts it down. */
  method ReduceRound(cur: array<word>, other: array<word>, modM: array<word>, size: nat,
                     ghost product: int, ghost m: int, ghost shift: nat) returns (borrow: word)
    requires 0 < size && 2 * size <= cur.Length && 2 * size <= other.Length && 2 * size <= modM.Length
    requires cur != other && cur != modM && other != modM
    requires Reducing(Val(cur[..2 * size]), product, m, shift)
    requires Val(modM[..2 * size]) == Dbl(m, shift)
    modifies other, modM
    ensures borrow <= 1
    ensures Reducing(if borrow == 1 then Val(cur[..2 * size]) else Val(other[..2 * size]), product, m, shift - 1)
    ensures shift > 0 ==> Val(modM[..2 * size]) == Dbl(m, shift - 1)
  {
    hide *;
    ValBound(cur[..2 * size]);
    borrow := Sub(other, cur, modM, 2 * size);
    ValBound(other[..2 * size]);
    ReducingStep(Val(cur[..2 * size]), Val(other[..2 * size]), borrow, product, m, shift, size);
    ghost var bit := modM[0] % 2;
    RShiftWide(modM, size);
    ShiftedHalf(m, shift, Dbl(m, shift), Val(modM[..2 * size]), bit);
  }

  /** The loop: v[i] holds the current remainder, v[1 - i] receives the difference. */
  method SubtractLoop(v: seq<array<word>>, modM: array<word>, size: nat, shift0: nat,
                      ghost product: int, ghost m: int) returns (i: int)
    requires 0 < size && |v| == 2 && 2 * size <= v[0].Length && 2 * size <= v[1].Length
    requires 2 * size <= modM.Length
    requires v[0] != v[1] && v[0] != modM && v[1] != modM
    requires Val(modM[..2 * size]) == Dbl(m, shift0)
    requires Reducing(Val(v[1][..2 * size]), product, m, shift0)
    modifies v[0], v[1], modM
    ensures 0 <= i <= 1
    ensures Reducing(Val(v[i][..2 * size]), product, m, -1)
  {
    hide *;
    i := 1;
    var shift: int := shift0;
    while shift >= 0
      invariant -1 <= shift
      invariant 0 <= i <= 1
      invariant shift >= 0 ==> Val(modM[..2 * size]) == Dbl(m, shift)
      invariant Reducing(Val(v[i][..2 * size]), product, m, shift)
    {
      var borrow := ReduceRound(v[i], v[1 - i], modM, size, product, m, shift);
      // !(i ^ borrow)
      i := if (i + borrow) % 2 == 0 then 1 else 0;
      shift := shift - 1;
    }
  }

  method ModMult(res: array<word>, left: array<word>, right: array<word>, mod: array<word>, size: nat)
    requires 0 < size <= ECC_MAX_SIZE
    requires size <= res.Length && size <= left.Length && size <= right.Length && size <= mod.Length
    requires mod[size - 1] != 0
    modifies res
    ensures old(Val(mod[..size])) > 0
    ensures Val(res[..size]) == old(Val(left[..size]) * Val(right[..size])) % old(Val(mod[..size]))
    ensures res[size..] == old(res[size..])
  {
    assert ECC_MAX_SIZE == 8;
    hide *;
    var product := new word[ECC_MAX_SIZE * 2];
    var modM := new word[ECC_MAX_SIZE * 2];
    var tmp := new word[ECC_MAX_SIZE * 2];
    ghost var m, P := Val(mod[..size]), Val(left[..size]) * Val(right[..size]);
    var v := [tmp, product];
    var bits := NumBits(mod, size);
    var shift := 64 * size - bits;
    ValZero(mod[..size]);
    assert mod[..size][size - 1] != 0;
    ValBound(mod[..size]);

    Mult(product, left, right, size);
    Clear(modM, 2 * size);
    ShiftModulus(modM, mod, size, shift);
    ValBound(product[..2 * size]);
    ReducingStart(P, m, size, shift);

    var i := SubtractLoop(v, modM, size, shift, P, m);
    TakeResidue(res, v[i], size, P, m);
  }

  /** The selected buffer holds the residue, which fits the lower half. */
  method TakeResidue(res: array<word>, x: array<word>, size: nat, ghost product: int, ghost m: int)
    requires size <= res.Length && 2 * size <= x.Length && res != x
    requires Reducing(Val(x[..2 * size]), product, m, -1) && m < Shl(1, size)
    modifies res
    ensures m > 0 && Val(res[..size]) == product % m
    ensures res[size..] == old(res[size..])
  {
    ghost var s := x[..2 * size];
    ReducingDone(Val(s), product, m);
    ReducedFits(s, size, product, m);
    hide *;
    assert s[..size] == x[..size];
    Set(res, 0, x, size);
    assert res[..size] == res[0..0 + size];
  }

  lemma ReducedFits(s: seq<word>, size: nat, product: int, m: int)
    requires size <= |s| && m > 0 && Val(s) == product % m && m < Shl(1, size)
    ensures Val(s[..size]) == product % m
  {
    hide *;
    LowPart(s, size);
  }
}
