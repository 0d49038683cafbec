/** Multiplication modulo the prime of P-256 by the reduction of section D.2.3 of FIPS 186-4. */
module Fast256 {
  import opened Arith
  import opened Words
  import opened Limbs
  import opened Bigint
  import opened BigintMult
  import opened Modular

  /** 2^256 - 2^224 + 2^192 + 2^96 - 1 */
  const P256: nat := 0xffffffff_00000001_00000000_00000000_00000000_ffffffff_ffffffff_ffffffff

  /** Eight words, lowest first. */
  function Number8(a: int, b: int, c: int, d: int, e: int, f: int, g: int, h: int): int
  {
    a + 0x1_00000000 * b + 0x1_00000000_00000000 * c + 0x1_00000000_00000000_00000000 * d
    + 0x1_00000000_00000000_00000000_00000000 * e
    + 0x1_00000000_00000000_00000000_00000000_00000000 * f
    + 0x1_00000000_00000000_00000000_00000000_00000000_00000000 * g
    + 0x1_00000000_00000000_00000000_00000000_00000000_00000000_00000000 * h
  }

  function Number4(a: int, b: int, c: int, d: int): int
  {
    a + 0x1_00000000 * b + 0x1_00000000_00000000 * c + 0x1_00000000_00000000_00000000 * d
  }

  lemma Val2(s: seq<word>)
    requires |s| == 2
    ensures Val(s) == Number4(s[0], s[1], 0, 0)
  {
    ValLow(s);
    ValLow(s[1..]);
    ValEmpty(s[1..][1..]);
  }

  lemma Val4(s: seq<word>)
    requires |s| == 4
    ensures Val(s) == Number4(s[0], s[1], s[2], s[3])
  {
    ValLow(s);
    ValLow(s[1..]);
    Val2(s[1..][1..]);
  }

  lemma Shl4(x: int)
    ensures Shl(x, 4) == 0x1_00000000_00000000_00000000_00000000 * x
  {
    assert Shl(x, 1) == 0x1_00000000 * x;
    assert Shl(x, 3) == 0x1_00000000_00000000 * Shl(x, 1);
  }

  lemma Shl8(x: int)
    ensures Shl(x, 8) == 0x1_00000000_00000000_00000000_00000000_00000000_00000000_00000000_00000000 * x
  {
    ShlShl(x, 4, 4);
    Shl4(x);
    Shl4(Shl(x, 4));
  }

  lemma Val8(s: seq<word>)
    requires |s| == 8
    ensures Val(s) == Number8(s[0], s[1], s[2], s[3], s[4], s[5], s[6], s[7])
  {
    hide Val, Shl;
    ValSplit(s, 4);
    Val4(s[..4]);
    Val4(s[4..]);
    Shl4(Val(s[4..]));
  }

  lemma Val16(s: seq<word>)
    requires |s| == 16
    ensures Val(s) == Number8(s[0], s[1], s[2], s[3], s[4], s[5], s[6], s[7])
         + 0x1_00000000_00000000_00000000_00000000_00000000_00000000_00000000_00000000
           * Number8(s[8], s[9], s[10], s[11], s[12], s[13], s[14], s[15])
  {
    hide Val, Shl, Number8;
    ValSplit(s, 8);
    Val8(s[..8]);
    Val8(s[8..]);
    Shl8(Val(s[8..]));
  }

  /** s1 + 2 s2 + 2 s3 + s4 + s5 - s6 - s7 - s8 - s9 of the standard, for the sixteen
      words of a product. */
  function FoldedSum(c: seq<word>): int
    requires |c| == 16
  {
    Number8(c[0], c[1], c[2], c[3], c[4], c[5], c[6], c[7])
    + 2 * Number8(0, 0, 0, c[11], c[12], c[13], c[14], c[15])
    + 2 * Number8(0, 0, 0, c[12], c[13], c[14], c[15], 0)
    + Number8(c[8], c[9], c[10], 0, 0, 0, c[14], c[15])
    + Number8(c[9], c[10], c[11], c[13], c[14], c[15], c[13], c[8])
    - Number8(c[11], c[12], c[13], 0, 0, 0, c[8], c[10])
    - Number8(c[12], c[13], c[14], c[15], 0, 0, c[9], c[11])
    - Number8(c[13], c[14], c[15], c[8], c[9], c[10], 0, c[12])
    - Number8(c[14], c[15], 0, c[9], c[10], c[11], 0, c[13])
  }

  /** How many times the prime is contained in the upper half 2^256 * (c8 .. c15)
      beyond what folding keeps of it. */
  function FoldedQuotient(c8: int, c9: int, c10: int, c11: int, c12: int, c13: int, c14: int, c15: int): int
  {
    c8 + 0x1_00000001 * c9 + 0x1_00000001_00000000 * c10
    + 0x1_00000000_ffffffff_ffffffff * c11
    + 0x1_00000000_ffffffff_fffffffe_ffffffff * c12
    + 0x1_00000000_ffffffff_fffffffe_fffffffe_ffffffff * c13
    + 0x1_00000000_ffffffff_fffffffe_fffffffe_fffffffe_ffffffff * c14
    + 0x1_00000000_ffffffff_fffffffe_fffffffe_fffffffe_ffffffff_00000000 * c15
  }

  /** The folded sum differs from the product by a multiple of the prime. */
  lemma FoldedSumCongruent(c: seq<word>)
    requires |c| == 16
    ensures Cong(FoldedSum(c), Val(c), P256)
  {
    assert P256 > 0;
    hide *;
    var k := FoldedQuotient(c[8], c[9], c[10], c[11], c[12], c[13], c[14], c[15]);
    FoldedSumDifference(c, k);
    CongBy(FoldedSum(c), Val(c), P256, -k);
  }

  lemma FoldedSumDifference(c: seq<word>, k: int)
    requires |c| == 16
    requires k == FoldedQuotient(c[8], c[9], c[10], c[11], c[12], c[13], c[14], c[15])
    ensures FoldedSum(c) == Val(c) + P256 * -k
  {
    hide Val;
    Val16(c);
  }

  /** Adds tmp into the accumulator (res, carry), an integer in base 2^256 digits. */
  method Accumulate8(res: array<word>, tmp: array<word>, carry: int) returns (c: int)
    requires 8 <= res.Length && 8 <= tmp.Length && res != tmp
    modifies res
    ensures Val(res[..8]) + Shl(c, 8) == old(Val(res[..8])) + Shl(carry, 8) + Val(tmp[..8])
    ensures res[8..] == old(res[8..])
  {
    hide *;
    var out := Add(res, res, tmp, 8);
    c := carry + out;
    ShlAdd(carry, out, 8);
  }

  method Deduct8(res: array<word>, tmp: array<word>, carry: int) returns (c: int)
    requires 8 <= res.Length && 8 <= tmp.Length && res != tmp
    modifies res
    ensures Val(res[..8]) + Shl(c, 8) == old(Val(res[..8])) + Shl(carry, 8) - Val(tmp[..8])
    ensures res[8..] == old(res[8..])
  {
    hide *;
    var out := Sub(res, res, tmp, 8);
    c := carry - out;
    ShlAdd(carry, out, 8);
  }

  /** One block of byte moves: each word of tmp receives a whole word of the product or zero. */
  method Store8(tmp: array<word>, a: word, b: word, c: word, d: word, e: word, f: word, g: word, h: word)
    requires tmp.Length == 8
    modifies tmp
    ensures Val(tmp[..8]) == Number8(a, b, c, d, e, f, g, h)
    ensures tmp[..] == [a, b, c, d, e, f, g, h]
  {
    hide *;
    tmp[0], tmp[1], tmp[2], tmp[3] := a, b, c, d;
    tmp[4], tmp[5], tmp[6], tmp[7] := e, f, g, h;
    Val8(tmp[..8]);
  }

  /** The final correction: the accumulator is brought into [0, mod) one modulus at a time. */
  method Correct8(res: array<word>, mod: array<word>, carry0: int)
    requires 8 <= res.Length && 8 <= mod.Length && res != mod
    requires Val(mod[..8]) > 0
    modifies res
    ensures Val(mod[..8]) > 0
    ensures Val(res[..8]) == (old(Val(res[..8])) + Shl(carry0, 8)) % Val(mod[..8])
    ensures res[8..] == old(res[8..])
  {
    hide *;
    ghost var total := Val(res[..8]) + Shl(carry0, 8);
    if carry0 < 0 {
      Raise8(res, mod, carry0, total);
    } else {
      Lower8(res, mod, carry0, total);
    }
    CongResidue(Val(res[..8]), total, Val(mod[..8]));
    DivModUnique(Val(res[..8]), Val(mod[..8]), 0, Val(res[..8]));
  }

  /** do { ... } while (carry < 0): the modulus is added until nothing is owed. */
  method Raise8(res: array<word>, mod: array<word>, carry0: int, ghost total: int)
    requires 8 <= res.Length && 8 <= mod.Length && res != mod
    requires Val(mod[..8]) > 0 && carry0 < 0 && total == Val(res[..8]) + Shl(carry0, 8)
    modifies res
    ensures Val(mod[..8]) == old(Val(mod[..8])) && res[8..] == old(res[8..])
    ensures 0 <= Val(res[..8]) < Val(mod[..8]) && Cong(Val(res[..8]), total, Val(mod[..8]))
  {
    hide *;
    var carry := carry0;
    ghost var m, now := Val(mod[..8]), total;
    ValBound(mod[..8]);
    ValBound(res[..8]);
    CarrySign(carry, 8);
    CongRefl(total, m);
    while carry < 0
      invariant Val(res[..8]) + Shl(carry, 8) == now && Cong(now, total, m)
      invariant 0 <= Val(res[..8]) < Shl(1, 8)
      invariant if carry < 0 then now < 0 else now < m
      invariant res[8..] == old(res[8..]) && mod[..8] == old(mod[..8])
      decreases -now
    {
      carry := Accumulate8(res, mod, carry);
      CongShift(now, total, m);
      now := now + m;
      ValBound(res[..8]);
      CarrySign(carry, 8);
    }
    CarrySign(carry, 8);
  }

  /** while (carry || res >= mod): the modulus is subtracted until the rest is below it. */
  method Lower8(res: array<word>, mod: array<word>, carry0: int, ghost total: int)
    requires 8 <= res.Length && 8 <= mod.Length && res != mod
    requires Val(mod[..8]) > 0 && carry0 >= 0 && total == Val(res[..8]) + Shl(carry0, 8)
    modifies res
    ensures Val(mod[..8]) == old(Val(mod[..8])) && res[8..] == old(res[8..])
    ensures 0 <= Val(res[..8]) < Val(mod[..8]) && Cong(Val(res[..8]), total, Val(mod[..8]))
  {
    hide *;
    var carry := carry0;
    ghost var m, now := Val(mod[..8]), total;
    ValBound(mod[..8]);
    ValBound(res[..8]);
    CarrySign(carry, 8);
    CongRefl(total, m);
    var cmp := Cmp(mod, res, 8);
    while carry != 0 || cmp != 1
      invariant Val(res[..8]) + Shl(carry, 8) == now && Cong(now, total, m)
      invariant 0 <= Val(res[..8]) < Shl(1, 8) && carry >= 0 && now >= 0
      invariant cmp == 1 <==> m > Val(res[..8])
      invariant carry == 0 <==> Shl(carry, 8) == 0
      invariant carry > 0 ==> Shl(carry, 8) >= Shl(1, 8)
      invariant res[8..] == old(res[8..]) && mod[..8] == old(mod[..8])
      decreases now
    {
      carry := Deduct8(res, mod, carry);
      CongShift(now, total, m);
      now := now - m;
      ValBound(res[..8]);
      CarrySign(carry, 8);
      cmp := Cmp(mod, res, 8);
    }
  }

  /** The doubled terms: + 2 s2 + 2 s3. */
  method DoubledTerms(res: array<word>, tmp: array<word>, c: seq<word>) returns (carry: int)
    requires 8 <= res.Length && tmp.Length == 8 && res != tmp && |c| == 16
    modifies res, tmp
    ensures Val(res[..8]) + Shl(carry, 8)
         == old(Val(res[..8]))
            + 2 * Number8(0, 0, 0, c[11], c[12], c[13], c[14], c[15])
            + 2 * Number8(0, 0, 0, c[12], c[13], c[14], c[15], 0)
    ensures res[8..] == old(res[8..])
  {
    hide *;
    Store8(tmp, 0, 0, 0, c[11], c[12], c[13], c[14], c[15]);
    carry := LShift(tmp, 8);
    assert tmp[0] == 0 && tmp[1] == 0 && tmp[2] == 0;
    carry := Accumulate8(res, tmp, carry);
    // the three low words of tmp are still zero here and are not stored again
    tmp[3], tmp[4], tmp[5], tmp[6], tmp[7] := c[12], c[13], c[14], c[15], 0;
    Val8(tmp[..8]);
    var out := LShift(tmp, 8);
    ShlAdd(carry, out, 8);
    carry := Accumulate8(res, tmp, carry + out);
  }

  /** The plain terms: + s4 + s5. */
  method PlainTerms(res: array<word>, tmp: array<word>, c: seq<word>, carry0: int) returns (carry: int)
    requires 8 <= res.Length && tmp.Length == 8 && res != tmp && |c| == 16
    modifies res, tmp
    ensures Val(res[..8]) + Shl(carry, 8)
         == old(Val(res[..8])) + Shl(carry0, 8)
            + Number8(c[8], c[9], c[10], 0, 0, 0, c[14], c[15])
            + Number8(c[9], c[10], c[11], c[13], c[14], c[15], c[13], c[8])
    ensures res[8..] == old(res[8..])
  {
    hide *;
    Store8(tmp, c[8], c[9], c[10], 0, 0, 0, c[14], c[15]);
    carry := Accumulate8(res, tmp, carry0);
    Store8(tmp, c[9], c[10], c[11], c[13], c[14], c[15], c[13], c[8]);
    carry := Accumulate8(res, tmp, carry);
  }

  /** The last four terms: - s6 - s7 - s8 - s9. */
  method SubTerms(res: array<word>, tmp: array<word>, c: seq<word>, carry0: int) returns (carry: int)
    requires 8 <= res.Length && tmp.Length == 8 && res != tmp && |c| == 16
    modifies res, tmp
    ensures Val(res[..8]) + Shl(carry, 8)
         == old(Val(res[..8])) + Shl(carry0, 8)
            - Number8(c[11], c[12], c[13], 0, 0, 0, c[8], c[10])
            - Number8(c[12], c[13], c[14], c[15], 0, 0, c[9], c[11])
            - Number8(c[13], c[14], c[15], c[8], c[9], c[10], 0, c[12])
            - Number8(c[14], c[15], 0, c[9], c[10], c[11], 0, c[13])
    ensures res[8..] == old(res[8..])
  {
    hide *;
    Store8(tmp, c[11], c[12], c[13], 0, 0, 0, c[8], c[10]);
    carry := Deduct8(res, tmp, carry0);
    Store8(tmp, c[12], c[13], c[14], c[15], 0, 0, c[9], c[11]);
    carry := Deduct8(res, tmp, carry);
    Store8(tmp, c[13], c[14], c[15], c[8], c[9], c[10], 0, c[12]);
    carry := Deduct8(res, tmp, carry);
    Store8(tmp, c[14], c[15], 0, c[9], c[10], c[11], 0, c[13]);
    carry := Deduct8(res, tmp, carry);
  }

  /** Reduces the sixteen-word product, whose low half is already in res. */
  method Reduce256(res: array<word>, product: array<word>, mod: array<word>)
    requires 8 <= res.Length && product.Length == 16 && 8 <= mod.Length
    requires res != mod && res != product
    requires Val(mod[..8]) == P256
    requires res[..8] == product[..8]
    modifies res
    ensures Val(res[..8]) == Val(product[..]) % P256
    ensures res[8..] == old(res[8..])
  {
    hide Val, Number8, Shl, Cong;
    var tmp := new word[8];
    ghost var c := product[..];
    Val8(c[..8]);
    assert res[..8] == c[..8];
    var carry := DoubledTerms(res, tmp, product[..]);
    carry := PlainTerms(res, tmp, product[..], carry);
    carry := SubTerms(res, tmp, product[..], carry);
    FoldedSumCongruent(c);
    Correct8(res, mod, carry);
    CongResidue(FoldedSum(c), Val(c), P256);
  }

  method ModMultFast256(res: array<word>, left: array<word>, right: array<word>, mod: array<word>)
    requires 8 <= res.Length && 8 <= left.Length && 8 <= right.Length && 8 <= mod.Length
    requires res != mod
    requires Val(mod[..8]) == P256
    modifies res
    ensures Val(res[..8]) == old(Val(left[..8]) * Val(right[..8])) % P256
    ensures res[8..] == old(res[8..])
  {
    assert P256 > 0;
    hide *;
    var product := new word[16];
    Mult(product, left, right, 8);
    Set(res, 0, product, 8);
    assert res[..8] == res[0..0 + 8];
    assert product[..2 * 8] == product[..];
    Reduce256(res, product, mod);
  }
}
