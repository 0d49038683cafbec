/** Multiplication modulo the prime of secp128r1, 2^128 - 2^97 - 1, by folding the upper
    half of the product at byte granularity. */
module Fast128 {
  import opened Arith
  import opened Words
  import opened Endian
  import opened Limbs
  import opened Bits
  import opened Bigint
  import opened BigintMult
  import opened Modular
  import opened Fast256

  const P128: nat := 0xfffffffd_ffffffff_ffffffff_ffffffff

  /** `b >> k` with n = 2^k */
  function High(b: byte, n: nat): (h: byte)
    requires n > 0
  {
    b / n
  }

  /** `(lo >> (8 - k)) | (hi << k)` stored in a byte, with m = 2^k and n = 2^(8 - k). */
  function Join(lo: byte, hi: byte, m: nat, n: nat): byte
    requires n > 0
  {
    Or(High(lo, n), hi * m) % 256
  }

  ghost predicate IsSplit(m: nat, n: nat, k: nat)
  {
    (k == 1 && m == 2 && n == 128) || (k == 2 && m == 4 && n == 64)
    || (k == 3 && m == 8 && n == 32) || (k == 4 && m == 16 && n == 16)
  }

  lemma JoinIs(lo: byte, hi: byte, m: nat, n: nat, k: nat)
    requires IsSplit(m, n, k)
    ensures Join(lo, hi, m, n) == High(lo, n) + hi * m - High(hi, n) * 0x100
  {
    hide Or;
    PowersOfTwo();
    LowBelow(lo, m, n, k);
    hide High;
    OrDisjoint(High(lo, n), hi, k, m);
    ByteShift(High(lo, n), hi, m, n, k);
  }

  lemma LowBelow(lo: byte, m: nat, n: nat, k: nat)
    requires IsSplit(m, n, k)
    ensures High(lo, n) < m
  {}

  lemma ByteShift(x: nat, hi: byte, m: nat, n: nat, k: nat)
    requires IsSplit(m, n, k) && x < m
    ensures (x + hi * m) % 256 == x + hi * m - High(hi, n) * 0x100
  {}

  /** Four joined bytes are a word shifted left by k, with the top bits of the byte
      below shifted in. */
  lemma JoinWord(lo: byte, b0: byte, b1: byte, b2: byte, b3: byte, m: nat, n: nat, k: nat)
    requires IsSplit(m, n, k)
    ensures WordOf(Join(lo, b0, m, n), Join(b0, b1, m, n), Join(b1, b2, m, n), Join(b2, b3, m, n))
         == High(lo, n) + WordOf(b0, b1, b2, b3) * m - Out(b3, n)
  {
    hide Join, IsSplit, High;
    JoinIs(lo, b0, m, n, k);
    JoinIs(b0, b1, m, n, k);
    JoinIs(b1, b2, m, n, k);
    JoinIs(b2, b3, m, n, k);
    ScaledWord(b0, b1, b2, b3, m);
  }

  /** The highest word of an addend, whose lowest byte is built with a mask. */
  lemma JoinTopWord(low: int, extra: int, b0: byte, b1: byte, b2: byte, b3: byte, m: nat, n: nat, k: nat)
    requires IsSplit(m, n, k)
    requires low == extra + b0 * m - High(b0, n) * 0x100
    ensures WordOf(low, Join(b0, b1, m, n), Join(b1, b2, m, n), Join(b2, b3, m, n))
         == extra + WordOf(b0, b1, b2, b3) * m - Out(b3, n)
  {
    hide Join, IsSplit, High;
    JoinIs(b0, b1, m, n, k);
    JoinIs(b1, b2, m, n, k);
    JoinIs(b2, b3, m, n, k);
    ScaledWord(b0, b1, b2, b3, m);
  }

  lemma ScaledWord(b0: int, b1: int, b2: int, b3: int, m: int)
    ensures WordOf(b0, b1, b2, b3) * m == WordOf(b0 * m, b1 * m, b2 * m, b3 * m)
  {}

  lemma SingleByte(b: int)
    ensures WordOf(b, 0, 0, 0) == b
  {}

  lemma LowByteChanged(a: int, b0: int, b1: int, b2: int, b3: int)
    ensures WordOf(a, b1, b2, b3) == WordOf(b0, b1, b2, b3) + a - b0
  {}

  /** What is shifted out at the top of a word whose highest byte is b. */
  function Out(b: byte, n: nat): int
    requires n > 0
  {
    0x1_0000_0000 * (High(b, n) as int)
  }

  // ------------------------------------------ the bytes built with a mask

  lemma MaskLow(a: byte, hi: byte)
    ensures Or(And(a, 1), hi * 2) % 256 == a % 2 + hi * 2 - High(hi, 128) * 0x100
  {
    hide Or, And, High;
    PowersOfTwo();
    AndUnfold(a, 1);
    AndZero(a / 2);
    OrDisjoint(a % 2, hi, 1, 2);
    ByteShift(a % 2, hi, 2, 128, 1);
  }

  lemma Mask80(top: byte, a: byte, hi: byte)
    ensures Or(Or(High(top, 128), And(a, 0x80) / 64), hi * 4) % 256
         == High(top, 128) + High(a, 128) * 2 + hi * 4 - High(hi, 64) * 0x100
  {
    hide *;
    Mask80Pair(top, a);
    PowersOfTwo();
    var x := Or(High(top, 128), And(a, 0x80) / 64);
    OrDisjoint(x, hi, 2, 4);
    TwoBitsIn(x, hi);
  }

  lemma TwoBitsIn(x: nat, hi: byte)
    requires x < 4
    ensures (x + hi * 4) % 256 == x + hi * 4 - High(hi, 64) * 0x100
  {
    ByteShift(x, hi, 4, 64, 2);
  }

  lemma Mask80Pair(top: byte, a: byte)
    ensures Or(High(top, 128), And(a, 0x80) / 64) == High(top, 128) + High(a, 128) * 2 < 4
  {
    hide Or, And;
    PowersOfTwo();
    var q, t := a / 128, top / 128;
    MaskBits(a, 1, 1, 7, 128, q);
    OrDisjoint(t, q, 1, 2);
  }

  lemma MaskC0(a: byte, hi: byte)
    ensures Or(And(a, 0xC0) / 32, hi * 8) % 256 == High(a, 64) * 2 + hi * 8 - High(hi, 32) * 0x100
  {
    PowersOfTwo();
    var q: nat := a / 64;
    assert High(a, 64) == q && q < 4 && IsSplit(8, 32, 3);
    MaskBits(a, 3, 2, 6, 64, q);
    hide *;
    OrDisjoint(q * 2, hi, 3, 8);
    ByteShift(q * 2, hi, 8, 32, 3);
  }

  lemma MaskE0(a: byte, hi: byte)
    ensures Or(And(a, 0xE0) / 16, hi * 16) % 256 == High(a, 32) * 2 + hi * 16 - High(hi, 16) * 0x100
  {
    PowersOfTwo();
    var q: nat := a / 32;
    assert High(a, 32) == q && q < 8 && IsSplit(16, 16, 4);
    MaskBits(a, 7, 3, 5, 32, q);
    hide *;
    OrDisjoint(q * 2, hi, 4, 16);
    ByteShift(q * 2, hi, 16, 16, 4);
  }

  /** The high bits of a byte, masked and moved down next to bit 1. */
  lemma MaskBits(a: byte, ones: nat, j: nat, k: nat, m: nat, q: nat)
    requires 0 < j < 8 && j + k == 8 && ones == Pow2(j) - 1 && m == Pow2(k)
    requires q * m <= a < q * m + m
    requires m in {32, 64, 128}
    ensures And(a, ones * m) == q * m
    ensures And(a, ones * m) / (m / 2) == q * 2
  {
    hide And, Pow2;
    PowersOfTwo();
    AndHighMask(a, ones, j, k, m);
    DivModUnique(a, m, q, a - q * m);
    assert m == 2 * (m / 2);
    assert q * m == m / 2 * (q * 2);
    DivModUnique(q * m, m / 2, q * 2, 0);
  }

  lemma MaskFE(a: byte)
    ensures And(a, 0xFE) == a - a % 2
  {
    hide And;
    PowersOfTwo();
    AndHighMask(a, 127, 7, 1, 2);
  }

  lemma MaskF0(a: byte)
    ensures And(a, 0xF0) / 8 == High(a, 16) * 2 < 256
  {
    hide And;
    PowersOfTwo();
    AndHighMask(a, 15, 4, 4, 16);
  }

  // -------------------------------------------------------- the six addends

  /** The value of sixteen bytes read as four words. */
  function BytesVal(t: seq<byte>): int
    requires |t| == 16
  {
    Number4(WordOf(t[0], t[1], t[2], t[3]), WordOf(t[4], t[5], t[6], t[7]),
            WordOf(t[8], t[9], t[10], t[11]), WordOf(t[12], t[13], t[14], t[15]))
  }

  /** Word j of the product, j in 4 .. 7, is made of bytes 4 j .. 4 j + 3. */
  ghost predicate IsUpper(p: seq<byte>, c4: int, c5: int, c6: int, c7: int)
  {
    && |p| == 32
    && c4 == WordOf(p[16], p[17], p[18], p[19]) && c5 == WordOf(p[20], p[21], p[22], p[23])
    && c6 == WordOf(p[24], p[25], p[26], p[27]) && c7 == WordOf(p[28], p[29], p[30], p[31])
  }

  /** One block of sixteen byte moves. */
  method Store16(tmp: array<byte>, b0: byte, b1: byte, b2: byte, b3: byte, b4: byte, b5: byte, b6: byte, b7: byte,
                 b8: byte, b9: byte, b10: byte, b11: byte, b12: byte, b13: byte, b14: byte, b15: byte)
    requires tmp.Length == 16
    modifies tmp
    ensures BytesVal(tmp[..]) == Number4(WordOf(b0, b1, b2, b3), WordOf(b4, b5, b6, b7),
                                         WordOf(b8, b9, b10, b11), WordOf(b12, b13, b14, b15))
  {
    hide WordOf, Number4;
    tmp[0], tmp[1], tmp[2], tmp[3] := b0, b1, b2, b3;
    tmp[4], tmp[5], tmp[6], tmp[7] := b4, b5, b6, b7;
    tmp[8], tmp[9], tmp[10], tmp[11] := b8, b9, b10, b11;
    tmp[12], tmp[13], tmp[14], tmp[15] := b12, b13, b14, b15;
  }

  /** Bits 0 to 96 of the upper half, and its bits 0 to 30 moved up by 97. */
  function Value1(p: seq<byte>, c4: int, c5: int, c6: int, c7: int): int
    requires |p| == 32
  {
    Number4(c4, c5, c6, p[28] % 2 + 2 * c4 - Out(p[19], 128))
  }

  method Addend1(p: seq<byte>, tmp: array<byte>, ghost c4: int, ghost c5: int, ghost c6: int, ghost c7: int)
    requires IsUpper(p, c4, c5, c6, c7) && tmp.Length == 16
    modifies tmp
    ensures BytesVal(tmp[..]) == Value1(p, c4, c5, c6, c7)
  {
    hide Or, And, Join, High, Out, BytesVal, Number4, WordOf;
    MaskLow(p[28], p[16]);
    JoinTopWord(Or(And(p[28], 1), p[16] as int * 2) % 256, p[28] % 2, p[16], p[17], p[18], p[19], 2, 128, 1);
    Store16(tmp,
            p[16], p[17], p[18], p[19],
            p[20], p[21], p[22], p[23],
            p[24], p[25], p[26], p[27],
            Or(And(p[28], 1), p[16] as int * 2) % 256, Join(p[16], p[17], 2, 128), Join(p[17], p[18], 2, 128),
            Join(p[18], p[19], 2, 128));
  }

  /** Bits 31 to 127 of the upper half, and its bits 31 to 61 moved up by 66. */
  function Value2(p: seq<byte>, c4: int, c5: int, c6: int, c7: int): int
    requires |p| == 32
  {
    Number4(High(p[19], 128) + 2 * c5 - Out(p[23], 128), High(p[23], 128) + 2 * c6 - Out(p[27], 128),
        High(p[27], 128) + 2 * c7 - Out(p[31], 128), High(p[31], 128) + High(p[19], 128) * 2 + 4 * c5 - Out(p[23], 64))
  }

  method Addend2(p: seq<byte>, tmp: array<byte>, ghost c4: int, ghost c5: int, ghost c6: int, ghost c7: int)
    requires IsUpper(p, c4, c5, c6, c7) && tmp.Length == 16
    modifies tmp
    ensures BytesVal(tmp[..]) == Value2(p, c4, c5, c6, c7)
  {
    hide Or, And, Join, High, Out, BytesVal, Number4, WordOf;
    Mask80(p[31], p[19], p[20]);
    JoinWord(p[19], p[20], p[21], p[22], p[23], 2, 128, 1);
    JoinWord(p[23], p[24], p[25], p[26], p[27], 2, 128, 1);
    JoinWord(p[27], p[28], p[29], p[30], p[31], 2, 128, 1);
    JoinTopWord(Or(Or(High(p[31], 128), And(p[19], 0x80) / 64), p[20] as int * 4) % 256,
        High(p[31], 128) + High(p[19], 128) * 2, p[20], p[21], p[22], p[23], 4, 64, 2);
    Store16(tmp,
            Join(p[19], p[20], 2, 128), Join(p[20], p[21], 2, 128), Join(p[21], p[22], 2, 128),
            Join(p[22], p[23], 2, 128),
            Join(p[23], p[24], 2, 128), Join(p[24], p[25], 2, 128), Join(p[25], p[26], 2, 128),
            Join(p[26], p[27], 2, 128),
            Join(p[27], p[28], 2, 128), Join(p[28], p[29], 2, 128), Join(p[29], p[30], 2, 128),
            Join(p[30], p[31], 2, 128),
            Or(Or(High(p[31], 128), And(p[19], 0x80) / 64), p[20] as int * 4) % 256, Join(p[20], p[21], 4, 64),
            Join(p[21], p[22], 4, 64), Join(p[22], p[23], 4, 64));
  }

  /** Bits 62 to 127 of the upper half, and its bits 62 to 92 moved up by 35. */
  function Value3(p: seq<byte>, c4: int, c5: int, c6: int, c7: int): int
    requires |p| == 32
  {
    Number4(High(p[23], 64) + 4 * c6 - Out(p[27], 64), High(p[27], 64) + 4 * c7 - Out(p[31], 64), High(p[31], 64),
        High(p[23], 64) * 2 + 8 * c6 - Out(p[27], 32))
  }

  method Addend3(p: seq<byte>, tmp: array<byte>, ghost c4: int, ghost c5: int, ghost c6: int, ghost c7: int)
    requires IsUpper(p, c4, c5, c6, c7) && tmp.Length == 16
    modifies tmp
    ensures BytesVal(tmp[..]) == Value3(p, c4, c5, c6, c7)
  {
    hide Or, And, Join, High, Out, BytesVal, Number4, WordOf;
    MaskC0(p[23], p[24]);
    SingleByte(High(p[31], 64));
    JoinWord(p[23], p[24], p[25], p[26], p[27], 4, 64, 2);
    JoinWord(p[27], p[28], p[29], p[30], p[31], 4, 64, 2);
    JoinTopWord(Or(And(p[23], 0xC0) / 32, p[24] as int * 8) % 256, High(p[23], 64) * 2, p[24], p[25], p[26], p[27], 8,
        32, 3);
    Store16(tmp,
            Join(p[23], p[24], 4, 64), Join(p[24], p[25], 4, 64), Join(p[25], p[26], 4, 64), Join(p[26], p[27], 4, 64),
            Join(p[27], p[28], 4, 64), Join(p[28], p[29], 4, 64), Join(p[29], p[30], 4, 64), Join(p[30], p[31], 4, 64),
            High(p[31], 64), 0, 0, 0,
            Or(And(p[23], 0xC0) / 32, p[24] as int * 8) % 256, Join(p[24], p[25], 8, 32), Join(p[25], p[26], 8, 32),
            Join(p[26], p[27], 8, 32));
  }

  /** Bits 93 to 127 of the upper half, and its bits 93 to 123 moved up by 4. */
  function Value4(p: seq<byte>, c4: int, c5: int, c6: int, c7: int): int
    requires |p| == 32
  {
    Number4(High(p[27], 32) + 8 * c7 - Out(p[31], 32), High(p[31], 32), 0,
        High(p[27], 32) * 2 + 16 * c7 - Out(p[31], 16))
  }

  method Addend4(p: seq<byte>, tmp: array<byte>, ghost c4: int, ghost c5: int, ghost c6: int, ghost c7: int)
    requires IsUpper(p, c4, c5, c6, c7) && tmp.Length == 16
    modifies tmp
    ensures BytesVal(tmp[..]) == Value4(p, c4, c5, c6, c7)
  {
    hide Or, And, Join, High, Out, BytesVal, Number4, WordOf;
    MaskE0(p[27], p[28]);
    SingleByte(High(p[31], 32));
    SingleByte(0);
    JoinWord(p[27], p[28], p[29], p[30], p[31], 8, 32, 3);
    JoinTopWord(Or(And(p[27], 0xE0) / 16, p[28] as int * 16) % 256, High(p[27], 32) * 2, p[28], p[29], p[30], p[31],
        16, 16, 4);
    Store16(tmp,
            Join(p[27], p[28], 8, 32), Join(p[28], p[29], 8, 32), Join(p[29], p[30], 8, 32), Join(p[30], p[31], 8, 32),
            High(p[31], 32), 0, 0, 0,
            0, 0, 0, 0,
            Or(And(p[27], 0xE0) / 16, p[28] as int * 16) % 256, Join(p[28], p[29], 16, 16), Join(p[29], p[30], 16, 16),
            Join(p[30], p[31], 16, 16));
  }

  /** Bits 124 to 127 of the upper half, and its bits 97 to 127 in place. */
  function Value5(p: seq<byte>, c4: int, c5: int, c6: int, c7: int): int
    requires |p| == 32
  {
    Number4(High(p[31], 16), 0, 0, c7 - p[28] % 2)
  }

  method Addend5(p: seq<byte>, tmp: array<byte>, ghost c4: int, ghost c5: int, ghost c6: int, ghost c7: int)
    requires IsUpper(p, c4, c5, c6, c7) && tmp.Length == 16
    modifies tmp
    ensures BytesVal(tmp[..]) == Value5(p, c4, c5, c6, c7)
  {
    hide Or, And, Join, High, Out, BytesVal, Number4, WordOf;
    MaskFE(p[28]);
    LowByteChanged(And(p[28], 0xFE), p[28], p[29], p[30], p[31]);
    SingleByte(High(p[31], 16));
    SingleByte(0);
    Store16(tmp,
            High(p[31], 16), 0, 0, 0,
            0, 0, 0, 0,
            0, 0, 0, 0,
            And(p[28], 0xFE), p[29], p[30], p[31]);
  }

  /** Bits 124 to 127 of the upper half moved to bit 97. */
  function Value6(p: seq<byte>, c4: int, c5: int, c6: int, c7: int): int
    requires |p| == 32
  {
    Number4(0, 0, 0, High(p[31], 16) * 2)
  }

  method Addend6(p: seq<byte>, tmp: array<byte>, ghost c4: int, ghost c5: int, ghost c6: int, ghost c7: int)
    requires IsUpper(p, c4, c5, c6, c7) && tmp.Length == 16
    modifies tmp
    ensures BytesVal(tmp[..]) == Value6(p, c4, c5, c6, c7)
  {
    hide Or, And, Join, High, Out, BytesVal, Number4, WordOf;
    MaskF0(p[31]);
    SingleByte(High(p[31], 16) * 2);
    SingleByte(0);
    Store16(tmp,
            0, 0, 0, 0,
            0, 0, 0, 0,
            0, 0, 0, 0,
            And(p[31], 0xF0) / 8, 0, 0, 0);
  }

  /** The lower half and the six addends. */
  function AddendSum(c: seq<word>, p: seq<byte>): int
    requires |c| == 8 && |p| == 32
  {
    Number4(c[0], c[1], c[2], c[3])
    + Value1(p, c[4], c[5], c[6], c[7]) + Value2(p, c[4], c[5], c[6], c[7]) + Value3(p, c[4], c[5], c[6], c[7])
    + Value4(p, c[4], c[5], c[6], c[7]) + Value5(p, c[4], c[5], c[6], c[7]) + Value6(p, c[4], c[5], c[6], c[7])
  }

  /** How many times the prime is dropped: the upper half and what spills over bit 128
      in each of the four rounds of folding. */
  function SpillSum(c4: int, c5: int, c6: int, c7: int, p19: byte, p23: byte, p27: byte, p31: byte): int
  {
    Number4(c4, c5, c6, c7) + (High(p19, 128) + 2 * Number4(c5, c6, c7, 0))
    + (High(p23, 64) + 4 * Number4(c6, c7, 0, 0)) + (High(p27, 32) + 8 * c7) + High(p31, 16)
  }

  lemma AddendSumDifference(c: seq<word>, p: seq<byte>, k: int)
    requires |c| == 8 && |p| == 32
    requires k == SpillSum(c[4], c[5], c[6], c[7], p[19], p[23], p[27], p[31])
    ensures AddendSum(c, p) == Number8(c[0], c[1], c[2], c[3], c[4], c[5], c[6], c[7])
                               + 0xfffffffd_ffffffff_ffffffff_ffffffff * -k
  {
    hide High;
  }

  /** 2^128 = 2^97 + 1 modulo the prime: folding keeps the residue. */
  lemma AddendSumCongruent(c: seq<word>, p: seq<byte>)
    requires |c| == 8 && |p| == 32
    ensures Cong(AddendSum(c, p), Val(c), P128)
  {
    assert P128 == 0xfffffffd_ffffffff_ffffffff_ffffffff;
    hide *;
    Val8(c);
    var k := SpillSum(c[4], c[5], c[6], c[7], p[19], p[23], p[27], p[31]);
    AddendSumDifference(c, p, k);
    CongBy(AddendSum(c, p), Val(c), P128, -k);
  }

  /** Adds the sixteen bytes of tmp into the accumulator (res, carry). */
  method AccumulateBytes(res: array<word>, tmp: array<byte>, carry: int) returns (c: int)
    requires 4 <= res.Length && tmp.Length == 16
    modifies res
    ensures carry <= c
    ensures Val(res[..4]) + Shl(c, 4) == old(Val(res[..4])) + Shl(carry, 4) + BytesVal(tmp[..])
    ensures res[4..] == old(res[4..])
  {
    hide *;
    var words := LoadWords(tmp);
    var out := Add(res, res, words, 4);
    c := carry + out;
    ShlAdd(carry, out, 4);
  }

  /** The cast of the sixteen bytes to four words. */
  method LoadWords(tmp: array<byte>) returns (words: array<word>)
    requires tmp.Length == 16
    ensures fresh(words) && words.Length == 4
    ensures Val(words[..4]) == BytesVal(tmp[..])
  {
    words := new word[4];
    words[0] := WordOf(tmp[0], tmp[1], tmp[2], tmp[3]);
    words[1] := WordOf(tmp[4], tmp[5], tmp[6], tmp[7]);
    words[2] := WordOf(tmp[8], tmp[9], tmp[10], tmp[11]);
    words[3] := WordOf(tmp[12], tmp[13], tmp[14], tmp[15]);
    hide Val, WordOf, Number4;
    Val4(words[..4]);
  }

  method AddLow(res: array<word>, tmp: array<byte>, p: seq<byte>,
                ghost c4: int, ghost c5: int, ghost c6: int, ghost c7: int) returns (carry: int)
    requires 4 <= res.Length && tmp.Length == 16 && IsUpper(p, c4, c5, c6, c7)
    modifies res, tmp
    ensures |p| == 32 && 0 <= carry
    ensures Val(res[..4]) + Shl(carry, 4) == old(Val(res[..4]))
              + Value1(p, c4, c5, c6, c7) + Value2(p, c4, c5, c6, c7) + Value3(p, c4, c5, c6, c7)
    ensures res[4..] == old(res[4..])
  {
    assert |p| == 32;
    hide *;
    ShlMono(0, 0, 4);
    Addend1(p, tmp, c4, c5, c6, c7);
    carry := AccumulateBytes(res, tmp, 0);
    Addend2(p, tmp, c4, c5, c6, c7);
    carry := AccumulateBytes(res, tmp, carry);
    Addend3(p, tmp, c4, c5, c6, c7);
    carry := AccumulateBytes(res, tmp, carry);
  }

  method AddHigh(res: array<word>, tmp: array<byte>, p: seq<byte>, carry0: int,
                 ghost c4: int, ghost c5: int, ghost c6: int, ghost c7: int) returns (carry: int)
    requires 4 <= res.Length && tmp.Length == 16 && IsUpper(p, c4, c5, c6, c7)
    modifies res, tmp
    ensures |p| == 32 && carry0 <= carry
    ensures Val(res[..4]) + Shl(carry, 4) == old(Val(res[..4])) + Shl(carry0, 4)
              + Value4(p, c4, c5, c6, c7) + Value5(p, c4, c5, c6, c7) + Value6(p, c4, c5, c6, c7)
    ensures res[4..] == old(res[4..])
  {
    assert |p| == 32;
    hide *;
    Addend4(p, tmp, c4, c5, c6, c7);
    carry := AccumulateBytes(res, tmp, carry0);
    Addend5(p, tmp, c4, c5, c6, c7);
    carry := AccumulateBytes(res, tmp, carry);
    Addend6(p, tmp, c4, c5, c6, c7);
    carry := AccumulateBytes(res, tmp, carry);
  }

  /** The final correction: `while (carry || res >= mod)` subtract the modulus. */
  method Correct4(res: array<word>, mod: array<word>, carry0: int)
    requires 4 <= res.Length && 4 <= mod.Length && res != mod
    requires Val(mod[..4]) > 0
    requires 0 <= carry0
    modifies res
    ensures Val(mod[..4]) > 0
    ensures Val(res[..4]) == (old(Val(res[..4])) + Shl(carry0, 4)) % Val(mod[..4])
    ensures res[4..] == old(res[4..])
  {
    hide *;
    var carry := carry0;
    ghost var m, total := Val(mod[..4]), Val(res[..4]) + Shl(carry, 4);
    ghost var now := total;
    ValBound(mod[..4]);
    ValBound(res[..4]);
    CarrySign(carry, 4);
    CongRefl(total, m);
    var cmp := Cmp(res, mod, 4);
    while carry != 0 || cmp >= 0
      invariant Val(res[..4]) + Shl(carry, 4) == now && Cong(now, total, m)
      invariant 0 <= Val(res[..4]) < Shl(1, 4) && carry >= 0 && now >= 0
      invariant -1 <= cmp <= 1 && (cmp == -1 <==> Val(res[..4]) < m)
      invariant carry == 0 <==> Shl(carry, 4) == 0
      invariant carry > 0 ==> Shl(carry, 4) >= Shl(1, 4)
      invariant res[4..] == old(res[4..]) && mod[..4] == old(mod[..4])
      decreases now
    {
      var borrow := Sub(res, res, mod, 4);
      ShlAdd(carry, borrow, 4);
      carry := carry - borrow;
      CongShift(now, total, m);
      now := now - m;
      ValBound(res[..4]);
      CarrySign(carry, 4);
      cmp := Cmp(res, mod, 4);
    }
    CongResidue(Val(res[..4]), total, m);
    DivModUnique(Val(res[..4]), m, 0, Val(res[..4]));
  }

  /** Adds the six addends of the upper half c4 .. c7 to the lower half in res. */
  method FoldAll(res: array<word>, p: seq<byte>, ghost low: seq<word>,
                 ghost c4: word, ghost c5: word, ghost c6: word, ghost c7: word) returns (carry: int)
    requires 4 <= res.Length && IsUpper(p, c4, c5, c6, c7)
    requires |low| == 4 && res[..4] == low
    modifies res
    ensures |p| == 32 && 0 <= carry
    ensures Val(res[..4]) + Shl(carry, 4) == AddendSum(low + [c4, c5, c6, c7], p)
    ensures res[4..] == old(res[4..])
  {
    assert |p| == 32;
    ghost var c := low + [c4, c5, c6, c7];
    assert c[4] == c4 && c[5] == c5 && c[6] == c6 && c[7] == c7;
    assert AddendSum(c, p) == Number4(c[0], c[1], c[2], c[3])
      + Value1(p, c4, c5, c6, c7) + Value2(p, c4, c5, c6, c7) + Value3(p, c4, c5, c6, c7)
      + Value4(p, c4, c5, c6, c7) + Value5(p, c4, c5, c6, c7) + Value6(p, c4, c5, c6, c7);
    hide *;
    Val4(low);
    var tmp := new byte[16];
    carry := AddLow(res, tmp, p, c4, c5, c6, c7);
    carry := AddHigh(res, tmp, p, carry, c4, c5, c6, c7);
  }

  /** Reduces the eight-word product, whose low half is already in res. */
  method Reduce128(res: array<word>, product: array<word>, mod: array<word>)
    requires 4 <= res.Length && product.Length == 8 && 4 <= mod.Length
    requires res != mod && res != product
    requires Val(mod[..4]) == P128
    requires res[..4] == product[..4]
    modifies res
    ensures Val(res[..4]) == Val(product[..]) % P128
    ensures res[4..] == old(res[4..])
  {
    assert P128 > 0;
    hide *;
    ghost var c, low := product[..], product[..4];
    var bytes := ViewBytes(product);
    var carry := FoldAll(res, bytes, low, product[4], product[5], product[6], product[7]);
    SplitProduct(c);
    Correct4(res, mod, carry);
    AddendResidue(c, bytes);
  }

  lemma SplitProduct(c: seq<word>)
    requires |c| == 8
    ensures c == c[..4] + [c[4], c[5], c[6], c[7]]
  {}

  lemma AddendResidue(c: seq<word>, p: seq<byte>)
    requires |c| == 8 && IsUpper(p, c[4], c[5], c[6], c[7])
    ensures |p| == 32 && P128 > 0 && AddendSum(c, p) % P128 == Val(c) % P128
  {
    assert |p| == 32 && P128 > 0;
    hide *;
    AddendSumCongruent(c, p);
    CongResidue(AddendSum(c, p), Val(c), P128);
  }

  method ModMultFast128(res: array<word>, left: array<word>, right: array<word>, mod: array<word>)
    requires 4 <= res.Length && 4 <= left.Length && 4 <= right.Length && 4 <= mod.Length
    requires res != mod
    requires Val(mod[..4]) == P128
    modifies res
    ensures Val(res[..4]) == old(Val(left[..4]) * Val(right[..4])) % P128
    ensures res[4..] == old(res[4..])
  {
    assert P128 > 0;
    hide *;
    var product := new word[8];
    Mult(product, left, right, 4);
    Set(res, 0, product, 4);
    assert res[..4] == res[0..0 + 4];
    assert product[..2 * 4] == product[..];
    Reduce128(res, product, mod);
  }

  /** The cast of the product to bytes. */
  method ViewBytes(product: array<word>) returns (p: seq<byte>)
    requires product.Length == 8
    ensures |p| == 32
    ensures IsUpper(p, product[4], product[5], product[6], product[7])
  {
    hide WordOf, ToBytes;
    p := ToBytes(product[..]);
    BytesAt(product[..], 4);
    BytesAt(product[..], 5);
    BytesAt(product[..], 6);
    BytesAt(product[..], 7);
  }
}
