/** The checksum as the remainder of a polynomial division over two elements. */
module CrcDivision {
  import opened Crc

  /** A polynomial: the coefficient of x^i is the i-th element. */
  type Poly = seq<bool>

  /** The sum of two polynomials written with equally many coefficients. */
  function Add(p: Poly, q: Poly): (r: Poly)
    requires |p| == |q|
    ensures |r| == |p|
  {
    seq(|p|, i requires 0 <= i < |p| => p[i] != q[i])
  }

  /** x p */
  function Shifted(p: Poly): (r: Poly)
    ensures |r| == |p| + 1
  {
    [false] + p
  }

  function Zeros(n: nat): (r: Poly)
    ensures |r| == n
  {
    seq(n, _ => false)
  }

  /** x^16 + x^15 + x^2 + 1, written with n + 17 coefficients. */
  function Generator(n: nat): (r: Poly)
    ensures |r| == n + 17
  {
    seq(n + 17, i requires 0 <= i < n + 17 => i == 0 || i == 2 || i == 15 || i == 16)
  }

  /** The product with the generator of the polynomial whose uppermost coefficient comes first. */
  function Product(q: seq<bool>): (r: Poly)
    ensures |r| == |q| + 16
  {
    if |q| == 0 then Zeros(16) else
      var n := |q| - 1;
      var p := Shifted(Product(q[..n]));
      if q[n] then Add(p, Generator(n)) else p
  }

  /** The bit of a number with the weight 2^i. */
  predicate Bit(c: bv16, i: nat)
  {
    match i
    case 0 => c & 0x0001 != 0
    case 1 => c & 0x0002 != 0
    case 2 => c & 0x0004 != 0
    case 3 => c & 0x0008 != 0
    case 4 => c & 0x0010 != 0
    case 5 => c & 0x0020 != 0
    case 6 => c & 0x0040 != 0
    case 7 => c & 0x0080 != 0
    case 8 => c & 0x0100 != 0
    case 9 => c & 0x0200 != 0
    case 10 => c & 0x0400 != 0
    case 11 => c & 0x0800 != 0
    case 12 => c & 0x1000 != 0
    case 13 => c & 0x2000 != 0
    case 14 => c & 0x4000 != 0
    case _ => c & 0x8000 != 0
  }

  predicate BitOfByte(b: bv8, i: nat)
  {
    match i
    case 0 => b & 0x01 != 0
    case 1 => b & 0x02 != 0
    case 2 => b & 0x04 != 0
    case 3 => b & 0x08 != 0
    case 4 => b & 0x10 != 0
    case 5 => b & 0x20 != 0
    case 6 => b & 0x40 != 0
    case _ => b & 0x80 != 0
  }

  /** The bits of a number of sixteen bits, as a polynomial written with n + 16 coefficients. */
  function Low(c: bv16, n: nat): (r: Poly)
    ensures |r| == n + 16
  {
    seq(n + 16, i requires 0 <= i < n + 16 => i < 16 && Bit(c, i))
  }

  /** The bits of a byte, times x^8. */
  function ByteBits(b: bv8, n: nat): (r: Poly)
    ensures |r| == n + 16
  {
    seq(n + 16, i requires 0 <= i < n + 16 => 8 <= i < 16 && BitOfByte(b, i - 8))
  }

  function Eight(p: Poly): (r: Poly)
    ensures |r| == |p| + 8
  {
    Shifted(Shifted(Shifted(Shifted(Shifted(Shifted(Shifted(Shifted(p))))))))
  }

  /** What is divided: the start value times x^(8 n) and the message times x^16. */
  function Dividend(s: Bytes): (r: Poly)
    ensures |r| == 8 * |s| + 16
  {
    if |s| == 0 then Low(0xd77f, 0) else
      var n := |s| - 1;
      Eight(Add(Dividend(s[..n]), ByteBits(s[n], 8 * n)))
  }

  // ------------------------------------------------------------------ bits of registers

  lemma DoubledBits(c: bv16)
    ensures (c << 1) & 0x0001 == 0
    ensures (c << 1) & 0x0002 != 0 <==> c & 0x0001 != 0
    ensures (c << 1) & 0x0004 != 0 <==> c & 0x0002 != 0
    ensures (c << 1) & 0x0008 != 0 <==> c & 0x0004 != 0
    ensures (c << 1) & 0x0010 != 0 <==> c & 0x0008 != 0
    ensures (c << 1) & 0x0020 != 0 <==> c & 0x0010 != 0
    ensures (c << 1) & 0x0040 != 0 <==> c & 0x0020 != 0
    ensures (c << 1) & 0x0080 != 0 <==> c & 0x0040 != 0
    ensures (c << 1) & 0x0100 != 0 <==> c & 0x0080 != 0
    ensures (c << 1) & 0x0200 != 0 <==> c & 0x0100 != 0
    ensures (c << 1) & 0x0400 != 0 <==> c & 0x0200 != 0
    ensures (c << 1) & 0x0800 != 0 <==> c & 0x0400 != 0
    ensures (c << 1) & 0x1000 != 0 <==> c & 0x0800 != 0
    ensures (c << 1) & 0x2000 != 0 <==> c & 0x1000 != 0
    ensures (c << 1) & 0x4000 != 0 <==> c & 0x2000 != 0
    ensures (c << 1) & 0x8000 != 0 <==> c & 0x4000 != 0
  {}

  lemma AddedBits(c: bv16)
    ensures (c ^ 0x8005) & 0x0001 != 0 <==> c & 0x0001 == 0
    ensures (c ^ 0x8005) & 0x0002 != 0 <==> c & 0x0002 != 0
    ensures (c ^ 0x8005) & 0x0004 != 0 <==> c & 0x0004 == 0
    ensures (c ^ 0x8005) & 0x0008 != 0 <==> c & 0x0008 != 0
    ensures (c ^ 0x8005) & 0x0010 != 0 <==> c & 0x0010 != 0
    ensures (c ^ 0x8005) & 0x0020 != 0 <==> c & 0x0020 != 0
    ensures (c ^ 0x8005) & 0x0040 != 0 <==> c & 0x0040 != 0
    ensures (c ^ 0x8005) & 0x0080 != 0 <==> c & 0x0080 != 0
    ensures (c ^ 0x8005) & 0x0100 != 0 <==> c & 0x0100 != 0
    ensures (c ^ 0x8005) & 0x0200 != 0 <==> c & 0x0200 != 0
    ensures (c ^ 0x8005) & 0x0400 != 0 <==> c & 0x0400 != 0
    ensures (c ^ 0x8005) & 0x0800 != 0 <==> c & 0x0800 != 0
    ensures (c ^ 0x8005) & 0x1000 != 0 <==> c & 0x1000 != 0
    ensures (c ^ 0x8005) & 0x2000 != 0 <==> c & 0x2000 != 0
    ensures (c ^ 0x8005) & 0x4000 != 0 <==> c & 0x4000 != 0
    ensures (c ^ 0x8005) & 0x8000 != 0 <==> c & 0x8000 == 0
  {}

  lemma MixedBits(c: bv16, b: bv8)
    ensures (c ^ ((b as bv16) << 8)) & 0x0001 != 0 <==> c & 0x0001 != 0
    ensures (c ^ ((b as bv16) << 8)) & 0x0002 != 0 <==> c & 0x0002 != 0
    ensures (c ^ ((b as bv16) << 8)) & 0x0004 != 0 <==> c & 0x0004 != 0
    ensures (c ^ ((b as bv16) << 8)) & 0x0008 != 0 <==> c & 0x0008 != 0
    ensures (c ^ ((b as bv16) << 8)) & 0x0010 != 0 <==> c & 0x0010 != 0
    ensures (c ^ ((b as bv16) << 8)) & 0x0020 != 0 <==> c & 0x0020 != 0
    ensures (c ^ ((b as bv16) << 8)) & 0x0040 != 0 <==> c & 0x0040 != 0
    ensures (c ^ ((b as bv16) << 8)) & 0x0080 != 0 <==> c & 0x0080 != 0
    ensures (c ^ ((b as bv16) << 8)) & 0x0100 != 0 <==> (c & 0x0100 != 0) != (b & 0x01 != 0)
    ensures (c ^ ((b as bv16) << 8)) & 0x0200 != 0 <==> (c & 0x0200 != 0) != (b & 0x02 != 0)
    ensures (c ^ ((b as bv16) << 8)) & 0x0400 != 0 <==> (c & 0x0400 != 0) != (b & 0x04 != 0)
    ensures (c ^ ((b as bv16) << 8)) & 0x0800 != 0 <==> (c & 0x0800 != 0) != (b & 0x08 != 0)
    ensures (c ^ ((b as bv16) << 8)) & 0x1000 != 0 <==> (c & 0x1000 != 0) != (b & 0x10 != 0)
    ensures (c ^ ((b as bv16) << 8)) & 0x2000 != 0 <==> (c & 0x2000 != 0) != (b & 0x20 != 0)
    ensures (c ^ ((b as bv16) << 8)) & 0x4000 != 0 <==> (c & 0x4000 != 0) != (b & 0x40 != 0)
    ensures (c ^ ((b as bv16) << 8)) & 0x8000 != 0 <==> (c & 0x8000 != 0) != (b & 0x80 != 0)
  {}

  /** The bits of a register after a step: each moves up, and the top one adds the generator. */
  lemma BitOfShift(c: bv16, d: bv16, i: nat)
    requires Reg(d) == Shift(Reg(c)) && i < 16
    ensures Bit(d, i) == ((i > 0 && Bit(c, i - 1)) != (Bit(c, 15) && (i == 0 || i == 2 || i == 15)))
  {
    ShiftBranches(c);
    DoubledBits(c);
    AddedBits(c << 1);
    hide Shift;
    match i
    case 0 =>
    case 1 =>
    case 2 =>
    case 3 =>
    case 4 =>
    case 5 =>
    case 6 =>
    case 7 =>
    case 8 =>
    case 9 =>
    case 10 =>
    case 11 =>
    case 12 =>
    case 13 =>
    case 14 =>
    case _ =>
  }

  lemma BitOfMix(c: bv16, b: bv8, i: nat)
    requires i < 16
    ensures Bit(c ^ ((b as bv16) << 8), i) == (Bit(c, i) != (i >= 8 && BitOfByte(b, i - 8)))
  {
    MixedBits(c, b);
    match i
    case 0 =>
    case 1 =>
    case 2 =>
    case 3 =>
    case 4 =>
    case 5 =>
    case 6 =>
    case 7 =>
    case 8 =>
    case 9 =>
    case 10 =>
    case 11 =>
    case 12 =>
    case 13 =>
    case 14 =>
    case _ =>
  }

  // ------------------------------------------------------------------------ division

  /** d is q times the generator plus a remainder of sixteen bits. */
  predicate Divides(d: Poly, q: seq<bool>, c: bv16)
  {
    |d| == |q| + 16 && d == Add(Product(q), Low(c, |q|))
  }

  lemma StepAt(c: bv16, e: bv16, n: nat, i: nat)
    requires Reg(e) == Shift(Reg(c)) && i < n + 17
    ensures Low(e, n + 1)[i] == (Shifted(Low(c, n))[i] != (Bit(c, 15) && Generator(n)[i]))
  {
    hide Bit, Shift;
    if i < 16 {
      BitOfShift(c, e, i);
    }
  }

  lemma ProductNext(q: seq<bool>, t: bool, i: nat)
    requires i < |q| + 17
    ensures Product(q + [t])[i] == (Shifted(Product(q))[i] != (t && Generator(|q|)[i]))
  {
    assert (q + [t])[..|q|] == q;
    hide Shifted, Generator;
  }

  /** One bit step multiplies by x: the bit that falls out is the next one of the quotient. */
  lemma StepDivides(d: Poly, q: seq<bool>, c: bv16, e: bv16)
    requires Divides(d, q, c) && Reg(e) == Shift(Reg(c))
    ensures Divides(Shifted(d), q + [Bit(c, 15)], e)
  {
    var n, r := |q|, q + [Bit(c, 15)];
    hide Bit, Product, Shift, Low, Generator;
    forall i | 0 <= i < n + 17
      ensures Shifted(d)[i] == Add(Product(r), Low(e, n + 1))[i]
    {
      ProductNext(q, Bit(c, 15), i);
      StepAt(c, e, n, i);
    }
    assert Shifted(d) == Add(Product(r), Low(e, n + 1));
  }

  lemma MixAt(c: bv16, b: bv8, n: nat, i: nat)
    requires i < n + 16
    ensures Low(c ^ ((b as bv16) << 8), n)[i] == (Low(c, n)[i] != ByteBits(b, n)[i])
  {
    hide Bit, BitOfByte;
    if i < 16 {
      BitOfMix(c, b, i);
    }
  }

  /** A byte of the message is added at x^8. */
  lemma ByteDivides(d: Poly, q: seq<bool>, c: bv16, b: bv8)
    requires Divides(d, q, c)
    ensures Divides(Add(d, ByteBits(b, |q|)), q, c ^ ((b as bv16) << 8))
  {
    var n, e := |q|, c ^ ((b as bv16) << 8);
    hide Low, ByteBits, Product;
    forall i | 0 <= i < n + 16
      ensures Add(d, ByteBits(b, n))[i] == Add(Product(q), Low(e, n))[i]
    {
      MixAt(c, b, n, i);
    }
    assert Add(d, ByteBits(b, n)) == Add(Product(q), Low(e, n));
  }

  lemma StepOnce(d: Poly, q: seq<bool>, c: Reg) returns (r: seq<bool>)
    requires Divides(d, q, c.bits)
    ensures |r| == |q| + 1 && Divides(Shifted(d), r, Shift(c).bits)
  {
    hide *;
    r := q + [Bit(c.bits, 15)];
    StepDivides(d, q, c.bits, Shift(c).bits);
  }

  lemma EightDivides(d: Poly, q: seq<bool>, c: Reg) returns (r: seq<bool>)
    requires Divides(d, q, c.bits)
    ensures |r| == |q| + 8 && Divides(Eight(d), r, Shift8(c).bits)
  {
    hide Divides, Shift, Shifted;
    var d1, c1 := Shifted(d), Shift(c);
    var r1 := StepOnce(d, q, c);
    var d2, c2 := Shifted(d1), Shift(c1);
    var r2 := StepOnce(d1, r1, c1);
    var d3, c3 := Shifted(d2), Shift(c2);
    var r3 := StepOnce(d2, r2, c2);
    var d4, c4 := Shifted(d3), Shift(c3);
    var r4 := StepOnce(d3, r3, c3);
    var d5, c5 := Shifted(d4), Shift(c4);
    var r5 := StepOnce(d4, r4, c4);
    var d6, c6 := Shifted(d5), Shift(c5);
    var r6 := StepOnce(d5, r5, c5);
    var d7, c7 := Shifted(d6), Shift(c6);
    var r7 := StepOnce(d6, r6, c6);
    r := StepOnce(d7, r7, c7);
  }

  /** The checksum is what the division by x^16 + x^15 + x^2 + 1 leaves. */
  lemma {:induction false} ChecksumDivides(s: Bytes) returns (q: seq<bool>)
    ensures |q| == 8 * |s| && Divides(Dividend(s), q, Checksum(s))
  {
    if |s| == 0 {
      q := [];
      StartDivides();
    } else {
      var n := |s| - 1;
      var p := ChecksumDivides(s[..n]);
      var c := Fold(START, s[..n]);
      ByteDivides(Dividend(s[..n]), p, c.bits, s[n]);
      XorHigh(c, s[n]);
      q := EightDivides(Add(Dividend(s[..n]), ByteBits(s[n], 8 * n)), p, Xor(c, High(s[n])));
      hide Divides, Shift8, Xor, High, Eight, Add;
    }
  }

  lemma StartDivides()
    ensures Dividend([]) == Low(0xd77f, 0) && Checksum([]) == 0xd77f && Divides(Low(0xd77f, 0), [], 0xd77f)
  {
    assert START.bits == 0xd77f && Fold(START, []) == START;
    hide Bit;
    assert Low(0xd77f, 0) == Add(Zeros(16), Low(0xd77f, 0));
  }

  // ------------------------------------------------------------- there is only one remainder

  /** The coefficients from x^16 on tell the quotient. */
  lemma {:induction false} QuotientTold(q: seq<bool>, r: seq<bool>)
    requires |q| == |r| && forall i | 16 <= i < |q| + 16 :: Product(q)[i] == Product(r)[i]
    ensures q == r
  {
    if |q| > 0 {
      var n := |q| - 1;
      assert Product(q) == if q[n] then Add(Shifted(Product(q[..n])), Generator(n)) else Shifted(Product(q[..n]));
      assert Product(r) == if r[n] then Add(Shifted(Product(r[..n])), Generator(n)) else Shifted(Product(r[..n]));
      hide Product;
      forall i | 16 <= i < n + 16
        ensures Product(q[..n])[i] == Product(r[..n])[i]
      {
        assert Product(q)[i + 1] == Product(r)[i + 1];
      }
      QuotientTold(q[..n], r[..n]);
      assert Product(q)[16] == Product(r)[16];
      assert q == q[..n] + [q[n]] && r == r[..n] + [r[n]];
    }
  }

  lemma LowerHalf(c: bv16, e: bv16)
    requires c & 0x0001 != 0 <==> e & 0x0001 != 0
    requires c & 0x0002 != 0 <==> e & 0x0002 != 0
    requires c & 0x0004 != 0 <==> e & 0x0004 != 0
    requires c & 0x0008 != 0 <==> e & 0x0008 != 0
    requires c & 0x0010 != 0 <==> e & 0x0010 != 0
    requires c & 0x0020 != 0 <==> e & 0x0020 != 0
    requires c & 0x0040 != 0 <==> e & 0x0040 != 0
    requires c & 0x0080 != 0 <==> e & 0x0080 != 0
    ensures c & 0x00ff == e & 0x00ff
  {}

  lemma UpperHalf(c: bv16, e: bv16)
    requires c & 0x0100 != 0 <==> e & 0x0100 != 0
    requires c & 0x0200 != 0 <==> e & 0x0200 != 0
    requires c & 0x0400 != 0 <==> e & 0x0400 != 0
    requires c & 0x0800 != 0 <==> e & 0x0800 != 0
    requires c & 0x1000 != 0 <==> e & 0x1000 != 0
    requires c & 0x2000 != 0 <==> e & 0x2000 != 0
    requires c & 0x4000 != 0 <==> e & 0x4000 != 0
    requires c & 0x8000 != 0 <==> e & 0x8000 != 0
    ensures c & 0xff00 == e & 0xff00
  {}

  lemma HalvesTell(c: bv16, e: bv16)
    requires c & 0x00ff == e & 0x00ff && c & 0xff00 == e & 0xff00
    ensures c == e
  {}

  lemma LowerTold(c: bv16, e: bv16)
    requires forall i | 0 <= i < 16 :: Bit(c, i) == Bit(e, i)
    ensures c & 0x00ff == e & 0x00ff
  {
    assert Bit(c, 0) == Bit(e, 0) && Bit(c, 1) == Bit(e, 1) && Bit(c, 2) == Bit(e, 2) && Bit(c, 3) == Bit(e, 3);
    assert Bit(c, 4) == Bit(e, 4) && Bit(c, 5) == Bit(e, 5) && Bit(c, 6) == Bit(e, 6) && Bit(c, 7) == Bit(e, 7);
    LowerHalf(c, e);
  }

  lemma UpperTold(c: bv16, e: bv16)
    requires forall i | 0 <= i < 16 :: Bit(c, i) == Bit(e, i)
    ensures c & 0xff00 == e & 0xff00
  {
    assert Bit(c, 8) == Bit(e, 8) && Bit(c, 9) == Bit(e, 9) && Bit(c, 10) == Bit(e, 10) && Bit(c, 11) == Bit(e, 11);
    assert Bit(c, 12) == Bit(e, 12) && Bit(c, 13) == Bit(e, 13) && Bit(c, 14) == Bit(e, 14) && Bit(c, 15) == Bit(e, 15);
    UpperHalf(c, e);
  }

  lemma BitsTell(c: bv16, e: bv16)
    requires forall i | 0 <= i < 16 :: Bit(c, i) == Bit(e, i)
    ensures c == e
  {
    hide *;
    LowerTold(c, e);
    UpperTold(c, e);
    HalvesTell(c, e);
  }

  lemma RemainderOnly(d: Poly, q: seq<bool>, c: bv16, r: seq<bool>, e: bv16)
    requires Divides(d, q, c) && Divides(d, r, e)
    ensures q == r && c == e
  {
    hide Bit, Product;
    forall i | 16 <= i < |q| + 16
      ensures Product(q)[i] == Product(r)[i]
    {
      assert d[i] == (Product(q)[i] != Low(c, |q|)[i]) && d[i] == (Product(r)[i] != Low(e, |r|)[i]);
    }
    QuotientTold(q, r);
    forall i | 0 <= i < 16
      ensures Bit(c, i) == Bit(e, i)
    {
      assert d[i] == (Product(q)[i] != Low(c, |q|)[i]) && d[i] == (Product(r)[i] != Low(e, |r|)[i]);
    }
    BitsTell(c, e);
  }

  /** So the checksum is the one number that is the remainder. */
  lemma ChecksumIsRemainder(s: Bytes, c: bv16)
    ensures Checksum(s) == c <==> exists q: seq<bool> :: Divides(Dividend(s), q, c)
  {
    hide Checksum, Divides, Dividend;
    var q := ChecksumDivides(s);
    forall r: seq<bool> | Divides(Dividend(s), r, c)
      ensures Checksum(s) == c
    {
      RemainderOnly(Dividend(s), q, Checksum(s), r, c);
    }
  }
}
