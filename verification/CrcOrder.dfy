/** How far apart two damaged bits may lie: the bit step has the order 32767. */
module CrcOrder {
  import opened Crc
  import opened Modular
  import Arith

  // ------------------------------------------------------------------ powers

  /** The register 1 after n bit steps: the n-th power of x modulo the polynomial. */
  function Power(n: nat): Reg
  {
    Shifts(Reg(1), n)
  }

  lemma {:induction false} ShiftsAdd(c: Reg, m: nat, n: nat)
    ensures Shifts(Shifts(c, m), n) == Shifts(c, m + n)
  {
    hide Shift;
    if n > 0 {
      ShiftsAdd(c, m, n - 1);
    }
  }

  lemma {:induction false} ShiftsInjective(c: Reg, d: Reg, n: nat)
    requires Shifts(c, n) == Shifts(d, n)
    ensures c == d
  {
    hide Shift, Unshift;
    if n > 0 {
      ShiftBijective(Shifts(c, n - 1));
      ShiftBijective(Shifts(d, n - 1));
      ShiftsInjective(c, d, n - 1);
    }
  }

  lemma {:induction false} ShiftsLinear(c: Reg, d: Reg, n: nat)
    ensures Shifts(Xor(c, d), n) == Xor(Shifts(c, n), Shifts(d, n))
  {
    hide Shift, Xor;
    if n > 0 {
      ShiftsLinear(c, d, n - 1);
      ShiftLinear(Shifts(c, n - 1), Shifts(d, n - 1));
    }
  }

  // The part of a square that four bits contribute.

  function Quarter0(c: Reg): Reg
  {
    Reg((0x0001 & (0 - ((c.bits >> 0) & 1))) ^ (0x0004 & (0 - ((c.bits >> 1) & 1)))
        ^ (0x0010 & (0 - ((c.bits >> 2) & 1))) ^ (0x0040 & (0 - ((c.bits >> 3) & 1))))
  }

  function Quarter1(c: Reg): Reg
  {
    Reg((0x0100 & (0 - ((c.bits >> 4) & 1))) ^ (0x0400 & (0 - ((c.bits >> 5) & 1)))
        ^ (0x1000 & (0 - ((c.bits >> 6) & 1))) ^ (0x4000 & (0 - ((c.bits >> 7) & 1))))
  }

  function Quarter2(c: Reg): Reg
  {
    Reg((0x8005 & (0 - ((c.bits >> 8) & 1))) ^ (0x801b & (0 - ((c.bits >> 9) & 1)))
        ^ (0x8063 & (0 - ((c.bits >> 10) & 1))) ^ (0x8183 & (0 - ((c.bits >> 11) & 1))))
  }

  function Eighth6(c: Reg): Reg
  {
    Reg((0x8603 & (0 - ((c.bits >> 12) & 1))) ^ (0x9803 & (0 - ((c.bits >> 13) & 1))))
  }

  function Eighth7(c: Reg): Reg
  {
    Reg((0xe003 & (0 - ((c.bits >> 14) & 1))) ^ (0x8006 & (0 - ((c.bits >> 15) & 1))))
  }

  function Quarter3(c: Reg): Reg
  {
    Xor(Eighth6(c), Eighth7(c))
  }

  /** The square of a polynomial of degree below 16, modulo the polynomial of the checksum. */
  function Square(c: Reg): Reg
  {
    Xor(Xor(Quarter0(c), Quarter1(c)), Xor(Quarter2(c), Quarter3(c)))
  }

  lemma Quarter0Linear(c: Reg, d: Reg)
    ensures Quarter0(Xor(c, d)) == Xor(Quarter0(c), Quarter0(d))
  {}

  lemma Quarter1Linear(c: Reg, d: Reg)
    ensures Quarter1(Xor(c, d)) == Xor(Quarter1(c), Quarter1(d))
  {}

  lemma Quarter2Linear(c: Reg, d: Reg)
    ensures Quarter2(Xor(c, d)) == Xor(Quarter2(c), Quarter2(d))
  {}

  lemma Quarter3Linear(c: Reg, d: Reg)
    ensures Quarter3(Xor(c, d)) == Xor(Quarter3(c), Quarter3(d))
  {
    hide Eighth6, Eighth7, Xor;
    Eighth6Linear(c, d);
    Eighth7Linear(c, d);
    XorSwap(Eighth6(c), Eighth6(d), Eighth7(c), Eighth7(d));
  }

  lemma Eighth6Linear(c: Reg, d: Reg)
    ensures Eighth6(Xor(c, d)) == Xor(Eighth6(c), Eighth6(d))
  {}

  lemma Eighth7Linear(c: Reg, d: Reg)
    ensures Eighth7(Xor(c, d)) == Xor(Eighth7(c), Eighth7(d))
  {}

  lemma SquareLinear(c: Reg, d: Reg)
    ensures Square(Xor(c, d)) == Xor(Square(c), Square(d))
  {
    hide Quarter0, Quarter1, Quarter2, Quarter3, Xor;
    Quarter0Linear(c, d);
    Quarter1Linear(c, d);
    Quarter2Linear(c, d);
    Quarter3Linear(c, d);
    XorSwap(Quarter0(c), Quarter0(d), Quarter1(c), Quarter1(d));
    XorSwap(Quarter2(c), Quarter2(d), Quarter3(c), Quarter3(d));
    XorSwap(Xor(Quarter0(c), Quarter1(c)), Xor(Quarter0(d), Quarter1(d)),
            Xor(Quarter2(c), Quarter3(c)), Xor(Quarter2(d), Quarter3(d)));
  }

  /** The register with the bits of a mask only. */
  function Only(c: Reg, mask: bv16): Reg { Reg(c.bits & mask) }

  lemma FourParts(c: Reg)
    ensures c == Xor(Xor(Only(c, 0x000f), Only(c, 0x00f0)), Xor(Only(c, 0x0f00), Only(c, 0xf000)))
  {}

  /** One step before the square is two steps behind it: for four bits at a time, and so for all. */
  predicate Commutes(c: Reg)
  {
    Square(Shift(c)) == Shift(Shift(Square(c)))
  }

  lemma Part0Commutes(c: Reg)
    ensures Commutes(Only(c, 0x000f))
  {}

  lemma Part1Commutes(c: Reg)
    ensures Commutes(Only(c, 0x00f0))
  {}

  lemma Part2Commutes(c: Reg)
    ensures Commutes(Only(c, 0x0f00))
  {}

  lemma Part3Commutes(c: Reg)
    ensures Commutes(Only(c, 0xf000))
  {}

  lemma SumCommutes(c: Reg, d: Reg)
    requires Commutes(c) && Commutes(d)
    ensures Commutes(Xor(c, d))
  {
    hide Square, Shift, Xor;
    ShiftLinear(c, d);
    SquareLinear(Shift(c), Shift(d));
    SquareLinear(c, d);
    ShiftLinear(Square(c), Square(d));
    ShiftLinear(Shift(Square(c)), Shift(Square(d)));
  }

  lemma SquareShift(c: Reg)
    ensures Square(Shift(c)) == Shift(Shift(Square(c)))
  {
    hide Square, Shift, Xor, Only;
    FourParts(c);
    Part0Commutes(c);
    Part1Commutes(c);
    Part2Commutes(c);
    Part3Commutes(c);
    SumCommutes(Only(c, 0x000f), Only(c, 0x00f0));
    SumCommutes(Only(c, 0x0f00), Only(c, 0xf000));
    SumCommutes(Xor(Only(c, 0x000f), Only(c, 0x00f0)), Xor(Only(c, 0x0f00), Only(c, 0xf000)));
  }

  lemma {:induction false} PowerDouble(n: nat)
    ensures Power(2 * n) == Square(Power(n))
  {
    if n == 0 {
      assert Square(Reg(1)) == Reg(1);
    } else {
      PowerDouble(n - 1);
      SquareShift(Power(n - 1));
      hide Shift, Square;
      assert Power(2 * n - 1) == Shift(Power(2 * (n - 1)));
    }
  }

  lemma Doubled(n: nat, v: bv16, w: bv16)
    requires Power(n) == Reg(v) && Square(Reg(v)) == Reg(w)
    ensures Power(2 * n) == Reg(w)
  {
    hide *;
    PowerDouble(n);
  }

  lemma Next(n: nat, v: bv16, w: bv16)
    requires Power(n) == Reg(v) && Shift(Reg(v)) == Reg(w)
    ensures Power(n + 1) == Reg(w)
  {
    hide Shift;
  }

  lemma FirstPower()
    ensures Power(1) == Reg(2)
  {
    assert Shift(Reg(1)) == Reg(2);
    hide Shift;
    assert Power(1) == Shift(Shifts(Reg(1), 0));
  }

  lemma Power4681()
    ensures Power(4681) == Reg(0x9631)
  {
    hide Power;
    FirstPower();
    Doubled(1, 0x0002, 0x0004);
    Doubled(2, 0x0004, 0x0010);
    Doubled(4, 0x0010, 0x0100);
    Next(8, 0x0100, 0x0200);
    Doubled(9, 0x0200, 0x801b);
    Doubled(18, 0x801b, 0x8143);
    Doubled(36, 0x8143, 0x1006);
    Next(72, 0x1006, 0x200c);
    Doubled(73, 0x200c, 0x9853);
    Doubled(146, 0x9853, 0x9683);
    Doubled(292, 0x9683, 0x4678);
    Next(584, 0x4678, 0x8cf0);
    Doubled(585, 0x8cf0, 0xd4e6);
    Doubled(1170, 0xd4e6, 0x3271);
    Doubled(2340, 0x3271, 0x8b1a);
    Next(4680, 0x8b1a, 0x9631);
  }

  lemma Power1057()
    ensures Power(1057) == Reg(0x8273)
  {
    hide Power;
    FirstPower();
    Doubled(1, 0x0002, 0x0004);
    Doubled(2, 0x0004, 0x0010);
    Doubled(4, 0x0010, 0x0100);
    Doubled(8, 0x0100, 0x8005);
    Doubled(16, 0x8005, 0x8017);
    Next(32, 0x8017, 0x802b);
    Doubled(33, 0x802b, 0x8443);
    Doubled(66, 0x8443, 0x1060);
    Doubled(132, 0x1060, 0x9203);
    Doubled(264, 0x9203, 0x861b);
    Doubled(528, 0x861b, 0x813b);
    Next(1056, 0x813b, 0x8273);
  }

  lemma Power217()
    ensures Power(217) == Reg(0xaa7c)
  {
    hide Power;
    FirstPower();
    Doubled(1, 0x0002, 0x0004);
    Next(2, 0x0004, 0x0008);
    Doubled(3, 0x0008, 0x0040);
    Doubled(6, 0x0040, 0x1000);
    Next(12, 0x1000, 0x2000);
    Doubled(13, 0x2000, 0x9803);
    Next(26, 0x9803, 0xb003);
    Doubled(27, 0xb003, 0x9e03);
    Doubled(54, 0x9e03, 0x87fb);
    Doubled(108, 0x87fb, 0x553e);
    Next(216, 0x553e, 0xaa7c);
  }

  lemma Power32768()
    ensures Power(32768) == Reg(0x0002)
  {
    hide Power;
    FirstPower();
    Doubled(1, 0x0002, 0x0004);
    Doubled(2, 0x0004, 0x0010);
    Doubled(4, 0x0010, 0x0100);
    Doubled(8, 0x0100, 0x8005);
    Doubled(16, 0x8005, 0x8017);
    Doubled(32, 0x8017, 0x8113);
    Doubled(64, 0x8113, 0x0106);
    Doubled(128, 0x0106, 0x8011);
    Doubled(256, 0x8011, 0x8107);
    Doubled(512, 0x8107, 0x0016);
    Doubled(1024, 0x0016, 0x0114);
    Doubled(2048, 0x0114, 0x8115);
    Doubled(4096, 0x8115, 0x0112);
    Doubled(8192, 0x0112, 0x8101);
    Doubled(16384, 0x8101, 0x0002);
  }

  // ------------------------------------------------------------------- order

  /** After k steps the register 1 is back. */
  predicate Period(k: nat)
  {
    Power(k) == Reg(1)
  }

  /** 32767 steps bring every power back. */
  lemma Order()
    ensures Period(32767)
  {
    hide Power;
    Power32768();
    FirstPower();
    PowerIsShifts(32767);
    PowerIsShifts(0);
    hide Shifts, Shift;
    ShiftsAdd(Reg(1), 32767, 1);
    ShiftsAdd(Reg(1), 0, 1);
    PowerIsShifts(32768);
    PowerIsShifts(1);
    ShiftsNothing(Reg(1));
    ShiftsInjective(Shifts(Reg(1), 32767), Reg(1), 1);
  }

  lemma PowerIsShifts(n: nat)
    ensures Power(n) == Shifts(Reg(1), n)
  {
    hide Shifts;
  }

  lemma ShiftsNothing(c: Reg)
    ensures Shifts(c, 0) == c
  {}

  lemma PeriodDifference(a: nat, b: nat)
    requires Period(a) && Period(a + b)
    ensures Period(b)
  {
    hide Shifts;
    ShiftsAdd(Reg(1), a, b);
  }

  /** Two periods have a common divisor that is a period. */
  lemma {:induction false} PeriodGcd(a: nat, b: nat) returns (g: nat)
    requires a > 0 && b > 0 && Period(a) && Period(b)
    ensures g > 0 && a % g == 0 && b % g == 0 && Period(g)
    decreases a + b
  {
    hide Period;
    if a == b {
      return a;
    } else if a < b {
      PeriodDifference(a, b - a);
      g := PeriodGcd(a, b - a);
      DividesSum(g, a, b - a);
    } else {
      PeriodDifference(b, a - b);
      g := PeriodGcd(a - b, b);
      DividesSum(g, b, a - b);
    }
  }

  lemma {:induction false} PeriodMultiple(g: nat, q: nat)
    requires Period(g)
    ensures Period(g * q)
  {
    hide Shifts;
    if q == 0 {
      ShiftsNothing(Reg(1));
    } else {
      PeriodMultiple(g, q - 1);
      ShiftsAdd(Reg(1), g, g * (q - 1));
      assert g * q == g + g * (q - 1);
    }
  }

  lemma Primes()
    ensures IsPrime(7) && IsPrime(31) && IsPrime(151)
  {
    forall d | 1 < d < 151
      ensures 151 % d != 0
    {
      if 151 % d == 0 {
        FactorsOf151(d, 151 / d);
      }
    }
  }

  /** One of two factors of 151 is at most 12, and no number from 2 to 12 divides it. */
  lemma FactorsOf151(d: int, e: int)
    requires d > 0 && d * e == 151
    ensures d == 1 || d == 151
  {
    if e <= 0 {
      Arith.MulLe(e, 0, d);
    } else if d <= 12 {
      NoSmallFactor(d, e);
    } else if e <= 12 {
      NoSmallFactor(e, d);
    } else {
      Arith.MulLe(13, d, e);
    }
  }

  lemma NoSmallFactor(d: int, e: int)
    requires 1 <= d <= 12 && d * e == 151
    ensures d == 1
  {
    if d == 2 {
    } else if d == 3 {
    } else if d == 4 {
    } else if d == 5 {
    } else if d == 6 {
    } else if d == 7 {
    } else if d == 8 {
    } else if d == 9 {
    } else if d == 10 {
    } else if d == 11 {
    } else if d == 12 {
    }
  }

  /** A proper divisor of 32767 = 7 * 31 * 151 divides one of its largest three. */
  lemma ProperDivisor(g: nat, h: nat) returns (q: nat)
    requires 0 < g < 32767 && g * h == 32767
    ensures g * q == 4681 || g * q == 1057 || g * q == 217
  {
    hide IsPrime;
    Primes();
    if h % 7 == 0 {
      q := h / 7;
      Cofactor(g, h, q, 7, 4681);
    } else if h % 31 == 0 {
      q := h / 31;
      Cofactor(g, h, q, 31, 1057);
    } else if h % 151 == 0 {
      q := h / 151;
      Cofactor(g, h, q, 151, 217);
    } else {
      PrimeDivides(7, g, h);
      PrimeDivides(31, g, h);
      PrimeDivides(151, g, h);
      assert g % 7 == 0 && g % 31 == 0 && g % 151 == 0;
      AllThree(g);
    }
  }

  lemma Cofactor(g: nat, h: nat, q: nat, d: nat, rest: nat)
    requires d > 0 && g * h == d * rest && h == d * q
    ensures g * q == rest
  {
    Arith.Assoc(d, g, q);
    Arith.Assoc(g, d, q);
    assert d * (g * q) == d * rest;
    if g * q < rest {
      Arith.MulLt(g * q, rest, d);
    } else if g * q > rest {
      Arith.MulLt(rest, g * q, d);
    }
  }

  lemma AllThree(g: nat)
    requires 0 < g && g % 7 == 0 && g % 31 == 0 && g % 151 == 0
    ensures g >= 32767
  {
    hide IsPrime;
    Primes();
    var a := g / 7;
    PrimeDivides(31, 7, a);
    var b := a / 31;
    assert g == 217 * b;
    PrimeDivides(151, 217, b);
  }

  /** No smaller number of steps does. */
  lemma NoShorterPeriod(k: nat)
    requires 0 < k < 32767
    ensures !Period(k)
  {
    if Period(k) {
      Order();
      var g := PeriodGcd(k, 32767);
      var q := DivisorOf(k, g);
      PeriodMultiple(g, q);
      Power4681();
      Power1057();
      Power217();
      hide Power;
    }
  }

  lemma DivisorOf(k: nat, g: nat) returns (q: nat)
    requires 0 < k < 32767 && g > 0 && k % g == 0 && 32767 % g == 0
    ensures g * q == 4681 || g * q == 1057 || g * q == 217
  {
    if g > k {
      Arith.DivModUnique(k, g, 0, k);
    }
    q := ProperDivisor(g, 32767 / g);
  }

  // -------------------------------------------------------------- two damaged bits

  /** The r-th bit of a byte, the uppermost first. */
  function Mask(r: nat): bv8
    requires r < 8
  {
    match r
    case 0 => 0x80
    case 1 => 0x40
    case 2 => 0x20
    case 3 => 0x10
    case 4 => 0x08
    case 5 => 0x04
    case 6 => 0x02
    case _ => 0x01
  }

  /** A message with one bit changed; bits are counted from the start. */
  function Flip(s: Bytes, a: nat): (t: Bytes)
    requires a < 8 * |s|
    ensures |t| == |s|
  {
    s[a / 8 := s[a / 8] ^ Mask(a % 8)]
  }

  lemma MaskPower(r: nat)
    requires r < 8
    ensures High(Mask(r)) == Power(15 - r)
  {
    hide Power;
    FirstPower();
    Next(1, 0x0002, 0x0004);
    Next(2, 0x0004, 0x0008);
    Next(3, 0x0008, 0x0010);
    Next(4, 0x0010, 0x0020);
    Next(5, 0x0020, 0x0040);
    Next(6, 0x0040, 0x0080);
    Next(7, 0x0080, 0x0100);
    Next(8, 0x0100, 0x0200);
    Next(9, 0x0200, 0x0400);
    Next(10, 0x0400, 0x0800);
    Next(11, 0x0800, 0x1000);
    Next(12, 0x1000, 0x2000);
    Next(13, 0x2000, 0x4000);
    Next(14, 0x4000, 0x8000);
  }

  /** Equal bytes move a difference of two registers on, eight steps each. */
  lemma {:induction false} FoldSame(c: Reg, d: Reg, s: Bytes)
    ensures Xor(Fold(c, s), Fold(d, s)) == Shifts(Xor(c, d), 8 * |s|)
  {
    if |s| > 0 {
      var n := |s| - 1;
      var x := Xor(Fold(c, s[..n]), Fold(d, s[..n]));
      FoldSame(c, d, s[..n]);
      UpdateDifference(Fold(c, s[..n]), Fold(d, s[..n]), s[n], s[n]);
      DifferenceZero(s[n], s[n]);
      UpdateZero(x);
      EightShifts(x);
      hide Update, Xor, Shifts, Shift8, Difference;
      ShiftsAdd(Xor(c, d), 8 * n, 8);
    }
  }

  lemma UpdateZero(x: Reg)
    ensures Update(x, 0) == Shift8(x)
  {
    assert Xor(x, High(0)) == x;
    hide Shift8, Xor, High;
  }

  /** What one changed bit does to the register at the end. */
  lemma FlipEffect(s: Bytes, a: nat)
    requires a < 8 * |s|
    ensures Xor(Fold(START, s), Fold(START, Flip(s, a))) == Power(15 + 8 * |s| - a)
  {
    hide *;
    var i, r := FlipParts(s, a);
    ByteEffect(s, Flip(s, a), i, r);
  }

  /** The same for the bit r of the byte i. */
  lemma ByteEffect(s: Bytes, t: Bytes, i: nat, r: nat)
    requires i < |s| == |t| && r < 8 && Difference(s[i], t[i]) == Mask(r)
    requires t[..i] == s[..i] && t[i + 1..] == s[i + 1..]
    ensures Xor(Fold(START, s), Fold(START, t)) == Power(23 - r + 8 * (|s| - i - 1))
  {
    hide *;
    var c, rest := Fold(START, s[..i]), s[i + 1..];
    assert s == s[..i + 1] + rest && t == t[..i + 1] + rest;
    FoldNext(START, s, i);
    FoldNext(START, t, i);
    FoldConcat(START, s[..i + 1], rest);
    FoldConcat(START, t[..i + 1], rest);
    FoldSame(Update(c, s[i]), Update(c, t[i]), rest);
    UpdateDifference(c, c, s[i], t[i]);
    XorZero(c);
    OneBit(r);
    ShiftsAdd(Reg(1), 23 - r, 8 * |rest|);
    PowerIsShifts(23 - r);
    PowerIsShifts(23 - r + 8 * |rest|);
  }

  lemma FlipParts(s: Bytes, a: nat) returns (i: nat, r: nat)
    requires a < 8 * |s|
    ensures i < |s| == |Flip(s, a)| && r < 8
    ensures Flip(s, a)[..i] == s[..i] && Flip(s, a)[i + 1..] == s[i + 1..]
    ensures Difference(s[i], Flip(s, a)[i]) == Mask(r)
    ensures 23 - r + 8 * (|s| - i - 1) == 15 + 8 * |s| - a
  {
    hide Difference, Mask;
    i, r := a / 8, a % 8;
    FlippedDifference(s[i], Mask(r));
  }

  lemma FlippedDifference(b: bv8, m: bv8)
    ensures Difference(b, b ^ m) == m
  {}

  lemma OneBit(r: nat)
    requires r < 8
    ensures Update(Reg(0), Mask(r)) == Power(23 - r)
  {
    var h := High(Mask(r));
    assert Xor(Reg(0), h) == h;
    assert Update(Reg(0), Mask(r)) == Shift8(Xor(Reg(0), h));
    hide *;
    MaskPower(r);
    EightShifts(h);
    PowerIsShifts(15 - r);
    ShiftsAdd(Reg(1), 15 - r, 8);
    PowerIsShifts(23 - r);
  }

  /** The first of two flips is the second one so many steps earlier. */
  lemma TwoFlips(s: Bytes, a: nat, b: nat)
    requires a < b < 8 * |s|
    ensures Checksum(Flip(Flip(s, a), b)) == Checksum(s) <==> Period(b - a)
  {
    hide *;
    var one := Flip(s, a);
    var two := Flip(one, b);
    var m, k := 15 + 8 * |s| - b, b - a;
    FlipEffect(s, a);
    FlipEffect(one, b);
    ChecksumTells(s, two);
    XorCancels(Fold(START, s), Fold(START, one), Fold(START, two));
    PowerMeets(m, k);
  }

  lemma ChecksumTells(s: Bytes, t: Bytes)
    ensures Checksum(s) == Checksum(t) <==> Fold(START, s) == Fold(START, t)
  {
    hide Fold;
  }

  lemma XorCancels(c: Reg, d: Reg, e: Reg)
    ensures Xor(c, d) == Xor(d, e) <==> c == e
  {
    hide *;
    XorSame(c, d);
    if Xor(d, c) == Xor(d, e) {
      XorEqual(d, c, e);
    }
  }

  lemma XorSame(c: Reg, d: Reg)
    ensures Xor(c, d) == Xor(d, c)
  {}

  lemma XorEqual(c: Reg, d: Reg, e: Reg)
    requires Xor(c, d) == Xor(c, e)
    ensures d == e
  {}

  lemma PowerMeets(m: nat, k: nat)
    ensures Power(m + k) == Power(m) <==> Period(k)
  {
    hide Shifts;
    ShiftsAdd(Reg(1), k, m);
    if Power(m + k) == Power(m) {
      ShiftsInjective(Power(k), Reg(1), m);
    }
  }

  /** Exactly the multiples of 32767 are periods. */
  lemma PeriodIff(k: nat)
    ensures Period(k) <==> k % 32767 == 0
  {
    hide Period;
    Order();
    var q, r := k / 32767, k % 32767;
    PeriodMultiple(32767, q);
    if Period(k) {
      PeriodDifference(32767 * q, r);
      if r > 0 {
        NoShorterPeriod(r);
      }
    }
  }

  /** Two changed bits go unnoticed exactly when they lie a multiple of 32767 places apart. */
  lemma TwoBitsDetected(s: Bytes, a: nat, b: nat)
    requires a < b < 8 * |s|
    ensures Checksum(Flip(Flip(s, a), b)) != Checksum(s) <==> (b - a) % 32767 != 0
  {
    hide *;
    TwoFlips(s, a, b);
    PeriodIff(b - a);
  }
}
