/** The checksum of the HM protocol: CRC-16 with polynomial 0x8005 and start value 0xd77f. */
module Crc {

  type Bytes = seq<bv8>

  /** The sixteen-bit register of the checksum. */
  datatype Reg = Reg(bits: bv16)

  /** One bit step: shift left and, when the top bit falls out, add the polynomial. */
  function Shift(c: Reg): Reg
  {
    Reg((c.bits << 1) ^ (0x8005 & (0 - (c.bits >> 15))))
  }

  /** The step as the code branches on it. */
  lemma ShiftBranches(c: bv16)
    ensures c & 0x8000 != 0 ==> Shift(Reg(c)) == Reg((c << 1) ^ 0x8005)
    ensures c & 0x8000 == 0 ==> Shift(Reg(c)) == Reg(c << 1)
  {
    if c & 0x8000 != 0 {
      assert c >> 15 == 1;
    } else {
      assert c >> 15 == 0;
    }
  }

  function Shift2(c: Reg): Reg { Shift(Shift(c)) }

  function Shift4(c: Reg): Reg { Shift2(Shift2(c)) }

  function Shift8(c: Reg): Reg { Shift4(Shift4(c)) }

  function Xor(c: Reg, d: Reg): Reg { Reg(c.bits ^ d.bits) }

  /** A byte in the upper half of the register. */
  function High(b: bv8): Reg { Reg((b as bv16) << 8) }

  /** n bit steps. */
  function Shifts(c: Reg, n: nat): Reg
  {
    if n == 0 then c else Shift(Shifts(c, n - 1))
  }

  lemma EightShifts(c: Reg)
    ensures Shifts(c, 8) == Shift8(c)
  {
    hide Shift;
    assert Shifts(c, 2) == Shifts(Shifts(c, 0), 2);
    assert Shifts(c, 4) == Shift4(c);
    assert Shifts(c, 6) == Shift2(Shift4(c));
  }

  lemma XorHigh(c: Reg, b: bv8)
    ensures Xor(c, High(b)) == Reg(c.bits ^ ((b as bv16) << 8))
  {
    var x := (b as bv16) << 8;
    assert High(b) == Reg(x);
    hide High;
  }

  function Update(c: Reg, b: bv8): Reg
  {
    Shift8(Xor(c, High(b)))
  }

  function Fold(c: Reg, s: Bytes): Reg
  {
    if |s| == 0 then c else Update(Fold(c, s[..|s| - 1]), s[|s| - 1])
  }

  /** One byte of the loop that all three copies of the checksum share: eight branches. */
  method AddByte(start: bv16, b: bv8) returns (crc: bv16)
    ensures Reg(crc) == Update(Reg(start), b)
  {
    crc := start ^ ((b as bv16) << 8);
    ghost var loaded := Reg(crc);
    assert loaded == Xor(Reg(start), High(b)) by { XorHigh(Reg(start), b); }
    EightShifts(loaded);
    for i := 0 to 8
      invariant Reg(crc) == Shifts(loaded, i)
    {
      hide Shift, Shift8, Xor, High;
      crc := BitStep(crc);
    }
    hide Shift, Shift8, Shifts, Xor, High;
  }

  /** The branch on the top bit. */
  method BitStep(start: bv16) returns (crc: bv16)
    ensures Reg(crc) == Shift(Reg(start))
  {
    hide Shift;
    ShiftBranches(start);
    crc := start;
    if crc & 0x8000 != 0 {
      crc := crc << 1;
      crc := crc ^ 0x8005;
    } else {
      crc := crc << 1;
    }
  }

  /** The checksum of one more byte. */
  lemma FoldNext(c: Reg, s: Bytes, k: nat)
    requires k < |s|
    ensures Fold(c, s[..k + 1]) == Update(Fold(c, s[..k]), s[k])
  {
    hide Update;
    assert s[..k + 1][..k] == s[..k];
  }

  const START: Reg := Reg(0xd77f)

  function Checksum(s: Bytes): bv16
  {
    Fold(START, s).bits
  }

  // ------------------------------------------- the step: linear and a bijection

  /** The inverse of the bit step: the polynomial has its lowest bit set. */
  function Unshift(c: Reg): Reg
  {
    Reg(((c.bits ^ (0x8005 & (0 - (c.bits & 1)))) >> 1) | ((c.bits & 1) << 15))
  }

  lemma ShiftBijective(c: Reg)
    ensures Unshift(Shift(c)) == c && Shift(Unshift(c)) == c
  {}

  lemma ShiftLinear(c: Reg, d: Reg)
    ensures Shift(Xor(c, d)) == Xor(Shift(c), Shift(d))
  {}

  lemma Shift2Linear(c: Reg, d: Reg)
    ensures Shift2(Xor(c, d)) == Xor(Shift2(c), Shift2(d))
  {
    hide Shift, Xor;
    ShiftLinear(c, d);
    ShiftLinear(Shift(c), Shift(d));
  }

  lemma Shift4Linear(c: Reg, d: Reg)
    ensures Shift4(Xor(c, d)) == Xor(Shift4(c), Shift4(d))
  {
    hide Shift2, Xor;
    Shift2Linear(c, d);
    Shift2Linear(Shift2(c), Shift2(d));
  }

  lemma Shift8Linear(c: Reg, d: Reg)
    ensures Shift8(Xor(c, d)) == Xor(Shift8(c), Shift8(d))
  {
    hide Shift4, Xor;
    Shift4Linear(c, d);
    Shift4Linear(Shift4(c), Shift4(d));
  }

  lemma Shift4Injective(c: Reg, d: Reg)
    requires Shift4(c) == Shift4(d)
    ensures c == d
  {
    hide Shift, Unshift;
    ShiftBijective(c);
    ShiftBijective(d);
    ShiftBijective(Shift(c));
    ShiftBijective(Shift(d));
    ShiftBijective(Shift(Shift(c)));
    ShiftBijective(Shift(Shift(d)));
    ShiftBijective(Shift(Shift(Shift(c))));
    ShiftBijective(Shift(Shift(Shift(d))));
  }

  lemma XorCancel(c: Reg, d: Reg, x: Reg)
    requires Xor(c, x) == Xor(d, x)
    ensures c == d
  {}

  lemma UpdateInjective(c: Reg, d: Reg, b: bv8)
    requires Update(c, b) == Update(d, b)
    ensures c == d
  {
    hide Shift4, Xor, High;
    Shift4Injective(Shift4(Xor(c, High(b))), Shift4(Xor(d, High(b))));
    Shift4Injective(Xor(c, High(b)), Xor(d, High(b)));
    XorCancel(c, d, High(b));
  }

  // ----------------------------------------------------------------- messages

  lemma {:induction false} FoldConcat(c: Reg, s: Bytes, t: Bytes)
    ensures Fold(c, s + t) == Fold(Fold(c, s), t)
  {
    hide Update;
    if |t| == 0 {
      assert s + t == s;
    } else {
      var n := |t| - 1;
      FoldConcat(c, s, t[..n]);
      assert (s + t)[..|s| + n] == s + t[..n];
    }
  }

  /** Different registers stay different under the same bytes. */
  lemma {:induction false} FoldInjective(c: Reg, d: Reg, s: Bytes)
    requires Fold(c, s) == Fold(d, s)
    ensures c == d
  {
    hide Update;
    if |s| > 0 {
      var n := |s| - 1;
      UpdateInjective(Fold(c, s[..n]), Fold(d, s[..n]), s[n]);
      FoldInjective(c, d, s[..n]);
    }
  }

  lemma FoldThree(c: Reg, x: bv8, y: bv8, z: bv8)
    ensures Fold(c, [x, y, z]) == Update(Update(Update(c, x), y), z)
  {
    hide Update;
    assert [x, y, z][..2] == [x, y] && [x, y][..1] == [x] && [x][..0] == [];
    assert Fold(c, []) == c;
    assert Fold(c, [x]) == Update(c, x);
    assert Fold(c, [x, y]) == Update(Update(c, x), y);
  }

  // ---------------------------------------------------------------- detection

  /** The difference that three byte differences leave in the register. */
  function Trace(x: bv8, y: bv8, z: bv8): Reg
  {
    Update(Update(Update(Reg(0), x), y), z)
  }

  lemma XorZero(c: Reg)
    ensures Xor(c, c) == Reg(0)
  {}

  /** The bits in which two bytes differ. */
  function Difference(a: bv8, b: bv8): bv8 { a ^ b }

  lemma DifferenceZero(a: bv8, b: bv8)
    ensures Difference(a, b) == 0 <==> a == b
  {}

  lemma HighXor(a: bv8, b: bv8)
    ensures Xor(High(a), High(b)) == High(Difference(a, b))
  {}

  lemma XorSwap(c: Reg, d: Reg, x: Reg, y: Reg)
    ensures Xor(Xor(c, x), Xor(d, y)) == Xor(Xor(c, d), Xor(x, y))
  {}

  /** The difference of two registers goes through a byte as a register does. */
  lemma UpdateDifference(c: Reg, d: Reg, a: bv8, b: bv8)
    ensures Xor(Update(c, a), Update(d, b)) == Update(Xor(c, d), Difference(a, b))
  {
    hide Shift8, Xor, High, Difference;
    Shift8Linear(Xor(c, High(a)), Xor(d, High(b)));
    XorSwap(c, d, High(a), High(b));
    HighXor(a, b);
  }

  lemma ThreeDifferences(c: Reg, s: Bytes, t: Bytes)
    requires |s| == |t| == 3
    ensures Xor(Fold(c, s), Fold(c, t)) == Trace(Difference(s[0], t[0]), Difference(s[1], t[1]), Difference(s[2], t[2]))
  {
    hide Update, Xor, Fold, Difference;
    assert s == [s[0], s[1], s[2]] && t == [t[0], t[1], t[2]];
    FoldThree(c, s[0], s[1], s[2]);
    FoldThree(c, t[0], t[1], t[2]);
    XorZero(c);
    UpdateDifference(c, c, s[0], t[0]);
    var c1, d1 := Update(c, s[0]), Update(c, t[0]);
    UpdateDifference(c1, d1, s[1], t[1]);
    UpdateDifference(Update(c1, s[1]), Update(d1, t[1]), s[2], t[2]);
  }

  /** The bits of three bytes that lie in the sixteen places from bit k of the first on. */
  predicate InWindow(x: bv8, y: bv8, z: bv8, k: nat)
    requires k <= 8
  {
    match k
    case 0 => z == 0
    case 1 => x & 0x80 == 0 && z & 0x7f == 0
    case 2 => x & 0xc0 == 0 && z & 0x3f == 0
    case 3 => x & 0xe0 == 0 && z & 0x1f == 0
    case 4 => x & 0xf0 == 0 && z & 0x0f == 0
    case 5 => x & 0xf8 == 0 && z & 0x07 == 0
    case 6 => x & 0xfc == 0 && z & 0x03 == 0
    case 7 => x & 0xfe == 0 && z & 0x01 == 0
    case _ => x == 0
  }

  /** No nonzero difference within sixteen adjacent bits cancels itself. */
  lemma TraceNonzero(x: bv8, y: bv8, z: bv8, k: nat)
    requires k <= 8 && InWindow(x, y, z, k)
    requires Trace(x, y, z) == Reg(0)
    ensures x == 0 && y == 0 && z == 0
  {}

  /** Two messages that agree except within the sixteen places from bit 8 * at + k on. */
  predicate Burst(s: Bytes, t: Bytes, at: nat, k: nat)
  {
    |s| == |t| && at + 3 <= |s| && k <= 8
    && s[..at] == t[..at] && s[at + 3..] == t[at + 3..]
    && InWindow(Difference(s[at], t[at]), Difference(s[at + 1], t[at + 1]), Difference(s[at + 2], t[at + 2]), k)
  }

  /** Every such difference changes the checksum, in messages of any length. */
  lemma BurstDetected(s: Bytes, t: Bytes, at: nat, k: nat)
    requires Burst(s, t, at, k)
    requires Checksum(s) == Checksum(t)
    ensures s == t
  {
    var p, q := s[at..at + 3], t[at..at + 3];
    assert s == s[..at] + (p + s[at + 3..]);
    assert t == s[..at] + (q + s[at + 3..]);
    var c := Fold(START, s[..at]);
    BurstDifference(c, p, q, s[at + 3..], k) by {
      hide Update, InWindow, Fold, Difference;
      FoldConcat(START, s[..at], p + s[at + 3..]);
      FoldConcat(START, s[..at], q + s[at + 3..]);
    }
  }

  lemma BurstDifference(c: Reg, p: Bytes, q: Bytes, rest: Bytes, k: nat)
    requires |p| == |q| == 3 && k <= 8 && InWindow(Difference(p[0], q[0]), Difference(p[1], q[1]),
        Difference(p[2], q[2]), k)
    requires Fold(c, p + rest) == Fold(c, q + rest)
    ensures p == q
  {
    hide Fold, InWindow, Trace, Xor, Difference;
    FoldConcat(c, p, rest);
    FoldConcat(c, q, rest);
    FoldInjective(Fold(c, p), Fold(c, q), rest);
    ThreeDifferences(c, p, q);
    XorZero(Fold(c, p));
    TraceNonzero(Difference(p[0], q[0]), Difference(p[1], q[1]), Difference(p[2], q[2]), k);
    DifferenceZero(p[0], q[0]);
    DifferenceZero(p[1], q[1]);
    DifferenceZero(p[2], q[2]);
  }

  /** Equal but for two adjacent bytes, anywhere in a message. */
  lemma AdjacentBytesDetected(s: Bytes, t: Bytes, at: nat)
    requires |s| == |t| && at + 2 <= |s| && s[..at] == t[..at] && s[at + 2..] == t[at + 2..]
    requires Checksum(s) == Checksum(t)
    ensures s == t
  {
    assert forall i | 0 <= i < |s| && i != at && i != at + 1 :: s[i] == t[i] by {
      assert forall i | 0 <= i < at :: s[..at][i] == t[..at][i];
      assert s == s[..at] + s[at..at + 2] + s[at + 2..];
      assert t == t[..at] + t[at..at + 2] + t[at + 2..];
    }
    if at > 0 {
      DifferenceZero(s[at - 1], t[at - 1]);
      BurstDetected(s, t, at - 1, 8) by { hide Checksum, Difference; }
    } else if |s| > 2 {
      DifferenceZero(s[2], t[2]);
      BurstDetected(s, t, 0, 0) by { hide Checksum, Difference; }
    } else {
      TwoBytesDetected(s, t);
    }
  }

  lemma TwoBytesDetected(s: Bytes, t: Bytes)
    requires |s| == |t| == 2 && Checksum(s) == Checksum(t)
    ensures s == t
  {
    hide Shift8, Xor, Difference, High, Fold;
    assert s == [s[0], s[1]] && t == [t[0], t[1]];
    FoldTwo(START, s[0], s[1]);
    FoldTwo(START, t[0], t[1]);
    var c1, d1 := Update(START, s[0]), Update(START, t[0]);
    XorZero(START);
    XorZero(Update(c1, s[1]));
    UpdateDifference(START, START, s[0], t[0]);
    UpdateDifference(c1, d1, s[1], t[1]);
    ZeroUpdate();
    TraceNonzero(0, Difference(s[0], t[0]), Difference(s[1], t[1]), 8);
    DifferenceZero(s[0], t[0]);
    DifferenceZero(s[1], t[1]);
  }

  lemma ZeroUpdate()
    ensures Update(Reg(0), 0) == Reg(0)
  {}

  lemma FoldTwo(c: Reg, x: bv8, y: bv8)
    ensures Fold(c, [x, y]) == Update(Update(c, x), y)
  {
    hide Update;
    assert [x, y][..1] == [x] && [x][..0] == [];
    assert Fold(c, []) == c;
    assert Fold(c, [x]) == Update(c, x);
  }

  // ------------------------------------------------------------- an odd number of bits

  function TopBit(c: Reg): Reg { Reg(c.bits >> 15) }

  predicate Top(c: Reg) { TopBit(c) == Reg(1) }

  function Left(c: Reg): Reg { Reg(c.bits << 1) }

  /** How many of the upper n bits of the register are set. */
  function Ones(c: Reg, n: nat): nat
    decreases n
  {
    if n == 0 then 0 else (if Top(c) then 1 else 0) + Ones(Left(c), n - 1)
  }

  predicate IsOdd(n: nat) { n % 2 == 1 }

  /** The number of bits set in a byte. */
  function BitCount(b: bv8): nat
  {
    Ones(High(b), 8)
  }

  /** The number of bits in which two messages of one length differ. */
  function DifferingBits(s: Bytes, t: Bytes): nat
    requires |s| == |t|
  {
    if |s| == 0 then 0 else
      var n := |s| - 1;
      DifferingBits(s[..n], t[..n]) + BitCount(Difference(s[n], t[n]))
  }

  lemma TopLinear(c: Reg, d: Reg)
    ensures TopBit(Xor(c, d)) == Xor(TopBit(c), TopBit(d))
  {}

  lemma LeftLinear(c: Reg, d: Reg)
    ensures Left(Xor(c, d)) == Xor(Left(c), Left(d))
  {}

  lemma TopBinary(c: Reg)
    ensures TopBit(c) == Reg(0) || TopBit(c) == Reg(1)
  {}

  lemma XorOfBits()
    ensures Xor(Reg(0), Reg(0)) == Reg(0) && Xor(Reg(0), Reg(1)) == Reg(1)
    ensures Xor(Reg(1), Reg(0)) == Reg(1) && Xor(Reg(1), Reg(1)) == Reg(0)
  {}

  lemma XorStep(c: Reg, d: Reg)
    ensures Top(Xor(c, d)) == (Top(c) != Top(d)) && Left(Xor(c, d)) == Xor(Left(c), Left(d))
  {
    hide TopBit, Left, Xor;
    TopLinear(c, d);
    LeftLinear(c, d);
    TopBinary(c);
    TopBinary(d);
    XorOfBits();
  }

  lemma OddSum(m: nat, n: nat)
    ensures IsOdd(m + n) == (IsOdd(m) != IsOdd(n))
  {}

  lemma OnesStep(c: Reg, n: nat)
    ensures Ones(c, n + 1) == (if Top(c) then 1 else 0) + Ones(Left(c), n)
    ensures IsOdd(Ones(c, n + 1)) == (Top(c) != IsOdd(Ones(Left(c), n)))
  {
    hide Top, Left;
  }

  lemma {:induction false} XorParity(c: Reg, d: Reg, n: nat)
    ensures IsOdd(Ones(Xor(c, d), n)) == (IsOdd(Ones(c, n)) != IsOdd(Ones(d, n)))
    decreases n
  {
    hide *;
    if n == 0 {
      NoOnes(c);
      NoOnes(d);
      NoOnes(Xor(c, d));
      NotOdd();
    } else {
      XorStep(c, d);
      XorParity(Left(c), Left(d), n - 1);
      OnesStep(c, n - 1);
      OnesStep(d, n - 1);
      OnesStep(Xor(c, d), n - 1);
    }
  }

  function Lefts(c: Reg, n: nat): Reg
    decreases n
  {
    if n == 0 then c else Lefts(Left(c), n - 1)
  }

  lemma {:induction false} LeftsSplit(c: Reg, m: nat, n: nat)
    ensures Lefts(c, m + n) == Lefts(Lefts(c, m), n)
    ensures Ones(c, m + n) == Ones(c, m) + Ones(Lefts(c, m), n)
    decreases m
  {
    hide Top, Left;
    if m > 0 {
      LeftsSplit(Left(c), m - 1, n);
    }
  }

  lemma {:induction false} ZeroOnes(n: nat)
    ensures Ones(Reg(0), n) == 0
  {
    assert Left(Reg(0)) == Reg(0) && !Top(Reg(0));
    hide Left, Top;
    if n > 0 {
      ZeroOnes(n - 1);
    }
  }

  function Left4(c: Reg): Reg { Reg(c.bits << 4) }

  lemma FourLefts(c: Reg)
    ensures Lefts(c, 4) == Left4(c)
  {
    hide Left, Left4;
    LeftFour(c);
    var d := Left(Left(c));
    assert Lefts(d, 2) == Left(Left(d)) by { assert Lefts(d, 2) == Lefts(Left(d), 1); }
    assert Lefts(c, 4) == Lefts(Left(c), 3) == Lefts(d, 2);
  }

  lemma LeftFour(c: Reg)
    ensures Left(Left(Left(Left(c)))) == Left4(c)
  {}

  lemma EightLefts(c: Reg)
    ensures Lefts(c, 8) == Left4(Left4(c))
  {
    hide Left, Left4;
    FourLefts(c);
    FourLefts(Left4(c));
    LeftsSplit(c, 4, 4);
  }

  /** Eight steps move a byte in the upper half out, sixteen everything. */
  lemma NothingLeft(c: Reg, b: bv8)
    ensures Lefts(c, 16) == Reg(0) && Lefts(High(b), 8) == Reg(0)
  {
    hide Left, Left4, High;
    AllOut(c);
    HighOut(b);
    EightLefts(c);
    EightLefts(Left4(Left4(c)));
    EightLefts(High(b));
    LeftsSplit(c, 8, 8);
  }

  lemma AllOut(c: Reg)
    ensures Left4(Left4(Left4(Left4(c)))) == Reg(0)
  {}

  lemma HighOut(b: bv8)
    ensures Left4(Left4(High(b))) == Reg(0)
  {}

  lemma OnesNext(x: bv16, n: nat)
    ensures Ones(Reg(x), n + 1) == (if x >> 15 == 1 then 1 else 0) + Ones(Reg(x << 1), n)
  {}

  /** The polynomial without its highest term has three terms. */
  lemma PolynomialOnes()
    ensures Ones(Reg(0x8005), 16) == 3
  {
    hide Ones, Top, Left;
    // two terms below, one at the top
    LowTerms();
    OnesNext(0x8005, 15);
  }

  lemma LowTerms()
    ensures Ones(Reg(0x000a), 15) == 2
  {
    LeftsSplit(Reg(0x000a), 8, 7);
    EightLefts(Reg(0x000a));
    SplitLow();
    assert Left4(Left4(Reg(0x000a))) == Reg(0x0a00);
    hide Ones, Top, Left, Lefts, Left4;
    OnesNext(0x0a00, 6);
    OnesNext(0x1400, 5);
    OnesNext(0x2800, 4);
    OnesNext(0x5000, 3);
    OnesNext(0xa000, 2);
    OnesNext(0x4000, 1);
    OnesNext(0x8000, 0);
    ZeroOnes(0);
  }

  /** The eight upper bits of a small number are clear. */
  lemma SplitLow()
    ensures Ones(Reg(0x000a), 8) == 0
  {
    hide Ones, Top, Left;
    OnesNext(0x000a, 7);
    OnesNext(0x0014, 6);
    OnesNext(0x0028, 5);
    OnesNext(0x0050, 4);
    OnesNext(0x00a0, 3);
    OnesNext(0x0140, 2);
    OnesNext(0x0280, 1);
    OnesNext(0x0500, 0);
    NoOnes(Reg(0x0a00));
  }

  lemma NoOnes(c: Reg)
    ensures Ones(c, 0) == 0
  {}

  /** The polynomial has an even number of terms, so the bit step keeps the parity. */
  lemma ShiftParity(c: Reg)
    ensures IsOdd(Ones(Shift(c), 16)) == IsOdd(Ones(c, 16))
  {
    hide *;
    var carried := if Top(c) then Reg(0x8005) else Reg(0);
    ShiftCarries(c);
    LeftOnes(c);
    CarriedOnes(c);
    XorParity(Left(c), carried, 16);
  }

  lemma CarriedOnes(c: Reg)
    ensures IsOdd(Ones(if Top(c) then Reg(0x8005) else Reg(0), 16)) == Top(c)
  {
    assert IsOdd(3) && !IsOdd(0);
    hide *;
    PolynomialOnes();
    ZeroOnes(16);
  }

  lemma LeftsStep(c: Reg, n: nat)
    ensures Lefts(c, n + 1) == Lefts(Left(c), n)
  {
    hide Left;
  }

  /** A step to the left loses the top bit. */
  lemma LeftOnes(c: Reg)
    ensures IsOdd(Ones(Left(c), 16)) == (IsOdd(Ones(c, 16)) != Top(c))
  {
    hide *;
    LeftsStep(c, 15);
    OnesStep(c, 15);
    NothingLeft(c, 0);
    LeftsSplit(Left(c), 15, 1);
    ZeroOnes(1);
  }

  lemma ShiftCarries(c: Reg)
    ensures Shift(c) == Xor(Left(c), if Top(c) then Reg(0x8005) else Reg(0))
  {
    if Top(c) {
      CarryShift(c);
    } else {
      TopBinary(c);
      NoCarryShift(c);
    }
    hide Shift, Left, Xor, TopBit;
  }

  lemma CarryShift(c: Reg)
    requires TopBit(c) == Reg(1)
    ensures Shift(c) == Xor(Left(c), Reg(0x8005))
  {}

  lemma NoCarryShift(c: Reg)
    requires TopBit(c) == Reg(0)
    ensures Shift(c) == Xor(Left(c), Reg(0))
  {}

  lemma {:induction false} ShiftsParity(c: Reg, n: nat)
    ensures IsOdd(Ones(Shifts(c, n), 16)) == IsOdd(Ones(c, 16))
  {
    hide Ones, Shift, IsOdd;
    if n > 0 {
      ShiftsParity(c, n - 1);
      ShiftParity(Shifts(c, n - 1));
    }
  }

  lemma UpdateParity(c: Reg, b: bv8)
    ensures IsOdd(Ones(Update(c, b), 16)) == (IsOdd(Ones(c, 16)) != IsOdd(BitCount(b)))
  {
    hide Shift8, Xor, High, Ones, Shifts, BitCount, IsOdd;
    var x := Xor(c, High(b));
    EightShifts(x);
    ShiftsParity(x, 8);
    XorParity(c, High(b), 16);
    HighOnes(b);
  }

  lemma HighOnes(b: bv8)
    ensures Ones(High(b), 16) == BitCount(b)
  {
    hide Ones, High, Lefts, Left;
    NothingLeft(Reg(0), b);
    LeftsSplit(High(b), 8, 8);
    ZeroOnes(8);
  }

  lemma {:induction false} FoldParity(c: Reg, d: Reg, s: Bytes, t: Bytes)
    requires |s| == |t|
    ensures IsOdd(Ones(Xor(Fold(c, s), Fold(d, t)), 16)) == (IsOdd(Ones(Xor(c, d), 16)) != IsOdd(DifferingBits(s, t)))
  {
    hide Ones, Xor, Update, BitCount, Difference, IsOdd;
    if |s| > 0 {
      var n := |s| - 1;
      FoldParity(c, d, s[..n], t[..n]);
      UpdateDifference(Fold(c, s[..n]), Fold(d, t[..n]), s[n], t[n]);
      UpdateParity(Xor(Fold(c, s[..n]), Fold(d, t[..n])), Difference(s[n], t[n]));
      OddSum(DifferingBits(s[..n], t[..n]), BitCount(Difference(s[n], t[n])));
    } else {
      NotOdd();
    }
  }

  lemma NotOdd()
    ensures !IsOdd(0)
  {}

  /** An odd number of differing bits, wherever they lie, changes the checksum. */
  lemma OddDamageDetected(s: Bytes, t: Bytes)
    requires |s| == |t| && IsOdd(DifferingBits(s, t))
    ensures Checksum(s) != Checksum(t)
  {
    hide Fold, DifferingBits, Xor, Ones;
    FoldParity(START, START, s, t);
    ZeroOnes(16);
    NotOdd();
    XorZero(START);
    XorZero(Fold(START, s));
  }

  // ------------------------------------------------------------ the checksum sent

  /** Two bytes as a sixteen-bit word, the first one upper. */
  function Pair(hi: bv8, lo: bv8): bv16
  {
    ((hi as bv16) << 8) | (lo as bv16)
  }

  function UpperByte(w: bv16): bv8 { ((w >> 8) & 0xff) as bv8 }

  function LowerByte(w: bv16): bv8 { (w & 0xff) as bv8 }

  lemma PairOfHalves(w: bv16)
    ensures Pair(UpperByte(w), LowerByte(w)) == w
  {}

  lemma HalvesOfPair(hi: bv8, lo: bv8)
    ensures UpperByte(Pair(hi, lo)) == hi && LowerByte(Pair(hi, lo)) == lo
  {}

  lemma PairWithoutUpper(hi: bv8, lo: bv8)
    ensures Xor(Reg(Pair(hi, lo)), High(hi)) == Reg(lo as bv16)
  {}

  lemma LowByteMovesUp(lo: bv8)
    ensures Shift8(Reg(lo as bv16)) == High(lo)
  {}

  lemma ZeroStays()
    ensures Shift8(Reg(0)) == Reg(0)
  {}

  lemma TwoUpdates(c: Reg, hi: bv8, lo: bv8)
    ensures Update(Update(c, hi), lo) == Reg(0) <==> c == Reg(Pair(hi, lo))
  {
    var p := Reg(Pair(hi, lo));
    assert Update(Update(p, hi), lo) == Reg(0) by {
      PairWithoutUpper(hi, lo);
      LowByteMovesUp(lo);
      XorZero(High(lo));
      ZeroStays();
      hide Xor, High, Shift8, Pair;
      assert Update(p, hi) == High(lo);
    }
    hide Update, Pair;
    if Update(Update(c, hi), lo) == Reg(0) {
      UpdateInjective(Update(c, hi), Update(p, hi), lo);
      UpdateInjective(c, p, hi);
    }
  }

  /** A message and two bytes have checksum 0 exactly when the bytes are its checksum. */
  lemma ResidueIsZero(s: Bytes, hi: bv8, lo: bv8)
    ensures Checksum(s + [hi, lo]) == 0 <==> Pair(hi, lo) == Checksum(s)
  {
    hide Update, Pair;
    var t := s + [hi, lo];
    assert t[..|t| - 1] == s + [hi] && (s + [hi])[..|s|] == s;
    assert Fold(START, s + [hi]) == Update(Fold(START, s), hi);
    assert Fold(START, t) == Update(Update(Fold(START, s), hi), lo);
    TwoUpdates(Fold(START, s), hi, lo);
  }
}
