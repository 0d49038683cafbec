/** Modular addition, subtraction, halving and the binary inverse. */
module BigintMod {
  import opened Arith
  import opened Words
  import opened Limbs
  import opened Bigint
  import opened Modular

  const ECC_MAX_SIZE: nat := 8

  method ModAdd(res: array<word>, left: array<word>, right: array<word>, mod: array<word>, size: nat)
    requires size <= res.Length && size <= left.Length && size <= right.Length && size <= mod.Length
    requires mod != res
    requires Val(left[..size]) < Val(mod[..size]) && Val(right[..size]) < Val(mod[..size])
    modifies res
    ensures Val(mod[..size]) > 0
    ensures Val(res[..size]) == old(Val(left[..size]) + Val(right[..size])) % Val(mod[..size])
    ensures res[size..] == old(res[size..])
  {
    hide *;
    ghost var x, y, m := Val(left[..size]), Val(right[..size]), Val(mod[..size]);
    ValBound(left[..size]);
    ValBound(right[..size]);
    ValBound(mod[..size]);
    var carry := Add(res, left, right, size);
    ValBound(res[..size]);
    CarryValue(carry, size);
    var cmp := Cmp(res, mod, size);
    if carry != 0 || cmp >= 0 {
      var borrow := Sub(res, res, mod, size);
      ValBound(res[..size]);
      CarryValue(borrow, size);
      DivModUnique(x + y, m, 1, x + y - m);
    } else {
      DivModUnique(x + y, m, 0, x + y);
    }
  }

  /** What a carry of zero or one stands for. */
  lemma CarryValue(c: word, n: nat)
    requires c <= 1
    ensures Shl(c, n) == if c == 0 then 0 else Shl(1, n)
  {
    ShlMono(0, 0, n);
  }

  method ModSub(res: array<word>, left: array<word>, right: array<word>, mod: array<word>, size: nat)
    requires size <= res.Length && size <= left.Length && size <= right.Length && size <= mod.Length
    requires mod != res
    requires Val(left[..size]) < Val(mod[..size]) && Val(right[..size]) < Val(mod[..size])
    modifies res
    ensures Val(mod[..size]) > 0
    ensures Val(res[..size]) == old(Val(left[..size]) - Val(right[..size])) % Val(mod[..size])
    ensures res[size..] == old(res[size..])
  {
    hide *;
    ghost var x, y, m := Val(left[..size]), Val(right[..size]), Val(mod[..size]);
    ValBound(left[..size]);
    ValBound(right[..size]);
    ValBound(mod[..size]);
    var borrow := Sub(res, left, right, size);
    ValBound(res[..size]);
    CarryValue(borrow, size);
    if borrow != 0 {
      var carry := Add(res, res, mod, size);
      ValBound(res[..size]);
      CarryValue(carry, size);
      DivModUnique(x - y, m, -1, x - y + m);
    } else {
      DivModUnique(x - y, m, 0, x - y);
    }
  }

  /** Half of u modulo an odd modulus: the repeated tail of the inverse loop,
      with the carry of the addition moved into the top bit. */
  method HalveMod(u: array<word>, mod: array<word>, size: nat)
    requires 0 < size <= u.Length && size <= mod.Length && u != mod
    requires Val(mod[..size]) % 2 == 1
    requires Val(u[..size]) < Val(mod[..size])
    modifies u
    ensures 2 * Val(u[..size]) == old(Val(u[..size])) + (if old(Val(u[..size])) % 2 == 1 then Val(mod[..size]) else 0)
    ensures Val(u[..size]) < Val(mod[..size])
    ensures u[size..] == old(u[size..])
  {
    hide *;
    ghost var x, m := Val(u[..size]), Val(mod[..size]);
    var carry: word := 0;
    ValParity(u[..size]);
    ValBound(u[..size]);
    CarryValue(0, size);
    if u[0] % 2 != 0 {
      carry := Add(u, u, mod, size);
    }
    ghost var sum := u[..size];
    SumParity(sum, carry, x, m);
    CarryValue(carry, size);
    RShift(u, 0, size);
    assert u[0..0 + size] == u[..size];
    HalvedTop(u[..size], sum);
    ghost var shifted := u[..size];
    if carry != 0 {
      OrTopBit(u[size - 1]);
      u[size - 1] := Or(u[size - 1], 0x8000_0000);
      TopBit(shifted, u[..size]);
    }
  }

  /** An even total x (or x + m) leaves an even stored sum. */
  lemma SumParity(sum: seq<word>, carry: word, x: int, m: int)
    requires |sum| > 0 && carry <= 1 && m % 2 == 1
    requires Val(sum) + Shl(carry, |sum|) == x + if x % 2 == 1 then m else 0
    ensures Val(sum) % 2 == 0
  {
    assert Shl(carry, |sum|) == 2 * (0x8000_0000 * Shl(carry, |sum| - 1));
  }

  lemma HalvedTop(r: seq<word>, a: seq<word>)
    requires |a| > 0 && ShiftedRight(r, a)
    requires Val(a) % 2 == 0
    ensures 2 * Val(r) == Val(a)
    ensures r[|a| - 1] < 0x8000_0000
  {
    hide Val;
    ShiftedRightVal(r, a);
    ValParity(a);
  }

  /** `if (u < v) u += mod; u -= v`: the carry out of the addition is cancelled by
      the borrow of the subtraction. */
  method SubWrapped(u: array<word>, v: array<word>, mod: array<word>, size: nat)
    requires size <= u.Length && size <= v.Length && size <= mod.Length
    requires u != v && u != mod
    requires Val(u[..size]) < Val(mod[..size]) && Val(v[..size]) < Val(mod[..size])
    modifies u
    ensures Val(u[..size]) == old(Val(u[..size])) - Val(v[..size])
                              + (if old(Val(u[..size])) < Val(v[..size]) then Val(mod[..size]) else 0)
    ensures u[size..] == old(u[size..])
  {
    hide *;
    ghost var x, y, m := Val(u[..size]), Val(v[..size]), Val(mod[..size]);
    ValBound(u[..size]);
    ValBound(v[..size]);
    ValBound(mod[..size]);
    CarryValue(0, size);
    ghost var carry: word := 0;
    var cmp := Cmp(u, v, size);
    if cmp < 0 {
      var c := Add(u, u, mod, size);
      carry := c;
    }
    CarryValue(carry, size);
    var borrow := Sub(u, u, v, size);
    CarryValue(borrow, size);
    ValBound(u[..size]);
  }

  // ---------------------------------------------------------- binary inverse

  /** What the inverse loop keeps: a and b stay multiples of the input modulo m,
      with u and v as the factors, and keep its common divisors with m. */
  ghost predicate InverseInvariant(a: int, b: int, u: int, v: int, x: int, m: int)
  {
    && m > 1 && m % 2 == 1
    && a > 0 && b > 0 && (a % 2 == 1 || b % 2 == 1)
    && 0 <= u < m && 0 <= v < m
    && Cong(u * x, a, m) && Cong(v * x, b, m)
    && forall d :: CommonDivisor(d, x, m) <==> CommonDivisor(d, a, b)
  }

  lemma InverseInit(x: int, m: int)
    requires m > 1 && m % 2 == 1 && x > 0
    ensures InverseInvariant(x, m, 1, 0, x, m)
  {
    CongRefl(x, m);
    CongBy(0 * x, m, m, -1);
  }

  /** The factor of an even multiple, halved modulo m. */
  lemma HalfFactor(u: int, u': int, a: int, x: int, m: int)
    requires m > 0 && m % 2 == 1
    requires Cong(u * x, a, m) && a % 2 == 0
    requires 2 * u' == u || 2 * u' == u + m
    ensures Cong(u' * x, a / 2, m)
  {
    CongBy(2 * u' * x, u * x, m, if 2 * u' == u then 0 else x);
    CongTrans(2 * u' * x, u * x, a, m);
    assert 2 * u' * x == 2 * (u' * x);
    CongHalf(u' * x, a / 2, m);
  }

  lemma HalveStep(a: int, b: int, u: int, v: int, u': int, x: int, m: int)
    requires InverseInvariant(a, b, u, v, x, m)
    requires a % 2 == 0
    requires 0 <= u' < m && (2 * u' == u || 2 * u' == u + m)
    ensures InverseInvariant(a / 2, b, u', v, x, m)
  {
    HalfFactor(u, u', a, x, m);
    forall d ensures CommonDivisor(d, a / 2, b) <==> CommonDivisor(d, a, b)
    {
      if d > 0 && b % d == 0 {
        OddDivisor(d, b, a / 2);
      }
    }
  }

  lemma DifferenceFactor(a: int, b: int, u: int, v: int, w: int, x: int, m: int)
    requires m > 0
    requires Cong(u * x, a, m) && Cong(v * x, b, m)
    requires w == u - v || w == u - v + m
    ensures Cong(w * x, a - b, m)
  {
    CongAdd(u * x, a, v * x, b, m);
    Distribute(u, v, x);
    Distribute(u - v, m, x);
    CongBy(w * x, u * x - v * x, m, if w == u - v then 0 else x);
    CongTrans(w * x, u * x - v * x, a - b, m);
  }

  lemma DifferenceDivisors(a: int, b: int, h: int, d: int)
    requires b % 2 == 1 && a == b + 2 * h
    ensures CommonDivisor(d, h, b) <==> CommonDivisor(d, a, b)
  {
    if d > 0 && b % d == 0 {
      OddDivisor(d, b, h);
      DividesSum(d, b, 2 * h);
    }
  }

  lemma SubtractStep(a: int, b: int, u: int, v: int, w: int, w': int, x: int, m: int)
    requires InverseInvariant(a, b, u, v, x, m)
    requires a % 2 == 1 && b % 2 == 1 && a > b
    requires w == u - v || w == u - v + m
    requires 0 <= w' < m && (2 * w' == w || 2 * w' == w + m)
    ensures InverseInvariant((a - b) / 2, b, w', v, x, m)
  {
    hide Cong, CommonDivisor;
    DifferenceFactor(a, b, u, v, w, x, m);
    HalfFactor(w, w', a - b, x, m);
    forall d ensures CommonDivisor(d, (a - b) / 2, b) <==> CommonDivisor(d, a, b)
    {
      DifferenceDivisors(a, b, (a - b) / 2, d);
    }
  }

  lemma InverseSym(a: int, b: int, u: int, v: int, x: int, m: int)
    requires InverseInvariant(a, b, u, v, x, m)
    ensures InverseInvariant(b, a, v, u, x, m)
  {}

  lemma InverseDone(a: int, u: int, v: int, x: int, m: int)
    requires InverseInvariant(a, a, u, v, x, m)
    ensures forall g :: IsGcd(g, x, m) ==> Cong(u * x, g, m)
  {
    DivModUnique(a, a, 1, 0);
    assert CommonDivisor(a, a, a);
    forall g | IsGcd(g, x, m) ensures g == a
    {
      assert CommonDivisor(g, a, a);
      LargeFactor(g, a);
      LargeFactor(a, g);
    }
  }

  /** What one round of the loop does to a and b. */
  function Round(a: int, b: int): (int, int)
  {
    if a % 2 == 0 then (a / 2, b)
    else if b % 2 == 0 then (a, b / 2)
    else if a > b then ((a - b) / 2, b)
    else (a, (b - a) / 2)
  }

  function Rounds(a: int, b: int, n: nat): (int, int)
    decreases n
  {
    if n == 0 then (a, b) else Rounds(Round(a, b).0, Round(a, b).1, n - 1)
  }

  /** After some number of rounds a and b meet, which is what ends the loop. */
  ghost predicate Meets(a: int, b: int)
  {
    exists n: nat :: Rounds(a, b, n).0 == Rounds(a, b, n).1
  }

  lemma {:induction false} PositiveMeet(a: int, b: int) returns (n: nat)
    requires a > 0 && b > 0 && (a % 2 == 1 || b % 2 == 1)
    ensures Rounds(a, b, n).0 == Rounds(a, b, n).1
    decreases a + b
  {
    if a == b {
      n := 0;
    } else {
      n := PositiveMeet(Round(a, b).0, Round(a, b).1);
      n := n + 1;
    }
  }

  lemma {:induction false} ZeroStays(m: int, n: nat)
    requires m % 2 == 1
    ensures Rounds(0, m, n) == (0, m)
  {
    if n > 0 {
      ZeroStays(m, n - 1);
    }
  }

  /** The loop ends exactly for a nonzero input. */
  lemma InverseEnds(x: int, m: int)
    requires x >= 0 && m > 1 && m % 2 == 1
    ensures Meets(x, m) <==> x != 0
  {
    if x > 0 {
      var n := PositiveMeet(x, m);
    } else {
      forall n: nat
        ensures Rounds(0, m, n) == (0, m)
      {
        ZeroStays(m, n);
      }
    }
  }

  /** The inverse; ends is false for the input 0, for which the loop would never end. */
  method ModInv(res: array<word>, input: array<word>, mod: array<word>, size: nat) returns (ends: bool)
    requires 0 < size <= ECC_MAX_SIZE
    requires size <= res.Length && size <= input.Length && size <= mod.Length
    requires Val(mod[..size]) > 1 && Val(mod[..size]) % 2 == 1
    modifies res
    ensures ends <==> old(Meets(Val(input[..size]), Val(mod[..size])))
    ensures ends <==> old(Val(input[..size])) != 0
    ensures old(Val(mod[..size])) > 1
    ensures ends ==> 0 <= Val(res[..size]) < old(Val(mod[..size]))
    ensures ends ==> forall g :: IsGcd(g, old(Val(input[..size])), old(Val(mod[..size]))) ==>
              Cong(Val(res[..size]) * old(Val(input[..size])), g, old(Val(mod[..size])))
    ensures if ends then res[size..] == old(res[size..]) else res[..] == old(res[..])
  {
    hide *;
    ValBound(input[..size]);
    InverseEnds(Val(input[..size]), Val(mod[..size]));
    var zero := IsZero(input, size);
    if zero {
      return false;
    }
    var a, b := new word[ECC_MAX_SIZE], new word[ECC_MAX_SIZE];
    var u, v := new word[ECC_MAX_SIZE], new word[ECC_MAX_SIZE];
    ghost var x, m := Val(input[..size]), Val(mod[..size]);
    Set(a, 0, input, size);
    Set(b, 0, mod, size);
    Clear(u, size);
    u[0] := 1;
    Clear(v, size);
    ValOne(u[..size]);
    assert a[..size] == a[0..0 + size] && b[..size] == b[0..0 + size];
    InverseInit(x, m);
    InverseLoop(a, b, u, v, mod, size, x, m);
    Set(res, 0, u, size);
    assert res[..size] == res[0..0 + size];
    ends := true;
  }

  /** The loop, until a and b meet. */
  method InverseLoop(a: array<word>, b: array<word>, u: array<word>, v: array<word>, mod: array<word>, size: nat,
                     ghost x: int, ghost m: int)
    requires 0 < size <= mod.Length && Val(mod[..size]) == m
    requires size <= a.Length && size <= b.Length && size <= u.Length && size <= v.Length
    requires a != b && a != u && a != v && b != u && b != v && u != v
    requires mod != a && mod != b && mod != u && mod != v
    requires InverseInvariant(Val(a[..size]), Val(b[..size]), Val(u[..size]), Val(v[..size]), x, m)
    modifies a, b, u, v
    ensures m > 0 && 0 <= Val(u[..size]) < m
    ensures forall g :: IsGcd(g, x, m) ==> Cong(Val(u[..size]) * x, g, m)
  {
    hide *;
    var cmp := Cmp(a, b, size);
    while cmp != 0
      invariant Val(mod[..size]) == m
      invariant InverseInvariant(Val(a[..size]), Val(b[..size]), Val(u[..size]), Val(v[..size]), x, m)
      invariant cmp == 0 <==> Val(a[..size]) == Val(b[..size])
      invariant cmp == 1 <==> Val(a[..size]) > Val(b[..size])
      invariant cmp == -1 <==> Val(a[..size]) < Val(b[..size])
      decreases Val(a[..size]) + Val(b[..size])
    {
      InverseFacts(Val(a[..size]), Val(b[..size]), Val(u[..size]), Val(v[..size]), x, m);
      InverseRound(a, b, u, v, mod, size, cmp, x);
      cmp := Cmp(a, b, size);
    }
    InverseFacts(Val(a[..size]), Val(b[..size]), Val(u[..size]), Val(v[..size]), x, m);
    InverseDone(Val(a[..size]), Val(u[..size]), Val(v[..size]), x, m);
  }

  lemma InverseFacts(a: int, b: int, u: int, v: int, x: int, m: int)
    requires InverseInvariant(a, b, u, v, x, m)
    ensures m > 1 && m % 2 == 1 && a > 0 && b > 0
    ensures a % 2 == 1 || b % 2 == 1
    ensures 0 <= u < m && 0 <= v < m
    ensures Cong(u * x, a, m)
  {}

  /** One round of the loop. */
  method InverseRound(a: array<word>, b: array<word>, u: array<word>, v: array<word>, mod: array<word>,
                      size: nat, cmp: int, ghost x: int)
    requires 0 < size <= mod.Length
    requires size <= a.Length && size <= b.Length && size <= u.Length && size <= v.Length
    requires a != b && a != u && a != v && b != u && b != v && u != v
    requires mod != a && mod != b && mod != u && mod != v
    requires InverseInvariant(Val(a[..size]), Val(b[..size]), Val(u[..size]), Val(v[..size]), x, Val(mod[..size]))
    requires cmp == 1 <==> Val(a[..size]) > Val(b[..size])
    requires cmp == -1 <==> Val(a[..size]) < Val(b[..size])
    requires cmp != 0
    requires -1 <= cmp <= 1
    modifies a, b, u, v
    ensures InverseInvariant(Val(a[..size]), Val(b[..size]), Val(u[..size]), Val(v[..size]), x, Val(mod[..size]))
    ensures 0 < Val(a[..size]) + Val(b[..size]) < old(Val(a[..size]) + Val(b[..size]))
    ensures (Val(a[..size]), Val(b[..size])) == old(Round(Val(a[..size]), Val(b[..size])))
  {
    hide Val, InverseInvariant;
    ghost var A, B, U, V, m := Val(a[..size]), Val(b[..size]), Val(u[..size]), Val(v[..size]), Val(mod[..size]);
    InverseFacts(A, B, U, V, x, m);
    ValParity(a[..size]);
    ValParity(b[..size]);
    if a[0] % 2 == 0 {
      RShift(a, 0, size);
      HalveMod(u, mod, size);
      HalveStep(A, B, U, V, Val(u[..size]), x, m);
      assert a[0..0 + size] == a[..size];
    } else if b[0] % 2 == 0 {
      RShift(b, 0, size);
      HalveMod(v, mod, size);
      InverseSym(A, B, U, V, x, m);
      HalveStep(B, A, V, U, Val(v[..size]), x, m);
      assert b[0..0 + size] == b[..size];
      InverseSym(B / 2, A, Val(v[..size]), U, x, m);
    } else if cmp > 0 {
      DiffHalf(a, b, size);
      SubWrapped(u, v, mod, size);
      ghost var w := Val(u[..size]);
      HalveMod(u, mod, size);
      SubtractStep(A, B, U, V, w, Val(u[..size]), x, m);
    } else {
      DiffHalf(b, a, size);
      SubWrapped(v, u, mod, size);
      ghost var w := Val(v[..size]);
      HalveMod(v, mod, size);
      InverseSym(A, B, U, V, x, m);
      SubtractStep(B, A, V, U, w, Val(v[..size]), x, m);
      InverseSym((B - A) / 2, A, Val(v[..size]), U, x, m);
    }
  }

  /** `a -= b; a >>= 1` for a > b. */
  method DiffHalf(a: array<word>, b: array<word>, size: nat)
    requires size <= a.Length && size <= b.Length && a != b
    requires Val(a[..size]) > Val(b[..size])
    modifies a
    ensures Val(a[..size]) == old(Val(a[..size]) - Val(b[..size])) / 2
  {
    hide *;
    ValBound(a[..size]);
    ValBound(b[..size]);
    var borrow := Sub(a, a, b, size);
    CarryValue(borrow, size);
    ValBound(a[..size]);
    RShift(a, 0, size);
    assert a[0..0 + size] == a[..size];
  }
}
