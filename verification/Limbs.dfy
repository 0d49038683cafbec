/** The integer that a little-endian limb sequence stands for. */
module Limbs {
  import opened Arith
  import opened Words

  /** x moved up by n limbs: x * (2^32)^n, without a product of variables. */
  function Shl(x: int, n: nat): int
  {
    if n == 0 then x else 0x1_0000_0000 * Shl(x, n - 1)
  }

  function Val(s: seq<word>): int
  {
    if |s| == 0 then 0 else Val(s[..|s| - 1]) + Shl(s[|s| - 1], |s| - 1)
  }

  // ---------------------------------------------------------------- shifts

  lemma {:induction false} ShlAdd(x: int, y: int, n: nat)
    ensures Shl(x + y, n) == Shl(x, n) + Shl(y, n)
    ensures Shl(x - y, n) == Shl(x, n) - Shl(y, n)
  {
    if n > 0 {
      ShlAdd(x, y, n - 1);
    }
  }

  lemma {:induction false} ShlUp(x: int, n: nat)
    ensures Shl(x * 0x1_0000_0000, n) == Shl(x, n + 1)
  {
    if n > 0 {
      ShlUp(x, n - 1);
    }
  }

  lemma {:induction false} ShlMono(x: int, y: int, n: nat)
    ensures x <= y <==> Shl(x, n) <= Shl(y, n)
    ensures Shl(0, n) == 0
  {
    if n > 0 {
      ShlMono(x, y, n - 1);
    }
  }

  /** The weight of a signed carry at limb n. */
  lemma CarrySign(carry: int, n: nat)
    ensures carry < 0 ==> Shl(carry, n) <= -Shl(1, n)
    ensures carry == 0 <==> Shl(carry, n) == 0
    ensures carry > 0 ==> Shl(carry, n) >= Shl(1, n)
    ensures Shl(1, n) > 0
  {
    hide Shl;
    ShlMono(1, 0, n);
    ShlMono(0, 0, n);
    ShlMono(1, carry, n);
    ShlMono(carry, -1, n);
    ShlMono(carry, 0, n);
    ShlAdd(0, 1, n);
  }

  lemma {:induction false} ShlMul(x: int, y: int, n: nat)
    ensures Shl(x, n) * y == Shl(x * y, n)
  {
    if n > 0 {
      ShlMul(x, y, n - 1);
      Assoc(0x1_0000_0000, Shl(x, n - 1), y);
    }
  }

  lemma {:induction false} ShlShl(x: int, m: nat, n: nat)
    ensures Shl(Shl(x, m), n) == Shl(x, m + n)
  {
    if n > 0 {
      ShlShl(x, m, n - 1);
      assert m + n - 1 == m + (n - 1);
    }
  }

  /** A column whose digits satisfy s + c' * 2^32 = t, at weight n. */
  lemma ShlCarry(s: int, c: int, n: nat)
    ensures Shl(s + c * 0x1_0000_0000, n) == Shl(s, n) + Shl(c, n + 1)
  {
    ShlAdd(s, c * 0x1_0000_0000, n);
    ShlUp(c, n);
  }

  // ---------------------------------------------------------------- values

  lemma ValEmpty(s: seq<word>)
    requires |s| == 0
    ensures Val(s) == 0
    ensures Shl(0, 0) == 0
  {}

  /** One more limb at the top. */
  lemma ValSnoc(s: seq<word>, i: nat)
    requires i < |s|
    ensures Val(s[..i + 1]) == Val(s[..i]) + Shl(s[i], i)
  {
    assert s[..i + 1][..i] == s[..i];
  }

  lemma ValAppend(s: seq<word>, low: seq<word>, x: word)
    requires s == low + [x]
    ensures Val(s) == Val(low) + Shl(x, |low|)
  {
    assert s[..|low|] == low;
  }

  lemma {:induction false} ValBound(s: seq<word>)
    ensures 0 <= Val(s) < Shl(1, |s|)
  {
    if |s| > 0 {
      var n := |s| - 1;
      ValBound(s[..n]);
      ShlMono(0, s[n], n);
      ShlMono(s[n], 0x1_0000_0000 - 1, n);
      ShlAdd(0x1_0000_0000 - 1, 1, n);
      ShlUp(1, n);
    }
  }

  /** The value splits at any limb boundary. */
  lemma {:induction false} ValConcat(a: seq<word>, b: seq<word>)
    ensures Val(a + b) == Val(a) + Shl(Val(b), |a|)
  {
    if |b| == 0 {
      assert a + b == a;
      ShlMono(0, 0, |a|);
    } else {
      var n := |b| - 1;
      ValConcat(a, b[..n]);
      assert (a + b)[..|a| + n] == a + b[..n];
      ShlAdd(Val(b[..n]), Shl(b[n], n), |a|);
      ShlShl(b[n], n, |a|);
    }
  }

  lemma ValSplit(s: seq<word>, i: nat)
    requires i <= |s|
    ensures Val(s) == Val(s[..i]) + Shl(Val(s[i..]), i)
  {
    assert s == s[..i] + s[i..];
    ValConcat(s[..i], s[i..]);
  }

  /** Low limb first. */
  lemma ValLow(s: seq<word>)
    requires |s| > 0
    ensures Val(s) == s[0] + 0x1_0000_0000 * Val(s[1..])
  {
    ValSplit(s, 1);
    assert s[..1] == [s[0]];
    assert Val([s[0]][..0]) == 0;
  }

  lemma SameParity(x: int, y: int, z: int)
    requires x == y + 2 * z
    ensures x % 2 == y % 2
  {}

  lemma ValParity(s: seq<word>)
    requires |s| > 0
    ensures Val(s) % 2 == s[0] % 2
  {
    ValLow(s);
    SameParity(Val(s), s[0], 0x8000_0000 * Val(s[1..]));
  }

  lemma {:induction false} ValZero(s: seq<word>)
    ensures Val(s) == 0 <==> forall i :: 0 <= i < |s| ==> s[i] == 0
  {
    if |s| > 0 {
      ValLow(s);
      ValZero(s[1..]);
      ValBound(s[1..]);
      assert forall i :: 0 <= i < |s| - 1 ==> s[1..][i] == s[i + 1];
      assert forall i :: 1 <= i < |s| ==> s[i] == s[1..][i - 1];
    }
  }

  /** Equal values of equal length are equal limb for limb. */
  lemma {:induction false} ValInjective(a: seq<word>, b: seq<word>)
    requires |a| == |b|
    requires Val(a) == Val(b)
    ensures a == b
  {
    if |a| > 0 {
      ValLow(a);
      ValLow(b);
      ValInjective(a[1..], b[1..]);
      assert a == [a[0]] + a[1..];
      assert b == [b[0]] + b[1..];
    }
  }

  /** The most significant differing limb decides the order. */
  lemma ValOrder(a: seq<word>, b: seq<word>, i: nat)
    requires |a| == |b| && i < |a|
    requires a[i] < b[i]
    requires a[i + 1..] == b[i + 1..]
    ensures Val(a) < Val(b)
  {
    ValSplit(a, i + 1);
    ValSplit(b, i + 1);
    ValSnoc(a, i);
    ValSnoc(b, i);
    ValBound(a[..i]);
    ValBound(b[..i]);
    ShlMono(a[i] + 1, b[i], i);
    ShlAdd(a[i], 1, i);
  }

  /** A low limb of one and zeros above. */
  lemma ValOne(s: seq<word>)
    requires |s| > 0 && s[0] == 1
    requires forall i :: 1 <= i < |s| ==> s[i] == 0
    ensures Val(s) == 1
  {
    ValLow(s);
    ValZero(s[1..]);
  }
}
