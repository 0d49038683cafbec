/** Limb-array primitives: comparison, shifts, addition, subtraction. */
module Bigint {
  import opened Words
  import opened Limbs

  method IsZero(bi: array<word>, size: nat) returns (zero: bool)
    requires size <= bi.Length
    ensures zero <==> Val(bi[..size]) == 0
  {
    ValZero(bi[..size]);
    for i := 0 to size
      invariant forall j :: 0 <= j < i ==> bi[j] == 0
    {
      if bi[i] != 0 {
        assert bi[..size][i] != 0;
        return false;
      }
    }
    return true;
  }

  /** Sign of left - right. */
  method Cmp(left: array<word>, right: array<word>, size: nat) returns (cmp: int)
    requires size <= left.Length && size <= right.Length
    ensures cmp == 1 <==> Val(left[..size]) > Val(right[..size])
    ensures cmp == -1 <==> Val(left[..size]) < Val(right[..size])
    ensures cmp == 0 <==> left[..size] == right[..size]
    ensures cmp == 0 <==> Val(left[..size]) == Val(right[..size])
  {
    var i := size - 1;
    while i >= 0
      invariant -1 <= i < size
      invariant left[..size][i + 1..] == right[..size][i + 1..]
    {
      if left[i] > right[i] {
        ValOrder(right[..size], left[..size], i);
        return 1;
      } else if right[i] > left[i] {
        ValOrder(left[..size], right[..size], i);
        return -1;
      }
      assert left[..size][i..] == [left[i]] + left[..size][i + 1..];
      assert right[..size][i..] == [right[i]] + right[..size][i + 1..];
      i := i - 1;
    }
    assert left[..size] == left[..size][0..];
    assert right[..size] == right[..size][0..];
    return 0;
  }

  method Set(dest: array<word>, off: nat, src: array<word>, size: nat)
    requires off + size <= dest.Length && size <= src.Length
    requires dest != src
    modifies dest
    ensures dest[off..off + size] == src[..size]
    ensures dest[..off] == old(dest[..off])
    ensures dest[off + size..] == old(dest[off + size..])
  {
    forall j | 0 <= j < size {
      dest[off + j] := src[j];
    }
  }

  method Clear(bi: array<word>, size: nat)
    requires size <= bi.Length
    modifies bi
    ensures forall j :: 0 <= j < size ==> bi[j] == 0
    ensures Val(bi[..size]) == 0
    ensures bi[size..] == old(bi[size..])
  {
    forall j | 0 <= j < size {
      bi[j] := 0;
    }
    ValZero(bi[..size]);
  }

  /** One column of a carry chain at its weight. */
  lemma CarryColumn(x: int, y: int, c: int, s: int, c': int, n: nat)
    requires s + c' * 0x1_0000_0000 == x + y + c
    ensures Shl(s, n) + Shl(c', n + 1) == Shl(x, n) + Shl(y, n) + Shl(c, n)
  {
    ShlCarry(s, c', n);
    ShlAdd(x + y, c, n);
    ShlAdd(x, y, n);
  }

  lemma LowBitIn(temp: word, carry: word)
    requires carry <= 1
    ensures Or((temp as int * 2) % 0x1_0000_0000, carry) == 2 * temp - temp / 0x8000_0000 * 0x1_0000_0000 + carry
  {
    hide Or;
    assert (temp as int * 2) % 0x1_0000_0000 == temp % 0x8000_0000 * 2;
    assert Pow2(1) == 2;
    OrDisjoint(carry, temp % 0x8000_0000, 1, 2);
  }

  method LShift(bi: array<word>, size: nat) returns (carry: word)
    requires size <= bi.Length
    modifies bi
    ensures carry <= 1
    ensures Val(bi[..size]) + Shl(carry, size) == 2 * old(Val(bi[..size]))
    ensures bi[size..] == old(bi[size..])
    // low limbs that are zero stay zero
    ensures forall k :: 0 <= k < size && (forall j :: 0 <= j <= k ==> old(bi[j]) == 0) ==> bi[k] == 0
  {
    hide *;
    carry := 0;
    ValEmpty([]);
    ghost var was := bi[..];
    for i := 0 to size
      invariant carry <= 1
      invariant Val(bi[..i]) + Shl(carry, i) == 2 * Val(was[..i])
      invariant i > 0 ==> carry == was[i - 1] / 0x8000_0000
      invariant i == 0 ==> carry == 0
      invariant forall k :: 0 <= k < i && (forall j :: 0 <= j <= k ==> was[j] == 0) ==> bi[k] == 0
      invariant forall j :: i <= j < bi.Length ==> bi[j] == was[j]
    {
      var temp := bi[i];
      assert temp == was[i];
      ghost var low := bi[..i];
      LowBitIn(temp, carry);
      ghost var c := carry;
      bi[i] := Or((temp as int * 2) % 0x1_0000_0000, carry);
      carry := temp / 0x8000_0000;
      assert bi[..i] == low;
      CarryColumn(temp, temp, c, bi[i], carry, i);
      ValSnoc(bi[..], i);
      ValSnoc(was, i);
      assert bi[..][..i + 1] == bi[..i + 1];
      assert bi[..][..i] == bi[..i];
    }
    assert was[..size] == old(bi[..size]);
  }

  method Add(res: array<word>, left: array<word>, right: array<word>, size: nat) returns (carry: word)
    requires size <= res.Length && size <= left.Length && size <= right.Length
    modifies res
    ensures carry <= 1
    ensures Val(res[..size]) + Shl(carry, size) == old(Val(left[..size])) + old(Val(right[..size]))
    ensures res[size..] == old(res[size..])
  {
    carry := 0;
    ghost var x, y, z := left[..], right[..], res[..];
    for i := 0 to size
      invariant carry <= 1
      invariant Val(res[..i]) + Shl(carry, i) == Val(x[..i]) + Val(y[..i])
      invariant forall j :: i <= j < left.Length ==> left[j] == x[j]
      invariant forall j :: i <= j < right.Length ==> right[j] == y[j]
      invariant forall j :: i <= j < res.Length ==> res[j] == z[j]
    {
      assert left[i] == x[i] && right[i] == y[i];
      ghost var low := res[..i];
      ghost var c := carry;
      var sum := (left[i] + right[i] + carry) % 0x1_0000_0000;
      if sum != left[i] {
        carry := if sum < left[i] then 1 else 0;
      }
      res[i] := sum;
      assert res[..i] == low;
      CarryColumn(x[i], y[i], c, sum, carry, i);
      ValSnoc(res[..], i);
      ValSnoc(x, i);
      ValSnoc(y, i);
      assert res[..][..i + 1] == res[..i + 1];
      assert res[..][..i] == res[..i];
    }
    assert x[..size] == old(left[..size]);
    assert y[..size] == old(right[..size]);
  }

  method Sub(res: array<word>, left: array<word>, right: array<word>, size: nat) returns (borrow: word)
    requires size <= res.Length && size <= left.Length && size <= right.Length
    modifies res
    ensures borrow <= 1
    ensures Val(res[..size]) - Shl(borrow, size) == old(Val(left[..size])) - old(Val(right[..size]))
    ensures res[size..] == old(res[size..])
  {
    hide *;
    borrow := 0;
    ValEmpty([]);
    ghost var x, y, z := left[..], right[..], res[..];
    for i := 0 to size
      invariant borrow <= 1
      invariant Val(res[..i]) - Shl(borrow, i) == Val(x[..i]) - Val(y[..i])
      invariant forall j :: i <= j < left.Length ==> left[j] == x[j]
      invariant forall j :: i <= j < right.Length ==> right[j] == y[j]
      invariant forall j :: i <= j < res.Length ==> res[j] == z[j]
    {
      assert left[i] == x[i] && right[i] == y[i];
      ghost var low := res[..i];
      ghost var b := borrow;
      var diff := (left[i] - right[i] - borrow) % 0x1_0000_0000;
      if diff != left[i] {
        borrow := if diff > left[i] then 1 else 0;
      }
      res[i] := diff;
      assert res[..i] == low;
      CarryColumn(diff, y[i], b, x[i], borrow, i);
      ValSnoc(res[..], i);
      ValSnoc(x, i);
      ValSnoc(y, i);
      assert res[..][..i + 1] == res[..i + 1];
      assert res[..][..i] == res[..i];
    }
    assert x[..size] == old(left[..size]);
    assert y[..size] == old(right[..size]);
  }

  function Limb(a: seq<word>, j: nat): word
  {
    if j < |a| then a[j] else 0
  }

  /** A limb shifted right by one bit, taking in the low bit of the limb above. */
  function ShiftLimb(lo: word, hi: word): (r: word)
    ensures 2 * r + lo % 2 == lo + hi % 2 * 0x1_0000_0000
  {
    lo / 2 + hi % 2 * 0x8000_0000
  }

  ghost predicate ShiftedRight(r: seq<word>, a: seq<word>)
  {
    && |r| == |a|
    && forall j :: 0 <= j < |a| ==> r[j] == ShiftLimb(a[j], Limb(a, j + 1))
  }

  lemma {:induction false} ShiftedRightVal(r: seq<word>, a: seq<word>)
    requires ShiftedRight(r, a)
    ensures 2 * Val(r) + Limb(a, 0) % 2 == Val(a)
    decreases |a|
  {
    if |a| > 0 {
      forall j | 0 <= j < |a| - 1
        ensures r[1..][j] == ShiftLimb(a[1..][j], Limb(a[1..], j + 1))
      {
        assert r[1..][j] == r[j + 1] && a[1..][j] == a[j + 1];
        assert Limb(a[1..], j + 1) == Limb(a, j + 2);
      }
      ShiftedRightVal(r[1..], a[1..]);
      assert Limb(a[1..], 0) == Limb(a, 1);
      ValLow(a);
      ValLow(r);
    }
  }

  lemma HighBitIn(temp: word, hi: word)
    ensures (hi as int * 0x8000_0000) % 0x1_0000_0000 == hi % 2 * 0x8000_0000
    ensures Or(temp / 2, hi % 2 * 0x8000_0000) == ShiftLimb(temp, hi)
  {
    hide Or;
    PowersOfTwo();
    OrDisjoint(temp / 2, hi % 2, 31, 0x8000_0000);
  }

  /** Shifts the `size` limbs starting at `off` right by one bit. */
  method RShift(bi: array<word>, off: nat, size: nat)
    requires off + size <= bi.Length
    modifies bi
    ensures ShiftedRight(bi[off..off + size], old(bi[off..off + size]))
    ensures Val(bi[off..off + size]) == old(Val(bi[off..off + size])) / 2
    ensures bi[..off] == old(bi[..off])
    ensures bi[off + size..] == old(bi[off + size..])
  {
    hide Or, ShiftLimb, Limb, Val, ShiftedRight;
    var carry: word := 0;
    ghost var was, a := bi[..], bi[off..off + size];
    ghost var above: word := 0;
    var i := off + size;
    assert above == Limb(a, size) by { NoLimb(a); }
    while i > off
      invariant off <= i <= off + size
      invariant above == Limb(a, i - off)
      invariant carry == (above as int * 0x8000_0000) % 0x1_0000_0000
      invariant bi[..i] == was[..i] && bi[off + size..] == was[off + size..]
      invariant forall j :: i <= j < off + size ==> bi[j] == ShiftLimb(a[j - off], Limb(a, j - off + 1))
    {
      i := i - 1;
      var temp := bi[i];
      assert temp == was[i] == a[i - off] by { assert bi[..i + 1][i] == was[..i + 1][i]; }
      HighBitIn(temp, above);
      LimbAt(a, i - off);
      bi[i] := Or(temp / 2, carry);
      carry := (temp as int * 0x8000_0000) % 0x1_0000_0000;
      above := temp;
    }
    ghost var s := bi[..];
    SliceShifted(s, a, off, size);
    ShiftedHalf(s[off..off + size], a);
    assert s[off..off + size] == bi[off..off + size] && was[off..off + size] == a;
  }

  lemma NoLimb(a: seq<word>)
    ensures Limb(a, |a|) == 0
  {}

  lemma LimbAt(a: seq<word>, j: nat)
    requires j < |a|
    ensures Limb(a, j) == a[j]
  {}

  lemma SliceShifted(s: seq<word>, a: seq<word>, off: nat, size: nat)
    requires off + size <= |s| && |a| == size
    requires forall j :: off <= j < off + size ==> s[j] == ShiftLimb(a[j - off], Limb(a, j - off + 1))
    ensures ShiftedRight(s[off..off + size], a)
  {
    hide ShiftLimb, Limb;
    var r := s[off..off + size];
    forall j | 0 <= j < size
      ensures r[j] == ShiftLimb(a[j], Limb(a, j + 1))
    {
      assert r[j] == s[off + j];
    }
  }

  lemma ShiftedHalf(r: seq<word>, a: seq<word>)
    requires ShiftedRight(r, a)
    ensures Val(r) == Val(a) / 2
  {
    hide Val, Limb, ShiftedRight;
    ShiftedRightVal(r, a);
  }

  /** Sets the top bit of a limb sequence whose top bit is clear. */
  lemma TopBit(s: seq<word>, t: seq<word>)
    requires |s| > 0 && |t| == |s|
    requires s[..|s| - 1] == t[..|s| - 1]
    requires s[|s| - 1] < 0x8000_0000
    requires t[|s| - 1] == Or(s[|s| - 1], 0x8000_0000)
    ensures 2 * Val(t) == 2 * Val(s) + Shl(1, |s|)
  {
    hide Or;
    var n := |s| - 1;
    OrTopBit(s[n]);
    ShlAdd(s[n], 0x8000_0000, n);
    ShlAdd(0x8000_0000, 0x8000_0000, n);
    ShlUp(1, n);
  }
}
