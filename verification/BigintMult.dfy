/** Column-wise multiplication. */
module BigintMult {
  import opened Arith
  import opened Words
  import opened Limbs

  /** Sum of l[i] * r[k - i] over the valid i. */
  function Column(l: seq<word>, r: seq<word>, k: int): int
  {
    if |l| == 0 then 0
    else Column(l[..|l| - 1], r, k) + Term(l, r, |l| - 1, k)
  }

  function Term(l: seq<word>, r: seq<word>, i: nat, k: int): int
    requires i < |l|
  {
    if 0 <= k - i < |r| then (l[i] as int) * r[k - i] else 0
  }

  /** The columns below m, each at its weight. */
  function Columns(l: seq<word>, r: seq<word>, m: nat): int
  {
    if m == 0 then 0 else Columns(l, r, m - 1) + Shl(Column(l, r, m - 1), m - 1)
  }

  lemma ColumnSnoc(l: seq<word>, r: seq<word>, i: nat, k: int)
    requires i < |l|
    ensures Column(l[..i + 1], r, k) == Column(l[..i], r, k) + Term(l, r, i, k)
  {
    assert l[..i + 1][..i] == l[..i];
  }

  /** Before the first valid row the column is empty. */
  lemma {:induction false} ColumnLow(l: seq<word>, r: seq<word>, i: nat, k: int)
    requires i <= |l|
    requires i == 0 || i <= k + 1 - |r|
    ensures Column(l[..i], r, k) == 0
  {
    if i > 0 {
      ColumnSnoc(l, r, i - 1, k);
      ColumnLow(l, r, i - 1, k);
    }
  }

  /** After row k the column is complete. */
  lemma {:induction false} ColumnHigh(l: seq<word>, r: seq<word>, i: nat, k: int)
    requires k < i <= |l|
    ensures Column(l, r, k) == Column(l[..i], r, k)
    decreases |l| - i
  {
    if i == |l| {
      assert l[..i] == l;
    } else {
      ColumnSnoc(l, r, i, k);
      ColumnHigh(l, r, i + 1, k);
    }
  }

  /** The columns of one row x * r placed at limb n. */
  function RowColumns(x: int, r: seq<word>, n: nat, m: nat): int
  {
    if m == 0 then 0
    else RowColumns(x, r, n, m - 1) + Shl(if 0 <= m - 1 - n < |r| then x * (r[m - 1 - n] as int) else 0, m - 1)
  }

  lemma {:induction false} ColumnsSnoc(l: seq<word>, r: seq<word>, m: nat)
    requires |l| > 0
    ensures Columns(l, r, m)
         == Columns(l[..|l| - 1], r, m) + RowColumns(l[|l| - 1], r, |l| - 1, m)
  {
    if m > 0 {
      ColumnsSnoc(l, r, m - 1);
      ShlAdd(Column(l[..|l| - 1], r, m - 1), Term(l, r, |l| - 1, m - 1), m - 1);
    }
  }

  /** A row is its digit times what of r has been passed, at limb n. */
  lemma {:induction false} RowColumnsVal(x: int, r: seq<word>, n: nat, m: nat)
    ensures RowColumns(x, r, n, m)
         == Shl(x * Val(r[..if m <= n then 0 else if m - n <= |r| then m - n else |r|]), n)
  {
    ShlMono(0, 0, n);
    if m > 0 {
      RowColumnsVal(x, r, n, m - 1);
      ShlMono(0, 0, m - 1);
      if 0 <= m - 1 - n < |r| {
        var j := m - 1 - n;
        ValSnoc(r, j);
        RowStep(x, r[j], Val(r[..j]), j, n);
      }
    }
  }

  lemma RowStep(x: int, d: int, v: int, j: nat, n: nat)
    ensures Shl(x * (v + Shl(d, j)), n) == Shl(x * v, n) + Shl(x * d, n + j)
  {
    Distribute(v, Shl(d, j), x);
    ShlMul(d, x, j);
    assert x * Shl(d, j) == Shl(d, j) * x;
    assert d * x == x * d;
    ShlAdd(x * v, Shl(x * d, j), n);
    ShlShl(x * d, j, n);
  }

  /** All columns together make the product. */
  lemma {:induction false} ColumnsProduct(l: seq<word>, r: seq<word>, m: nat)
    requires m >= |l| + |r| - 1
    ensures Columns(l, r, m) == Val(l) * Val(r)
  {
    if |l| == 0 {
      NoColumns(l, r, m);
    } else {
      var n := |l| - 1;
      ColumnsSnoc(l, r, m);
      ColumnsProduct(l[..n], r, m);
      RowColumnsVal(l[n], r, n, m);
      assert r[..|r|] == r;
      ShlMul(l[n], Val(r), n);
      Distribute(Val(l[..n]), Shl(l[n], n), Val(r));
    }
  }

  lemma {:induction false} NoColumns(l: seq<word>, r: seq<word>, m: nat)
    requires |l| == 0
    ensures Columns(l, r, m) == 0
  {
    if m > 0 {
      NoColumns(l, r, m - 1);
      ShlMono(0, 0, m - 1);
    }
  }

  /** Takes the low limb off the accumulator and moves the rest down. */
  method NextColumn(r01: nat, r2: word) returns (limb: word, rest: nat)
    requires r01 < 0x1_0000_0000_0000_0000
    ensures rest < 0x1_0000_0000_0000_0000
    ensures r01 + r2 * 0x1_0000_0000_0000_0000 == limb + 0x1_0000_0000 * rest
  {
    hide Or;
    PowersOfTwo();
    OrDisjoint(r01 / 0x1_0000_0000, r2, 32, 0x1_0000_0000);
    limb := r01 % 0x1_0000_0000;
    rest := Or(r01 / 0x1_0000_0000, r2 * 0x1_0000_0000);
  }

  lemma StrictProduct(x: int, y: int, b: int)
    requires 0 <= x < b && 0 <= y < b
    ensures 0 <= x * y < b * b
  {
    MulLe(x, b, y);
    MulLt(y, b, b);
  }

  lemma ProductBelow(x: int, y: int, n: nat)
    requires 0 <= x < Shl(1, n) && 0 <= y < Shl(1, n)
    ensures 0 <= x * y < Shl(1, 2 * n)
  {
    StrictProduct(x, y, Shl(1, n));
    ShlMul(1, Shl(1, n), n);
    ShlShl(1, n, n);
  }

  /** One product into the accumulator: the carry out of the low 64 bits goes to r2. */
  method Accumulate(r01: nat, r2: word, product: nat) returns (s01: nat, s2: word)
    requires r01 < 0x1_0000_0000_0000_0000 && product < 0x1_0000_0000_0000_0000
    requires r2 < 0x1_0000_0000 - 1
    ensures s01 < 0x1_0000_0000_0000_0000 && r2 <= s2 <= r2 + 1
    ensures s01 + s2 * 0x1_0000_0000_0000_0000 == r01 + r2 * 0x1_0000_0000_0000_0000 + product
  {
    s01 := (r01 + product) % 0x1_0000_0000_0000_0000;
    s2 := (r2 + if s01 < product then 1 else 0) % 0x1_0000_0000;
    assert s01 == if r01 + product >= 0x1_0000_0000_0000_0000 then r01 + product - 0x1_0000_0000_0000_0000
        else r01 + product;
  }

  /** The inner loop: adds column k of left * right into the accumulator. */
  method AddColumn(left: array<word>, right: array<word>, size: nat, k: nat, acc: nat) returns (r01: nat, r2: word)
    requires size < 0x1_0000_0000
    requires size <= left.Length && size <= right.Length
    requires k < 2 * size - 1
    requires acc < 0x1_0000_0000_0000_0000
    ensures r01 < 0x1_0000_0000_0000_0000
    ensures r01 + r2 * 0x1_0000_0000_0000_0000 == acc + Column(left[..size], right[..size], k)
  {
    r01 := acc;
    r2 := 0;
    ghost var l, r := left[..size], right[..size];
    var min := if k < size then 0 else k + 1 - size;
    var i := min;
    ColumnLow(l, r, min, k);
    while i <= k && i < size
      invariant min <= i <= k + 1 && i <= size
      invariant r01 < 0x1_0000_0000_0000_0000
      invariant r2 <= i - min < 0x1_0000_0000
      invariant r01 + r2 * 0x1_0000_0000_0000_0000 == acc + Column(l[..i], r, k)
    {
      StrictProduct(left[i], right[k - i], 0x1_0000_0000);
      ColumnSnoc(l, r, i, k);
      var product: nat := (left[i] as int) * right[k - i];
      r01, r2 := Accumulate(r01, r2, product);
      i := i + 1;
    }
    if i == size {
      assert l[..i] == l;
    } else {
      ColumnHigh(l, r, i, k);
    }
  }

  /** A column split into its stored limb and what it carries on. */
  lemma ColumnStored(acc: int, col: int, limb: int, rest: int, k: nat)
    requires acc + col == limb + 0x1_0000_0000 * rest
    ensures Shl(limb, k) + Shl(rest, k + 1) == Shl(acc, k) + Shl(col, k)
  {
    ShlCarry(limb, rest, k);
    ShlAdd(acc, col, k);
  }

  method Mult(res: array<word>, left: array<word>, right: array<word>, size: nat)
    requires 0 < size < 0x1_0000_0000
    requires 2 * size <= res.Length && size <= left.Length && size <= right.Length
    requires res != left && res != right
    modifies res
    ensures Val(res[..2 * size]) == Val(left[..size]) * Val(right[..size])
    ensures res[2 * size..] == old(res[2 * size..])
  {
    var r01: nat := 0;
    var r2: word := 0;
    ghost var l, r := left[..size], right[..size];
    for k := 0 to 2 * size - 1
      invariant r01 < 0x1_0000_0000_0000_0000
      invariant Val(res[..k]) + Shl(r01, k) == Columns(l, r, k)
      invariant res[2 * size..] == old(res[2 * size..])
    {
      ghost var acc, below := r01, res[..k];
      r01, r2 := AddColumn(left, right, size, k, r01);
      var limb;
      limb, r01 := NextColumn(r01, r2);
      ColumnStored(acc, Column(l, r, k), limb, r01, k);
      res[k] := limb;
      assert res[..k + 1] == below + [limb];
      ValAppend(res[..k + 1], below, limb);
    }
    ghost var k := 2 * size - 1;
    ghost var below := res[..k];
    LastLimb(l, r, below, r01);
    res[2 * size - 1] := r01 % 0x1_0000_0000;
    assert res[..2 * size] == below + [r01];
    ValAppend(res[..2 * size], below, r01);
  }

  /** The accumulator left after the last column is a single limb. */
  lemma LastLimb(l: seq<word>, r: seq<word>, below: seq<word>, r01: nat)
    requires |l| == |r| > 0 && |below| == 2 * |l| - 1
    requires Val(below) + Shl(r01, |below|) == Columns(l, r, |below|)
    ensures r01 < 0x1_0000_0000
    ensures Val(below) + Shl(r01, |below|) == Val(l) * Val(r)
  {
    hide *;
    ColumnsProduct(l, r, |below|);
    ValBound(l);
    ValBound(r);
    ProductBelow(Val(l), Val(r), |l|);
    ValBound(below);
    ShlUp(1, |below|);
    ShlMono(0x1_0000_0000, r01, |below|);
  }
}
