/** The two-scalar ladder on affine points, and what it means in the curve group. */
module Ladder {
  import opened Bits
  import opened Curve

  ghost function BitOf(u: nat, i: nat): (b: nat)
    ensures b <= 1
  {
    Shr(u, i) % 2
  }

  /** The table entry for one bit of each scalar: nothing, g, q or their sum. */
  ghost function Selected(u1: nat, u2: nat, i: nat, g: Point, q: Point, p: int): (t: Point)
    requires IsField(p) && Reduced(g, p) && Reduced(q, p)
    ensures Reduced(t, p)
  {
    if BitOf(u1, i) == 1 then (if BitOf(u2, i) == 1 then Sum(g, q, p) else g)
    else if BitOf(u2, i) == 1 then q
    else Infinity
  }

  /** Double-and-add from bit `top` down to bit i. */
  ghost function Run(u1: nat, u2: nat, i: nat, top: nat, g: Point, q: Point, p: int): (t: Point)
    requires IsField(p) && Reduced(g, p) && Reduced(q, p) && i <= top
    ensures Reduced(t, p)
    decreases top - i
  {
    if i == top then Selected(u1, u2, i, g, q, p)
    else
      var l := Run(u1, u2, i + 1, top, g, q, p);
      Sum(Selected(u1, u2, i, g, q, p), Sum(l, l, p), p)
  }

  /** Number of significant bits. */
  function BitLength(u: nat): nat
  {
    if u == 0 then 0 else 1 + BitLength(u / 2)
  }

  lemma {:induction false} BitLengthIs(u: nat)
    ensures IsBitLength(u, BitLength(u))
  {
    if u > 0 {
      BitLengthIs(u / 2);
      ShrHalf(u, BitLength(u / 2));
      if u / 2 > 0 {
        ShrHalf(u, BitLength(u / 2) - 1);
      }
    }
  }

  /** The highest bit set in either scalar. */
  function TopBitOf(u1: nat, u2: nat): nat
    requires u1 > 0 || u2 > 0
  {
    if BitLength(u1) > BitLength(u2) then BitLength(u1) - 1 else BitLength(u2) - 1
  }

  /** What the ladder computes for the two scalars. */
  ghost function LadderPoint(u1: nat, u2: nat, g: Point, q: Point, p: int): Point
    requires IsField(p) && Reduced(g, p) && Reduced(q, p) && (u1 > 0 || u2 > 0)
  {
    Run(u1, u2, 0, TopBitOf(u1, u2), g, q, p)
  }

  /** What the doubling formulas are good for: a nonzero ordinate. */
  ghost predicate CanDouble(t: Point)
  {
    t.Affine? && t.y != 0
  }

  /** What the addition formulas are good for: two abscissas. */
  ghost predicate CanAdd(s: Point, d: Point)
  {
    s.Affine? && d.Affine? && s.x != d.x
  }

  /** The doubling and the addition for bit i are no exceptional ones. */
  ghost predicate RegularStep(u1: nat, u2: nat, i: nat, top: nat, g: Point, q: Point, p: int)
    requires IsField(p) && Reduced(g, p) && Reduced(q, p) && i < top
  {
    var l := Run(u1, u2, i + 1, top, g, q, p);
    var s := Selected(u1, u2, i, g, q, p);
    CanDouble(l) && (s.Affine? ==> CanAdd(s, Sum(l, l, p)))
  }

  /** No exceptional step from below bit top down to bit i. */
  ghost predicate RegularDown(u1: nat, u2: nat, i: nat, top: nat, g: Point, q: Point, p: int)
    requires IsField(p) && Reduced(g, p) && Reduced(q, p)
  {
    forall j :: i <= j < top ==> RegularStep(u1, u2, j, top, g, q, p)
  }

  ghost predicate Regular(u1: nat, u2: nat, top: nat, g: Point, q: Point, p: int)
    requires IsField(p) && Reduced(g, p) && Reduced(q, p)
  {
    CanAdd(g, q) && RegularDown(u1, u2, 0, top, g, q, p)
  }

  // -------------------------------------------------------- the curve group

  /** k-fold sum. */
  ghost function Times(k: nat, q: Point, p: int): (t: Point)
    requires IsField(p) && Reduced(q, p)
    ensures Reduced(t, p)
  {
    if k == 0 then Infinity else Sum(Times(k - 1, q, p), q, p)
  }

  /** The one group law that is taken as a hypothesis here. */
  ghost predicate AssociativeLaw(b: int, p: int)
    requires IsField(p)
  {
    forall q, r, t :: OnCurve(q, b, p) && OnCurve(r, b, p) && OnCurve(t, b, p) ==>
      Sum(Sum(q, r, p), t, p) == Sum(q, Sum(r, t, p), p)
  }

  lemma OnCurveReduced(q: Point, b: int, p: int)
    requires IsField(p) && OnCurve(q, b, p)
    ensures Reduced(q, p)
  {}

  lemma {:induction false} TimesOnCurve(k: nat, q: Point, b: int, p: int)
    requires IsField(p) && OnCurve(q, b, p)
    ensures OnCurve(Times(k, q, p), b, p)
  {
    if k > 0 {
      TimesOnCurve(k - 1, q, b, p);
      AddOnCurve(Times(k - 1, q, p), q, b, p);
    }
  }

  lemma SelectedOnCurve(u1: nat, u2: nat, i: nat, g: Point, q: Point, b: int, p: int)
    requires IsField(p) && OnCurve(g, b, p) && OnCurve(q, b, p)
    ensures Reduced(g, p) && Reduced(q, p) && OnCurve(Selected(u1, u2, i, g, q, p), b, p)
  {
    hide Sum;
    AddOnCurve(g, q, b, p);
  }

  /** Every value of the run is a point of the curve. */
  lemma {:induction false} RunOnCurve(u1: nat, u2: nat, i: nat, top: nat, g: Point, q: Point, b: int, p: int)
    requires IsField(p) && OnCurve(g, b, p) && OnCurve(q, b, p) && i <= top
    ensures Reduced(g, p) && Reduced(q, p) && OnCurve(Run(u1, u2, i, top, g, q, p), b, p)
    decreases top - i
  {
    hide OnCurve, Sum, Selected;
    SelectedOnCurve(u1, u2, i, g, q, b, p);
    if i < top {
      RunOnCurve(u1, u2, i + 1, top, g, q, b, p);
      var l := Run(u1, u2, i + 1, top, g, q, p);
      AddOnCurve(l, l, b, p);
      AddOnCurve(Selected(u1, u2, i, g, q, p), Sum(l, l, p), b, p);
    }
  }

  /** So is what the ladder computes. */
  lemma LadderOnCurve(u1: nat, u2: nat, g: Point, q: Point, b: int, p: int)
    requires IsField(p) && OnCurve(g, b, p) && OnCurve(q, b, p) && (u1 > 0 || u2 > 0)
    ensures Reduced(g, p) && Reduced(q, p) && OnCurve(LadderPoint(u1, u2, g, q, p), b, p)
  {
    hide OnCurve, Run;
    RunOnCurve(u1, u2, 0, TopBitOf(u1, u2), g, q, b, p);
  }

  lemma {:induction false} TimesSum(m: nat, n: nat, q: Point, b: int, p: int)
    requires IsField(p) && OnCurve(q, b, p) && AssociativeLaw(b, p)
    ensures Times(m + n, q, p) == Sum(Times(m, q, p), Times(n, q, p), p)
  {
    hide Sum, AssociativeLaw, OnCurve;
    OnCurveReduced(q, b, p);
    if n == 0 {
      AddInfinity(Times(m, q, p), p);
    } else {
      TimesSum(m, n - 1, q, b, p);
      TimesOnCurve(m, q, b, p);
      TimesOnCurve(n - 1, q, b, p);
      assert m + n - 1 == m + (n - 1);
      Regroup(Times(m, q, p), Times(n - 1, q, p), q, b, p);
    }
  }

  lemma Regroup(q: Point, r: Point, t: Point, b: int, p: int)
    requires IsField(p) && AssociativeLaw(b, p)
    requires OnCurve(q, b, p) && OnCurve(r, b, p) && OnCurve(t, b, p)
    ensures Reduced(q, p) && Reduced(r, p) && Reduced(t, p)
    ensures Sum(Sum(q, r, p), t, p) == Sum(q, Sum(r, t, p), p)
  {}

  lemma AddInfinity(q: Point, p: int)
    requires IsField(p) && Reduced(q, p)
    ensures Sum(q, Infinity, p) == q && Sum(Infinity, q, p) == q
  {}

  /** (q + r) + (s + t) = (q + s) + (r + t) */
  lemma Interchange(q: Point, r: Point, s: Point, t: Point, b: int, p: int)
    requires IsField(p) && AssociativeLaw(b, p)
    requires OnCurve(q, b, p) && OnCurve(r, b, p) && OnCurve(s, b, p) && OnCurve(t, b, p)
    ensures Sum(Sum(q, r, p), Sum(s, t, p), p) == Sum(Sum(q, s, p), Sum(r, t, p), p)
  {
    hide Sum, OnCurve, AssociativeLaw;
    AddOnCurve(s, t, b, p);
    AddOnCurve(r, t, b, p);
    OnCurveReduced(q, b, p);
    OnCurveReduced(r, b, p);
    OnCurveReduced(s, b, p);
    OnCurveReduced(t, b, p);
    AddCommutes(r, s, b, p);
    Regroup(q, r, Sum(s, t, p), b, p);
    Regroup(r, s, t, b, p);
    Regroup(s, r, t, b, p);
    Regroup(q, s, Sum(r, t, p), b, p);
  }

  /** The run down to bit i is (u1 >> i) g + (u2 >> i) q. */
  lemma {:induction false} RunIsSum(u1: nat, u2: nat, i: nat, top: nat, g: Point, q: Point, b: int, p: int)
    requires IsField(p) && OnCurve(g, b, p) && OnCurve(q, b, p) && AssociativeLaw(b, p)
    requires i <= top && Shr(u1, top + 1) == 0 && Shr(u2, top + 1) == 0
    ensures Run(u1, u2, i, top, g, q, p) == Sum(Times(Shr(u1, i), g, p), Times(Shr(u2, i), q, p), p)
    decreases top - i
  {
    hide Sum, Times, Selected, OnCurve, Shr, BitOf, AssociativeLaw, IsField;
    OnCurveReduced(g, b, p);
    OnCurveReduced(q, b, p);
    SelectedIsSum(u1, u2, i, g, q, p);
    var k1, k2 := Shr(u1, i + 1), Shr(u2, i + 1);
    var b1, b2 := BitOf(u1, i), BitOf(u2, i);
    BitStep(u1, i);
    BitStep(u2, i);
    if i < top {
      RunIsSum(u1, u2, i + 1, top, g, q, b, p);
      DoubleAndAdd(k1, b1, k2, b2, g, q, b, p);
    }
  }

  lemma BitStep(u: nat, i: nat)
    ensures Shr(u, i) == BitOf(u, i) + (Shr(u, i + 1) + Shr(u, i + 1))
  {}

  lemma SelectedIsSum(u1: nat, u2: nat, i: nat, g: Point, q: Point, p: int)
    requires IsField(p) && Reduced(g, p) && Reduced(q, p)
    ensures Selected(u1, u2, i, g, q, p) == Sum(Times(BitOf(u1, i), g, p), Times(BitOf(u2, i), q, p), p)
  {
    hide Sum, Times;
    TimesOne(g, p);
    TimesOne(q, p);
    AddInfinity(g, p);
    AddInfinity(q, p);
    AddInfinity(Infinity, p);
  }

  lemma TimesOne(q: Point, p: int)
    requires IsField(p) && Reduced(q, p)
    ensures Times(1, q, p) == q && Times(0, q, p) == Infinity
  {
    assert Times(0, q, p) == Infinity;
  }

  lemma DoubleAndAdd(k1: nat, b1: nat, k2: nat, b2: nat, g: Point, q: Point, b: int, p: int)
    requires IsField(p) && OnCurve(g, b, p) && OnCurve(q, b, p) && AssociativeLaw(b, p)
    ensures var l := Sum(Times(k1, g, p), Times(k2, q, p), p);
            Sum(Sum(Times(b1, g, p), Times(b2, q, p), p), Sum(l, l, p), p)
            == Sum(Times(b1 + (k1 + k1), g, p), Times(b2 + (k2 + k2), q, p), p)
  {
    hide Sum, Times, OnCurve, AssociativeLaw, IsField;
    OnCurveReduced(g, b, p);
    OnCurveReduced(q, b, p);
    TimesOnCurve(k1, g, b, p);
    TimesOnCurve(k2, q, b, p);
    TimesOnCurve(b1, g, b, p);
    TimesOnCurve(b2, q, b, p);
    TimesOnCurve(k1 + k1, g, b, p);
    TimesOnCurve(k2 + k2, q, b, p);
    TimesSum(k1, k1, g, b, p);
    TimesSum(k2, k2, q, b, p);
    TimesSum(b1, k1 + k1, g, b, p);
    TimesSum(b2, k2 + k2, q, b, p);
    Interchange(Times(k1, g, p), Times(k2, q, p), Times(k1, g, p), Times(k2, q, p), b, p);
    Interchange(Times(b1, g, p), Times(b2, q, p), Times(k1 + k1, g, p), Times(k2 + k2, q, p), b, p);
  }

  lemma TopBits(u1: nat, u2: nat)
    requires u1 > 0 || u2 > 0
    ensures var top := TopBitOf(u1, u2);
            Shr(u1, top + 1) == 0 && Shr(u2, top + 1) == 0 && (BitOf(u1, top) == 1 || BitOf(u2, top) == 1)
  {
    BitLengthIs(u1);
    BitLengthIs(u2);
    var top := TopBitOf(u1, u2);
    ShrZeroUp(u1, BitLength(u1), top + 1);
    ShrZeroUp(u2, BitLength(u2), top + 1);
  }

  /** In the curve group, the ladder computes u1 g + u2 q. */
  lemma LadderIsScalarSum(u1: nat, u2: nat, g: Point, q: Point, b: int, p: int)
    requires IsField(p) && OnCurve(g, b, p) && OnCurve(q, b, p) && AssociativeLaw(b, p)
    requires u1 > 0 || u2 > 0
    ensures LadderPoint(u1, u2, g, q, p) == Sum(Times(u1, g, p), Times(u2, q, p), p)
  {
    hide Sum, Times, AssociativeLaw, TopBitOf;
    TopBits(u1, u2);
    RunIsSum(u1, u2, 0, TopBitOf(u1, u2), g, q, b, p);
  }
}
