/** The affine chord-and-tangent law of y^2 = x^3 - 3 x + b over the integers modulo a prime. */
module Curve {
  import opened Modular

  datatype Point = Infinity | Affine(x: int, y: int)

  ghost predicate IsField(p: int)
  {
    IsPrime(p) && p % 2 == 1
  }

  /** The inverse of x modulo p. */
  ghost function Inv(x: int, p: int): (i: int)
    requires IsPrime(p) && x % p != 0
    ensures 0 <= i < p && Cong(i * x, 1, p)
  {
    assert exists i :: 0 <= i < p && Cong(i * x, 1, p) by {
      var i := InverseExists(x, p);
    }
    var i :| 0 <= i < p && Cong(i * x, 1, p);
    i
  }

  ghost predicate OnCurve(q: Point, b: int, p: int)
    requires p > 0
  {
    q.Affine? ==> 0 <= q.x < p && 0 <= q.y < p && Cong(q.y * q.y, q.x * q.x * q.x - 3 * q.x + b, p)
  }

  ghost predicate Reduced(q: Point, p: int)
  {
    q.Affine? ==> 0 <= q.x < p && 0 <= q.y < p
  }

  /** s is the slope of the line through two points with different x. */
  ghost predicate ChordSlope(s: int, q: Point, r: Point, p: int)
    requires q.Affine? && r.Affine? && p > 0
  {
    Cong(s * (r.x - q.x), r.y - q.y, p)
  }

  /** s is the slope of the tangent at q: s * 2 y = 3 x^2 - 3. */
  ghost predicate TangentSlope(s: int, q: Point, p: int)
    requires q.Affine? && p > 0
  {
    Cong(s * (2 * q.y), 3 * q.x * q.x - 3, p)
  }

  /** The third intersection of a line of slope s through q and r, reflected. */
  ghost function LineSum(s: int, q: Point, r: Point, p: int): (t: Point)
    requires q.Affine? && r.Affine? && p > 0
    ensures t.Affine? && Reduced(t, p)
  {
    var x := (s * s - q.x - r.x) % p;
    Affine(x, (s * (q.x - x) - q.y) % p)
  }

  ghost function Sum(q: Point, r: Point, p: int): (t: Point)
    requires IsField(p) && Reduced(q, p) && Reduced(r, p)
    ensures Reduced(t, p)
  {
    if q.Infinity? then r
    else if r.Infinity? then q
    else if q.x != r.x then
      NonzeroDifference(r.x, q.x, p);
      LineSum((r.y - q.y) * Inv(r.x - q.x, p), q, r, p)
    else if (q.y + r.y) % p == 0 then Infinity
    else
      TangentDefined(q.y, p);
      if q.y == 0 then Infinity else LineSum((3 * q.x * q.x - 3) * Inv(2 * q.y, p), q, q, p)
  }

  lemma NonzeroDifference(x: int, y: int, p: int)
    requires p > 0 && 0 <= x < p && 0 <= y < p && x != y
    ensures (x - y) % p != 0
  {
    if (x - y) % p == 0 {
      CongUnique(x, y, p);
    }
  }

  lemma TangentDefined(y: int, p: int)
    requires IsField(p) && 0 <= y < p
    ensures y != 0 ==> (2 * y) % p != 0
  {
    if y != 0 && (2 * y) % p == 0 {
      CongHalf(y, 0, p);
      CongUnique(y, 0, p);
    }
  }

  lemma ScaledInverse(d: int, c: int, p: int)
    requires IsPrime(p) && d % p != 0
    ensures Cong(c * Inv(d, p) * d, c, p)
  {
    CongScale(c, Inv(d, p) * d, 1, p);
    assert c * Inv(d, p) * d == c * (Inv(d, p) * d);
  }

  /** Any slope of the chord gives the sum. */
  lemma ChordSum(s: int, q: Point, r: Point, p: int)
    requires IsField(p) && q.Affine? && r.Affine? && Reduced(q, p) && Reduced(r, p) && q.x != r.x
    requires ChordSlope(s, q, r, p)
    ensures Sum(q, r, p) == LineSum(s, q, r, p)
  {
    NonzeroDifference(r.x, q.x, p);
    var d, e := r.x - q.x, r.y - q.y;
    ScaledInverse(d, e, p);
    SameSlope(s, e * Inv(d, p), d, e, q, r, p);
  }

  lemma TangentSum(s: int, q: Point, p: int)
    requires IsField(p) && q.Affine? && Reduced(q, p) && q.y != 0
    requires TangentSlope(s, q, p)
    ensures Sum(q, q, p) == LineSum(s, q, q, p)
  {
    TangentDefined(q.y, p);
    var d, e := 2 * q.y, 3 * q.x * q.x - 3;
    ScaledInverse(d, e, p);
    SameSlope(s, e * Inv(d, p), d, e, q, q, p);
  }

  /** Two solutions of s d = e agree modulo p, and so do the sums they give. */
  lemma SameSlope(s: int, s': int, d: int, e: int, q: Point, r: Point, p: int)
    requires IsPrime(p) && d % p != 0 && q.Affine? && r.Affine?
    requires Cong(s * d, e, p) && Cong(s' * d, e, p)
    ensures LineSum(s, q, r, p) == LineSum(s', q, r, p)
  {
    CongSym(s' * d, e, p);
    CongTrans(s * d, e, s' * d, p);
    assert s * d == d * s && s' * d == d * s';
    CongCancel(d, s, s', p);
    CongMul(s, s', s, s', p);
    CongRefl(q.x + r.x, p);
    CongAdd(s * s, s' * s', q.x + r.x, q.x + r.x, p);
    CongResidue(s * s - (q.x + r.x), s' * s' - (q.x + r.x), p);
    var x := (s * s - q.x - r.x) % p;
    CongScale(q.x - x, s, s', p);
    CongRefl(q.y, p);
    CongAdd(s * (q.x - x), s' * (q.x - x), q.y, q.y, p);
    CongResidue(s * (q.x - x) - q.y, s' * (q.x - x) - q.y, p);
  }

  // ------------------------------------------------------------ commutativity

  lemma AddCommutes(q: Point, r: Point, b: int, p: int)
    requires IsField(p) && OnCurve(q, b, p) && OnCurve(r, b, p)
    ensures Sum(q, r, p) == Sum(r, q, p)
  {
    if q.Affine? && r.Affine? {
      if q.x != r.x {
        NonzeroDifference(r.x, q.x, p);
        var d, e := r.x - q.x, r.y - q.y;
        var s := e * Inv(d, p);
        ScaledInverse(d, e, p);
        ChordSum(s, q, r, p);
        CongScale(-1, s * d, e, p);
        assert -1 * (s * d) == s * (q.x - r.x);
        ChordSum(s, r, q, p);
        ReversedLine(s, q, r, p);
      } else {
        SameX(q, r, b, p);
      }
    }
  }

  /** Points of the curve over the same x are equal or opposite. */
  lemma SameX(q: Point, r: Point, b: int, p: int)
    requires IsField(p) && OnCurve(q, b, p) && OnCurve(r, b, p)
    requires q.Affine? && r.Affine? && q.x == r.x
    ensures q == r || (q.y + r.y) % p == 0
  {
    var f := q.x * q.x * q.x - 3 * q.x + b;
    CongSym(r.y * r.y, f, p);
    CongTrans(q.y * q.y, f, r.y * r.y, p);
    assert (q.y - r.y) * (q.y + r.y) == q.y * q.y - r.y * r.y;
    PrimeDivides(p, q.y - r.y, q.y + r.y);
    if (q.y - r.y) % p == 0 {
      CongUnique(q.y, r.y, p);
    }
  }

  lemma ReversedLine(s: int, q: Point, r: Point, p: int)
    requires p > 0 && q.Affine? && r.Affine? && ChordSlope(s, q, r, p)
    ensures LineSum(s, q, r, p) == LineSum(s, r, q, p)
  {
    var t, t' := LineSum(s, q, r, p), LineSum(s, r, q, p);
    SameAbscissa(s * s, q.x, r.x, p);
    LineShift(s, q.x, q.y, r.x, r.y, t.x, p);
  }

  lemma SameAbscissa(u: int, x1: int, x2: int, p: int)
    requires p > 0
    ensures (u - x1 - x2) % p == (u - x2 - x1) % p
  {
    assert u - x1 - x2 == u - x2 - x1;
  }

  lemma LineShift(s: int, x1: int, y1: int, x2: int, y2: int, x: int, p: int)
    requires p > 0 && Cong(s * (x2 - x1), y2 - y1, p)
    ensures (s * (x1 - x) - y1) % p == (s * (x2 - x) - y2) % p
  {
    var k := CongWitness(s * (x2 - x1), y2 - y1, p);
    assert s * (x2 - x) == s * (x1 - x) + s * (x2 - x1);
    CongBy(s * (x2 - x) - y2, s * (x1 - x) - y1, p, k);
    CongResidue(s * (x2 - x) - y2, s * (x1 - x) - y1, p);
  }

  // ----------------------------------------------------------------- closure

  /** What is left of the curve equation on the line of slope s through (x1, y1)
      after the factor x - x1 is taken out. */
  function LineFactor(s: int, x1: int, y1: int, x: int): int
  {
    x * x + x * x1 + x1 * x1 - 3 - s * s * (x - x1) - 2 * s * y1
  }

  /** x^3 - 3 x + b - y^2 with y on the line. */
  function LineExcess(s: int, x1: int, y1: int, b: int, x: int): int
  {
    x * x * x - 3 * x + b - (s * (x - x1) + y1) * (s * (x - x1) + y1)
  }

  lemma ExcessFactors(s: int, x1: int, y1: int, b: int, x: int)
    ensures LineExcess(s, x1, y1, b, x) == (x1 * x1 * x1 - 3 * x1 + b - y1 * y1) + (x - x1) * LineFactor(s, x1, y1, x)
  {
    LineSquare(s, x - x1, y1);
    CubeDifference(x, x1);
    ExpandFactor(x - x1, x * x + x * x1 + x1 * x1, s * s * (x - x1) + 2 * s * y1);
  }

  lemma ExpandFactor(d: int, u: int, v: int)
    ensures d * (u - 3 - v) == d * u - 3 * d - d * v
  {}

  lemma LineSquare(s: int, d: int, y: int)
    ensures (s * d + y) * (s * d + y) == y * y + d * (s * s * d + 2 * s * y)
  {}

  lemma CubeDifference(x: int, y: int)
    ensures x * x * x - y * y * y == (x - y) * (x * x + x * y + y * y)
  {}

  lemma FactorDifference(s: int, x1: int, y1: int, x: int, x2: int)
    ensures LineFactor(s, x1, y1, x) == LineFactor(s, x1, y1, x2) + (x - x2) * (x + x2 + x1 - s * s)
  {}

  /** The reflected third point of a line is on the curve when the line meets the
      curve at (x1, y1) and again at x2. */
  lemma ThirdPointOnCurve(s: int, x1: int, y1: int, x2: int, b: int, x: int, y: int, p: int)
    requires p > 0
    requires Cong(y1 * y1, x1 * x1 * x1 - 3 * x1 + b, p)
    requires LineFactor(s, x1, y1, x2) % p == 0
    requires Cong(x, s * s - x1 - x2, p) && Cong(y, s * (x1 - x) - y1, p)
    ensures Cong(y * y, x * x * x - 3 * x + b, p)
  {
    hide LineFactor, LineExcess;
    FactorDifference(s, x1, y1, x, x2);
    DividesMultiple(p, x + x2 + x1 - s * s, x - x2);
    DividesSum(p, (x - x2) * (x + x2 + x1 - s * s), LineFactor(s, x1, y1, x2));
    var h := LineFactor(s, x1, y1, x);
    DividesMultiple(p, h, x - x1);
    ExcessFactors(s, x1, y1, b, x);
    CongSym(y1 * y1, x1 * x1 * x1 - 3 * x1 + b, p);
    DividesSum(p, (x - x1) * h, x1 * x1 * x1 - 3 * x1 + b - y1 * y1);
    ReflectedExcess(s, x1, y1, b, x, y, p);
  }

  lemma ReflectedExcess(s: int, x1: int, y1: int, b: int, x: int, y: int, p: int)
    requires p > 0 && Cong(y, s * (x1 - x) - y1, p)
    requires LineExcess(s, x1, y1, b, x) % p == 0
    ensures Cong(y * y, x * x * x - 3 * x + b, p)
  {
    var w := s * (x1 - x) - y1;
    CongMul(y, w, y, w, p);
    assert w * w == (s * (x - x1) + y1) * (s * (x - x1) + y1) by {
      assert w == -(s * (x - x1) + y1);
    }
    CongSym(x * x * x - 3 * x + b, w * w, p);
    CongTrans(y * y, w * w, x * x * x - 3 * x + b, p);
  }

  /** The sum of two points of the curve is on the curve. */
  lemma AddOnCurve(q: Point, r: Point, b: int, p: int)
    requires IsField(p) && OnCurve(q, b, p) && OnCurve(r, b, p)
    ensures OnCurve(Sum(q, r, p), b, p)
  {
    if q.Affine? && r.Affine? {
      if q.x != r.x {
        NonzeroDifference(r.x, q.x, p);
        var s := (r.y - q.y) * Inv(r.x - q.x, p);
        ScaledInverse(r.x - q.x, r.y - q.y, p);
        ChordFactor(s, q, r, b, p);
        LineSumOnCurve(s, q, r, b, p);
      } else if (q.y + r.y) % p != 0 && q.y != 0 {
        SameX(q, r, b, p);
        TangentDefined(q.y, p);
        var s := (3 * q.x * q.x - 3) * Inv(2 * q.y, p);
        ScaledInverse(2 * q.y, 3 * q.x * q.x - 3, p);
        TangentFactor(s, q.x, q.y, p);
        LineSumOnCurve(s, q, q, b, p);
      }
    }
  }

  lemma LineSumOnCurve(s: int, q: Point, r: Point, b: int, p: int)
    requires p > 0 && q.Affine? && r.Affine? && OnCurve(q, b, p)
    requires LineFactor(s, q.x, q.y, r.x) % p == 0
    ensures OnCurve(LineSum(s, q, r, p), b, p)
  {
    hide LineFactor;
    var t := LineSum(s, q, r, p);
    CongMod(s * s - q.x - r.x, p);
    CongMod(s * (q.x - t.x) - q.y, p);
    ThirdPointOnCurve(s, q.x, q.y, r.x, b, t.x, t.y, p);
  }

  lemma TangentFactor(s: int, x: int, y: int, p: int)
    requires p > 0 && Cong(s * (2 * y), 3 * x * x - 3, p)
    ensures LineFactor(s, x, y, x) % p == 0
  {
    CongSym(s * (2 * y), 3 * x * x - 3, p);
    assert LineFactor(s, x, y, x) == 3 * x * x - 3 - s * (2 * y);
  }

  lemma ChordFactor(s: int, q: Point, r: Point, b: int, p: int)
    requires IsField(p) && q.Affine? && r.Affine? && q.x != r.x
    requires OnCurve(q, b, p) && OnCurve(r, b, p) && ChordSlope(s, q, r, p)
    ensures LineFactor(s, q.x, q.y, r.x) % p == 0
  {
    hide LineFactor, LineExcess;
    NonzeroDifference(r.x, q.x, p);
    OnLine(s, q.x, q.y, r.x, r.y, b, p);
    ExcessFactors(s, q.x, q.y, b, r.x);
    CongSym(q.y * q.y, q.x * q.x * q.x - 3 * q.x + b, p);
    DividesSum(p, q.x * q.x * q.x - 3 * q.x + b - q.y * q.y, (r.x - q.x) * LineFactor(s, q.x, q.y, r.x));
    PrimeDivides(p, r.x - q.x, LineFactor(s, q.x, q.y, r.x));
  }

  /** A point of the curve on the line has no excess. */
  lemma OnLine(s: int, x1: int, y1: int, x2: int, y2: int, b: int, p: int)
    requires p > 0 && Cong(s * (x2 - x1), y2 - y1, p)
    requires Cong(y2 * y2, x2 * x2 * x2 - 3 * x2 + b, p)
    ensures LineExcess(s, x1, y1, b, x2) % p == 0
  {
    var w := s * (x2 - x1) + y1;
    CongRefl(y1, p);
    CongAdd(s * (x2 - x1), y2 - y1, y1, y1, p);
    CongMul(w, y2, w, y2, p);
    CongTrans(w * w, y2 * y2, x2 * x2 * x2 - 3 * x2 + b, p);
    CongSym(w * w, x2 * x2 * x2 - 3 * x2 + b, p);
  }
}
