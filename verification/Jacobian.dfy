/** Projective coordinates: what the formulas of co-Z addition and doubling mean for
    the affine points they stand for. */
module Jacobian {
  import opened Arith
  import opened Modular
  import opened Curve

  /** (x, y) with factor z stands for the affine point q = (x / z^2, y / z^3). */
  ghost predicate Jac(x: int, y: int, z: int, q: Point, p: int)
    requires p > 0
  {
    && q.Affine? && Reduced(q, p)
    && z % p != 0
    && Cong(x, q.x * (z * z), p) && Cong(y, q.y * (z * z * z), p)
  }

  /** The co-Z formulas: (u1, v1) is the first point and (u2, v2) the sum, both over
      the old factor times x2 - x1. */
  ghost predicate CoZ(x1: int, y1: int, x2: int, y2: int, u1: int, v1: int, u2: int, v2: int, p: int)
    requires p > 0
  {
    var d, r := x2 - x1, y2 - y1;
    && Cong(u1, x1 * (d * d), p) && Cong(v1, y1 * (d * d * d), p)
    && Cong(u2, r * r - x1 * (d * d) - x2 * (d * d), p)
    && Cong(v2, r * (x1 * (d * d) - u2) - y1 * (d * d * d), p)
  }

  /** The doubling formulas for a = -3, with h = 3 (x^2 - z^4) / 2. */
  ghost predicate Doubled(x: int, y: int, z: int, h: int, u: int, v: int, w: int, p: int)
    requires p > 0
  {
    var a := x * (y * y);
    && Cong(2 * h, 3 * (x * x - z * z * (z * z)), p)
    && Cong(u, h * h - a - a, p) && Cong(v, h * (a - u) - y * y * (y * y), p) && Cong(w, y * z, p)
  }

  /** The line through two points in coordinates scaled by w. */
  lemma ScaledLine(s: int, w: int, q: Point, r: Point, h: int, a: int, b: int, c: int, u: int, v: int, p: int)
    requires p > 0 && q.Affine? && r.Affine? && w % p != 0
    requires Cong(h, s * w, p) && Cong(a, q.x * (w * w), p) && Cong(b, r.x * (w * w), p)
    requires Cong(c, q.y * (w * w * w), p)
    requires Cong(u, h * h - a - b, p) && Cong(v, h * (a - u) - c, p)
    ensures Jac(u, v, w, LineSum(s, q, r, p), p)
  {
    var t := LineSum(s, q, r, p);
    var x := s * s - q.x - r.x;
    CongMul(h, s * w, h, s * w, p);
    CongAdd(h * h, s * w * (s * w), a, q.x * (w * w), p);
    CongAdd(h * h - a, s * w * (s * w) - q.x * (w * w), b, r.x * (w * w), p);
    CollectAbscissa(s, w, q.x, r.x);
    CongTrans(u, h * h - a - b, x * (w * w), p);
    CongMod(x, p);
    CongScale(w * w, x, t.x, p);
    CongTrans(u, x * (w * w), t.x * (w * w), p);
    ScaledOrdinate(s, w, q, h, a, c, u, v, t.x, p);
  }

  lemma CollectAbscissa(s: int, w: int, x1: int, x2: int)
    ensures s * w * (s * w) - x1 * (w * w) - x2 * (w * w) == (s * s - x1 - x2) * (w * w)
  {
    assert s * w * (s * w) == s * s * (w * w);
  }

  lemma ScaledOrdinate(s: int, w: int, q: Point, h: int, a: int, c: int, u: int, v: int, x: int, p: int)
    requires p > 0 && q.Affine?
    requires Cong(h, s * w, p) && Cong(a, q.x * (w * w), p) && Cong(u, x * (w * w), p)
    requires Cong(c, q.y * (w * w * w), p) && Cong(v, h * (a - u) - c, p)
    ensures Cong(v, (s * (q.x - x) - q.y) % p * (w * w * w), p)
  {
    var y := s * (q.x - x) - q.y;
    CongAdd(a, q.x * (w * w), u, x * (w * w), p);
    CongMul(h, s * w, a - u, q.x * (w * w) - x * (w * w), p);
    CongAdd(h * (a - u), s * w * (q.x * (w * w) - x * (w * w)), c, q.y * (w * w * w), p);
    CollectOrdinate(s, w, q.x, q.y, x);
    CongTrans(v, h * (a - u) - c, y * (w * w * w), p);
    CongMod(y, p);
    CongScale(w * w * w, y, y % p, p);
    CongTrans(v, y * (w * w * w), y % p * (w * w * w), p);
  }

  lemma CollectOrdinate(s: int, w: int, x1: int, y1: int, x: int)
    ensures s * w * (x1 * (w * w) - x * (w * w)) - y1 * (w * w * w) == (s * (x1 - x) - y1) * (w * w * w)
  {
    Distribute(x1, x, w * w);
    assert s * w * ((x1 - x) * (w * w)) == s * (x1 - x) * (w * w * w);
  }

  /** Scaling a point by d: x d^2 = q.x (z d)^2 and y d^3 = q.y (z d)^3. */
  lemma Rescale(x: int, y: int, z: int, d: int, q: Point, p: int)
    requires p > 0 && Jac(x, y, z, q, p)
    ensures Cong(x * (d * d), q.x * (z * d * (z * d)), p)
    ensures Cong(y * (d * d * d), q.y * (z * d * (z * d) * (z * d)), p)
  {
    CongScale(d * d, x, q.x * (z * z), p);
    CongScale(d * d * d, y, q.y * (z * z * z), p);
    RescaleTerms(q.x, q.y, z, d);
  }

  lemma RescaleTerms(x: int, y: int, z: int, d: int)
    ensures x * (z * z) * (d * d) == x * (z * d * (z * d))
    ensures y * (z * z * z) * (d * d * d) == y * (z * d * (z * d) * (z * d))
  {
    assert z * d * (z * d) == z * z * (d * d);
    assert z * d * (z * d) * (z * d) == z * z * z * (d * d * d);
  }

  lemma NonzeroProduct(x: int, y: int, p: int)
    requires IsPrime(p) && x % p != 0 && y % p != 0
    ensures (x * y) % p != 0
  {
    if (x * y) % p == 0 {
      PrimeDivides(p, x, y);
    }
  }

  /** Co-Z addition leaves the first point and the chord sum over z (x2 - x1). */
  lemma CoZIsChord(x1: int, y1: int, x2: int, y2: int, u1: int, v1: int, u2: int, v2: int,
                   z: int, q: Point, r: Point, p: int)
    requires IsField(p) && Jac(x1, y1, z, q, p) && Jac(x2, y2, z, r, p) && q.x != r.x
    requires CoZ(x1, y1, x2, y2, u1, v1, u2, v2, p)
    ensures Jac(u1, v1, z * (x2 - x1), q, p)
    ensures Jac(u2, v2, z * (x2 - x1), Sum(q, r, p), p)
  {
    var d := x2 - x1;
    var w := z * d;
    NonzeroDifference(r.x, q.x, p);
    var s := (r.y - q.y) * Inv(r.x - q.x, p);
    ScaledInverse(r.x - q.x, r.y - q.y, p);
    ChordSum(s, q, r, p);
    CoZSlope(x1, y1, x2, y2, z, s, q, r, p);
    NonzeroProduct(z, d, p);
    Rescale(x1, y1, z, d, q, p);
    Rescale(x2, y2, z, d, r, p);
    CongTrans(u1, x1 * (d * d), q.x * (w * w), p);
    CongTrans(v1, y1 * (d * d * d), q.y * (w * w * w), p);
    ScaledLine(s, w, q, r, y2 - y1, x1 * (d * d), x2 * (d * d), y1 * (d * d * d), u2, v2, p);
  }

  /** y2 - y1 is the slope times z (x2 - x1), and x2 - x1 does not vanish. */
  lemma CoZSlope(x1: int, y1: int, x2: int, y2: int, z: int, s: int, q: Point, r: Point, p: int)
    requires IsField(p) && Jac(x1, y1, z, q, p) && Jac(x2, y2, z, r, p) && q.x != r.x
    requires ChordSlope(s, q, r, p)
    ensures Cong(y2 - y1, s * (z * (x2 - x1)), p)
    ensures (x2 - x1) % p != 0
  {
    var d, e := r.x - q.x, r.y - q.y;
    CongAdd(x2, r.x * (z * z), x1, q.x * (z * z), p);
    CongAdd(y2, r.y * (z * z * z), y1, q.y * (z * z * z), p);
    Distribute(r.x, q.x, z * z);
    Distribute(r.y, q.y, z * z * z);
    CongScale(z * z * z, s * d, e, p);
    CongScale(s * z, x2 - x1, d * (z * z), p);
    SlopeTerms(s, z, d, x2 - x1);
    CongTrans(s * (z * (x2 - x1)), s * d * (z * z * z), e * (z * z * z), p);
    CongSym(s * (z * (x2 - x1)), e * (z * z * z), p);
    CongTrans(y2 - y1, e * (z * z * z), s * (z * (x2 - x1)), p);
    NonzeroDifference(r.x, q.x, p);
    NonzeroProduct(z, z, p);
    NonzeroProduct(d, z * z, p);
    CongResidue(x2 - x1, d * (z * z), p);
  }

  lemma SlopeTerms(s: int, z: int, d: int, x: int)
    ensures s * z * (d * (z * z)) == s * d * (z * z * z)
    ensures s * z * x == s * (z * x)
  {}

  /** Doubling gives the tangent sum over y z. */
  lemma DoubledIsTangent(x: int, y: int, z: int, h: int, u: int, v: int, w: int, q: Point, p: int)
    requires IsField(p) && Jac(x, y, z, q, p) && q.y != 0
    requires Doubled(x, y, z, h, u, v, w, p)
    ensures Jac(u, v, w, Sum(q, q, p), p)
  {
    TangentDefined(q.y, p);
    var s := (3 * q.x * q.x - 3) * Inv(2 * q.y, p);
    ScaledInverse(2 * q.y, 3 * q.x * q.x - 3, p);
    TangentSum(s, q, p);
    DoubledLine(x, y, z, h, s, u, v, q, p);
    assert z * y == y * z;
    CongSym(w, y * z, p);
    JacFactor(u, v, z * y, w, LineSum(s, q, q, p), p);
  }

  lemma DoubledLine(x: int, y: int, z: int, h: int, s: int, u: int, v: int, q: Point, p: int)
    requires IsField(p) && Jac(x, y, z, q, p) && q.y != 0
    requires TangentSlope(s, q, p)
    requires Cong(2 * h, 3 * (x * x - z * z * (z * z)), p)
    requires Cong(u, h * h - x * (y * y) - x * (y * y), p)
    requires Cong(v, h * (x * (y * y) - u) - y * y * (y * y), p)
    ensures Jac(u, v, z * y, LineSum(s, q, q, p), p)
  {
    hide Cong, IsPrime, LineSum;
    DoubledSlope(x, y, z, h, s, q, p);
    Rescale(x, y, z, y, q, p);
    FourthPower(y, z, q.y, p);
    NonzeroOrdinate(y, z, q, p);
    NonzeroProduct(z, y, p);
    ScaledLine(s, z * y, q, q, h, x * (y * y), x * (y * y), y * y * (y * y), u, v, p);
  }

  /** The factor counts only modulo p. */
  lemma JacFactor(x: int, y: int, z: int, z': int, q: Point, p: int)
    requires p > 0 && Jac(x, y, z, q, p) && Cong(z, z', p)
    ensures Jac(x, y, z', q, p)
  {
    CongMul(z, z', z, z', p);
    CongMul(z * z, z' * z', z, z', p);
    CongScale(q.x, z * z, z' * z', p);
    CongScale(q.y, z * z * z, z' * z' * z', p);
    CongTrans(x, q.x * (z * z), q.x * (z' * z'), p);
    CongTrans(y, q.y * (z * z * z), q.y * (z' * z' * z'), p);
    CongResidue(z, z', p);
  }

  lemma NonzeroOrdinate(y: int, z: int, q: Point, p: int)
    requires IsField(p) && q.Affine? && Reduced(q, p) && q.y != 0 && z % p != 0
    requires Cong(y, q.y * (z * z * z), p)
    ensures y % p != 0
  {
    hide Cong, IsPrime;
    DivModUnique(q.y, p, 0, q.y);
    NonzeroProduct(z, z, p);
    NonzeroProduct(z * z, z, p);
    NonzeroProduct(q.y, z * z * z, p);
    CongResidue(y, q.y * (z * z * z), p);
  }

  lemma FourthPower(y: int, z: int, y0: int, p: int)
    requires p > 0 && Cong(y, y0 * (z * z * z), p)
    ensures Cong(y * y * (y * y), y0 * (z * y * (z * y) * (z * y)), p)
  {
    CongScale(y * y * y, y, y0 * (z * z * z), p);
    assert y * (y * y * y) == y * y * (y * y);
    RescaleTerms(y0, y0, z, y);
  }

  /** 2 h = 3 (x^2 - z^4) makes h the slope times z y. */
  lemma DoubledSlope(x: int, y: int, z: int, h: int, s: int, q: Point, p: int)
    requires IsField(p) && Jac(x, y, z, q, p)
    requires TangentSlope(s, q, p)
    requires Cong(2 * h, 3 * (x * x - z * z * (z * z)), p)
    ensures Cong(h, s * (z * y), p)
  {
    var z2, z4 := z * z, z * z * (z * z);
    CongMul(x, q.x * z2, x, q.x * z2, p);
    CongRefl(z4, p);
    CongAdd(x * x, q.x * z2 * (q.x * z2), z4, z4, p);
    CongScale(3, x * x - z4, q.x * z2 * (q.x * z2) - z4, p);
    TangentTerms(q.x, z2);
    CongTrans(2 * h, 3 * (x * x - z4), (3 * q.x * q.x - 3) * z4, p);
    CongSym(s * (2 * q.y), 3 * q.x * q.x - 3, p);
    CongScale(z4, 3 * q.x * q.x - 3, s * (2 * q.y), p);
    CongTrans(2 * h, (3 * q.x * q.x - 3) * z4, s * (2 * q.y) * z4, p);
    CongSym(y, q.y * (z * z * z), p);
    CongScale(2 * (s * z), q.y * (z * z * z), y, p);
    OrdinateTerms(s, z, q.y, y);
    CongTrans(2 * h, s * (2 * q.y) * z4, 2 * (s * (z * y)), p);
    CongHalf(h, s * (z * y), p);
  }

  lemma TangentTerms(x: int, z2: int)
    ensures 3 * (x * z2 * (x * z2) - z2 * z2) == (3 * x * x - 3) * (z2 * z2)
  {
    assert x * z2 * (x * z2) == x * x * (z2 * z2);
  }

  lemma OrdinateTerms(s: int, z: int, y0: int, y: int)
    ensures 2 * (s * z) * (y0 * (z * z * z)) == s * (2 * y0) * (z * z * (z * z))
    ensures 2 * (s * z) * y == 2 * (s * (z * y))
  {}

  /** Multiplying by z^2 and z^3 puts an affine point over z ... */
  lemma ScaledPoint(x: int, y: int, z: int, q: Point, p: int)
    requires p > 0 && q.Affine? && Reduced(q, p) && z % p != 0
    requires Cong(x, q.x * (z * z), p) && Cong(y, q.y * (z * z * z), p)
    ensures Jac(x, y, z, q, p)
  {}

  /** ... and with the inverse of the factor gives the affine point back. */
  lemma UnscaledPoint(x: int, y: int, z: int, i: int, q: Point, u: int, v: int, p: int)
    requires p > 0 && Jac(x, y, z, q, p) && Cong(i * z, 1, p)
    requires Cong(u, x * (i * i), p) && Cong(v, y * (i * i * i), p)
    requires 0 <= u < p && 0 <= v < p
    ensures u == q.x && v == q.y
  {
    var e := z * i;
    assert e == i * z;
    Rescale(x, y, z, i, q, p);
    CongMul(e, 1, e, 1, p);
    CongMul(e * e, 1, e, 1, p);
    CongScale(q.x, e * e, 1, p);
    CongScale(q.y, e * e * e, 1, p);
    CongTrans(u, x * (i * i), q.x * (e * e), p);
    CongTrans(u, q.x * (e * e), q.x * 1, p);
    CongTrans(v, y * (i * i * i), q.y * (e * e * e), p);
    CongTrans(v, q.y * (e * e * e), q.y * 1, p);
    CongUnique(u, q.x, p);
    CongUnique(v, q.y, p);
  }
}
