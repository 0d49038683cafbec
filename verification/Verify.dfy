/** The two-scalar multiplication of a point and the generator. */
module Verify {
  import opened Arith
  import opened Words
  import opened Limbs
  import opened Bits
  import opened Bigint
  import opened BigintMod
  import opened BigintModMult
  import opened Modular
  import opened Curve
  import opened Jacobian
  import opened Field
  import opened Ecc
  import opened Ladder
  import Fast128
  import Fast256

  /** The affine point in the coordinate arrays. */
  ghost function PointOf(q: EccPoint, size: nat): Point
    requires size <= q.x.Length && size <= q.y.Length
    reads q.x, q.y
  {
    Affine(Val(q.x[..size]), Val(q.y[..size]))
  }

  /** q holds the reduced affine point t. */
  ghost predicate HoldsPoint(q: EccPoint, size: nat, t: Point, p: int)
    reads q.x, q.y
  {
    && t.Affine? && p > 0 && Reduced(t, p)
    && Coordinates(q, size, t.x, t.y, p)
  }

  /** (q, z) stands for t while every step was regular, and the factor is 0 from the first other step on. */
  ghost predicate StandsFor(q: EccPoint, z: array<word>, size: nat, regular: bool, t: Point, p: int)
    reads q.x, q.y, z
  {
    && p > 0 && size <= q.x.Length && size <= q.y.Length && size <= z.Length
    && Coordinates(q, size, Val(q.x[..size]), Val(q.y[..size]), p)
    && Holds(z, size, Val(z[..size]), p)
    && if regular then Jac(Val(q.x[..size]), Val(q.y[..size]), Val(z[..size]), t, p) else Val(z[..size]) == 0
  }

  ghost predicate Apart(q: EccPoint, r: EccPoint)
  {
    q.x != r.x && q.x != r.y && q.y != r.x && q.y != r.y
  }

  // ------------------------------------------------------------ ladder steps

  /** Doubling step; a point with ordinate 0 leaves the factor 0. */
  method DoubleStep(res: EccPoint, z: array<word>, mod: array<word>, size: nat, ghost regular: bool, ghost t: Point,
                    ghost p: int)
    requires IsModulus(mod, size, p) && Separate(res, mod) && z != res.x && z != res.y && z != mod
    requires IsField(p) && StandsFor(res, z, size, regular, t, p) && Reduced(t, p)
    modifies res.x, res.y, z
    ensures StandsFor(res, z, size, regular && CanDouble(t), Sum(t, t, p), p)
  {
    hide Val, Holds, Coordinates, Cong, IsModulus, Doubled, Sum, IsField, Jac;
    ghost var x, y, e := Val(res.x[..size]), Val(res.y[..size]), Val(z[..size]);
    FactorTells(res, z, size, regular, t, p);
    PointDoubleJacobian(res, z, mod, size, x, y, e, p);
    if regular {
      ghost var h :| Doubled(x, y, e, h, Val(res.x[..size]), Val(res.y[..size]), Val(z[..size]), p);
      if CanDouble(t) {
        DoubledIsTangent(x, y, e, h, Val(res.x[..size]), Val(res.y[..size]), Val(z[..size]), t, p);
      } else {
        DoubledToZero(x, y, e, h, Val(res.x[..size]), Val(res.y[..size]), Val(z[..size]), t, p);
        HoldsValue(z, size, Val(z[..size]), p);
      }
    }
  }

  /** The factor is a nonzero residue exactly while every step was regular. */
  lemma FactorTells(q: EccPoint, z: array<word>, size: nat, regular: bool, t: Point, p: int)
    requires StandsFor(q, z, size, regular, t, p)
    ensures p > 0 && size <= z.Length && (Val(z[..size]) % p != 0 <==> regular)
    ensures regular ==> t.Affine? && Reduced(t, p)
  {
    hide Val, Cong, Coordinates, Holds;
  }

  lemma DoubledToZero(x: int, y: int, z: int, h: int, u: int, v: int, w: int, t: Point, p: int)
    requires p > 0 && Jac(x, y, z, t, p) && t.y == 0 && Doubled(x, y, z, h, u, v, w, p)
    ensures w % p == 0
  {
    CongScale(z, y, 0, p);
    CongTrans(w, y * z, 0, p);
    CongResidue(w, 0, p);
  }

  /** Addition step: t is scratch for the table entry, brought over the factor z first;
      equal abscissas leave the factor 0. */
  method AddStep(res: EccPoint, point: EccPoint, t: EccPoint, z: array<word>, tz: array<word>, mod: array<word>,
                 size: nat, ghost regular: bool, ghost s: Point, ghost d: Point, ghost p: int)
    requires IsModulus(mod, size, p) && IsField(p)
    requires Separate(res, mod) && Separate(t, mod) && Apart(res, t) && Apart(t, point)
    requires z != res.x && z != res.y && z != t.x && z != t.y && z != mod
    requires tz != res.x && tz != res.y && tz != t.x && tz != t.y && tz != mod && tz != z && tz.Length == 8
    requires StandsFor(res, z, size, regular, d, p) && HoldsPoint(point, size, s, p) && Reduced(d, p)
    modifies res.x, res.y, t.x, t.y, z, tz
    ensures s.Affine? && Reduced(s, p)
    ensures StandsFor(res, z, size, regular && CanAdd(s, d), Sum(s, d, p), p)
  {
    hide Val, Holds, Coordinates, Cong, IsModulus, CoZ, Sum, Jac, IsField, Prod;
    ModulusFacts(mod, size, p);
    ghost var e := Val(z[..size]);
    ghost var x2, y2 := Val(res.x[..size]), Val(res.y[..size]);
    FactorTells(res, z, size, regular, d, p);
    BringOver(t, point, z, mod, size, s, e, p);
    ghost var x1, y1 := Val(t.x[..size]), Val(t.y[..size]);
    AddOver(res, t, z, tz, mod, size, x1, y1, x2, y2, e, regular, s, d, p);
  }

  /** The addition of two points over a common factor z, and the new factor. */
  method AddOver(res: EccPoint, t: EccPoint, z: array<word>, tz: array<word>, mod: array<word>, size: nat,
                 ghost x1: int, ghost y1: int, ghost x2: int, ghost y2: int, ghost e: int,
                 ghost regular: bool, ghost s: Point, ghost d: Point, ghost p: int)
    requires IsModulus(mod, size, p) && IsField(p)
    requires Separate(res, mod) && Separate(t, mod) && Apart(res, t)
    requires z != res.x && z != res.y && z != t.x && z != t.y && z != mod
    requires tz != res.x && tz != res.y && tz != t.x && tz != t.y && tz != mod && tz != z && tz.Length == 8
    requires Coordinates(t, size, x1, y1, p) && Coordinates(res, size, x2, y2, p) && Holds(z, size, e, p)
    requires p > 0 && if regular then Jac(x1, y1, e, s, p) && Jac(x2, y2, e, d, p) else e % p == 0
    requires s.Affine? && Reduced(s, p) && Reduced(d, p)
    modifies res.x, res.y, t.x, t.y, z, tz
    ensures StandsFor(res, z, size, regular && CanAdd(s, d), Sum(s, d, p), p)
  {
    hide Val, Holds, Coordinates, Cong, IsModulus, CoZ, Sum, Jac, IsField, Prod;
    ModulusFacts(mod, size, p);
    HoldsSize(z, size, e, p);
    AddWithFactor(t, res, tz, mod, size, x1, y1, x2, y2, p);
    ghost var u1, v1, u2, v2 := Val(t.x[..size]), Val(t.y[..size]), Val(res.x[..size]), Val(res.y[..size]);
    Mul(z, z, tz, mod, size, e, x2 - x1, p);
    if regular && CanAdd(s, d) {
      CoZIsSum(x1, y1, x2, y2, u1, v1, u2, v2, e, s, d, p);
      FactorHeld(res, z, size, Prod(e, x2 - x1), Sum(s, d, p), p);
    } else {
      FactorVanishes(x1, y1, x2, y2, e, regular, s, d, p);
      FactorZero(res, z, size, Prod(e, x2 - x1), Sum(s, d, p), p);
    }
  }

  /** Equal abscissas have equal representatives over a common factor. */
  lemma FactorVanishes(x1: int, y1: int, x2: int, y2: int, e: int, regular: bool, s: Point, d: Point, p: int)
    requires p > 0 && if regular then Jac(x1, y1, e, s, p) && Jac(x2, y2, e, d, p) else e % p == 0
    requires !(regular && CanAdd(s, d))
    ensures Prod(e, x2 - x1) % p == 0
  {
    if regular {
      CongSym(x1, s.x * (e * e), p);
      CongTrans(x2, s.x * (e * e), x1, p);
      CongRefl(x1, p);
      CongAdd(x2, x1, x1, x1, p);
      CongScale(e, x2 - x1, 0, p);
    } else {
      CongMod(e, p);
      CongSym(0, e, p);
      CongScale(x2 - x1, e, 0, p);
    }
    CongResidue(e * (x2 - x1), 0, p);
  }

  lemma FactorZero(q: EccPoint, z: array<word>, size: nat, e: int, t: Point, p: int)
    requires Holds(z, size, e, p) && p > 0 && e % p == 0
    requires size <= q.x.Length && size <= q.y.Length
    requires Coordinates(q, size, Val(q.x[..size]), Val(q.y[..size]), p)
    ensures StandsFor(q, z, size, false, t, p)
  {
    hide Val, Coordinates, Jac, Cong;
    HoldsValue(z, size, e, p);
    HoldsItself(z, size, p);
  }

  /** Copy a table entry and bring it over the factor z. */
  method BringOver(t: EccPoint, point: EccPoint, z: array<word>, mod: array<word>, size: nat,
                   ghost s: Point, ghost e: int, ghost p: int)
    requires IsModulus(mod, size, p) && Separate(t, mod) && Apart(t, point) && z != t.x && z != t.y
    requires Holds(z, size, e, p) && HoldsPoint(point, size, s, p)
    modifies t.x, t.y
    ensures s.Affine? && Reduced(s, p) && p > 0 && size <= t.x.Length && size <= t.y.Length
    ensures Coordinates(t, size, Val(t.x[..size]), Val(t.y[..size]), p)
    ensures e % p != 0 ==> Jac(Val(t.x[..size]), Val(t.y[..size]), e, s, p)
  {
    hide Val, Holds, Coordinates, Cong, IsModulus, Jac;
    ModulusFacts(mod, size, p);
    CopyPoint(t, point, size, s.x, s.y, p);
    CoordinatesHold(t, size, s.x, s.y, p);
    ApplyZ(t, z, mod, size, s.x, s.y, e, p);
    CoordinatesHold(t, size, Val(t.x[..size]), Val(t.y[..size]), p);
    if e % p != 0 {
      ScaledPoint(Val(t.x[..size]), Val(t.y[..size]), e, s, p);
    }
  }

  lemma CoZIsSum(x1: int, y1: int, x2: int, y2: int, u1: int, v1: int, u2: int, v2: int,
                 z: int, q: Point, r: Point, p: int)
    requires IsField(p) && Jac(x1, y1, z, q, p) && Jac(x2, y2, z, r, p) && q.x != r.x
    requires CoZ(x1, y1, x2, y2, u1, v1, u2, v2, p)
    ensures Jac(u2, v2, Prod(z, x2 - x1), Sum(q, r, p), p)
  {
    hide CoZ, Sum, Jac, IsField;
    CoZIsChord(x1, y1, x2, y2, u1, v1, u2, v2, z, q, r, p);
  }

  /** The co-Z addition, with the new part of the factor in tz. */
  method AddWithFactor(t: EccPoint, res: EccPoint, tz: array<word>, mod: array<word>, size: nat,
                       ghost x1: int, ghost y1: int, ghost x2: int, ghost y2: int, ghost p: int)
    requires IsModulus(mod, size, p) && Separate(t, mod) && Separate(res, mod) && Apart(t, res)
    requires tz != t.x && tz != t.y && tz != res.x && tz != res.y && tz != mod && tz.Length == 8
    requires Coordinates(t, size, x1, y1, p) && Coordinates(res, size, x2, y2, p)
    modifies t.x, t.y, res.x, res.y, tz
    ensures p > 0 && size <= 8 && size <= t.x.Length && size <= t.y.Length
    ensures size <= res.x.Length && size <= res.y.Length
    ensures Coordinates(res, size, Val(res.x[..size]), Val(res.y[..size]), p)
    ensures Holds(tz, size, x2 - x1, p)
    ensures CoZ(x1, y1, x2, y2, Val(t.x[..size]), Val(t.y[..size]), Val(res.x[..size]), Val(res.y[..size]), p)
  {
    hide Val, Holds, Coordinates, Cong, IsModulus, CoZ;
    ModulusFacts(mod, size, p);
    CoordinatesHold(res, size, x2, y2, p);
    CoordinatesHold(t, size, x1, y1, p);
    Minus(tz, res.x, t.x, mod, size, x2, x1, p);
    XyczAdd(t, res, mod, size, x1, y1, x2, y2, p);
    CoordinatesHold(t, size, Val(t.x[..size]), Val(t.y[..size]), p);
    CoordinatesHold(res, size, Val(res.x[..size]), Val(res.y[..size]), p);
  }

  /** The factor array may hold any representative of the factor. */
  lemma FactorHeld(q: EccPoint, z: array<word>, size: nat, e: int, t: Point, p: int)
    requires Holds(z, size, e, p) && p > 0
    requires size <= q.x.Length && size <= q.y.Length
    requires Coordinates(q, size, Val(q.x[..size]), Val(q.y[..size]), p)
    requires Jac(Val(q.x[..size]), Val(q.y[..size]), e, t, p)
    ensures StandsFor(q, z, size, true, t, p)
  {
    hide Val, Coordinates, Jac, Cong;
    HoldsItself(z, size, p);
    CongSym(Val(z[..size]), e, p);
    JacFactor(Val(q.x[..size]), Val(q.y[..size]), e, Val(z[..size]), t, p);
  }

  // ------------------------------------------------------------- the table

  /** The array is none of those the ladder writes. */
  ghost predicate Away(a: array<word>, res: EccPoint, t: EccPoint, z: array<word>, tz: array<word>)
  {
    a != res.x && a != res.y && a != t.x && a != t.y && a != z && a != tz
  }

  ghost predicate Untouched(points: seq<EccPoint?>, u1: array<word>, u2: array<word>,
                            res: EccPoint, t: EccPoint, z: array<word>, tz: array<word>)
  {
    && Away(u1, res, t, z, tz) && Away(u2, res, t, z, tz)
    && forall x: EccPoint? :: x in points && x != null ==> Away(x.x, res, t, z, tz) && Away(x.y, res, t, z, tz)
  }

  /** The table { none, g, q, g + q }. */
  ghost predicate IsTable(points: seq<EccPoint?>, size: nat, g: Point, q: Point, p: int)
    reads set x: EccPoint? | x in points && x != null :: x.x
    reads set x: EccPoint? | x in points && x != null :: x.y
    requires IsField(p) && Reduced(g, p) && Reduced(q, p)
  {
    && |points| == 4 && points[0] == null
    && points[1] != null && points[2] != null && points[3] != null
    && HoldsPoint(points[1], size, g, p) && HoldsPoint(points[2], size, q, p)
    && HoldsPoint(points[3], size, Sum(g, q, p), p)
  }

  /** points[(!!bit of u1) | (!!bit of u2) << 1] */
  method Select(points: seq<EccPoint?>, u1: array<word>, u2: array<word>, i: nat, size: nat,
                ghost g: Point, ghost q: Point, ghost p: int) returns (point: EccPoint?)
    requires size <= u1.Length && size <= u2.Length && i < 32 * size
    requires IsField(p) && Reduced(g, p) && Reduced(q, p) && IsTable(points, size, g, q, p)
    ensures 0 <= Val(u1[..size]) && 0 <= Val(u2[..size])
    ensures var s := Selected(Val(u1[..size]), Val(u2[..size]), i, g, q, p);
            && (point == null <==> s.Infinity?)
            && (point != null ==> point in points && HoldsPoint(point, size, s, p))
  {
    hide Val, HoldsPoint, Sum, Shr;
    var b1 := TestBit(u1, i, size);
    var b2 := TestBit(u2, i, size);
    var index := (if b1 != 0 then 1 else 0) + (if b2 != 0 then 2 else 0);
    TableAffine(points, size, g, q, p);
    point := points[index];
  }

  lemma TableAffine(points: seq<EccPoint?>, size: nat, g: Point, q: Point, p: int)
    requires IsField(p) && Reduced(g, p) && Reduced(q, p) && IsTable(points, size, g, q, p)
    ensures g.Affine? && q.Affine? && Sum(g, q, p).Affine?
  {
    hide Sum;
  }

  /** sum = g + q in affine coordinates; t is scratch. For equal abscissas the inversion does not end. */
  method TableSum(sum: EccPoint, t: EccPoint, g: EccPoint, q: EccPoint, z: array<word>, mod: array<word>, size: nat,
                  ghost gp: Point, ghost qp: Point, ghost p: int) returns (ends: bool)
    requires IsModulus(mod, size, p) && IsField(p)
    requires Separate(sum, mod) && Separate(t, mod) && Apart(sum, t)
    requires Apart(sum, q) && Apart(sum, g) && Apart(t, g) && Apart(t, q)
    requires z != sum.x && z != sum.y && z != t.x && z != t.y && z != mod && z.Length == 8
    requires z != g.x && z != g.y && z != q.x && z != q.y
    requires HoldsPoint(g, size, gp, p) && HoldsPoint(q, size, qp, p)
    modifies sum.x, sum.y, t.x, t.y, z
    ensures gp.Affine? && qp.Affine? && Reduced(gp, p) && Reduced(qp, p)
    ensures ends <==> CanAdd(gp, qp)
    ensures ends ==> HoldsPoint(sum, size, Sum(gp, qp, p), p)
  {
    hide Val, Holds, Coordinates, Cong, IsModulus, CoZ, Sum, Jac, IsField, Prod;
    ModulusFacts(mod, size, p);
    CopyPoint(sum, q, size, qp.x, qp.y, p);
    CopyPoint(t, g, size, gp.x, gp.y, p);
    AddWithFactor(t, sum, z, mod, size, gp.x, gp.y, qp.x, qp.y, p);
    ghost var x, y := Val(sum.x[..size]), Val(sum.y[..size]);
    AbscissasDiffer(gp, qp, p);
    if CanAdd(gp, qp) {
      AffineChord(gp, qp, Val(t.x[..size]), Val(t.y[..size]), x, y, p);
    }
    ends := Normalize(sum, z, mod, size, x, y, qp.x - gp.x, Sum(gp, qp, p), p);
  }

  lemma AbscissasDiffer(g: Point, q: Point, p: int)
    requires p > 0 && g.Affine? && q.Affine? && Reduced(g, p) && Reduced(q, p)
    ensures (q.x - g.x) % p != 0 <==> CanAdd(g, q)
  {
    if g.x != q.x {
      NonzeroDifference(q.x, g.x, p);
    }
  }

  lemma AffineChord(g: Point, q: Point, u1: int, v1: int, u2: int, v2: int, p: int)
    requires IsField(p) && g.Affine? && q.Affine? && Reduced(g, p) && Reduced(q, p) && g.x != q.x
    requires CoZ(g.x, g.y, q.x, q.y, u1, v1, u2, v2, p)
    ensures Jac(u2, v2, q.x - g.x, Sum(g, q, p), p)
  {
    hide CoZ, Sum, Jac, IsField;
    AffineJac(g, p);
    AffineJac(q, p);
    CoZIsChord(g.x, g.y, q.x, q.y, u1, v1, u2, v2, 1, g, q, p);
    assert 1 * (q.x - g.x) == q.x - g.x;
  }

  lemma AffineJac(q: Point, p: int)
    requires IsField(p) && q.Affine? && Reduced(q, p)
    ensures Jac(q.x, q.y, 1, q, p)
  {
    CongRefl(q.x, p);
    CongRefl(q.y, p);
    DivModUnique(1, p, 0, 1);
  }

  /** z = 1 / z, then scale by it: back to affine coordinates. For the factor 0 the inversion does not end. */
  method Normalize(q: EccPoint, z: array<word>, mod: array<word>, size: nat,
                   ghost x: int, ghost y: int, ghost e: int, ghost t: Point, ghost p: int) returns (ends: bool)
    requires IsModulus(mod, size, p) && IsField(p) && Separate(q, mod) && z != q.x && z != q.y && z != mod
    requires Coordinates(q, size, x, y, p) && Holds(z, size, e, p)
    requires p > 0 && (e % p != 0 ==> Jac(x, y, e, t, p))
    modifies q.x, q.y, z
    ensures ends <==> e % p != 0
    ensures ends ==> HoldsPoint(q, size, t, p)
  {
    hide Val, Holds, Coordinates, Cong, IsModulus, Jac, IsField, IsPrime;
    HoldsSize(z, size, e, p);
    FieldIsPrime(p);
    ends := Invert(z, z, mod, size, e, p);
    if !ends {
      return;
    }
    JacReduced(x, y, e, t, p);
    ghost var i := Val(z[..size]);
    ApplyZ(q, z, mod, size, x, y, i, p);
    CoordinatesHold(q, size, Val(q.x[..size]), Val(q.y[..size]), p);
    UnscaledPoint(x, y, e, i, t, Val(q.x[..size]), Val(q.y[..size]), p);
  }

  lemma FieldIsPrime(p: int)
    requires IsField(p)
    ensures IsPrime(p)
  {}

  lemma JacReduced(x: int, y: int, z: int, q: Point, p: int)
    requires p > 0 && Jac(x, y, z, q, p)
    ensures q.Affine? && Reduced(q, p)
  {}

  // -------------------------------------------------------------- the ladder

  /** One round of the loop, for bit i. */
  method LadderRound(res: EccPoint, points: seq<EccPoint?>, t: EccPoint, z: array<word>, tz: array<word>,
                     u1: array<word>, u2: array<word>, mod: array<word>, size: nat, i: nat,
                     ghost v1: nat, ghost v2: nat, ghost g: Point, ghost q: Point, ghost top: nat, ghost p: int)
    requires IsModulus(mod, size, p) && IsField(p)
    requires Separate(res, mod) && Separate(t, mod) && Apart(res, t)
    requires z != res.x && z != res.y && z != t.x && z != t.y && z != mod
    requires tz != res.x && tz != res.y && tz != t.x && tz != t.y && tz != mod && tz != z && tz.Length == 8
    requires Untouched(points, u1, u2, res, t, z, tz)
    requires size <= u1.Length && size <= u2.Length && i < 32 * size && i < top
    requires Reduced(g, p) && Reduced(q, p) && IsTable(points, size, g, q, p)
    requires Val(u1[..size]) == v1 && Val(u2[..size]) == v2
    requires StandsFor(res, z, size, RegularDown(v1, v2, i + 1, top, g, q, p),
                       Run(v1, v2, i + 1, top, g, q, p), p)
    modifies res.x, res.y, t.x, t.y, z, tz
    ensures IsTable(points, size, g, q, p)
    ensures StandsFor(res, z, size, RegularDown(v1, v2, i, top, g, q, p),
                      Run(v1, v2, i, top, g, q, p), p)
  {
    hide Val, Holds, Coordinates, IsModulus, IsField, Sum, Selected, StandsFor, RegularDown, RegularStep, CanDouble,
        CanAdd, Run, Reduced, HoldsPoint, IsTable;
    ghost var l := Run(v1, v2, i + 1, top, g, q, p);
    ghost var regular := RegularDown(v1, v2, i + 1, top, g, q, p);
    RoundMeans(v1, v2, i, top, g, q, p);
    DoubleStep(res, z, mod, size, regular, l, p);
    AddSelected(res, points, t, z, tz, u1, u2, mod, size, i, regular && CanDouble(l), v1, v2, g, q, Sum(l, l, p), p);
  }

  /** The addition for bit i: nothing when neither bit is set. */
  method AddSelected(res: EccPoint, points: seq<EccPoint?>, t: EccPoint, z: array<word>, tz: array<word>,
                     u1: array<word>, u2: array<word>, mod: array<word>, size: nat, i: nat, ghost regular: bool,
                     ghost v1: nat, ghost v2: nat, ghost g: Point, ghost q: Point, ghost d: Point, ghost p: int)
    requires IsModulus(mod, size, p) && IsField(p)
    requires Separate(res, mod) && Separate(t, mod) && Apart(res, t)
    requires z != res.x && z != res.y && z != t.x && z != t.y && z != mod
    requires tz != res.x && tz != res.y && tz != t.x && tz != t.y && tz != mod && tz != z && tz.Length == 8
    requires Untouched(points, u1, u2, res, t, z, tz)
    requires size <= u1.Length && size <= u2.Length && i < 32 * size
    requires Reduced(g, p) && Reduced(q, p) && Reduced(d, p) && IsTable(points, size, g, q, p)
    requires Val(u1[..size]) == v1 && Val(u2[..size]) == v2
    requires StandsFor(res, z, size, regular, d, p)
    modifies res.x, res.y, t.x, t.y, z, tz
    ensures IsTable(points, size, g, q, p)
    ensures
      var s := Selected(v1, v2, i, g, q, p);
      StandsFor(res, z, size, regular && (s.Affine? ==> CanAdd(s, d)), Sum(s, d, p), p)
  {
    hide Val, Holds, Coordinates, IsModulus, IsField, Sum, Selected, StandsFor, CanAdd, Reduced, HoldsPoint, IsTable;
    var point := Select(points, u1, u2, i, size, g, q, p);
    if point != null {
      AddStep(res, point, t, z, tz, mod, size, regular, Selected(v1, v2, i, g, q, p), d, p);
    } else {
      AddInfinity(d, p);
    }
  }

  lemma RoundMeans(u1: nat, u2: nat, i: nat, top: nat, g: Point, q: Point, p: int)
    requires IsField(p) && Reduced(g, p) && Reduced(q, p) && i < top
    ensures
      var l, s := Run(u1, u2, i + 1, top, g, q, p), Selected(u1, u2, i, g, q, p);
      Run(u1, u2, i, top, g, q, p) == Sum(s, Sum(l, l, p), p)
      && (RegularDown(u1, u2, i, top, g, q, p)
        <==> RegularDown(u1, u2, i + 1, top, g, q, p) && CanDouble(l) && (s.Affine? ==> CanAdd(s, Sum(l, l, p))))
  {
    hide Sum, Selected, CanDouble, CanAdd, RegularDown, IsField, Reduced;
    RegularNext(u1, u2, i, top, g, q, p);
  }

  lemma RegularNext(u1: nat, u2: nat, i: nat, top: nat, g: Point, q: Point, p: int)
    requires IsField(p) && Reduced(g, p) && Reduced(q, p) && i < top
    ensures RegularDown(u1, u2, i, top, g, q, p)
      <==> RegularDown(u1, u2, i + 1, top, g, q, p) && RegularStep(u1, u2, i, top, g, q, p)
  {
    hide RegularStep;
  }

  /** The loop over the bits below the top one. */
  method LadderLoop(res: EccPoint, points: seq<EccPoint?>, t: EccPoint, z: array<word>, tz: array<word>,
                    u1: array<word>, u2: array<word>, mod: array<word>, size: nat, numBits: nat,
                    ghost v1: nat, ghost v2: nat, ghost g: Point, ghost q: Point, ghost p: int)
    requires IsModulus(mod, size, p) && IsField(p)
    requires Separate(res, mod) && Separate(t, mod) && Apart(res, t)
    requires z != res.x && z != res.y && z != t.x && z != t.y && z != mod
    requires tz != res.x && tz != res.y && tz != t.x && tz != t.y && tz != mod && tz != z && tz.Length == 8
    requires Untouched(points, u1, u2, res, t, z, tz)
    requires size <= u1.Length && size <= u2.Length && numBits < 32 * size
    requires Reduced(g, p) && Reduced(q, p) && IsTable(points, size, g, q, p)
    requires Val(u1[..size]) == v1 && Val(u2[..size]) == v2
    requires StandsFor(res, z, size, true, Run(v1, v2, numBits, numBits, g, q, p), p)
    modifies res.x, res.y, t.x, t.y, z, tz
    ensures StandsFor(res, z, size, RegularDown(v1, v2, 0, numBits, g, q, p),
                      Run(v1, v2, 0, numBits, g, q, p), p)
  {
    assert RegularDown(v1, v2, numBits, numBits, g, q, p);
    hide Val, Run, RegularStep, RegularDown, StandsFor, IsTable, IsModulus, IsField, Reduced;
    var i := numBits - 1;
    while i >= 0
      invariant -1 <= i < numBits
      invariant IsTable(points, size, g, q, p)
      invariant IsModulus(mod, size, p) && Val(u1[..size]) == v1 && Val(u2[..size]) == v2
      invariant StandsFor(res, z, size, RegularDown(v1, v2, i + 1, numBits, g, q, p),
                          Run(v1, v2, i + 1, numBits, g, q, p), p)
    {
      LadderRound(res, points, t, z, tz, u1, u2, mod, size, i, v1, v2, g, q, numBits, p);
      i := i - 1;
    }
  }

  // ------------------------------------------------------------- the curves

  class EccCurve {
    const size: nat
    const n: array<word>
    const p: array<word>
    const g: EccPoint

    constructor Curve128()
      ensures fresh(n) && fresh(p) && fresh(g.x) && fresh(g.y) && n != p && Separate(g, p) && Separate(g, n)
      ensures size == 4 && n.Length == 8 && p.Length == 8
      ensures Val(p[..size]) == Fast128.P128 && Val(n[..size]) == N128 && n[3] != 0
      ensures PointOf(g, size) == G128
    {
      hide Val;
      size := 4;
      n := new word[8];
      p := new word[8];
      g := new EccPoint();
      new;
      Fast256.Store8(n, 0x9038a115, 0x75a30d1b, 0x00000000, 0xfffffffe, 0, 0, 0, 0);
      Fast256.Store8(p, 0xffffffff, 0xffffffff, 0xffffffff, 0xfffffffd, 0, 0, 0, 0);
      Fast256.Store8(g.x, 0xa52c5b86, 0x0c28607c, 0x8b899b2d, 0x161ff752, 0, 0, 0, 0);
      Fast256.Store8(g.y, 0xdded7a83, 0xc02da292, 0x5bafeb13, 0xcf5ac839, 0, 0, 0, 0);
      Fast256.Val4(n[..4]);
      Fast256.Val4(p[..4]);
      Fast256.Val4(g.x[..4]);
      Fast256.Val4(g.y[..4]);
    }

    constructor Curve256()
      ensures fresh(n) && fresh(p) && fresh(g.x) && fresh(g.y) && n != p && Separate(g, p) && Separate(g, n)
      ensures size == 8 && n.Length == 8 && p.Length == 8
      ensures Val(p[..size]) == Fast256.P256 && Val(n[..size]) == N256 && n[7] != 0
      ensures PointOf(g, size) == G256
    {
      size := 8;
      n := new word[8];
      p := new word[8];
      g := new EccPoint();
      new;
      Fast256.Store8(n, 0xfc632551, 0xf3b9cac2, 0xa7179e84, 0xbce6faad, 0xffffffff, 0xffffffff, 0x00000000, 0xffffffff);
      Fast256.Store8(p, 0xffffffff, 0xffffffff, 0xffffffff, 0x00000000, 0x00000000, 0x00000000, 0x00000001, 0xffffffff);
      Fast256.Store8(g.x, 0xd898c296, 0xf4a13945, 0x2deb33a0, 0x77037d81, 0x63a440f2, 0xf8bce6e5, 0xe12c4247,
          0x6b17d1f2);
      Fast256.Store8(g.y, 0x37bf51f5, 0xcbb64068, 0x6b315ece, 0x2bce3357, 0x7c0f9e16, 0x8ee7eb4a, 0xfe1a7f9b,
          0x4fe342e2);
    }
  }

  const N128: nat := 0xfffffffe_00000000_75a30d1b_9038a115
  const N256: nat := 0xffffffff_00000000_ffffffff_ffffffff_bce6faad_a7179e84_f3b9cac2_fc632551
  const G128: Point := Affine(0x161ff752_8b899b2d_0c28607c_a52c5b86, 0xcf5ac839_5bafeb13_c02da292_dded7a83)
  const G256: Point := Affine(0x6b17d1f2_e12c4247_f8bce6e5_63a440f2_77037d81_2deb33a0_f4a13945_d898c296,
                              0x4fe342e2_fe1a7f9b_8ee7eb4a_7c0f9e16_2bce3357_6b315ece_cbb64068_37bf51f5)

  // ------------------------------------------------- u1 * g + u2 * q, in place

  /** curve has the generator g over the field of p elements. */
  ghost predicate IsCurve(curve: EccCurve, g: Point, p: int)
    reads curve.p, curve.g.x, curve.g.y
  {
    IsModulus(curve.p, curve.size, p) && Separate(curve.g, curve.p) && HoldsPoint(curve.g, curve.size, g, p)
  }

  /** u1 times the generator plus u2 times q. One of the two inversions does not end exactly when the sum in the
      table or a step of the ladder is exceptional. */
  method PointMultShamir(res: EccPoint, u1: array<word>, u2: array<word>, q: EccPoint, curve: EccCurve,
                         ghost v1: nat, ghost v2: nat, ghost gp: Point, ghost qp: Point, ghost p: int)
    returns (ends: bool)
    requires IsCurve(curve, gp, p) && HoldsPoint(q, curve.size, qp, p) && IsField(p)
    requires curve.size <= u1.Length && curve.size <= u2.Length
    requires Separate(res, curve.p) && Separate(q, curve.p)
    requires Apart(res, q) && Apart(res, curve.g)
    requires u1 != res.x && u1 != res.y && u2 != res.x && u2 != res.y
    requires Val(u1[..curve.size]) == v1 && Val(u2[..curve.size]) == v2 && (v1 > 0 || v2 > 0)
    modifies res.x, res.y
    ensures Reduced(gp, p) && Reduced(qp, p)
    ensures ends <==> Regular(v1, v2, TopBitOf(v1, v2), gp, qp, p)
    ensures ends ==> HoldsPoint(res, curve.size, LadderPoint(v1, v2, gp, qp, p), p)
  {
    CurveFacts(curve, q, v1, v2, gp, qp, p);
    hide *;
    var size := curve.size;
    var points, t, z;
    ends, points, t, z := MakeTable(curve.g, q, curve.p, size, gp, qp, p);
    TableUntouched(points, curve.g, q, u1, u2, res, t, z);
    if ends {
      ends := RunLadder(res, points, t, z, u1, u2, curve.p, size, v1, v2, gp, qp, p);
    }
  }

  lemma CurveFacts(curve: EccCurve, q: EccPoint, v1: nat, v2: nat, gp: Point, qp: Point, p: int)
    requires IsCurve(curve, gp, p) && HoldsPoint(q, curve.size, qp, p) && IsField(p) && (v1 > 0 || v2 > 0)
    ensures IsModulus(curve.p, curve.size, p) && HoldsPoint(curve.g, curve.size, gp, p)
    ensures Separate(curve.g, curve.p) && Reduced(gp, p) && Reduced(qp, p)
    ensures Regular(v1, v2, TopBitOf(v1, v2), gp, qp, p)
      <==> CanAdd(gp, qp) && RegularDown(v1, v2, 0, TopBitOf(v1, v2), gp, qp, p)
  {
    hide Val, RegularDown, TopBitOf, CanAdd, Coordinates, Fast128.P128, Fast256.P256;
  }

  /** What the ladder writes is none of what it reads. */
  lemma TableUntouched(points: seq<EccPoint?>, g: EccPoint, q: EccPoint, u1: array<word>, u2: array<word>,
                       res: EccPoint, t: EccPoint, z: array<word>)
    requires |points| == 4 && points[0] == null && points[1] == g && points[2] == q && points[3] != null
    requires Apart(res, g) && Apart(res, q) && Apart(res, points[3]) && Apart(t, g) && Apart(t, q)
    requires Apart(t, points[3]) && z != points[3].x && z != points[3].y
    requires z != g.x && z != g.y && z != q.x && z != q.y
    requires Away(u1, res, t, z, z) && Away(u2, res, t, z, z)
    ensures Untouched(points, u1, u2, res, t, z, z)
  {}

  /** The ladder with its table and its scratch arrays. */
  method RunLadder(res: EccPoint, points: seq<EccPoint?>, t: EccPoint, z: array<word>, u1: array<word>, u2: array<word>,
                   mod: array<word>, size: nat, ghost v1: nat, ghost v2: nat, ghost g: Point, ghost q: Point,
                   ghost p: int) returns (ends: bool)
    requires IsModulus(mod, size, p) && IsField(p)
    requires Separate(res, mod) && Separate(t, mod) && Apart(res, t)
    requires z != res.x && z != res.y && z != t.x && z != t.y && z != mod && z.Length == 8
    requires Untouched(points, u1, u2, res, t, z, z)
    requires size <= u1.Length && size <= u2.Length
    requires Reduced(g, p) && Reduced(q, p) && IsTable(points, size, g, q, p)
    requires Val(u1[..size]) == v1 && Val(u2[..size]) == v2
    requires v1 > 0 || v2 > 0
    modifies res.x, res.y, t.x, t.y, z
    ensures ends <==> RegularDown(v1, v2, 0, TopBitOf(v1, v2), g, q, p)
    ensures ends ==> HoldsPoint(res, size, LadderPoint(v1, v2, g, q, p), p)
  {
    hide Val, Run, RegularDown, IsField, Sum, TopBitOf, BitLength, IsModulus, LadderPoint, HoldsPoint, IsTable, Reduced;
    ModulusFacts(mod, size, p);
    var tz := new word[ECC_MAX_SIZE];
    var numBits := TopIndex(u1, u2, size);
    ends := LadderFrom(res, points, t, z, tz, u1, u2, mod, size, numBits, v1, v2, g, q, p);
  }

  /** Allocates the scratch point and the factor, and builds the table if that ends. */
  method MakeTable(g: EccPoint, q: EccPoint, mod: array<word>, size: nat, ghost gp: Point, ghost qp: Point,
      ghost p: int)
    returns (ends: bool, points: seq<EccPoint?>, t: EccPoint, z: array<word>)
    requires IsModulus(mod, size, p) && IsField(p)
    requires HoldsPoint(g, size, gp, p) && HoldsPoint(q, size, qp, p)
    ensures Reduced(gp, p) && Reduced(qp, p) && (ends <==> CanAdd(gp, qp))
    ensures ends ==> IsTable(points, size, gp, qp, p)
    ensures fresh(t.x) && fresh(t.y) && fresh(z) && Separate(t, mod) && z != t.x && z != t.y && z.Length == 8
    ensures |points| == 4 && points[0] == null && points[1] == g && points[2] == q
    ensures points[3] != null && fresh(points[3].x) && fresh(points[3].y)
    ensures Apart(t, points[3]) && z != points[3].x && z != points[3].y
  {
    hide Val, Coordinates, IsModulus, IsField, Sum, CanAdd;
    ModulusFacts(mod, size, p);
    z := new word[ECC_MAX_SIZE];
    var sum := new EccPoint();
    t := new EccPoint();
    ends := TableSum(sum, t, g, q, z, mod, size, gp, qp, p);
    points := [null, g, q, sum];
  }

  /** max(bits of u1, bits of u2) - 1 */
  method TopIndex(u1: array<word>, u2: array<word>, size: nat) returns (n: nat)
    requires size <= u1.Length && size <= u2.Length
    requires 0 <= Val(u1[..size]) && 0 <= Val(u2[..size])
    requires Val(u1[..size]) > 0 || Val(u2[..size]) > 0
    ensures n == TopBitOf(Val(u1[..size]), Val(u2[..size])) && n < 32 * size
  {
    hide Val, Shr, IsBitLength;
    var n1 := NumBits(u1, size);
    var n2 := NumBits(u2, size);
    ghost var v1, v2 := Val(u1[..size]), Val(u2[..size]);
    BitLengthIs(v1);
    BitLengthIs(v2);
    BitLengthUnique(v1, n1, BitLength(v1));
    BitLengthUnique(v2, n2, BitLength(v2));
    n := (if n1 > n2 then n1 else n2) - 1;
  }

  /** Loads the table entry of the top bit, with factor one. */
  method StartAt(res: EccPoint, points: seq<EccPoint?>, z: array<word>, u1: array<word>, u2: array<word>,
                 mod: array<word>, size: nat, numBits: nat, ghost v1: nat, ghost v2: nat,
                 ghost g: Point, ghost q: Point, ghost p: int)
    requires IsModulus(mod, size, p) && IsField(p) && Separate(res, mod)
    requires z != res.x && z != res.y && z != mod && z.Length == 8
    requires forall x: EccPoint? :: x in points && x != null ==> Apart(res, x)
    requires size <= u1.Length && size <= u2.Length && numBits < 32 * size
    requires Reduced(g, p) && Reduced(q, p) && IsTable(points, size, g, q, p)
    requires Val(u1[..size]) == v1 && Val(u2[..size]) == v2
    requires Selected(v1, v2, numBits, g, q, p).Affine?
    modifies res.x, res.y, z
    ensures StandsFor(res, z, size, true, Selected(v1, v2, numBits, g, q, p), p)
  {
    hide Val, IsField, Sum, Holds, IsModulus, Cong, Selected, Jac, Coordinates;
    ModulusFacts(mod, size, p);
    ghost var s := Selected(v1, v2, numBits, g, q, p);
    var point := Select(points, u1, u2, numBits, size, g, q, p);
    CopyPoint(res, point, size, s.x, s.y, p);
    Clear(z, size);
    z[0] := 1;
    ValOne(z[..size]);
    HoldsItself(z, size, p);
    AffineJac(s, p);
    CoordinatesHold(res, size, s.x, s.y, p);
  }

  /** From the table on: start at the top bit, run the loop, and go back to affine. */
  method LadderFrom(res: EccPoint, points: seq<EccPoint?>, t: EccPoint, z: array<word>, tz: array<word>,
                    u1: array<word>, u2: array<word>, mod: array<word>, size: nat, numBits: nat,
                    ghost v1: nat, ghost v2: nat, ghost g: Point, ghost q: Point, ghost p: int) returns (ends: bool)
    requires IsModulus(mod, size, p) && IsField(p)
    requires Separate(res, mod) && Separate(t, mod) && Apart(res, t)
    requires z != res.x && z != res.y && z != t.x && z != t.y && z != mod && z.Length == 8
    requires tz != res.x && tz != res.y && tz != t.x && tz != t.y && tz != mod && tz != z && tz.Length == 8
    requires Untouched(points, u1, u2, res, t, z, tz)
    requires size <= u1.Length && size <= u2.Length && numBits < 32 * size
    requires Reduced(g, p) && Reduced(q, p) && IsTable(points, size, g, q, p)
    requires Val(u1[..size]) == v1 && Val(u2[..size]) == v2
    requires v1 > 0 || v2 > 0
    requires numBits == TopBitOf(v1, v2)
    modifies res.x, res.y, t.x, t.y, z, tz
    ensures ends <==> RegularDown(v1, v2, 0, numBits, g, q, p)
    ensures ends ==> HoldsPoint(res, size, LadderPoint(v1, v2, g, q, p), p)
  {
    ModulusFacts(mod, size, p);
    TopBits(v1, v2);
    TableAffine(points, size, g, q, p);
    assert Selected(v1, v2, numBits, g, q, p).Affine?;
    RunTop(v1, v2, numBits, g, q, p);
    hide Val, Run, RegularDown, Jac, IsField, Sum, Holds, IsModulus, Shr, BitOf, Cong, TopBitOf, Selected, Coordinates;
    StartAt(res, points, z, u1, u2, mod, size, numBits, v1, v2, g, q, p);
    LadderLoop(res, points, t, z, tz, u1, u2, mod, size, numBits, v1, v2, g, q, p);
    ghost var regular := RegularDown(v1, v2, 0, numBits, g, q, p);
    FactorTells(res, z, size, regular, Run(v1, v2, 0, numBits, g, q, p), p);
    ends := Normalize(res, z, mod, size, Val(res.x[..size]), Val(res.y[..size]), Val(z[..size]),
        Run(v1, v2, 0, numBits, g, q, p), p);
  }

  lemma RunTop(u1: nat, u2: nat, top: nat, g: Point, q: Point, p: int)
    requires IsField(p) && Reduced(g, p) && Reduced(q, p)
    ensures Run(u1, u2, top, top, g, q, p) == Selected(u1, u2, top, g, q, p)
  {}
}
