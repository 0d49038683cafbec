/** Point arithmetic in place: co-Z addition, scaling and doubling. */
module Ecc {
  import opened Arith
  import opened Words
  import opened Limbs
  import opened Bigint
  import opened BigintMod
  import opened Modular
  import opened Jacobian
  import opened Field

  class EccPoint {
    const x: array<word>
    const y: array<word>

    constructor ()
      ensures fresh(x) && fresh(y) && x != y
      ensures x.Length == ECC_MAX_SIZE && y.Length == ECC_MAX_SIZE
    {
      x := new word[ECC_MAX_SIZE];
      y := new word[ECC_MAX_SIZE];
    }
  }

  /** The coordinates of a point, when they are residues. */
  ghost predicate Coordinates(q: EccPoint, size: nat, x: int, y: int, p: int)
    reads q.x, q.y
  {
    && Holds(q.x, size, x, p) && Holds(q.y, size, y, p)
    && Val(q.x[..size]) == x && Val(q.y[..size]) == y
  }

  ghost predicate Separate(q: EccPoint, mod: array<word>)
  {
    q.x != q.y && q.x != mod && q.y != mod && q.x.Length == q.y.Length == 8
  }

  lemma CoordinatesHold(q: EccPoint, size: nat, x: int, y: int, p: int)
    requires Coordinates(q, size, x, y, p)
    ensures Holds(q.x, size, x, p) && Holds(q.y, size, y, p)
    ensures size <= q.x.Length && size <= q.y.Length
    ensures p > 0 && 0 <= x < p && 0 <= y < p
    ensures Val(q.x[..size]) == x && Val(q.y[..size]) == y
  {}

  lemma CoordinatesNow(q: EccPoint, size: nat, x: int, y: int, p: int)
    requires Holds(q.x, size, x, p) && Holds(q.y, size, y, p)
    ensures size <= q.x.Length && size <= q.y.Length
    ensures Coordinates(q, size, Val(q.x[..size]), Val(q.y[..size]), p)
    ensures p > 0 && Cong(Val(q.x[..size]), x, p) && Cong(Val(q.y[..size]), y, p)
  {
    hide Val;
    CongRefl(Val(q.x[..size]), p);
    CongRefl(Val(q.y[..size]), p);
  }

  method CopyPoint(dst: EccPoint, src: EccPoint, size: nat, ghost x: int, ghost y: int, ghost p: int)
    requires size <= 8 && dst.x.Length == dst.y.Length == 8
    requires dst.x != dst.y && dst.x != src.x && dst.x != src.y && dst.y != src.x && dst.y != src.y
    requires Coordinates(src, size, x, y, p)
    modifies dst.x, dst.y
    ensures Coordinates(dst, size, x, y, p)
  {
    hide Val, Cong;
    Set(dst.x, 0, src.x, size);
    assert dst.x[0..0 + size] == dst.x[..size];
    Set(dst.y, 0, src.y, size);
    assert dst.y[0..0 + size] == dst.y[..size];
  }

  method CopyHeld(dst: array<word>, src: array<word>, size: nat, ghost e: int, ghost p: int)
    requires dst != src && size <= dst.Length && Holds(src, size, e, p)
    modifies dst
    ensures Holds(dst, size, e, p)
    ensures Val(dst[..size]) == Val(src[..size])
  {
    hide Val, Cong;
    Set(dst, 0, src, size);
    assert dst[0..0 + size] == dst[..size];
  }

  /** Co-Z addition: p1 keeps standing for its point and p2 becomes the sum, both with
      x2 - x1 more in the factor. */
  method XyczAdd(p1: EccPoint, p2: EccPoint, mod: array<word>, size: nat,
                 ghost x1: int, ghost y1: int, ghost x2: int, ghost y2: int, ghost p: int)
    requires IsModulus(mod, size, p)
    requires Separate(p1, mod) && Separate(p2, mod)
    requires p1.x != p2.x && p1.x != p2.y && p1.y != p2.x && p1.y != p2.y
    requires Coordinates(p1, size, x1, y1, p) && Coordinates(p2, size, x2, y2, p)
    modifies p1.x, p1.y, p2.x, p2.y
    ensures p > 0 && size <= 8
    ensures Coordinates(p1, size, Val(p1.x[..size]), Val(p1.y[..size]), p)
    ensures Coordinates(p2, size, Val(p2.x[..size]), Val(p2.y[..size]), p)
    ensures CoZ(x1, y1, x2, y2, Val(p1.x[..size]), Val(p1.y[..size]), Val(p2.x[..size]), Val(p2.y[..size]), p)
  {
    hide Val, Holds, Coordinates, Cong, CoZ, Prod, IsModulus;
    ModulusFacts(mod, size, p);
    CoordinatesHold(p1, size, x1, y1, p);
    CoordinatesHold(p2, size, x2, y2, p);
    ghost var dd := Prod(x2 - x1, x2 - x1);
    ghost var a, b := Prod(x1, dd), Prod(x2, dd);
    var tmp := new word[ECC_MAX_SIZE];
    CoZSquares(p1.x, p1.y, p2.x, p2.y, tmp, mod, size, x1, y1, x2, y2, p);
    ghost var u := CoZSum(p1.x, p1.y, p2.x, p2.y, tmp, mod, size, a, b, y1, y2 - y1, p);
    CoordinatesNow(p1, size, a, Prod(y1, b - a), p);
    CoordinatesNow(p2, size, u, Prod(y2 - y1, a - u) - Prod(y1, b - a), p);
    CoZFrom(x1, y1, x2, y2, Val(p1.x[..size]), Val(p1.y[..size]), u, Val(p2.y[..size]), p);
  }

  /** The other lines of the addition, for a = x1 d^2, b = x2 d^2 and r = y2 - y1. */
  method CoZSum(p1x: array<word>, p1y: array<word>, p2x: array<word>, p2y: array<word>, tmp: array<word>,
                mod: array<word>, size: nat, ghost a: int, ghost b: int, ghost y1: int, ghost r: int, ghost p: int)
    returns (ghost u: int)
    requires IsModulus(mod, size, p) && size <= tmp.Length
    requires p1x != p1y && p1x != p2x && p1x != p2y && p1y != p2x && p1y != p2y && p2x != p2y
    requires tmp != p1x && tmp != p1y && tmp != p2x && tmp != p2y
    requires mod != p1x && mod != p1y && mod != p2x && mod != p2y && mod != tmp
    requires Holds(p1x, size, a, p) && Holds(p1y, size, y1, p) && Holds(p2x, size, b, p) && Holds(p2y, size, r, p)
    requires Holds(tmp, size, Prod(r, r), p)
    modifies p1x, p1y, p2x, p2y, tmp
    ensures Holds(p1x, size, a, p) && Holds(p1y, size, Prod(y1, b - a), p)
    ensures size <= p2x.Length && p > 0 && Val(p2x[..size]) == u
    ensures Holds(p2x, size, u, p) && Cong(u, Prod(r, r) - a - b, p)
    ensures Holds(p2y, size, Prod(r, a - u) - Prod(y1, b - a), p)
  {
    hide *;
    HoldsSize(p2x, size, b, p);
    u := CoZAbscissa(p1x, p2x, tmp, mod, size, Prod(r, r), a, b, p);
    CoZOrdinate(p1x, p1y, p2x, p2y, tmp, mod, size, a, b, y1, r, u, p);
    CopyHeld(p2x, tmp, size, u, p);
  }

  /** First lines of the addition: x1 d^2, x2 d^2, r and r^2 with d = x2 - x1, r = y2 - y1. */
  method CoZSquares(p1x: array<word>, p1y: array<word>, p2x: array<word>, p2y: array<word>, tmp: array<word>,
                    mod: array<word>, size: nat, ghost x1: int, ghost y1: int, ghost x2: int, ghost y2: int,
                    ghost p: int)
    requires IsModulus(mod, size, p) && size <= tmp.Length
    requires p1x != p1y && p1x != p2x && p1x != p2y && p1y != p2x && p1y != p2y && p2x != p2y
    requires tmp != p1x && tmp != p1y && tmp != p2x && tmp != p2y
    requires mod != p1x && mod != p1y && mod != p2x && mod != p2y && mod != tmp
    requires Holds(p1x, size, x1, p) && Holds(p1y, size, y1, p) && Holds(p2x, size, x2, p) && Holds(p2y, size, y2, p)
    modifies p1x, p2x, p2y, tmp
    ensures Holds(p1x, size, Prod(x1, Prod(x2 - x1, x2 - x1)), p)
    ensures Holds(p2x, size, Prod(x2, Prod(x2 - x1, x2 - x1)), p)
    ensures Holds(p2y, size, y2 - y1, p)
    ensures Holds(tmp, size, Prod(y2 - y1, y2 - y1), p)
  {
    hide *;
    HoldsSize(p1x, size, x1, p);
    HoldsSize(p2x, size, x2, p);
    HoldsSize(p2y, size, y2, p);
    ghost var d, dd := x2 - x1, Prod(x2 - x1, x2 - x1);
    Minus(tmp, p2x, p1x, mod, size, x2, x1, p);
    Mul(tmp, tmp, tmp, mod, size, d, d, p);
    Mul(p1x, p1x, tmp, mod, size, x1, dd, p);
    Mul(p2x, p2x, tmp, mod, size, x2, dd, p);
    Minus(p2y, p2y, p1y, mod, size, y2, y1, p);
    Mul(tmp, p2y, p2y, mod, size, y2 - y1, y2 - y1, p);
  }

  /** The abscissa of the sum, r^2 - a - b, left in tmp; p2x becomes b - a. */
  method CoZAbscissa(p1x: array<word>, p2x: array<word>, tmp: array<word>, mod: array<word>, size: nat,
                     ghost rr: int, ghost a: int, ghost b: int, ghost p: int) returns (ghost u: int)
    requires IsModulus(mod, size, p)
    requires p1x != p2x && tmp != p1x && tmp != p2x && mod != p1x && mod != p2x && mod != tmp
    requires Holds(tmp, size, rr, p) && Holds(p1x, size, a, p) && Holds(p2x, size, b, p)
    modifies p2x, tmp
    ensures p > 0 && Cong(u, rr - a - b, p)
    ensures Holds(tmp, size, u, p) && Val(tmp[..size]) == u
    ensures Holds(p2x, size, b - a, p)
  {
    hide *;
    HoldsSize(tmp, size, rr, p);
    HoldsSize(p2x, size, b, p);
    Minus(tmp, tmp, p1x, mod, size, rr, a, p);
    Minus(tmp, tmp, p2x, mod, size, rr - a, b, p);
    u := Val(tmp[..size]);
    HoldsValue(tmp, size, rr - a - b, p);
    HoldsItself(tmp, size, p);
    Minus(p2x, p2x, p1x, mod, size, b, a, p);
  }

  /** The ordinates: p1y becomes y1 (b - a) and p2y becomes r (a - u) - y1 (b - a). */
  method CoZOrdinate(p1x: array<word>, p1y: array<word>, p2x: array<word>, p2y: array<word>, tmp: array<word>,
                     mod: array<word>, size: nat,
                     ghost a: int, ghost b: int, ghost y1: int, ghost r: int, ghost u: int, ghost p: int)
    requires IsModulus(mod, size, p)
    requires p1x != p1y && p1x != p2x && p1x != p2y && p1y != p2x && p1y != p2y && p2x != p2y
    requires tmp != p1x && tmp != p1y && tmp != p2x && tmp != p2y
    requires mod != p1x && mod != p1y && mod != p2x && mod != p2y && mod != tmp
    requires Holds(p1x, size, a, p) && Holds(p1y, size, y1, p) && Holds(p2x, size, b - a, p)
    requires Holds(p2y, size, r, p) && Holds(tmp, size, u, p)
    modifies p1y, p2x, p2y
    ensures Holds(p1y, size, Prod(y1, b - a), p)
    ensures Holds(p2y, size, Prod(r, a - u) - Prod(y1, b - a), p)
  {
    hide *;
    HoldsSize(p1y, size, y1, p);
    HoldsSize(p2x, size, b - a, p);
    HoldsSize(p2y, size, r, p);
    Mul(p1y, p1y, p2x, mod, size, y1, b - a, p);
    Minus(p2x, p1x, tmp, mod, size, a, u, p);
    Mul(p2y, p2y, p2x, mod, size, r, a - u, p);
    Minus(p2y, p2y, p1y, mod, size, Prod(r, a - u), Prod(y1, b - a), p);
  }

  lemma HoldsSize(a: array<word>, size: nat, e: int, p: int)
    requires Holds(a, size, e, p)
    ensures size <= a.Length
  {}

  lemma CubeOf(x1: int, x2: int, y1: int)
    ensures y1 * (x2 * ((x2 - x1) * (x2 - x1)) - x1 * ((x2 - x1) * (x2 - x1)))
         == y1 * ((x2 - x1) * (x2 - x1) * (x2 - x1))
  {
    var d := x2 - x1;
    Distribute(x2, x1, d * d);
    assert d * (d * d) == d * d * d;
  }

  lemma CoZFrom(x1: int, y1: int, x2: int, y2: int, u1: int, v1: int, u2: int, v2: int, p: int)
    requires p > 0
    requires var dd := Prod(x2 - x1, x2 - x1);
             var a, b := Prod(x1, dd), Prod(x2, dd);
             && Cong(u1, a, p) && Cong(v1, Prod(y1, b - a), p)
             && Cong(u2, Prod(y2 - y1, y2 - y1) - a - b, p)
             && Cong(v2, Prod(y2 - y1, a - u2) - Prod(y1, b - a), p)
    ensures CoZ(x1, y1, x2, y2, u1, v1, u2, v2, p)
  {
    hide Cong;
    CubeOf(x1, x2, y1);
  }

  /** Scaling by z^2 and z^3. */
  method ApplyZ(q: EccPoint, z: array<word>, mod: array<word>, size: nat,
                ghost x: int, ghost y: int, ghost e: int, ghost p: int)
    requires IsModulus(mod, size, p) && Separate(q, mod)
    requires z != q.x && z != q.y
    requires Coordinates(q, size, x, y, p) && Holds(z, size, e, p)
    modifies q.x, q.y
    ensures p > 0 && size <= 8
    ensures Coordinates(q, size, Val(q.x[..size]), Val(q.y[..size]), p)
    ensures Cong(Val(q.x[..size]), x * (e * e), p)
    ensures Cong(Val(q.y[..size]), y * (e * e * e), p)
  {
    hide Val, Cong, Holds, IsModulus, Prod;
    ModulusFacts(mod, size, p);
    PowersOf(x, y, e);
    ghost var e2 := Prod(e, e);
    var tmp := new word[ECC_MAX_SIZE];
    Mul(tmp, z, z, mod, size, e, e, p);
    Mul(q.x, q.x, tmp, mod, size, x, e2, p);
    Mul(tmp, tmp, z, mod, size, e2, e, p);
    Mul(q.y, q.y, tmp, mod, size, y, Prod(e2, e), p);
    CoordinatesNow(q, size, Prod(x, e2), Prod(y, Prod(e2, e)), p);
  }

  lemma PowersOf(x: int, y: int, e: int)
    ensures Prod(x, Prod(e, e)) == x * (e * e)
    ensures Prod(y, Prod(Prod(e, e), e)) == y * (e * e * e)
  {}

  /** Doubling, for a curve with a = -3; a zero factor is left alone. */
  method PointDoubleJacobian(q: EccPoint, z: array<word>, mod: array<word>, size: nat,
                             ghost x: int, ghost y: int, ghost e: int, ghost p: int)
    requires IsModulus(mod, size, p) && Separate(q, mod)
    requires z != q.x && z != q.y && z != mod
    requires Coordinates(q, size, x, y, p) && Holds(z, size, e, p)
    modifies q.x, q.y, z
    ensures p > 0 && size <= 8 && size <= z.Length
    ensures Coordinates(q, size, Val(q.x[..size]), Val(q.y[..size]), p)
    ensures Holds(z, size, Val(z[..size]), p)
    ensures e % p == 0 ==> Coordinates(q, size, x, y, p) && Val(z[..size]) == 0
    ensures e % p != 0 ==>
              exists h :: Doubled(x, y, e, h, Val(q.x[..size]), Val(q.y[..size]), Val(z[..size]), p)
  {
    hide Val, Holds, Coordinates, Cong, Doubled, Prod, IsModulus;
    ModulusFacts(mod, size, p);
    HoldsValue(z, size, e, p);
    CoordinatesHold(q, size, x, y, p);
    var zero := IsZero(z, size);
    if zero {
      HoldsItself(z, size, p);
      return;
    }
    ghost var h := DoubleArrays(q.x, q.y, z, mod, size, x, y, e, p);
    CoordinatesNow(q, size, Val(q.x[..size]), Val(q.y[..size]), p);
  }

  /** The doubling on the coordinate arrays. */
  method DoubleArrays(qx: array<word>, qy: array<word>, z: array<word>, mod: array<word>, size: nat,
                      ghost x: int, ghost y: int, ghost e: int, ghost p: int) returns (ghost h: int)
    requires IsModulus(mod, size, p)
    requires qx != qy && qx != z && qy != z && mod != qx && mod != qy && mod != z
    requires Holds(qx, size, x, p) && Holds(qy, size, y, p) && Holds(z, size, e, p)
    modifies qx, qy, z
    ensures p > 0 && size <= qx.Length && size <= qy.Length && size <= z.Length
    ensures Holds(qx, size, Val(qx[..size]), p) && Holds(qy, size, Val(qy[..size]), p)
    ensures Holds(z, size, Val(z[..size]), p)
    ensures Doubled(x, y, e, h, Val(qx[..size]), Val(qy[..size]), Val(z[..size]), p)
  {
    hide *;
    ModulusFacts(mod, size, p);
    HoldsSize(z, size, e, p);
    var t4, t5 := new word[ECC_MAX_SIZE], new word[ECC_MAX_SIZE];
    ghost var yy, zz := Prod(y, y), Prod(e, e);
    ghost var a, y4 := Prod(x, yy), Prod(yy, yy);
    ghost var m := Prod(x + zz, x + zz - (zz + zz));
    DoubleSquares(qx, qy, z, t4, t5, mod, size, x, y, e, p);
    SquareDifference(qx, z, mod, size, x, zz, p);
    h := DoubleTail(qx, qy, z, t4, t5, mod, size, m, a, y4, Prod(y, e), p);
    DoubledFrom(x, y, e, h, Val(qx[..size]), Val(qy[..size]), Val(z[..size]), p);
  }

  /** t4 = y^4, t5 = x y^2, y becomes y z and z becomes z^2. */
  method DoubleSquares(qx: array<word>, qy: array<word>, z: array<word>, t4: array<word>, t5: array<word>,
                       mod: array<word>, size: nat, ghost x: int, ghost y: int, ghost e: int, ghost p: int)
    requires IsModulus(mod, size, p) && size <= t4.Length && size <= t5.Length
    requires qx != qy && qx != z && qx != t4 && qx != t5 && qy != z && qy != t4 && qy != t5 && z != t4 && z != t5
        && t4 != t5
    requires mod != qx && mod != qy && mod != z && mod != t4 && mod != t5
    requires Holds(qx, size, x, p) && Holds(qy, size, y, p) && Holds(z, size, e, p)
    modifies qy, z, t4, t5
    ensures Holds(qy, size, Prod(y, e), p) && Holds(z, size, Prod(e, e), p)
    ensures Holds(t4, size, Prod(Prod(y, y), Prod(y, y)), p)
    ensures Holds(t5, size, Prod(x, Prod(y, y)), p)
  {
    hide *;
    HoldsSize(qy, size, y, p);
    HoldsSize(z, size, e, p);
    ghost var yy := Prod(y, y);
    Mul(t4, qy, qy, mod, size, y, y, p);
    Mul(t5, qx, t4, mod, size, x, yy, p);
    Mul(t4, t4, t4, mod, size, yy, yy, p);
    Mul(qy, qy, z, mod, size, y, e, p);
    Mul(z, z, z, mod, size, e, e, p);
  }

  /** x becomes (x + z^2) (x - z^2). */
  method SquareDifference(qx: array<word>, z: array<word>, mod: array<word>, size: nat,
                          ghost x: int, ghost zz: int, ghost p: int)
    requires IsModulus(mod, size, p) && qx != z && mod != qx && mod != z
    requires Holds(qx, size, x, p) && Holds(z, size, zz, p)
    modifies qx, z
    ensures Holds(qx, size, Prod(x + zz, x + zz - (zz + zz)), p)
  {
    hide *;
    HoldsSize(qx, size, x, p);
    HoldsSize(z, size, zz, p);
    Plus(qx, qx, z, mod, size, x, zz, p);
    Plus(z, z, z, mod, size, zz, zz, p);
    Minus(z, qx, z, mod, size, x + zz, zz + zz, p);
    Mul(qx, qx, z, mod, size, x + zz, x + zz - (zz + zz), p);
  }

  /** x becomes h with 2 h = 3 m, and z the new abscissa h^2 - 2 a. */
  method DoubleAbscissa(qx: array<word>, z: array<word>, t5: array<word>, mod: array<word>, size: nat,
                        ghost m: int, ghost a: int, ghost p: int) returns (ghost h: int, ghost u: int)
    requires IsModulus(mod, size, p) && size <= z.Length
    requires qx != z && qx != t5 && z != t5 && mod != qx && mod != z && mod != t5
    requires Holds(qx, size, m, p) && Holds(t5, size, a, p)
    modifies qx, z
    ensures p > 0 && Cong(2 * h, m + (m + m), p) && Cong(u, Prod(h, h) - a - a, p)
    ensures Holds(qx, size, h, p) && Holds(z, size, u, p) && Val(z[..size]) == u
  {
    hide *;
    HoldsSize(qx, size, m, p);
    Plus(z, qx, qx, mod, size, m, m, p);
    Plus(qx, qx, z, mod, size, m, m + m, p);
    Half(qx, mod, size, m + (m + m), p);
    h := Val(qx[..size]);
    Mul(z, qx, qx, mod, size, h, h, p);
    Minus(z, z, t5, mod, size, Prod(h, h), a, p);
    Minus(z, z, t5, mod, size, Prod(h, h) - a, a, p);
    u := Val(z[..size]);
    HoldsValue(z, size, Prod(h, h) - a - a, p);
    HoldsItself(z, size, p);
  }

  /** The second part of the doubling, from m = x^2 - z^4 on. */
  method DoubleTail(qx: array<word>, qy: array<word>, z: array<word>, t4: array<word>, t5: array<word>,
      mod: array<word>,
                    size: nat, ghost m: int, ghost a: int, ghost y4: int, ghost yz: int, ghost p: int)
                        returns (ghost h: int)
    requires IsModulus(mod, size, p) && size <= z.Length
    requires qx != qy && qx != z && qx != t4 && qx != t5 && qy != z && qy != t4 && qy != t5 && z != t4 && z != t5
        && t4 != t5
    requires mod != qx && mod != qy && mod != z && mod != t4 && mod != t5
    requires Holds(qx, size, m, p) && Holds(qy, size, yz, p)
    requires Holds(t4, size, y4, p) && Holds(t5, size, a, p)
    modifies qx, qy, z, t4, t5
    ensures p > 0 && size <= qx.Length && size <= qy.Length
    ensures Holds(qx, size, Val(qx[..size]), p) && Holds(qy, size, Val(qy[..size]), p)
    ensures Holds(z, size, Val(z[..size]), p)
    ensures Cong(2 * h, m + (m + m), p)
    ensures Cong(Val(qx[..size]), Prod(h, h) - a - a, p)
    ensures Cong(Val(qy[..size]), Prod(h, a - Val(qx[..size])) - y4, p)
    ensures Cong(Val(z[..size]), yz, p)
  {
    hide *;
    HoldsSize(t4, size, y4, p);
    HoldsSize(t5, size, a, p);
    HoldsSize(qx, size, m, p);
    HoldsSize(qy, size, yz, p);
    ghost var u;
    h, u := DoubleAbscissa(qx, z, t5, mod, size, m, a, p);
    Minus(t5, t5, z, mod, size, a, u, p);
    Mul(qx, qx, t5, mod, size, h, a - u, p);
    Minus(t4, qx, t4, mod, size, Prod(h, a - u), y4, p);

    CopyHeld(qx, z, size, u, p);
    CopyHeld(z, qy, size, yz, p);
    CopyHeld(qy, t4, size, Prod(h, a - u) - y4, p);
    HoldsValue(qy, size, Prod(h, a - u) - y4, p);
    HoldsItself(qy, size, p);
    HoldsValue(z, size, yz, p);
    HoldsItself(z, size, p);
  }

  lemma DoubledFrom(x: int, y: int, z: int, h: int, u: int, v: int, w: int, p: int)
    requires p > 0
    requires var zz := Prod(z, z); var m := Prod(x + zz, x + zz - (zz + zz)); Cong(2 * h, m + (m + m), p)
    requires var a := Prod(x, Prod(y, y)); Cong(u, Prod(h, h) - a - a, p)
    requires var a := Prod(x, Prod(y, y)); Cong(v, Prod(h, a - u) - Prod(Prod(y, y), Prod(y, y)), p)
    requires Cong(w, Prod(y, z), p)
    ensures Doubled(x, y, z, h, u, v, w, p)
  {
    hide Cong;
    DifferenceOfSquares(x, z * z);
  }

  lemma DifferenceOfSquares(x: int, s: int)
    ensures (x + s) * (x + s - (s + s)) == x * x - s * s
  {}
}
