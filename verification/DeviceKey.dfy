/** The device-key check: an ECDSA-style verification over one of the two curves. */
module DeviceKey {
  import opened Arith
  import opened Words
  import opened Endian
  import opened Limbs
  import opened Bigint
  import opened BigintMod
  import opened BigintModMult
  import opened Modular
  import opened Curve
  import opened Field
  import opened Ecc
  import opened Ladder
  import opened Verify
  import Fast128
  import Fast256

  /** What the check depends on: prime, order, generator. */
  datatype Domain = Domain(size: nat, p: nat, n: nat, g: Point)

  const DOMAIN_128: Domain := Domain(4, Fast128.P128, N128, G128)
  const DOMAIN_256: Domain := Domain(8, Fast256.P256, N256, G256)

  function MulMod(x: nat, y: nat, n: nat): (r: nat)
    requires n > 0
    ensures r < n
  {
    x * y % n
  }

  /** The number in `size` words of a byte buffer, from byte `off` on. */
  function Number(buf: seq<byte>, off: nat, size: nat): (n: nat)
    requires off + 4 * size <= |buf|
  {
    ValBound(ToWords(buf[off..off + 4 * size]));
    Val(ToWords(buf[off..off + 4 * size]))
  }

  ghost predicate InRange(r: int, s: int, n: int)
  {
    0 < r < n && 0 < s < n
  }

  /** The public key is a reduced affine point over a prime field with a prime order. */
  ghost predicate Usable(d: Domain, q: Point)
  {
    && IsField(d.p) && IsPrime(d.n) && Reduced(d.g, d.p) && d.g.Affine?
    && q.Affine? && Reduced(q, d.p)
  }

  /** The ladder meets no exceptional step, so that its inversions end. */
  ghost predicate Completes(d: Domain, q: Point, u1: nat, u2: nat)
    requires Usable(d, q)
  {
    u1 > 0 || u2 > 0 ==> Regular(u1, u2, TopBitOf(u1, u2), d.g, q, d.p)
  }

  /** The signature equation: the abscissa of u1 g + u2 q is r modulo n, for
      u1 = h s and u2 = r s modulo n. */
  ghost predicate Accepts(d: Domain, q: Point, h: nat, r: nat, s: nat)
    requires d.n > 0 && Usable(d, q)
  {
    && InRange(r, s, d.n)
    && (MulMod(h, s, d.n) > 0 || MulMod(r, s, d.n) > 0)
    && var t := LadderPoint(MulMod(h, s, d.n), MulMod(r, s, d.n), d.g, q, d.p);
       t.Affine? && Cong(t.x, r, d.n)
  }

  /** Scalars in range give a nonzero second scalar modulo a prime order. */
  lemma SecondScalarNonzero(r: nat, s: nat, n: nat)
    requires IsPrime(n) && InRange(r, s, n)
    ensures MulMod(r, s, n) > 0
  {
    if r * s % n == 0 {
      PrimeDivides(n, r, s);
      DivModUnique(r, n, 0, r);
      DivModUnique(s, n, 0, s);
    }
  }

  /** The last comparison: subtracting n once is enough when x < 2 n, and the boundary
      x = n, which is not reduced, never matches. */
  lemma AbscissaMatches(x: nat, r: nat, n: nat)
    requires 0 < r < n && x < 2 * n
    ensures (if x > n then x - n else x) == r <==> Cong(x, r, n)
  {
    var y := if x > n then x - n else x;
    CongBy(x, y, n, if x > n then 1 else 0);
    CongSym(x, y, n);
    if y == r {
    } else if Cong(x, r, n) {
      CongTrans(y, x, r, n);
      if y < n {
        CongUnique(y, r, n);
      } else {
        CongBy(n, 0, n, 1);
        CongSym(n, 0, n);
        CongTrans(0, n, r, n);
        CongUnique(0, r, n);
      }
    }
  }

  /** Reads a number out of a byte buffer into limbs: the cast `(uint32_t *)(buf + off)`. */
  method Load(buf: array<byte>, ghost b: seq<byte>, off: nat, size: nat) returns (a: array<word>)
    requires off + 4 * size <= buf.Length && buf[..] == b
    ensures fresh(a) && a.Length == size
    ensures Val(a[..size]) == Number(b, off, size) >= 0
  {
    hide Val, ToWords;
    var w := ToWords(buf[off..off + 4 * size]);
    ValBound(w);
    assert b[off..off + 4 * size] == buf[off..off + 4 * size];
    assert Number(b, off, size) == Val(w) >= 0;
    hide Number;
    a := new word[size];
    forall j | 0 <= j < size {
      a[j] := w[j];
    }
    assert a[..size] == w;
  }

  /** The coordinates of the public key. */
  ghost function KeyPoint(pkey: seq<word>, size: nat): Point
    requires 2 * size <= |pkey|
  {
    Affine(Val(pkey[..size]), Val(pkey[size..2 * size]))
  }

  /** curve is loaded with the constants of d. */
  ghost predicate IsDomain(curve: EccCurve, d: Domain)
    reads curve.p, curve.n, curve.g.x, curve.g.y
  {
    && (d == DOMAIN_128 || d == DOMAIN_256)
    && curve.size == d.size && IsModulus(curve.p, d.size, d.p)
    && curve.n.Length == 8 && Val(curve.n[..d.size]) == d.n && curve.n[d.size - 1] != 0
    && Separate(curve.g, curve.p) && curve.g.x != curve.n && curve.g.y != curve.n
    && PointOf(curve.g, d.size) == d.g
  }

  lemma DomainFacts(d: Domain)
    requires d == DOMAIN_128 || d == DOMAIN_256
    ensures 0 < d.size <= 8 && 0 < d.n && d.p < 2 * d.n && 1 < d.p
    ensures d.g.Affine? && Reduced(d.g, d.p)
  {}

  lemma DomainIsCurve(curve: EccCurve, d: Domain)
    requires IsDomain(curve, d)
    ensures IsCurve(curve, d.g, d.p)
  {
    hide Val, Cong;
    DomainFacts(d);
    HoldsItself(curve.g.x, d.size, d.p);
    HoldsItself(curve.g.y, d.size, d.p);
  }

  /** key.x and key.y from the two halves of the public key. */
  method LoadKey(pkey: array<word>, size: nat, ghost p: int) returns (key: EccPoint)
    requires size <= 8 && 2 * size <= pkey.Length
    requires p > 0 && Reduced(KeyPoint(pkey[..], size), p)
    ensures fresh(key.x) && fresh(key.y) && key.x != key.y && key.x.Length == key.y.Length == 8
    ensures HoldsPoint(key, size, KeyPoint(pkey[..], size), p)
  {
    assert ECC_MAX_SIZE == 8;
    ghost var k := pkey[..];
    key := new EccPoint();
    forall j | 0 <= j < size {
      key.x[j] := pkey[j];
    }
    forall j | 0 <= j < size {
      key.y[j] := pkey[size + j];
    }
    assert pkey[..] == k;
    assert key.x[..size] == k[..size];
    assert key.y[..size] == k[size..2 * size];
    hide Val, Cong;
    HoldsItself(key.x, size, p);
    HoldsItself(key.y, size, p);
  }

  /** The check for one curve. */
  method CheckOnCurve(curve: EccCurve, pkey: array<word>, hkey: array<byte>, skey: array<byte>, bytes: nat,
                      ghost d: Domain, ghost pk: seq<word>, ghost hk: seq<byte>, ghost sk: seq<byte>)
    returns (ends: bool, ok: bool)
    requires IsDomain(curve, d)
    requires pkey[..] == pk && hkey[..] == hk && skey[..] == sk
    requires 2 * d.size <= |pk| && 4 * d.size <= |hk| && bytes + 4 * d.size <= |sk| && d.n > 0
    requires Checkable(d, pk, hk, sk, bytes)
    ensures ends <==> Finishes(d, pk, hk, sk, bytes)
    ensures ends ==> (ok <==> Genuine(d, pk, hk, sk, bytes))
  {
    hide *;
    DomainOrder(curve, d);
    var size := curve.size;
    var r, s := LoadSignature(skey, bytes, size, sk);
    ends := true;
    ok := RangeCheck(r, s, curve.n, size, d.n);
    if ok {
      ends, ok := CheckInRange(curve, pkey, hkey, r, s, bytes, d, pk, hk, sk);
    } else {
      OutOfRange(d, pk, hk, sk, bytes);
    }
  }

  /** The two halves of the signature. */
  method LoadSignature(skey: array<byte>, bytes: nat, size: nat, ghost sk: seq<byte>)
      returns (r: array<word>, s: array<word>)
    requires skey[..] == sk && 4 * size <= |sk| && bytes + 4 * size <= |sk|
    ensures fresh(r) && fresh(s) && r.Length == size && s.Length == size
    ensures Val(r[..size]) == Number(sk, 0, size) && Val(s[..size]) == Number(sk, bytes, size)
  {
    hide *;
    r := Load(skey, sk, 0, size);
    s := Load(skey, sk, bytes, size);
  }

  /** The rest of the check, for signature numbers in range. */
  method CheckInRange(curve: EccCurve, pkey: array<word>, hkey: array<byte>, r: array<word>, s: array<word>,
                      ghost bytes: nat, ghost d: Domain, ghost pk: seq<word>, ghost hk: seq<byte>, ghost sk: seq<byte>)
    returns (ends: bool, ok: bool)
    requires IsDomain(curve, d) && pkey[..] == pk && hkey[..] == hk
    requires 2 * d.size <= |pk| && 4 * d.size <= |hk| && bytes + 4 * d.size <= |sk| && d.n > 0
    requires d.size <= r.Length && d.size <= s.Length
    requires Val(r[..d.size]) == Number(sk, 0, d.size) && Val(s[..d.size]) == Number(sk, bytes, d.size)
    requires InRange(Number(sk, 0, d.size), Number(sk, bytes, d.size), d.n)
    requires Checkable(d, pk, hk, sk, bytes)
    ensures ends <==> Finishes(d, pk, hk, sk, bytes)
    ensures ends ==> (ok <==> Genuine(d, pk, hk, sk, bytes))
  {
    DomainFacts(d);
    DomainOrder(curve, d);
    ghost var h, rv, sv := Number(hk, 0, d.size), Number(sk, 0, d.size), Number(sk, bytes, d.size);
    GenuineInRange(d, pk, hk, sk, bytes, h, rv, sv);
    hide *;
    var size := curve.size;
    var x;
    ok := false;
    ends, x := KeyAbscissa(curve, pkey, hkey, r, s, d, pk, hk, h, rv, sv);
    if ends {
      ok := MatchAbscissa(x, r, curve.n, size, d.n);
    }
  }

  lemma DomainOrder(curve: EccCurve, d: Domain)
    requires IsDomain(curve, d)
    ensures curve.size == d.size <= 8 && curve.n.Length == 8 && Val(curve.n[..d.size]) == d.n
  {
    hide Val;
  }

  lemma OutOfRange(d: Domain, pkey: seq<word>, hkey: seq<byte>, skey: seq<byte>, bytes: nat)
    requires 2 * d.size <= |pkey| && 4 * d.size <= |hkey| && bytes + 4 * d.size <= |skey| && d.n > 0
    requires Checkable(d, pkey, hkey, skey, bytes)
    requires !InRange(Number(skey, 0, d.size), Number(skey, bytes, d.size), d.n)
    ensures Finishes(d, pkey, hkey, skey, bytes) && !Genuine(d, pkey, hkey, skey, bytes)
  {}

  lemma GenuineInRange(d: Domain, pkey: seq<word>, hkey: seq<byte>, skey: seq<byte>, bytes: nat, h: int, r: int, s: int)
    requires 2 * d.size <= |pkey| && 4 * d.size <= |hkey| && bytes + 4 * d.size <= |skey| && d.n > 0
    requires Checkable(d, pkey, hkey, skey, bytes)
    requires h == Number(hkey, 0, d.size) && r == Number(skey, 0, d.size) && s == Number(skey, bytes, d.size)
    requires InRange(r, s, d.n)
    ensures 0 < r < d.n && 0 < s < d.n && h >= 0 && Usable(d, KeyPoint(pkey, d.size))
    ensures Finishes(d, pkey, hkey, skey, bytes)
      <==> Completes(d, KeyPoint(pkey, d.size), MulMod(h, s, d.n), MulMod(r, s, d.n))
    ensures Genuine(d, pkey, hkey, skey, bytes) <==> Accepts(d, KeyPoint(pkey, d.size), h, r, s)
  {
    hide Number, Usable, Accepts, MulMod, KeyPoint, Completes;
  }

  /** r and s in [1, n - 1] */
  method RangeCheck(r: array<word>, s: array<word>, n: array<word>, size: nat, ghost order: int) returns (ok: bool)
    requires size <= r.Length && size <= s.Length && size <= n.Length && Val(n[..size]) == order
    ensures ok <==> InRange(Val(r[..size]), Val(s[..size]), order)
    ensures ok ==> 0 < Val(r[..size]) < order && 0 < Val(s[..size])
  {
    hide Val;
    ValBound(r[..size]);
    ValBound(s[..size]);
    var rZero := IsZero(r, size);
    var rCmp := Cmp(r, n, size);
    var sZero := IsZero(s, size);
    var sCmp := Cmp(s, n, size);
    ok := !(rZero || rCmp >= 0 || sZero || sCmp >= 0);
  }

  /** One subtraction of the order, then the comparison with r. */
  method MatchAbscissa(x: array<word>, r: array<word>, n: array<word>, size: nat, ghost order: int) returns (ok: bool)
    requires size <= x.Length && size <= r.Length && size <= n.Length && x != n && x != r
    requires Val(n[..size]) == order && 0 < Val(r[..size]) < order && 0 <= Val(x[..size]) < 2 * order
    modifies x
    ensures ok <==> Cong(old(Val(x[..size])), Val(r[..size]), order)
  {
    hide Val, Cong;
    AbscissaMatches(Val(x[..size]), Val(r[..size]), order);
    var nCmp := Cmp(x, n, size);
    if nCmp > 0 {
      SubtractOrder(x, n, size);
    }
    var cmp := Cmp(x, r, size);
    ok := cmp == 0;
  }

  method SubtractOrder(x: array<word>, n: array<word>, size: nat)
    requires size <= x.Length && size <= n.Length && x != n
    requires Val(x[..size]) > Val(n[..size])
    modifies x
    ensures Val(x[..size]) == old(Val(x[..size])) - Val(n[..size])
  {
    hide *;
    ValBound(x[..size]);
    ValBound(n[..size]);
    var borrow := Sub(x, x, n, size);
    ValBound(x[..size]);
    CarryValue(borrow, size);
  }

  /** The inputs the check is stated for: whenever both signature numbers are in range, the key is usable. */
  ghost predicate Checkable(d: Domain, pkey: seq<word>, hkey: seq<byte>, skey: seq<byte>, bytes: nat)
    requires 2 * d.size <= |pkey| && 4 * d.size <= |hkey| && bytes + 4 * d.size <= |skey| && d.n > 0
  {
    InRange(Number(skey, 0, d.size), Number(skey, bytes, d.size), d.n) ==> Usable(d, KeyPoint(pkey, d.size))
  }

  /** The check comes to its end. */
  ghost predicate Finishes(d: Domain, pkey: seq<word>, hkey: seq<byte>, skey: seq<byte>, bytes: nat)
    requires 2 * d.size <= |pkey| && 4 * d.size <= |hkey| && bytes + 4 * d.size <= |skey| && d.n > 0
    requires Checkable(d, pkey, hkey, skey, bytes)
  {
    var h, r, s := Number(hkey, 0, d.size), Number(skey, 0, d.size), Number(skey, bytes, d.size);
    InRange(r, s, d.n) ==> Completes(d, KeyPoint(pkey, d.size), MulMod(h, s, d.n), MulMod(r, s, d.n))
  }

  /** The signature is genuine: both numbers in range and the equation satisfied. */
  ghost predicate Genuine(d: Domain, pkey: seq<word>, hkey: seq<byte>, skey: seq<byte>, bytes: nat)
    requires 2 * d.size <= |pkey| && 4 * d.size <= |hkey| && bytes + 4 * d.size <= |skey| && d.n > 0
    requires Checkable(d, pkey, hkey, skey, bytes)
  {
    var h, r, s := Number(hkey, 0, d.size), Number(skey, 0, d.size), Number(skey, bytes, d.size);
    InRange(r, s, d.n) && Accepts(d, KeyPoint(pkey, d.size), h, r, s)
  }

  /** The abscissa of u1 g + u2 q. */
  method KeyAbscissa(curve: EccCurve, pkey: array<word>, hkey: array<byte>, r: array<word>, s: array<word>,
                     ghost d: Domain, ghost pk: seq<word>, ghost hk: seq<byte>, ghost h: nat, ghost rv: nat,
                     ghost sv: nat)
    returns (ends: bool, x: array<word>)
    requires pkey[..] == pk && hkey[..] == hk
    requires IsDomain(curve, d) && 2 * d.size <= pkey.Length && 4 * d.size <= hkey.Length
    requires d.size <= r.Length && d.size <= s.Length
    requires Val(r[..d.size]) == rv && Val(s[..d.size]) == sv && Number(hk, 0, d.size) == h
    requires d.n > 0 && InRange(rv, sv, d.n)
    requires Usable(d, KeyPoint(pk, d.size))
    ensures ends <==> Completes(d, KeyPoint(pk, d.size), MulMod(h, sv, d.n), MulMod(rv, sv, d.n))
    ensures fresh(x) && x.Length == 8
    ensures ends ==> 0 <= Val(x[..d.size]) < d.p
    ensures ends ==> (Accepts(d, KeyPoint(pk, d.size), h, rv, sv) <==> Cong(Val(x[..d.size]), rv, d.n))
  {
    DomainFacts(d);
    DomainOrder(curve, d);
    ghost var q := KeyPoint(pk, d.size);
    ghost var k1, k2 := MulMod(h, sv, d.n), MulMod(rv, sv, d.n);
    SecondScalarNonzero(rv, sv, d.n);
    hide *;
    var size := curve.size;
    var hash := Load(hkey, hk, 0, size);
    var u1 := Scalar(hash, s, curve, d, h, sv);
    var u2 := Scalar(r, s, curve, d, rv, sv);
    var p;
    ends, p := KeyMultiple(curve, pkey, u1, u2, d, pk, k1, k2);
    x := p.x;
    if ends {
      PointAbscissa(p, size, LadderPoint(k1, k2, d.g, q, d.p), d.p);
    }
  }

  /** x * y modulo the order */
  method Scalar(x: array<word>, y: array<word>, curve: EccCurve, ghost d: Domain, ghost v: nat, ghost w: nat)
    returns (u: array<word>)
    requires IsDomain(curve, d) && d.size <= x.Length && d.size <= y.Length && d.n > 0
    requires Val(x[..d.size]) == v && Val(y[..d.size]) == w
    ensures fresh(u) && u.Length == 8 && Val(u[..d.size]) == MulMod(v, w, d.n)
  {
    assert ECC_MAX_SIZE == 8;
    DomainFacts(d);
    hide Val;
    u := new word[ECC_MAX_SIZE];
    ModMult(u, x, y, curve.n, curve.size);
  }

  /** u1 * g + u2 * key */
  method KeyMultiple(curve: EccCurve, pkey: array<word>, u1: array<word>, u2: array<word>,
                     ghost d: Domain, ghost pk: seq<word>, ghost k1: nat, ghost k2: nat)
    returns (ends: bool, p: EccPoint)
    requires pkey[..] == pk && IsDomain(curve, d) && 2 * d.size <= pkey.Length
    requires d.size <= u1.Length && d.size <= u2.Length
    requires Val(u1[..d.size]) == k1 && Val(u2[..d.size]) == k2 && k2 > 0
    requires IsField(d.p) && d.g.Affine? && Reduced(d.g, d.p) && Reduced(KeyPoint(pk, d.size), d.p)
    ensures ends <==> Regular(k1, k2, TopBitOf(k1, k2), d.g, KeyPoint(pk, d.size), d.p)
    ensures fresh(p.x) && fresh(p.y) && p.x.Length == 8 && p.y.Length == 8
    ensures ends ==> HoldsPoint(p, d.size, LadderPoint(k1, k2, d.g, KeyPoint(pk, d.size), d.p), d.p)
  {
    DomainFacts(d);
    DomainIsCurve(curve, d);
    assert curve.size == d.size;
    hide Val, IsField, Regular, LadderPoint, TopBitOf, HoldsPoint, Reduced, KeyPoint, IsCurve, IsDomain;
    var key := LoadKey(pkey, curve.size, d.p);
    var q := new EccPoint();
    p := q;
    ends := PointMultShamir(p, u1, u2, key, curve, k1, k2, d.g, KeyPoint(pk, d.size), d.p);
  }

  lemma PointAbscissa(q: EccPoint, size: nat, t: Point, p: int)
    requires HoldsPoint(q, size, t, p)
    ensures t.Affine? && size <= q.x.Length && 0 <= Val(q.x[..size]) < p && Val(q.x[..size]) == t.x
  {}

  /** The device-key check; ends tells that its inversions end. Any other length than that of the two curves is
      rejected. */
  method VerifyDeviceKey(pkey: array<word>, hkey: array<byte>, skey: array<byte>, bytes: nat)
    returns (ends: bool, ok: bool)
    requires bytes / 4 == 4 ==> 8 <= pkey.Length && 16 <= hkey.Length && bytes + 16 <= skey.Length
                                && Checkable(DOMAIN_128, pkey[..], hkey[..], skey[..], bytes)
    requires bytes / 4 == 8 ==> 16 <= pkey.Length && 32 <= hkey.Length && bytes + 32 <= skey.Length
                                && Checkable(DOMAIN_256, pkey[..], hkey[..], skey[..], bytes)
    ensures ends <==>
      && (bytes / 4 == 4 ==> Finishes(DOMAIN_128, pkey[..], hkey[..], skey[..], bytes))
      && (bytes / 4 == 8 ==> Finishes(DOMAIN_256, pkey[..], hkey[..], skey[..], bytes))
    ensures ends ==> (ok <==>
      || (bytes / 4 == 4 && Genuine(DOMAIN_128, pkey[..], hkey[..], skey[..], bytes))
      || (bytes / 4 == 8 && Genuine(DOMAIN_256, pkey[..], hkey[..], skey[..], bytes)))
  {
    hide Val, Checkable, Genuine, Finishes;
    if bytes / 4 == 4 {
      var curve := new EccCurve.Curve128();
      Domain128(curve);
      ends, ok := CheckOnCurve(curve, pkey, hkey, skey, bytes, DOMAIN_128, pkey[..], hkey[..], skey[..]);
    } else if bytes / 4 == 8 {
      var curve := new EccCurve.Curve256();
      Domain256(curve);
      ends, ok := CheckOnCurve(curve, pkey, hkey, skey, bytes, DOMAIN_256, pkey[..], hkey[..], skey[..]);
    } else {
      ends, ok := true, false;
    }
  }

  lemma Domain128(curve: EccCurve)
    requires curve.size == 4 && curve.n.Length == 8 && curve.p.Length == 8
    requires Val(curve.p[..4]) == Fast128.P128 && Val(curve.n[..4]) == N128 && curve.n[3] != 0
    requires Separate(curve.g, curve.p) && Separate(curve.g, curve.n) && PointOf(curve.g, 4) == G128
    ensures IsDomain(curve, DOMAIN_128)
  {
    hide Val;
  }

  lemma Domain256(curve: EccCurve)
    requires curve.size == 8 && curve.n.Length == 8 && curve.p.Length == 8
    requires Val(curve.p[..8]) == Fast256.P256 && Val(curve.n[..8]) == N256 && curve.n[7] != 0
    requires Separate(curve.g, curve.p) && Separate(curve.g, curve.n) && PointOf(curve.g, 8) == G256
    ensures IsDomain(curve, DOMAIN_256)
  {
    hide Val;
  }

  /** A key with the abscissa of the generator: the check ends for no signature in range. */
  lemma GeneratorAbscissa(d: Domain, q: Point, h: nat, r: nat, s: nat)
    requires d.n > 0 && Usable(d, q) && q.x == d.g.x && InRange(r, s, d.n)
    ensures !Completes(d, q, MulMod(h, s, d.n), MulMod(r, s, d.n))
  {
    hide RegularDown, TopBitOf, MulMod, IsField, IsPrime, Reduced;
    SecondScalarNonzero(r, s, d.n);
  }

  // ------------------------------------------------------ in the curve group

  /** The coefficients b of the two curves. */
  const B128: int := 0xe87579c1_1079f43d_d824993c_2cee5ed3
  const B256: int := 0x5ac635d8_aa3a93e7_b3ebbd55_769886bc_651d06b0_cc53b0f6_3bce3c3e_27d2604b

  /** Both generators satisfy their curve equation. */
  lemma GeneratorsOnCurve()
    ensures OnCurve(G128, B128, Fast128.P128)
    ensures OnCurve(G256, B256, Fast256.P256)
  {
    CongBy(G128.y * G128.y, G128.x * G128.x * G128.x - 3 * G128.x + B128, Fast128.P128,
           -0x002a4e56_b9017019_e5e0b5d8_5998afb0_94f92fa6_a66d1521_d6c59912_7182b7f0);
    // the quotient, a number of 509 bits, in two halves
    var upper, lower :=
      0x12bdd1ad_23dfc833_dccf5f61_41d6bb4a_1f365dc1_430b0e60_0b52dd85_1938d2d6,
      0x933106a7_2efbf035_fdaf4396_3b37fd54_56e90c65_81a8fb7a_0d8a46a3_629f0458;
    CongBy(G256.y * G256.y, G256.x * G256.x * G256.x - 3 * G256.x + B256, Fast256.P256,
           -(upper * 0x1_00000000_00000000_00000000_00000000_00000000_00000000_00000000_00000000 + lower));
  }

  /** Both orders lie where the theorem of Hasse allows the order of a curve to lie. */
  lemma OrdersFit()
    ensures (Fast128.P128 + 1 - N128) * (Fast128.P128 + 1 - N128) <= 4 * Fast128.P128
    ensures (Fast256.P256 + 1 - N256) * (Fast256.P256 + 1 - N256) <= 4 * Fast256.P256
    ensures N128 != Fast128.P128 && N256 != Fast256.P256
  {}

  /** Where the curve law is associative, the check accepts exactly when the abscissa of
      u1 g + u2 q, a sum of group multiples, is r modulo n. */
  lemma AcceptsInGroup(d: Domain, q: Point, h: nat, r: nat, s: nat, b: int)
    requires d.n > 0 && Usable(d, q)
    requires OnCurve(d.g, b, d.p) && OnCurve(q, b, d.p) && AssociativeLaw(b, d.p)
    ensures Accepts(d, q, h, r, s) <==>
      && InRange(r, s, d.n)
      && var t := Sum(Times(MulMod(h, s, d.n), d.g, d.p), Times(MulMod(r, s, d.n), q, d.p), d.p);
         t.Affine? && Cong(t.x, r, d.n)
  {
    hide OnCurve, AssociativeLaw, LadderPoint, Sum, Times, Regular, TopBitOf, MulMod, Cong, IsField, IsPrime;
    if InRange(r, s, d.n) {
      SecondScalarNonzero(r, s, d.n);
      LadderIsScalarSum(MulMod(h, s, d.n), MulMod(r, s, d.n), d.g, q, b, d.p);
    }
  }
}
