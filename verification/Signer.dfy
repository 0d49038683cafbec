/** Who can make a signature that the check accepts: the law that ties it to a secret number. */
module Signer {
  import opened Words
  import opened Limbs
  import opened Endian
  import opened Modular
  import opened Curve
  import opened Ladder
  import opened DeviceKey

  // ------------------------------------------------------------- multiples of a point

  /** m (n q) = (m n) q */
  lemma {:induction false} TimesTimes(m: nat, n: nat, q: Point, b: int, p: int)
    requires IsField(p) && OnCurve(q, b, p) && AssociativeLaw(b, p)
    ensures Times(m, Times(n, q, p), p) == Times(m * n, q, p)
  {
    hide Sum, AssociativeLaw, OnCurve;
    OnCurveReduced(q, b, p);
    if m > 0 {
      TimesTimes(m - 1, n, q, b, p);
      TimesSum((m - 1) * n, n, q, b, p);
      assert (m - 1) * n + n == m * n;
    }
  }

  /** With n q = 0 only the residue of the factor counts. */
  lemma TimesResidue(m: nat, n: nat, q: Point, b: int, p: int)
    requires IsField(p) && OnCurve(q, b, p) && AssociativeLaw(b, p)
    requires n > 0 && Times(n, q, p) == Infinity
    ensures Times(m, q, p) == Times(m % n, q, p)
  {
    hide *;
    OnCurveReduced(q, b, p);
    var k, e, r := Divided(m, n);
    TimesSum(e, r, q, b, p);
    TimesTimes(k, n, q, b, p);
    TimesInfinity(k, p);
    AddInfinity(Times(r, q, p), p);
  }

  lemma Divided(m: nat, n: nat) returns (k: nat, e: nat, r: nat)
    requires n > 0
    ensures e == k * n && r == m % n && m == e + r
  {
    k, e, r := m / n, m - m % n, m % n;
  }

  lemma {:induction false} TimesInfinity(k: nat, p: int)
    requires IsField(p)
    ensures Times(k, Infinity, p) == Infinity
  {
    if k > 0 {
      TimesInfinity(k - 1, p);
    }
  }

  // --------------------------------------------------------------- numbers in bytes

  /** A number written with its lowest byte first. */
  function LittleEndian(b: seq<byte>): nat
  {
    if |b| == 0 then 0 else b[0] + 256 * LittleEndian(b[1..])
  }

  lemma {:induction false} WordsInBytes(b: seq<byte>)
    requires |b| % 4 == 0
    ensures Val(ToWords(b)) == LittleEndian(b)
  {
    if |b| > 0 {
      hide *;
      WordsInBytes(b[4..]);
      ValLow(ToWords(b));
      WordsFirst(b);
      FourBytes(b);
    }
  }

  lemma WordsFirst(b: seq<byte>)
    requires |b| >= 4 && |b| % 4 == 0
    ensures |ToWords(b)| > 0 && ToWords(b)[0] == WordOf(b[0], b[1], b[2], b[3])
    ensures ToWords(b)[1..] == ToWords(b[4..])
  {
    hide WordOf;
    var c := b[4..];
    forall i | 0 <= i < |ToWords(c)|
      ensures ToWords(b)[1..][i] == ToWords(c)[i]
    {
      assert c[4 * i] == b[4 * (i + 1)] && c[4 * i + 1] == b[4 * (i + 1) + 1];
      assert c[4 * i + 2] == b[4 * (i + 1) + 2] && c[4 * i + 3] == b[4 * (i + 1) + 3];
    }
  }

  lemma FourBytes(b: seq<byte>)
    requires |b| >= 4
    ensures LittleEndian(b) == WordOf(b[0], b[1], b[2], b[3]) + 0x1_0000_0000 * LittleEndian(b[4..])
  {
    assert b[1..][1..] == b[2..] && b[2..][1..] == b[3..] && b[3..][1..] == b[4..];
    assert LittleEndian(b[3..]) == b[3] + 256 * LittleEndian(b[4..]);
    assert LittleEndian(b[2..]) == b[2] + 256 * LittleEndian(b[3..]);
    assert LittleEndian(b[1..]) == b[1] + 256 * LittleEndian(b[2..]);
  }

  lemma NumberInBytes(b: seq<byte>, off: nat, size: nat)
    requires off + 4 * size <= |b|
    ensures Number(b, off, size) == LittleEndian(b[off..off + 4 * size])
  {
    WordsInBytes(b[off..off + 4 * size]);
    hide Val, ToWords, LittleEndian;
  }

  // -------------------------------------------------------------- the law of the signer

  /** What a signature multiplies the generator by, for the secret number x. */
  function Signed(h: nat, r: nat, s: nat, x: nat): nat
  {
    s * (h + r * x)
  }

  /** The two scalars of the check, brought together modulo the order. */
  lemma ScalarsMeet(h: nat, r: nat, s: nat, x: nat, n: nat)
    requires n > 0
    ensures Cong(MulMod(h, s, n) + MulMod(r, s, n) * x, Signed(h, r, s, x), n)
  {
    hide Cong;
    CongMod(h * s, n);
    CongMod(r * s, n);
    CongScale(x, MulMod(r, s, n), r * s, n);
    CongAddUp(MulMod(h, s, n), h * s, x * MulMod(r, s, n), x * (r * s), n);
    assert h * s + x * (r * s) == s * (h + r * x) by { Collect(h, r, s, x); }
    assert x * MulMod(r, s, n) == MulMod(r, s, n) * x;
  }

  lemma Collect(h: nat, r: nat, s: nat, x: nat)
    ensures h * s + x * (r * s) == s * (h + r * x)
  {}

  lemma CongAddUp(x: int, y: int, u: int, v: int, m: int)
    requires m > 0 && Cong(x, y, m) && Cong(u, v, m)
    ensures Cong(x + u, y + v, m)
  {
    CongScale(-1, u, v, m);
    CongAdd(x, y, -1 * u, -1 * v, m);
  }

  lemma SumOfMultiples(u1: nat, u2: nat, x: nat, e: nat, m: nat, n: nat, g: Point, b: int, p: int)
    requires IsField(p) && OnCurve(g, b, p) && AssociativeLaw(b, p) && n > 0
    requires e == u2 * x && (u1 + e) % n == m % n
    ensures Reduced(g, p)
    ensures Times(n, g, p) == Infinity ==> Sum(Times(u1, g, p), Times(u2, Times(x, g, p), p), p) == Times(m, g, p)
  {
    hide *;
    OnCurveReduced(g, b, p);
    TimesTimes(u2, x, g, b, p);
    TimesSum(u1, e, g, b, p);
    if Times(n, g, p) == Infinity {
      TimesResidue(u1 + e, n, g, b, p);
      TimesResidue(m, n, g, b, p);
    }
  }

  /** For a key x g the sum of the check is one multiple of the generator. */
  lemma SumIsMultiple(d: Domain, h: nat, r: nat, s: nat, x: nat, b: int)
    requires d.n > 0 && IsField(d.p) && OnCurve(d.g, b, d.p) && AssociativeLaw(b, d.p)
    requires Reduced(d.g, d.p) && Times(d.n, d.g, d.p) == Infinity
    ensures Sum(Times(MulMod(h, s, d.n), d.g, d.p), Times(MulMod(r, s, d.n), Times(x, d.g, d.p), d.p), d.p)
         == Times(Signed(h, r, s, x), d.g, d.p)
  {
    hide *;
    var u1, u2 := MulMod(h, s, d.n), MulMod(r, s, d.n);
    ScalarsMeet(h, r, s, x, d.n);
    CongResidue(u1 + u2 * x, Signed(h, r, s, x), d.n);
    SumOfMultiples(u1, u2, x, u2 * x, Signed(h, r, s, x), d.n, d.g, b, d.p);
  }

  /** The key and the signature, as they lie in the buffers: the abscissa in the first words of the key, the ordinate
      behind it; r in the first bytes of the signature, s from byte `bytes` on. */
  ghost predicate Lies(d: Domain, pkey: seq<word>, hkey: seq<byte>, skey: seq<byte>, bytes: nat,
                       q: Point, h: nat, r: nat, s: nat)
    requires 2 * d.size <= |pkey| && 4 * d.size <= |hkey| && bytes + 4 * d.size <= |skey|
  {
    && q.Affine? && Val(pkey[..d.size]) == q.x && Val(pkey[d.size..2 * d.size]) == q.y
    && LittleEndian(hkey[..4 * d.size]) == h && LittleEndian(skey[..4 * d.size]) == r
    && LittleEndian(skey[bytes..bytes + 4 * d.size]) == s
  }

  /** The check accepts, for a key x g, exactly the signatures with r the abscissa of s (h + r x) g modulo the order. */
  lemma AcceptedIsSigned(d: Domain, pkey: seq<word>, hkey: seq<byte>, skey: seq<byte>, bytes: nat,
                         q: Point, h: nat, r: nat, s: nat, x: nat, b: int)
    requires 2 * d.size <= |pkey| && 4 * d.size <= |hkey| && bytes + 4 * d.size <= |skey| && d.n > 0
    requires IsField(d.p) && IsPrime(d.n) && d.g.Affine? && OnCurve(d.g, b, d.p) && AssociativeLaw(b, d.p)
    requires Reduced(d.g, d.p) && Times(d.n, d.g, d.p) == Infinity
    requires Lies(d, pkey, hkey, skey, bytes, q, h, r, s) && q == Times(x, d.g, d.p)
    ensures Checkable(d, pkey, hkey, skey, bytes)
    ensures Genuine(d, pkey, hkey, skey, bytes) <==>
      && 0 < r < d.n && 0 < s < d.n
      && var t := Times(Signed(h, r, s, x), d.g, d.p); t.Affine? && Cong(t.x, r, d.n)
  {
    hide Sum, AssociativeLaw, OnCurve, Times, Cong, MulMod, Val, LittleEndian, Number, Accepts;
    NumberInBytes(hkey, 0, d.size);
    NumberInBytes(skey, 0, d.size);
    NumberInBytes(skey, bytes, d.size);
    TimesOnCurve(x, d.g, b, d.p);
    AcceptsInGroup(d, q, h, r, s, b);
    SumIsMultiple(d, h, r, s, x, b);
  }

  /** So whoever knows x signs: with k of his choice, r the abscissa of k g, and s (h + r x) = k modulo the order. */
  lemma SignerAccepted(d: Domain, pkey: seq<word>, hkey: seq<byte>, skey: seq<byte>, bytes: nat,
                       q: Point, h: nat, r: nat, s: nat, x: nat, k: nat, b: int)
    requires 2 * d.size <= |pkey| && 4 * d.size <= |hkey| && bytes + 4 * d.size <= |skey| && d.n > 0
    requires IsField(d.p) && IsPrime(d.n) && d.g.Affine? && OnCurve(d.g, b, d.p) && AssociativeLaw(b, d.p)
    requires Reduced(d.g, d.p) && Times(d.n, d.g, d.p) == Infinity
    requires q.Affine? && q == Times(x, d.g, d.p)
    requires Val(pkey[..d.size]) == q.x && Val(pkey[d.size..2 * d.size]) == q.y
    requires LittleEndian(hkey[..4 * d.size]) == h && LittleEndian(skey[..4 * d.size]) == r
    requires LittleEndian(skey[bytes..bytes + 4 * d.size]) == s
    requires 0 < r < d.n && 0 < s < d.n && Cong(Signed(h, r, s, x), k, d.n)
    requires var t := Times(k, d.g, d.p); t.Affine? && Cong(t.x, r, d.n)
    ensures Checkable(d, pkey, hkey, skey, bytes) && Genuine(d, pkey, hkey, skey, bytes)
  {
    hide Sum, AssociativeLaw, OnCurve, Times, Cong, MulMod, Val, LittleEndian, Genuine, Checkable;
    AcceptedIsSigned(d, pkey, hkey, skey, bytes, q, h, r, s, x, b);
    var m := Signed(h, r, s, x);
    CongResidue(m, k, d.n);
    TimesResidue(m, d.n, d.g, b, d.p);
    TimesResidue(k, d.n, d.g, b, d.p);
  }

  /** The check on the buffers of such a signer: when it ends, it accepts. */
  method VerifySigned(pkey: array<word>, hkey: array<byte>, skey: array<byte>, bytes: nat, ghost d: Domain,
                      ghost q: Point, ghost h: nat, ghost r: nat, ghost s: nat, ghost x: nat, ghost k: nat,
                      ghost b: int)
    returns (ends: bool, ok: bool)
    requires (bytes / 4 == 4 && d == DOMAIN_128) || (bytes / 4 == 8 && d == DOMAIN_256)
    requires 2 * d.size <= pkey.Length && 4 * d.size <= hkey.Length && bytes + 4 * d.size <= skey.Length
    requires IsField(d.p) && IsPrime(d.n) && OnCurve(d.g, b, d.p) && AssociativeLaw(b, d.p)
    requires Reduced(d.g, d.p) && Times(d.n, d.g, d.p) == Infinity && q.Affine? && q == Times(x, d.g, d.p)
    requires Val(pkey[..d.size]) == q.x && Val(pkey[d.size..2 * d.size]) == q.y
    requires LittleEndian(hkey[..4 * d.size]) == h && LittleEndian(skey[..4 * d.size]) == r
    requires LittleEndian(skey[bytes..bytes + 4 * d.size]) == s
    requires 0 < r < d.n && 0 < s < d.n && Cong(Signed(h, r, s, x), k, d.n)
    requires var t := Times(k, d.g, d.p); t.Affine? && Cong(t.x, r, d.n)
    ensures ends ==> ok
  {
    hide Sum, AssociativeLaw, OnCurve, Times, Cong, MulMod, Val, LittleEndian, Genuine, Checkable, Finishes, IsField,
        IsPrime, Signed;
    SameSlices(pkey, hkey, skey, bytes, d.size);
    SignerAccepted(d, pkey[..], hkey[..], skey[..], bytes, q, h, r, s, x, k, b);
    ends, ok := VerifyDeviceKey(pkey, hkey, skey, bytes);
  }

  lemma SameSlices(pkey: array<word>, hkey: array<byte>, skey: array<byte>, bytes: nat, size: nat)
    requires 2 * size <= pkey.Length && 4 * size <= hkey.Length && bytes + 4 * size <= skey.Length
    ensures pkey[..][..size] == pkey[..size] && pkey[..][size..2 * size] == pkey[size..2 * size]
    ensures hkey[..][..4 * size] == hkey[..4 * size] && skey[..][..4 * size] == skey[..4 * size]
    ensures skey[..][bytes..bytes + 4 * size] == skey[bytes..bytes + 4 * size]
  {}
}
