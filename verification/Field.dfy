/** The field operations of the curve code, with the residue each array holds tracked as
    an integer expression. */
module Field {
  import opened Arith
  import opened Words
  import opened Limbs
  import opened BigintMod
  import opened Modular
  import Fast128
  import Fast256

  /** x * y, named so that callers can reason about it without multiplying out. */
  function Prod(x: int, y: int): int
  {
    x * y
  }

  /** mod holds one of the two curve primes. */
  ghost predicate IsModulus(mod: array<word>, size: nat, p: int)
    reads mod
  {
    && size <= mod.Length
    && Val(mod[..size]) == p
    && ((size == 4 && p == Fast128.P128) || (size == 8 && p == Fast256.P256))
  }

  /** a holds the residue of e, fully reduced. */
  ghost predicate Holds(a: array<word>, size: nat, e: int, p: int)
    reads a
  {
    && p > 0 && size <= a.Length
    && 0 <= Val(a[..size]) < p
    && Cong(Val(a[..size]), e, p)
  }

  lemma ModulusFacts(mod: array<word>, size: nat, p: int)
    requires IsModulus(mod, size, p)
    ensures 0 < size <= ECC_MAX_SIZE == 8 && size <= mod.Length && Val(mod[..size]) == p
    ensures p > 1 && p % 2 == 1
  {}

  lemma HoldsItself(a: array<word>, size: nat, p: int)
    requires size <= a.Length && Val(a[..size]) < p
    ensures 0 <= Val(a[..size]) && Holds(a, size, Val(a[..size]), p)
  {
    hide Val;
    ValBound(a[..size]);
    CongRefl(Val(a[..size]), p);
  }

  lemma HoldsValue(a: array<word>, size: nat, e: int, p: int)
    requires Holds(a, size, e, p)
    ensures p > 0 && size <= a.Length && 0 <= Val(a[..size]) < p && Cong(Val(a[..size]), e, p)
    ensures Val(a[..size]) == 0 <==> e % p == 0
  {
    hide Val;
    CongResidue(Val(a[..size]), e, p);
    DivModUnique(Val(a[..size]), p, 0, Val(a[..size]));
  }

  /** The size switch; any other size would leave res alone. */
  method ModMultFast(res: array<word>, left: array<word>, right: array<word>, mod: array<word>, size: nat, ghost p: int)
    requires IsModulus(mod, size, p)
    requires size <= res.Length && size <= left.Length && size <= right.Length && res != mod
    modifies res
    ensures p > 0 && Val(res[..size]) == old(Val(left[..size]) * Val(right[..size])) % p
    ensures res[size..] == old(res[size..])
  {
    hide Val;
    match size
    case 4 => Fast128.ModMultFast128(res, left, right, mod);
    case 8 => Fast256.ModMultFast256(res, left, right, mod);
    case _ =>
  }

  method Mul(res: array<word>, left: array<word>, right: array<word>, mod: array<word>, size: nat,
             ghost x: int, ghost y: int, ghost p: int)
    requires IsModulus(mod, size, p) && res != mod && size <= res.Length
    requires Holds(left, size, x, p) && Holds(right, size, y, p)
    modifies res
    ensures Holds(res, size, Prod(x, y), p)
  {
    hide Val, Cong;
    ghost var l, r := Val(left[..size]), Val(right[..size]);
    ModMultFast(res, left, right, mod, size, p);
    ResidueOf(l * r, x * y, p) by { CongMul(l, x, r, y, p); }
  }

  lemma ResidueOf(v: int, e: int, p: int)
    requires p > 0 && Cong(v, e, p)
    ensures 0 <= v % p < p && Cong(v % p, e, p)
  {
    CongMod(v, p);
    CongTrans(v % p, v, e, p);
  }

  method Plus(res: array<word>, left: array<word>, right: array<word>, mod: array<word>, size: nat,
              ghost x: int, ghost y: int, ghost p: int)
    requires IsModulus(mod, size, p) && res != mod && size <= res.Length
    requires Holds(left, size, x, p) && Holds(right, size, y, p)
    modifies res
    ensures Holds(res, size, x + y, p)
  {
    hide Val, Cong;
    ghost var l, r := Val(left[..size]), Val(right[..size]);
    ModAdd(res, left, right, mod, size);
    ResidueOf(l + r, x + y, p) by { CongAdd(l, x, r, y, p); }
  }

  method Minus(res: array<word>, left: array<word>, right: array<word>, mod: array<word>, size: nat,
               ghost x: int, ghost y: int, ghost p: int)
    requires IsModulus(mod, size, p) && res != mod && size <= res.Length
    requires Holds(left, size, x, p) && Holds(right, size, y, p)
    modifies res
    ensures Holds(res, size, x - y, p)
  {
    hide Val, Cong;
    ghost var l, r := Val(left[..size]), Val(right[..size]);
    ModSub(res, left, right, mod, size);
    ResidueOf(l - r, x - y, p) by { CongAdd(l, x, r, y, p); }
  }

  /** Half of a residue: twice the result is the input. */
  method Half(res: array<word>, mod: array<word>, size: nat, ghost x: int, ghost p: int)
    requires IsModulus(mod, size, p) && res != mod && Holds(res, size, x, p)
    modifies res
    ensures size <= res.Length && Cong(2 * Val(res[..size]), x, p)
    ensures Holds(res, size, Val(res[..size]), p)
  {
    hide Val, Cong;
    ModulusFacts(mod, size, p);
    ghost var v := Val(res[..size]);
    HalveMod(res, mod, size);
    ValBound(res[..size]);
    CongBy(2 * Val(res[..size]), v, p, if v % 2 == 1 then 1 else 0);
    CongTrans(2 * Val(res[..size]), v, x, p);
    CongRefl(Val(res[..size]), p);
  }

  /** The inverse modulo a prime; for the residue 0 the inversion does not end. */
  method Invert(res: array<word>, input: array<word>, mod: array<word>, size: nat, ghost x: int, ghost p: int)
    returns (ends: bool)
    requires IsModulus(mod, size, p) && IsPrime(p) && res != mod && size <= res.Length
    requires Holds(input, size, x, p)
    modifies res
    ensures p > 0 && (ends <==> x % p != 0)
    ensures ends ==> Holds(res, size, Val(res[..size]), p)
    ensures ends ==> Cong(Val(res[..size]) * x, 1, p)
  {
    hide Val, Cong, IsModulus, IsPrime, IsGcd;
    ModulusFacts(mod, size, p);
    HoldsValue(input, size, x, p);
    ghost var v := Val(input[..size]);
    CongResidue(v, x, p);
    ends := ModInv(res, input, mod, size);
    if !ends {
      return;
    }
    CoprimeGcd(v, p);
    CongRefl(Val(res[..size]), p);
    CongSym(v, x, p);
    CongScale(Val(res[..size]), x, v, p);
    CongTrans(Val(res[..size]) * x, Val(res[..size]) * v, 1, p);
  }

  lemma CoprimeGcd(x: nat, p: int)
    requires IsPrime(p) && x % p != 0
    ensures IsGcd(1, x, p)
  {
    var g, s, t := Bezout(x, p);
    PrimeGcd(g, x, p);
  }
}
