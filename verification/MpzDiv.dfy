// Bit-serial division of src/sbignum.c and its wrappers.
module MpzDiv {
  import opened Arith
  import opened AtomSeq
  import opened MpzCore
  import opened MpzBits
  import opened MpzAddSub

  /** `__mpz_setbit`: set bit i of a number whose length is fixed up later. */
  method OrBitAt(a: array<Atom>, i: nat)
    requires i < 32 * a.Length
    requires (Val(a[..]) / Pow2(i)) % 2 == 0
    modifies a
    ensures Val(a[..]) == old(Val(a[..])) + Pow2(i)
    ensures a[i / 32] == old(a[i / 32]) + Pow2(i % 32)
    ensures forall k | 0 <= k < a.Length && k != i / 32 :: a[k] == old(a[k])
  {
    ghost var s := a[..];
    SetClearBit(s, i);
    a[i / 32] := OrBit(a[i / 32], i % 32);
    assert a[..] == s[i / 32 := OrBit(s[i / 32], i % 32)];
  }

  /** The subtraction inside the loop. */
  method Reduce(r: Mpz, d: array<Atom>, l: nat)
    requires r.Normal() && r.d != d && l <= d.Length && l <= r.l && Val(d[..l]) <= r.Mag() && r.d.Length > 0
    modifies r, r.d
    ensures r.d == old(r.d)
    ensures r.Normal() && r.Mag() == old(r.Mag()) - Val(d[..l]) && r.neg == (old(r.neg) && r.Mag() > 0)
  {
    r.Trim();
    SubRaw(r, r, d, l);
    ZeroLength(r);
  }

  /** One turn of the division loop: bring down bit i of z, subtract if it goes. */
  method DivStep(r: Mpz, z: Mpz, i: nat, d: array<Atom>, l: nat) returns (goes: bool)
    requires r.Normal() && r.d != z.d && r.d != d && r != z
    requires z.l <= z.d.Length && i < 32 * z.l
    requires 0 < l <= d.Length && d[l - 1] != 0 && l < r.d.Length
    requires r.Mag() < Val(d[..l])
    modifies r, r.d
    ensures r.d == old(r.d)
    ensures r.Normal() && r.Mag() < Val(d[..l]) && r.neg == (old(r.neg) && !(goes && r.Mag() == 0))
    ensures var t := 2 * old(r.Mag()) + (z.Mag() / Pow2(i)) % 2;
            goes == (t >= Val(d[..l])) && r.Mag() == if goes then t - Val(d[..l]) else t
  {
    if r.l > l {
      ShorterIsSmaller(d[..l], r.d[..r.l]);
    }
    var b := TestBit(z, i);
    ShiftLeft1(r, b);
    var cmp := CmpAbs(r.d, r.l, d, l);
    goes := cmp >= 0;
    if goes {
      if r.l < l {
        ShorterIsSmaller(r.d[..r.l], d[..l]);
      }
      Reduce(r, d, l);
    }
  }

  /** Every quotient bit lands inside the z.l - l + 2 atoms the quotient has. */
  lemma QuotientBitFits(z: seq<Atom>, d: seq<Atom>, i: nat)
    requires |d| > 0 && d[|d| - 1] != 0 && |d| <= |z|
    requires Val(z) / Pow2(i) >= Val(d)
    ensures i < 32 * (|z| - |d| + 1)
  {
    var p, k := Pow2(i), |z| - |d| + 1;
    ValBound(z);
    ValLowerBound(d);
    var w := Weight(|d| - 1);
    WeightAdd(k, |d| - 1);
    DivModFact(Val(z), p);
    MulMonotone(w, Val(z) / p, p);
    MulCommute(w, p);
    MulStrict(p, Weight(k), w);
    WeightIsPow2(k);
    Pow2Strict(i, 32 * k);
  }

  /** How quotient and remainder of the bits seen so far absorb the next bit. */
  lemma NextQuotient(n: nat, i: nat, q: nat, d: nat, r: nat)
    requires n / Pow2(i + 1) == q * d + r
    ensures n / Pow2(i) == (2 * q) * d + (2 * r + (n / Pow2(i)) % 2)
    ensures n / Pow2(i) == (2 * q + 1) * d + (2 * r + (n / Pow2(i)) % 2 - d)
  {
    NextPrefix(n, i);
    MulAssoc(2, q, d);
    MulDistrib(2 * q, 1, d);
  }

  /** What is left of n without its low k bits is a positive multiple of d. */
  predicate LeadingMultiple(n: nat, d: nat, k: nat)
    requires d > 0
  {
    n / Pow2(k) > 0 && (n / Pow2(k)) % d == 0
  }

  /** The sign flag of the remainder survives the loop down to bit i: no leading part of n,
      and so no partial remainder that a subtraction leaves, is zero modulo d. */
  ghost predicate SignKept(n: nat, d: nat, i: nat)
    requires d > 0
  {
    forall k: nat | k >= i :: !LeadingMultiple(n, d, k)
  }

  lemma SignAtStart(n: nat, d: nat, bits: nat)
    requires d > 0 && n < Pow2(bits)
    ensures SignKept(n, d, bits)
  {
    forall k: nat | k >= bits
      ensures !LeadingMultiple(n, d, k)
    {
      Pow2Monotone(bits, k);
      DivModUnique(n, Pow2(k), 0, n);
    }
  }

  lemma QuotientBelow(n: nat, p: nat, d: nat)
    requires p > 0 && n < d
    ensures n / p > 0 ==> (n / p) % d != 0
  {
    var q := n / p;
    DivModFact(n, p);
    MulMonotone(1, p, q);
    MulCommute(q, p);
    DivModUnique(q, d, 0, q);
  }

  /** Of a number below d no leading part is a multiple of d. */
  lemma SmallKeepsSign(n: nat, d: nat)
    requires n < d
    ensures SignKept(n, d, 0)
  {
    forall k: nat
      ensures !LeadingMultiple(n, d, k)
    {
      QuotientBelow(n, Pow2(k), d);
    }
  }

  lemma EqualLosesSign(n: nat)
    requires n > 0
    ensures !SignKept(n, n, 0)
  {
    DivModUnique(n, n, 1, 0);
    assert LeadingMultiple(n, n, 0);
  }

  lemma SignKeptStep(n: nat, d: nat, i: nat)
    requires d > 0
    ensures SignKept(n, d, i) <==> SignKept(n, d, i + 1) && !LeadingMultiple(n, d, i)
  {
    hide LeadingMultiple;
  }

  /** The turn for bit i clears the sign exactly when it subtracts down to zero; a leading
      part that is a multiple of d without a subtraction follows one that was. */
  lemma NextSign(n: nat, i: nat, d: nat, q: nat, r: nat, q': nat, r': nat)
    requires d > 0 && r < d && r' < d && n / Pow2(i + 1) == q * d + r && n / Pow2(i) == q' * d + r'
    requires q' == 2 * q || q' == 2 * q + 1
    ensures SignKept(n, d, i) <==> SignKept(n, d, i + 1) && !(q' == 2 * q + 1 && r' == 0)
  {
    hide SignKept;
    NextPrefix(n, i);
    DivModUnique(n / Pow2(i + 1), d, q, r);
    DivModUnique(n / Pow2(i), d, q', r');
    SignKeptStep(n, d, i);
    SignKeptStep(n, d, i + 1);
    if q' == 2 * q + 1 {
      MulMonotone(1, q', d);
    } else if r' == 0 && q > 0 {
      MulMonotone(1, q, d);
      MulAssoc(2, q, d);
    }
  }

  /** DivStep, read as long division: the quotient so far takes one more bit. */
  method DivTurn(r: Mpz, z: Mpz, i: nat, d: array<Atom>, l: nat, ghost q: nat, ghost s: bool)
    returns (goes: bool, ghost q': nat)
    requires r.Normal() && r.d != z.d && r.d != d && r != z
    requires z.l <= z.d.Length && i < 32 * z.l
    requires 0 < l <= d.Length && d[l - 1] != 0 && l < r.d.Length
    requires r.Mag() < Val(d[..l])
    requires z.Mag() / Pow2(i + 1) == q * Val(d[..l]) + r.Mag()
    requires r.neg == (s && SignKept(z.Mag(), Val(d[..l]), i + 1))
    modifies r, r.d
    ensures r.d == old(r.d)
    ensures r.Normal() && r.Mag() < Val(d[..l])
    ensures r.neg == (s && SignKept(z.Mag(), Val(d[..l]), i))
    ensures z.Mag() / Pow2(i) == q' * Val(d[..l]) + r.Mag()
    ensures q' == if goes then 2 * q + 1 else 2 * q
    ensures goes ==> z.Mag() / Pow2(i) >= Val(d[..l])
  {
    hide SignKept, Val, Pow2;
    ghost var n, m, r0 := z.Mag(), Val(d[..l]), r.Mag();
    NextQuotient(n, i, q, m, r0);
    goes := DivStep(r, z, i, d, l);
    q' := if goes then 2 * q + 1 else 2 * q;
    ghost var r1 := r.Mag();
    assert n / Pow2(i) == q' * m + r1;
    NextSign(n, i, m, q, r0, q', r1);
  }

  /** Recording a quotient bit. */
  lemma QuotientBit(v: nat, i: nat, q: nat)
    requires v == q * Pow2(i + 1)
    ensures v == (2 * q) * Pow2(i) && v + Pow2(i) == (2 * q + 1) * Pow2(i)
    ensures (v / Pow2(i)) % 2 == 0
  {
    MulAssoc(q, 2, Pow2(i));
    MulDistrib(2 * q, 1, Pow2(i));
    DivModUnique(v, Pow2(i), 2 * q, 0);
  }

  /** The loop of mpz_divi_qr_raw. */
  method DivLoop(q: Mpz, r: Mpz, z: Mpz, bits: nat, d: array<Atom>, l: nat)
    requires q != r && q.d != r.d && q.d != z.d && r.d != z.d && d != q.d && d != r.d && q != z && r != z
    requires r.Normal() && r.l == 0 && l < r.d.Length
    requires z.l <= z.d.Length && bits <= 32 * z.l && z.Mag() < Pow2(bits)
    requires 0 < l <= d.Length && l <= z.l && d[l - 1] != 0 && z.l - l + 1 < q.d.Length
    requires Val(q.d[..]) == 0
    modifies r, r.d, q.d
    ensures r.d == old(r.d) && r.Normal() && r.Mag() < Val(d[..l])
    ensures r.neg == (old(r.neg) && SignKept(z.Mag(), Val(d[..l]), 0))
    ensures z.Mag() == Val(q.d[..]) * Val(d[..l]) + r.Mag()
  {
    ghost var n, dv, qt := z.Mag(), Val(d[..l]), 0;
    ValLowerBound(d[..l]);
    DivModUnique(n, Pow2(bits), 0, n);
    SignAtStart(n, dv, bits);
    var bit := bits;
    while bit > 0
      invariant 0 <= bit <= bits
      invariant r.d == old(r.d) && r.Normal() && r.Mag() < dv && r.neg == (old(r.neg) && SignKept(n, dv, bit))
      invariant n / Pow2(bit) == qt * dv + r.Mag() && Val(q.d[..]) == qt * Pow2(bit)
    {
      bit := bit - 1;
      QuotientBit(Val(q.d[..]), bit, qt);
      var goes;
      goes, qt := DivTurn(r, z, bit, d, l, qt, old(r.neg));
      if goes {
        QuotientBitFits(z.d[..z.l], d[..l], bit);
        OrBitAt(q.d, bit);
      }
    }
  }

  /** mpz_divi_qr_raw: z = q*d + r with 0 <= r < d, for z >= d > 0. The quotient
      keeps its sign flag; the remainder keeps it exactly if no partial remainder was
      zero. */
  method DivQrRaw(q: Mpz, r: Mpz, z: Mpz, d: array<Atom>, l: nat)
    requires q.Valid() && r.Valid() && z.Normal() && q != r && q != z && r != z
    requires q.d != r.d && q.d != z.d && r.d != z.d && d != q.d && d != r.d
    requires 0 < l <= d.Length && d[l - 1] != 0 && Val(d[..l]) <= z.Mag()
    modifies q, r, q.d, r.d
    ensures q.Normal() && r.Normal()
    ensures z.Mag() == q.Mag() * Val(d[..l]) + r.Mag() && r.Mag() < Val(d[..l])
    ensures q.neg == old(q.neg) && Val(d[..l]) > 0 && r.neg == (old(r.neg) && SignKept(z.Mag(), Val(d[..l]), 0))
    ensures q.d == old(q.d) || fresh(q.d)
    ensures r.d == old(r.d) || fresh(r.d)
    ensures q.d != r.d
  {
    ValLowerBound(d[..l]);
    hide Val, Weight, Pow2, SignKept;
    if z.l < l {
      ShorterIsSmaller(z.d[..z.l], d[..l]);
    }
    var bits := Bits(z);
    q.ZeroRealloc(z.l - l + 1);
    r.ZeroRealloc(l);
    ValZeros(q.d[..]);
    DivLoop(q, r, z, bits, d, l);
    q.Trim();
    r.Trim();
  }

  /** The loop of mpz_divi_r_raw. */
  method RemLoop(r: Mpz, z: Mpz, bits: nat, d: array<Atom>, l: nat) returns (ghost qt: nat)
    requires r.d != z.d && d != r.d && r != z
    requires r.Normal() && r.l == 0 && l < r.d.Length
    requires z.l <= z.d.Length && bits <= 32 * z.l && z.Mag() < Pow2(bits)
    requires 0 < l <= d.Length && d[l - 1] != 0
    modifies r, r.d
    ensures r.d == old(r.d) && r.Normal() && r.Mag() < Val(d[..l])
    ensures r.neg == (old(r.neg) && SignKept(z.Mag(), Val(d[..l]), 0))
    ensures z.Mag() == qt * Val(d[..l]) + r.Mag()
  {
    ValLowerBound(d[..l]);
    DivModUnique(z.Mag(), Pow2(bits), 0, z.Mag());
    SignAtStart(z.Mag(), Val(d[..l]), bits);
    hide SignKept;
    qt := 0;
    var bit := bits;
    while bit > 0
      invariant 0 <= bit <= bits
      invariant r.d == old(r.d) && r.Normal() && r.Mag() < Val(d[..l])
      invariant r.neg == (old(r.neg) && SignKept(z.Mag(), Val(d[..l]), bit))
      invariant z.Mag() / Pow2(bit) == qt * Val(d[..l]) + r.Mag()
    {
      bit := bit - 1;
      var goes;
      goes, qt := DivTurn(r, z, bit, d, l, qt, old(r.neg));
    }
  }

  /** mpz_divi_r_raw: the same loop without the quotient. */
  method DivRRaw(r: Mpz, z: Mpz, d: array<Atom>, l: nat)
    requires r.Valid() && z.Normal() && r != z && r.d != z.d && d != r.d
    requires 0 < l <= d.Length && d[l - 1] != 0 && Val(d[..l]) <= z.Mag()
    modifies r, r.d
    ensures r.Normal() && Val(d[..l]) > 0 && r.Mag() == z.Mag() % Val(d[..l])
    ensures r.neg == (old(r.neg) && SignKept(z.Mag(), Val(d[..l]), 0))
    ensures r.d == old(r.d) || fresh(r.d)
  {
    if z.l < l {
      ShorterIsSmaller(z.d[..z.l], d[..l]);
    }
    ValLowerBound(d[..l]);
    var bits := Bits(z);
    r.ZeroRealloc(l);
    ghost var qt := RemLoop(r, z, bits, d, l);
    r.Trim();
    DivModUnique(z.Mag(), Val(d[..l]), qt, r.Mag());
  }

  ghost function Abs(a: int): nat {
    if a < 0 then -a else a
  }

  /** The quotient C's `/` gives: rounded toward zero. */
  ghost function TruncDiv(a: int, b: int): int
    requires b != 0
  {
    var m := Abs(a) / Abs(b);
    if (a < 0) == (b < 0) then m else -m
  }

  /** A number that may be read while `out` is written: itself, or a copy. */
  method Detached(z: Mpz, out1: Mpz, out2: Mpz) returns (t: Mpz)
    requires z.Normal() && Apart(z, out1) && Apart(z, out2)
    ensures t == z || (fresh(t) && fresh(t.d))
    ensures t != out1 && t != out2 && t.d != out1.d && t.d != out2.d
    ensures t.Normal() && t.Mag() == z.Mag() && t.neg == z.neg && t.l == z.l
  {
    t := z;
    if z == out1 || z == out2 {
      t := Clone(z);
    }
  }

  /** q and r are the quotient and the remainder of n by m. */
  ghost predicate QuotRem(n: nat, m: nat, q: nat, r: nat) {
    m > 0 && n == q * m + r && r < m
  }

  lemma QuotRemIsDivMod(n: nat, m: nat, q: nat, r: nat)
    ensures QuotRem(n, m, q, r) <==> m > 0 && q == n / m && r == n % m
  {
    if m > 0 {
      DivModFact(n, m);
      if QuotRem(n, m, q, r) {
        DivModUnique(n, m, q, r);
      }
    }
  }

  /** What the cases decided without a loop leave of the sign. */
  lemma SignOfSimpleCases(n: nat, d: nat)
    requires d > 0
    ensures n < d ==> SignKept(n, d, 0)
    ensures n == d ==> !SignKept(n, d, 0)
  {
    if n < d {
      SmallKeepsSign(n, d);
    } else if n == d {
      EqualLosesSign(n);
    }
  }

  /** The signs mpz_tdiv_qr sets, and the raw division. */
  method DivSigned(q: Mpz, r: Mpz, z: Mpz, d: Mpz)
    requires q.Valid() && r.Valid() && z.Normal() && d.Normal() && q != r && q != z && q != d && r != z && r != d
    requires Apart(q, r) && Apart(q, z) && Apart(q, d) && Apart(r, z) && Apart(r, d)
    requires 0 < d.Mag() <= z.Mag() && d.l > 0
    modifies q, r, q.d, r.d
    ensures q.Normal() && r.Normal() && q.d != r.d
    ensures q.d == old(q.d) || fresh(q.d)
    ensures r.d == old(r.d) || fresh(r.d)
    ensures QuotRem(z.Mag(), d.Mag(), q.Mag(), r.Mag())
    ensures q.neg == (z.neg != d.neg) && r.neg == (z.neg && SignKept(z.Mag(), d.Mag(), 0))
  {
    q.neg := z.neg != d.neg;
    r.neg := z.neg;
    DivQrRaw(q, r, z, d.d, d.l);
  }

  /** The normal case of mpz_tdiv_qr, |z| > |d| > 0. */
  method TdivLarge(q: Mpz, r: Mpz, z: Mpz, d: Mpz)
    requires q.Valid() && r.Valid() && z.Normal() && d.Normal() && q != r
    requires Apart(q, r) && Apart(q, z) && Apart(q, d) && Apart(r, z) && Apart(r, d)
    requires d.l > 0 && z.Mag() > d.Mag() > 0
    modifies q, r, q.d, r.d
    ensures q.Normal() && r.Normal() && q.d != r.d
    ensures q.d == old(q.d) || fresh(q.d)
    ensures r.d == old(r.d) || fresh(r.d)
    ensures QuotRem(old(z.Mag()), old(d.Mag()), q.Mag(), r.Mag())
    ensures q.neg == old(z.neg != d.neg) && r.neg == old(z.neg && SignKept(z.Mag(), d.Mag(), 0))
  {
    hide Val, Weight, Pow2, SignKept;
    var z' := Detached(z, q, r);
    var d' := Detached(d, q, r);
    DivSigned(q, r, z', d');
  }

  /** `q = 1, r = 0` */
  method SetUnit(q: Mpz, r: Mpz)
    requires q.Valid() && r.Valid() && q != r && q.d != r.d
    modifies q, r, q.d, r.d
    ensures q.Normal() && r.Normal() && q.d != r.d && q.Mag() == 1 && !q.neg && r.Mag() == 0 && !r.neg
    ensures q.d == old(q.d) || fresh(q.d)
    ensures r.d == old(r.d) || fresh(r.d)
  {
    q.SetUi(1);
    r.SetZero();
  }

  /** mpz_set between distinct numbers. */
  method SetCopy(r: Mpz, z: Mpz)
    requires r.Valid() && z.Exact() && r != z && r.d != z.d
    modifies r, r.d
    ensures r.Normal() && r.Mag() == z.Mag() && r.neg == z.neg && r.l == z.l < r.d.Length
    ensures r.d == old(r.d) || fresh(r.d)
  {
    r.Set(z);
    assert r.l > 0 ==> r.d[..r.l][r.l - 1] == z.d[..z.l][z.l - 1];
  }

  /** `r = z, q = 0`: what a dividend smaller than the divisor gives. */
  method SetSmall(q: Mpz, r: Mpz, z: Mpz)
    requires q.Valid() && r.Valid() && z.Normal() && q != r && q.d != r.d && Apart(r, z) && Apart(q, z)
    modifies q, r, q.d, r.d
    ensures q.Normal() && r.Normal() && q.d != r.d && q.Mag() == 0 && !q.neg
    ensures q.d == old(q.d) || fresh(q.d)
    ensures r.d == old(r.d) || fresh(r.d)
    ensures r.Mag() == (if r == z then 0 else old(z.Mag())) && r.neg == old(z.neg)
  {
    if r == z {
      r.Set(z);
    } else {
      SetCopy(r, z);
    }
    q.SetZero();
  }

  /** mpz_tdiv_qr. Three results are not the mathematical ones: the quotient of opposite
      numbers is +1, a remainder stored over a dividend smaller than the divisor is lost,
      and a negative remainder turns positive when a partial remainder was zero. */
  method TdivQr(q: Mpz, r: Mpz, z: Mpz, d: Mpz) returns (st: Status)
    requires q.Valid() && r.Valid() && z.Normal() && d.Normal() && q != r
    requires Apart(q, r) && Apart(q, z) && Apart(q, d) && Apart(r, z) && Apart(r, d)
    modifies q, r, q.d, r.d
    ensures q.d == old(q.d) || fresh(q.d)
    ensures r.d == old(r.d) || fresh(r.d)
    ensures (st == Inval) == (old(d.Mag()) == 0)
    ensures st == Inval ==> unchanged(q) && unchanged(r) && unchanged(q.d) && unchanged(r.d)
    ensures st == Ok ==> q.Normal() && r.Normal() && q.d != r.d
    ensures st == Ok && !(r == z && old(z.Mag()) < old(d.Mag())) ==>
              QuotRem(old(z.Mag()), old(d.Mag()), q.Mag(), r.Mag())
    ensures st == Ok && r == z && old(z.Mag()) < old(d.Mag()) ==> q.Mag() == 0 && r.Mag() == 0
    ensures st == Ok ==> q.neg == (old(z.neg != d.neg) && old(z.Mag()) > old(d.Mag()))
    ensures st == Ok ==> old(d.Mag()) > 0 && r.neg == old(z.neg && SignKept(z.Mag(), d.Mag(), 0))
  {
    hide Val, Weight, Pow2, SignKept;
    ZeroLength(d);
    if d.l > 0 {
      SignOfSimpleCases(z.Mag(), d.Mag());
    }
    if d.l == 0 {
      return Inval;
    }
    st := Ok;
    if z == d {
      SetUnit(q, r);
      assert 1 * old(z.Mag()) == old(z.Mag());
      return;
    }
    var cmp := CmpAbs(z.d, z.l, d.d, d.l);
    if cmp < 0 {
      SetSmall(q, r, z);
    } else if cmp == 0 {
      SetUnit(q, r);
    } else {
      TdivLarge(q, r, z, d);
    }
  }

  /** With the sign and the magnitude mpz_tdiv_qr gives it, the quotient is the one
      rounded toward zero except for opposite numbers. */
  lemma QuotientIsTruncatedIff(z: int, d: int, m: nat, negative: bool)
    requires d != 0 && m == Abs(z) / Abs(d) && negative == ((z < 0) != (d < 0) && Abs(z) > Abs(d))
    ensures var q: int := m; (if negative then -q else q) == TruncDiv(z, d) <==> z != -d
  {
    var a, b := Abs(z), Abs(d);
    if a < b {
      DivModUnique(a, b, 0, a);
    } else if a == b {
      DivModUnique(a, b, 1, 0);
    } else {
      DivModFact(a, b);
    }
  }

  /** The normal case of mpz_tdiv_r, |z| > |d| > 0. */
  method TdivRLarge(r: Mpz, z: Mpz, d: Mpz)
    requires r.Valid() && z.Normal() && d.Normal() && Apart(r, z) && Apart(r, d)
    requires d.l > 0 && z.Mag() > d.Mag() > 0
    modifies r, r.d
    ensures r.Normal() && r.neg == old(z.neg && SignKept(z.Mag(), d.Mag(), 0))
    ensures r.d == old(r.d) || fresh(r.d)
    ensures r.Mag() == old(z.Mag()) % old(d.Mag())
  {
    hide Val, Weight, Pow2, SignKept;
    var z' := Detached(z, r, r);
    var d' := Detached(d, r, r);
    r.neg := z'.neg;
    DivRRaw(r, z', d'.d, d'.l);
  }

  /** mpz_tdiv_r: the magnitude of the remainder is right for every aliasing, its sign as
      for mpz_tdiv_qr. */
  method TdivR(r: Mpz, z: Mpz, d: Mpz) returns (st: Status)
    requires r.Valid() && z.Normal() && d.Normal() && Apart(r, z) && Apart(r, d)
    modifies r, r.d
    ensures r.d == old(r.d) || fresh(r.d)
    ensures (st == Inval) == (old(d.Mag()) == 0)
    ensures st == Inval ==> unchanged(r) && unchanged(r.d)
    ensures st == Ok ==> r.Normal() && r.Mag() == old(z.Mag()) % old(d.Mag())
    ensures st == Ok ==> r.neg == old(z.neg && SignKept(z.Mag(), d.Mag(), 0))
  {
    hide Val, Weight, Pow2, SignKept;
    ZeroLength(d);
    ghost var n, m := z.Mag(), d.Mag();
    if d.l == 0 {
      return Inval;
    }
    st := Ok;
    SignOfSimpleCases(n, m);
    if z == d {
      DivModUnique(n, m, 1, 0);
      r.SetZero();
      return;
    }
    var cmp := CmpAbs(z.d, z.l, d.d, d.l);
    if cmp < 0 {
      DivModUnique(n, m, 0, n);
      if r != z {
        SetCopy(r, z);
      }
    } else if cmp == 0 {
      DivModUnique(n, m, 1, 0);
      r.SetZero();
    } else {
      TdivRLarge(r, z, d);
    }
  }

  /** A remainder with the magnitude and the sign that mpz_tdiv_qr and mpz_tdiv_r give it
      is that of the quotient rounded toward zero, the one with the sign of the dividend,
      exactly when the dividend is not negative, or divides, or keeps its sign. */
  lemma RemainderIsTruncatedIff(z: int, d: int, m: nat, negative: bool)
    requires d != 0 && m == Abs(z) % Abs(d) && negative == (z < 0 && SignKept(Abs(z), Abs(d), 0))
    ensures var r: int := m;
            (if negative then -r else r) == z - TruncDiv(z, d) * d <==> z >= 0 || m == 0 || SignKept(Abs(z), Abs(d), 0)
  {
    hide SignKept;
    DivModFact(Abs(z), Abs(d));
    var q: int, b: int := Abs(z) / Abs(d), Abs(d);
    assert (-q) * b == -(q * b) && q * (-b) == -(q * b) && (-q) * (-b) == q * b;
  }

  /** What mpz_mod leaves in its result: for a negative number the modulus is added, to
      a remainder that may have lost its sign, and that is not done when the number it
      is taken from is the result itself. */
  ghost function ModResult(a: nat, negative: bool, m: nat, inPlace: bool): int
    requires m > 0
  {
    var r: int := a % m;
    if !negative || r == 0 then r
    else if SignKept(a, m, 0) then m - r
    else if inPlace then r
    else m + r
  }

  lemma IntModUnique(n: int, d: int, q: int, r: int)
    requires d > 0 && n == q * d + r && 0 <= r < d
    ensures n % d == r
  {
    var e := n / d - q;
    assert n == (n / d) * d + n % d;
    MulDistrib(n / d, -q, d);
    assert e * d == r - n % d;
    if e >= 1 {
      MulMonotone(1, e, d);
    } else if e <= -1 {
      MulMonotone(e, -1, d);
    }
  }

  lemma ResidueOf(z: int, b: nat)
    requires b > 0
    ensures z % b == if z >= 0 || Abs(z) % b == 0 then Abs(z) % b else b - Abs(z) % b
  {
    var a: int := Abs(z);
    DivModFact(a, b);
    var q, r := a / b, a % b;
    if z >= 0 {
      IntModUnique(z, b, q, r);
    } else if r == 0 {
      IntModUnique(z, b, -q, 0);
    } else {
      MulDistrib(-q, -1, b);
      IntModUnique(z, b, -q - 1, b - r);
    }
  }

  /** mpz_mod gives the residue modulo |m|, the one from 0 to |m| - 1, exactly for these
      numbers. */
  lemma ModIsRightIff(z: int, m: nat, inPlace: bool)
    requires m > 0
    ensures var a := Abs(z);
            ModResult(a, z < 0, m, inPlace) == z % m <==>
            z >= 0 || a % m == 0 || SignKept(a, m, 0) || (inPlace && 2 * (a % m) == m)
  {
    ResidueOf(z, m);
    hide SignKept;
    var r: nat := Abs(z) % m;
    assert r < m;
  }

  /** -5 by 2: the bits of 5 begin with those of 2, so the remainder -1 turns into 1, and
      the residue into 3. */
  lemma MinusFiveByTwo()
    ensures 5 % 2 == 1 && !SignKept(5, 2, 0) && ModResult(5, true, 2, false) == 3
  {
    assert Pow2(1) == 2;
    assert LeadingMultiple(5, 2, 1);
  }

  /** `r = r + |m|` */
  method AddModulus(r: Mpz, m: Mpz)
    requires r.Normal() && m.Normal() && r != m && r.d != m.d
    modifies r, r.d
    ensures r.d == old(r.d) || fresh(r.d)
    ensures r.Normal() && r.Int() == old(r.Int()) + m.Mag()
  {
    if m.neg {
      Sub(r, r, m);
    } else {
      var assumed := Add(r, r, m);
      assert !assumed;
    }
  }

  /** mpz_mod, for any aliasing. */
  method Mod(r: Mpz, z: Mpz, m: Mpz) returns (st: Status)
    requires r.Valid() && z.Normal() && m.Normal() && Apart(r, z) && Apart(r, m)
    modifies r, r.d
    ensures r.d == old(r.d) || fresh(r.d)
    ensures (st == Inval) == (old(m.Mag()) == 0)
    ensures st == Inval ==> unchanged(r) && unchanged(r.d)
    ensures st == Ok ==> r.Normal() && old(m.Mag()) > 0
    ensures st == Ok ==> r.Int() == ModResult(old(z.Mag()), old(z.neg), old(m.Mag()), r == z)
    ensures st == Ok && !old(z.neg) ==> !r.neg
  {
    hide Val, Weight, Pow2, SignKept;
    var m' := Detached(m, r, r);
    st := TdivR(r, z, m');
    if st == Ok {
      ZeroLength(r);
      if r.l > 0 && z.neg {
        AddModulus(r, m');
      }
    }
  }
}
