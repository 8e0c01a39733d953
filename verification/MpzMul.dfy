// Schoolbook multiplication of src/sbignum.c.
module MpzMul {
  import opened Arith
  import opened AtomSeq
  import opened MpzCore
  import opened MpzAddSub

  /** The inner accumulator fits 64 bits: (2^32-1)^2 + 2*(2^32-1) == 2^64-1. */
  lemma AccumulatorFits(a: nat, b: nat, c: nat, e: nat)
    requires a < BASE && b < BASE && c < BASE && e < BASE
    ensures a * b + c + e < 0x1_0000_0000_0000_0000
  {
    MulMonotone(a, 0xFFFF_FFFF, b);
  }

  /** An accumulator splits into a low atom and a carry of the next weight. */
  lemma CarryOut(lo: nat, hi: nat, p: nat, car: nat, e: nat, w: nat)
    requires lo + hi * BASE == p + car + e
    ensures lo * w + hi * (BASE * w) == p * w + car * w + e * w
  {
    MulAssoc(hi, BASE, w);
    MulDistrib(lo, hi * BASE, w);
    MulDistrib(p + car, e, w);
    MulDistrib(p, car, w);
  }

  lemma Scale(a: nat, b: nat, c: nat, e: nat)
    ensures (a * b) * (c * e) == (a * c) * (e * b)
  {
    MulAssoc(a * b, c, e);
    MulAssoc(a, b, c);
    MulAssoc(a, c, b);
    MulAssoc(a * c, b, e);
  }

  lemma MulStep(r: seq<Atom>, was: seq<Atom>, z: seq<Atom>, dj: Atom, j: nat, car: Atom, old_: Atom, zi: Atom,
                mul: nat)
    requires |r| == |was| == |z| + j && mul == dj * zi + car + old_
    requires Val(r) + car * Weight(|r|) == Val(was) + (dj * Weight(j)) * Val(z)
    ensures mul % BASE < BASE
    ensures Val(r + [mul % BASE]) + (mul / BASE) * Weight(|r| + 1)
         == Val(was + [old_]) + (dj * Weight(j)) * Val(z + [zi])
  {
    var w, lo, hi := Weight(|r|), mul % BASE, mul / BASE;
    ValSnoc(r, lo);
    ValSnoc(was, old_);
    ValSnoc(z, zi);
    WeightAdd(|z|, j);
    MulDistrib(Val(z), zi * Weight(|z|), dj * Weight(j));
    Scale(dj, Weight(j), zi, Weight(|z|));
    CarryOut(lo, hi, dj * zi, car, old_, w);
  }

  /** One turn of the inner loop of mpz_muli_raw. */
  method MulCell(r: array<Atom>, z: array<Atom>, i: nat, dj: Atom, j: nat, car: Atom, ghost was: seq<Atom>)
    returns (car': Atom)
    requires r != z && i < z.Length && i + j < r.Length && i + j < |was| && r[i + j] == was[i + j]
    requires Val(r[..i + j]) + car * Weight(i + j) == Val(was[..i + j]) + (dj * Weight(j)) * Val(z[..i])
    modifies r
    ensures Val(r[..i + j + 1]) + car' * Weight(i + j + 1)
         == Val(was[..i + j + 1]) + (dj * Weight(j)) * Val(z[..i + 1])
    ensures forall k | 0 <= k < r.Length && k != i + j :: r[k] == old(r[k])
  {
    AccumulatorFits(dj, z[i], car, r[i + j]);
    var mul: Carry := dj * z[i] + car + r[i + j];
    MulStep(r[..i + j], was[..i + j], z[..i], dj, j, car, was[i + j], z[i], mul);
    car' := mul / BASE;
    r[i + j] := mul % BASE;
    assert r[..i + j + 1] == old(r[..i + j]) + [r[i + j]];
    assert was[..i + j + 1] == was[..i + j] + [was[i + j]] && z[..i + 1] == z[..i] + [z[i]];
  }

  /** One row: r += dj * z * BASE^j. The cell that receives the last carry is still
      zero. */
  method MulRow(r: array<Atom>, z: array<Atom>, zl: nat, dj: Atom, j: nat)
    requires r != z && zl <= z.Length && zl + j < r.Length && r[zl + j] == 0
    modifies r
    ensures Val(r[..zl + j + 1]) == old(Val(r[..zl + j])) + (dj * Weight(j)) * Val(z[..zl])
    ensures forall k | zl + j < k < r.Length :: r[k] == old(r[k])
  {
    ghost var was := r[..];
    var car: Atom := 0;
    var i := 0;
    while i < zl
      invariant 0 <= i <= zl
      invariant Val(r[..i + j]) + car * Weight(i + j) == Val(was[..i + j]) + (dj * Weight(j)) * Val(z[..i])
      invariant forall k | i + j <= k < r.Length :: r[k] == was[k]
    {
      car := MulCell(r, z, i, dj, j, car, was);
      i := i + 1;
    }
    ghost var low := r[..zl + j];
    if car != 0 {
      r[i + j] := car;
    }
    assert r[..zl + j + 1] == low + [car];
    ValSnoc(low, car);
    assert was[..zl + j] == old(r[..zl + j]);
  }

  lemma RowSum(p: nat, q: nat, v: nat, t: nat)
    requires t == p * v + q * v
    ensures t == (p + q) * v
  {
    MulDistrib(p, q, v);
  }

  /** The two loops of mpz_muli_raw, into a zeroed result. */
  method MulAtoms(r: array<Atom>, z: array<Atom>, zl: nat, d: array<Atom>, l: nat)
    requires r != z && r != d && zl <= z.Length && l <= d.Length && zl + l < r.Length
    requires forall k | 0 <= k < r.Length :: r[k] == 0
    modifies r
    ensures Val(r[..zl + l]) == Val(d[..l]) * Val(z[..zl])
    ensures forall k | zl + l <= k < r.Length :: r[k] == 0
  {
    var j := 0;
    ghost var v, p := Val(z[..zl]), 0;
    ValZeros(r[..zl]);
    while j < l
      invariant 0 <= j <= l && p == Val(d[..j])
      invariant Val(r[..zl + j]) == p * v
      invariant forall k | zl + j <= k < r.Length :: r[k] == 0
    {
      ValPrefixStep(d[..], j);
      MulRow(r, z, zl, d[j], j);
      ghost var q := d[j] * Weight(j);
      RowSum(p, q, v, Val(r[..zl + j + 1]));
      p := p + q;
      j := j + 1;
    }
  }

  /** mpz_muli_raw into a result distinct from z: r = |z| * d, keeping the sign flag
      of r unless the product is zero. */
  method MulInto(r: Mpz, z: Mpz, d: array<Atom>, l: nat)
    requires r.Valid() && z.Valid() && r != z && r.d != z.d && r.d != d && l <= d.Length
    modifies r, r.d
    ensures r.Normal() && r.Mag() == old(z.Mag() * Val(d[..l]))
    ensures r.d == old(r.d) || fresh(r.d)
    ensures r.neg == (old(r.neg) && r.l > 0)
  {
    var maxi := z.l + l;
    r.ZeroRealloc(maxi);
    MulAtoms(r.d, z.d, z.l, d, l);
    MulCommute(z.Mag(), Val(d[..l]));
    r.l := maxi;
    ghost var all := r.d[..];
    assert all[..maxi] == r.d[..maxi];
    ValPadded(all, maxi);
    r.Normalize();
  }

  /** mpz_muli_raw: r = |z| * d, for any aliasing of r with z and d. */
  method MulRaw(r: Mpz, z: Mpz, d: array<Atom>, l: nat)
    requires r.Valid() && z.Valid() && Apart(r, z) && l <= d.Length
    modifies r, r.d
    ensures r.Normal() && r.Mag() == old(z.Mag() * Val(d[..l]))
    ensures r.d == old(r.d) || fresh(r.d)
    ensures r.neg == (old(r.neg) && r.l > 0)
  {
    var x := CopyIfShared(r, d, l);
    if r != z {
      MulInto(r, z, x, l);
      return;
    }
    var rt := new Mpz();
    rt.neg := r.neg;
    MulInto(rt, z, x, l);
    r.Set(rt);
  }

  lemma SignOfProduct(p: int, q: int)
    ensures (-p) * q == -(p * q) && p * (-q) == -(p * q) && (-p) * (-q) == p * q
  {
  }

  /** mpz_mul: r = z * f, for any aliasing. */
  method Mul(r: Mpz, z: Mpz, f: Mpz)
    requires r.Valid() && z.Valid() && f.Valid() && Apart(r, z) && Apart(r, f) && Apart(z, f)
    modifies r, r.d
    ensures r.Canonical() && r.Int() == old(z.Int() * f.Int())
    ensures OperandsKept(r, z, f)
  {
    hide Val, Weight;
    ghost var p, q := z.Int(), f.Int();
    r.neg := z.neg != f.neg;
    MulRaw(r, z, f.d, f.l);
    SignOfProduct(p, q);
    ZeroLength(r);
  }

  /** mpz_mul_ui: r = z * u, where r may be z. */
  method MulUi(r: Mpz, z: Mpz, u: Atom)
    requires r.Valid() && z.Valid() && Apart(r, z)
    modifies r, r.d
    ensures r.Canonical() && r.Int() == old(z.Int()) * u
    ensures r.d == old(r.d) || fresh(r.d)
    ensures z != r ==> Kept(z) && Apart(r, z)
  {
    var t := FromAtom(u);
    ghost var p := z.Int();
    r.neg := z.neg;
    MulRaw(r, z, t.d, t.l);
    SignOfProduct(p, u);
    ZeroLength(r);
  }

  /** mpz_mul on numbers that are not negative. */
  method MulNat(r: Mpz, z: Mpz, f: Mpz)
    requires r.Valid() && z.Valid() && f.Valid() && Apart(r, z) && Apart(r, f) && Apart(z, f)
    requires !z.neg && !f.neg
    modifies r, r.d
    ensures r.Normal() && !r.neg && r.Mag() == old(z.Mag()) * old(f.Mag())
    ensures r.d == old(r.d) || fresh(r.d)
  {
    Mul(r, z, f);
    ZeroLength(r);
  }
}
