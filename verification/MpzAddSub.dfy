// Addition and subtraction of src/sbignum.c, raw and signed, under every
// aliasing of result and operands.
module MpzAddSub {
  import opened Arith
  import opened AtomSeq
  import opened MpzCore

  function Max(a: nat, b: nat): nat {
    if a > b then a else b
  }

  // --- one step of the carry and borrow loops -------------------------------

  lemma AddStep(r: seq<Atom>, z: seq<Atom>, y: nat, car: nat, zj: Atom, dj: nat, sum: nat, j: nat)
    requires |r| == |z| == j && sum == zj + dj + car
    requires Val(r) + car * Weight(j) == Val(z) + y
    ensures sum % BASE < BASE
    ensures Val(r + [sum % BASE]) + (sum / BASE) * Weight(j + 1) == Val(z + [zj]) + (y + dj * Weight(j))
  {
    var w, lo, hi := Weight(j), sum % BASE, sum / BASE;
    ValSnoc(r, lo);
    ValSnoc(z, zj);
    assert hi * (BASE * w) == (hi * BASE) * w;
    MulDistrib(lo, hi * BASE, w);
    MulDistrib(zj + dj, car, w);
    MulDistrib(zj, dj, w);
  }

  lemma SubStep(r: seq<Atom>, z: seq<Atom>, y: nat, car: nat, zj: Atom, dj: nat, out: Atom, car': nat, j: nat)
    requires |r| == |z| == j && out + dj + car == zj + car' * BASE
    requires Val(r) + y == Val(z) + car * Weight(j)
    ensures Val(r + [out]) + (y + dj * Weight(j)) == Val(z + [zj]) + car' * Weight(j + 1)
  {
    var w, o: nat, x: nat := Weight(j), out, zj;
    ValSnoc(r, out);
    ValSnoc(z, zj);
    var up := car' * BASE;
    assert car' * (BASE * w) == up * w;
    MulDistrib(o + dj, car, w);
    MulDistrib(o, dj, w);
    MulDistrib(x, up, w);
  }

  /** One turn of either loop of mpz_addi_raw. */
  method AddAtom(r: array<Atom>, j: nat, zj: Atom, dj: Atom, car: Atom, ghost was: seq<Atom>, ghost y: nat)
    returns (car': Atom)
    requires j < r.Length && j < |was| && zj == was[j] && car <= 1
    requires Val(r[..j]) + car * Weight(j) == Val(was[..j]) + y
    modifies r
    ensures Val(r[..j + 1]) + car' * Weight(j + 1) == Val(was[..j + 1]) + (y + dj * Weight(j))
    ensures car' <= 1 && forall k | 0 <= k < r.Length && k != j :: r[k] == old(r[k])
  {
    var sum: Carry := dj + zj + car;
    AddStep(r[..j], was[..j], y, car, zj, dj, sum, j);
    car' := sum / BASE;
    r[j] := sum % BASE;
    assert r[..j + 1] == old(r[..j]) + [r[j]] && was[..j + 1] == was[..j] + [zj];
  }

  /** First loop of mpz_addi_raw: the atoms both operands have. r and z may be the
      same array. */
  method AddLow(r: array<Atom>, z: array<Atom>, d: array<Atom>, l: nat) returns (car: Atom)
    requires d != r && l <= d.Length && l <= z.Length && l <= r.Length
    modifies r
    ensures car <= 1 && Val(r[..l]) + car * Weight(l) == old(Val(z[..l])) + Val(d[..l])
    ensures forall k | l <= k < r.Length :: r[k] == old(r[k])
  {
    ghost var was := z[..];
    car := 0;
    var j := 0;
    while j < l
      invariant 0 <= j <= l && car <= 1
      invariant Val(r[..j]) + car * Weight(j) == Val(was[..j]) + Val(d[..j])
      invariant forall k | j <= k < z.Length :: z[k] == was[k]
      invariant forall k | j <= k < r.Length :: r[k] == old(r[k])
    {
      ValPrefixStep(d[..], j);
      car := AddAtom(r, j, z[j], d[j], car, was, Val(d[..j]));
      j := j + 1;
    }
    assert was[..l] == old(z[..l]);
  }

  /** Second loop of mpz_addi_raw: the carry runs through the rest of z. */
  method AddHigh(r: array<Atom>, z: array<Atom>, l: nat, zl: nat, c: Atom, ghost was: seq<Atom>, ghost y: nat)
    returns (car: Atom)
    requires l <= zl <= z.Length && zl <= r.Length && zl <= |was| && c <= 1
    requires Val(r[..l]) + c * Weight(l) == Val(was[..l]) + y
    requires forall k | l <= k < zl :: z[k] == was[k]
    modifies r
    ensures car <= 1 && Val(r[..zl]) + car * Weight(zl) == Val(was[..zl]) + y
    ensures forall k | zl <= k < r.Length :: r[k] == old(r[k])
  {
    hide Val, Weight;
    car := c;
    var j := l;
    while j < zl
      invariant l <= j <= zl && car <= 1
      invariant Val(r[..j]) + car * Weight(j) == Val(was[..j]) + y
      invariant forall k | j <= k < zl :: z[k] == was[k]
      invariant forall k | j <= k < r.Length :: r[k] == old(r[k])
    {
      car := AddAtom(r, j, z[j], 0, car, was, y);
      j := j + 1;
    }
  }

  /** Both loops and the final carry. */
  method AddAtoms(r: array<Atom>, z: array<Atom>, zl: nat, d: array<Atom>, l: nat) returns (n: nat)
    requires d != r && l <= d.Length && zl <= z.Length && l <= z.Length && Max(zl, l) < r.Length
    modifies r
    ensures Max(zl, l) <= n <= Max(zl, l) + 1
    ensures Val(r[..n]) == old(Val(z[..Max(zl, l)])) + Val(d[..l])
    ensures n > Max(zl, l) ==> r[n - 1] != 0
    ensures forall k | n <= k < r.Length :: r[k] == old(r[k])
  {
    ghost var was := z[..];
    n := Max(zl, l);
    assert was[..l] == z[..l] && was[..n] == z[..n];
    var car := AddLow(r, z, d, l);
    if l < zl {
      car := AddHigh(r, z, l, zl, car, was, Val(d[..l]));
    }
    if car != 0 {
      ValSnoc(r[..n], car);
      ghost var low := r[..n];
      r[n] := car;
      n := n + 1;
      assert r[..n] == low + [car];
    }
  }

  /** One turn of either loop of mpz_subi_raw. */
  method SubAtom(r: array<Atom>, j: nat, zj: Atom, dj: Atom, car: Atom, ghost was: seq<Atom>, ghost y: nat)
    returns (car': Atom)
    requires j < r.Length && j < |was| && zj == was[j] && car <= 1
    requires Val(r[..j]) + y == Val(was[..j]) + car * Weight(j)
    modifies r
    ensures Val(r[..j + 1]) + (y + dj * Weight(j)) == Val(was[..j + 1]) + car' * Weight(j + 1)
    ensures car' <= 1 && forall k | 0 <= k < r.Length && k != j :: r[k] == old(r[k])
  {
    var x: int, e: int, c: int := zj, dj, car;
    var sub: SCarry := x - c - e;
    car' := 0;
    if sub < 0 {
      sub := sub + BASE;
      car' := 1;
    }
    SubStep(r[..j], was[..j], y, car, zj, dj, sub, car', j);
    r[j] := sub;
    assert r[..j + 1] == old(r[..j]) + [r[j]] && was[..j + 1] == was[..j] + [zj];
  }

  /** First loop of mpz_subi_raw; r and z may be the same array. */
  method SubLow(r: array<Atom>, z: array<Atom>, d: array<Atom>, l: nat) returns (car: Atom)
    requires d != r && l <= d.Length && l <= z.Length && l <= r.Length
    modifies r
    ensures car <= 1 && Val(r[..l]) + Val(d[..l]) == old(Val(z[..l])) + car * Weight(l)
    ensures forall k | l <= k < r.Length :: r[k] == old(r[k])
  {
    ghost var was := z[..];
    car := 0;
    var j := 0;
    while j < l
      invariant 0 <= j <= l && car <= 1
      invariant Val(r[..j]) + Val(d[..j]) == Val(was[..j]) + car * Weight(j)
      invariant forall k | j <= k < z.Length :: z[k] == was[k]
      invariant forall k | j <= k < r.Length :: r[k] == old(r[k])
    {
      ValPrefixStep(d[..], j);
      car := SubAtom(r, j, z[j], d[j], car, was, Val(d[..j]));
      j := j + 1;
    }
    assert was[..l] == old(z[..l]);
  }

  /** Second loop of mpz_subi_raw: the borrow runs through the rest of z. */
  method SubHigh(r: array<Atom>, z: array<Atom>, l: nat, zl: nat, c: Atom, ghost was: seq<Atom>, ghost y: nat)
    returns (car: Atom)
    requires l <= zl <= z.Length && zl <= r.Length && zl <= |was| && c <= 1
    requires Val(r[..l]) + y == Val(was[..l]) + c * Weight(l)
    requires forall k | l <= k < zl :: z[k] == was[k]
    modifies r
    ensures car <= 1 && Val(r[..zl]) + y == Val(was[..zl]) + car * Weight(zl)
    ensures forall k | zl <= k < r.Length :: r[k] == old(r[k])
  {
    car := c;
    var j := l;
    while j < zl
      invariant l <= j <= zl && car <= 1
      invariant Val(r[..j]) + y == Val(was[..j]) + car * Weight(j)
      invariant forall k | j <= k < zl :: z[k] == was[k]
      invariant forall k | j <= k < r.Length :: r[k] == old(r[k])
    {
      car := SubAtom(r, j, z[j], 0, car, was, y);
      j := j + 1;
    }
  }

  /** Both loops; no borrow is left when d is no larger than z. */
  method SubAtoms(r: array<Atom>, z: array<Atom>, zl: nat, d: array<Atom>, l: nat)
    requires d != r && l <= d.Length && l <= zl <= z.Length && zl <= r.Length
    requires Val(d[..l]) <= Val(z[..zl])
    modifies r
    ensures Val(r[..zl]) == old(Val(z[..zl])) - Val(d[..l])
    ensures forall k | zl <= k < r.Length :: r[k] == old(r[k])
  {
    ghost var was := z[..];
    assert was[..l] == z[..l] && was[..zl] == z[..zl];
    var car := SubLow(r, z, d, l);
    car := SubHigh(r, z, l, zl, car, was, Val(d[..l]));
    ValBound(r[..zl]);
  }

  /** Distinct numbers do not share storage. */
  ghost predicate Apart(a: Mpz, b: Mpz)
    reads a, b
  {
    a != b ==> a.d != b.d
  }

  /** The private copy of `d` that the raw operations take when it is the
      storage of the result. */
  method CopyIfShared(r: Mpz, d: array<Atom>, l: nat) returns (x: array<Atom>)
    requires l <= d.Length
    ensures l <= x.Length && x[..l] == d[..l] && x != r.d
    ensures if r.d == d then fresh(x) else x == d
  {
    if r.d != d {
      return d;
    }
    x := new Atom[l];
    forall k | 0 <= k < l {
      x[k] := d[k];
    }
    assert x[..l] == d[..l];
  }

  lemma NotBelowTrimmed(s: seq<Atom>, z: seq<Atom>)
    requires Trimmed(z) && |s| == |z| > 0 && Val(s) >= Val(z)
    ensures s[|s| - 1] != 0
  {
    ValLowerBound(z);
    BigIsTrimmed(s);
  }

  lemma SumTop(s: seq<Atom>, z: seq<Atom>, d: seq<Atom>)
    requires Trimmed(z) && Trimmed(d) && Val(s) == Val(z) + Val(d)
    requires |s| >= Max(|z|, |d|) && (|s| > Max(|z|, |d|) ==> s[|s| - 1] != 0)
    ensures Trimmed(s)
  {
    if |s| > 0 && |s| == |z| {
      NotBelowTrimmed(s, z);
    } else if |s| > 0 && |s| == |d| {
      NotBelowTrimmed(s, d);
    }
  }

  /** The body of mpz_addi_raw once the storage is ready. */
  method SumAtoms(r: array<Atom>, z: array<Atom>, zl: nat, d: array<Atom>, l: nat) returns (n: nat)
    requires d != r && l <= d.Length && zl <= z.Length && l <= z.Length && Max(zl, l) < r.Length
    requires Trimmed(z[..zl]) && Trimmed(d[..l])
    requires forall k | zl <= k < z.Length :: z[k] == 0
    requires forall k | Max(zl, l) <= k < r.Length :: r[k] == 0
    modifies r
    ensures n <= r.Length && n <= Max(zl, l) + 1
    ensures Val(r[..n]) == old(Val(z[..zl])) + Val(d[..l])
    ensures n > 0 ==> r[n - 1] != 0
    ensures forall k | n <= k < r.Length :: r[k] == 0
  {
    ghost var zs, top := z[..Max(zl, l)], z[..zl];
    assert zs[..zl] == top;
    ValPadded(zs, zl);
    n := AddAtoms(r, z, zl, d, l);
    SumTop(r[..n], top, d[..l]);
  }

  /** The allocations of mpz_addi_raw: clear a separate result, make room in z
      for the atoms the loops read. */
  method PrepareSum(r: Mpz, z: Mpz, l: nat)
    requires r.Valid() && z.Normal() && Apart(r, z)
    modifies r`d, r`l, r.d, z`d
    ensures z.Normal() && z.l == old(z.l) && z.d[..z.l] == old(z.d[..z.l]) && l <= z.d.Length
    ensures r.d == old(r.d) || fresh(r.d)
    ensures z.d == old(z.d) || fresh(z.d)
    ensures Max(z.l, l) < r.d.Length && Apart(r, z)
    ensures forall k | Max(z.l, l) <= k < r.d.Length :: r.d[k] == 0
    ensures z.d == old(z.d) <==> (if r == z then Max(z.l, l) else l) < old(z.d.Length)
    ensures r != z && old(r.d.Length) <= Max(z.l, l) ==> r.d.Length == Max(z.l, l) + 1
  {
    var maxi := Max(z.l, l);
    if r != z {
      r.ZeroRealloc(maxi);
      z.Realloc(l);
    } else {
      z.Realloc(maxi);
    }
  }

  /** The loops of mpz_addi_raw and the new length. */
  method FinishSum(r: Mpz, z: Mpz, x: array<Atom>, l: nat)
    requires z.Normal() && Apart(r, z) && l <= x.Length && Trimmed(x[..l]) && x != r.d
    requires l <= z.d.Length && Max(z.l, l) < r.d.Length
    requires forall k | Max(z.l, l) <= k < r.d.Length :: r.d[k] == 0
    modifies r`l, r.d
    ensures r.Normal() && r.Mag() == old(z.Mag()) + old(Val(x[..l])) && r.l <= Max(old(z.l), l) + 1
  {
    r.l := SumAtoms(r.d, z.d, z.l, x, l);
  }

  /** mpz_addi_raw: r = |z| + d. The block of z may be replaced by a longer one before the
      loops read d. If d is that block, and r, for which it would be copied, another
      number, they read what was released; the sum is then the one for a block that still
      holds its atoms. That assumption is made here and nowhere else, and reported. */
  method AddRaw(r: Mpz, z: Mpz, d: array<Atom>, l: nat) returns (assumed: bool)
    requires r.Valid() && z.Normal() && Apart(r, z) && l <= d.Length && Trimmed(d[..l])
    modifies r`d, r`l, r.d, z`d
    ensures r.Normal() && r.Mag() == old(z.Mag() + Val(d[..l])) && r.l <= Max(old(z.l), l) + 1
    ensures r.d == old(r.d) || fresh(r.d)
    ensures z.d == old(z.d) || fresh(z.d)
    ensures Apart(r, z)
    ensures r != z ==> z.Normal() && z.l == old(z.l) && z.d[..z.l] == old(z.d[..z.l])
    ensures r != z && old(r.d.Length) <= Max(z.l, l) ==> r.d.Length == Max(z.l, l) + 1
    ensures assumed <==> r != z && d == old(z.d) && l == old(z.d.Length) > 0
  {
    var x := CopyIfShared(r, d, l);
    var before := z.d;
    PrepareSum(r, z, l);
    assumed := l > 0 && x == before && z.d != before;
    assert x != r.d && x[..l] == old(d[..l]);
    FinishSum(r, z, x, l);
  }

  /** mpz_subi_raw: r = |z| - d, for d no larger than |z|. A zero result loses
      its sign; otherwise r takes the sign flag of z. */
  method SubRaw(r: Mpz, z: Mpz, d: array<Atom>, l: nat)
    requires r.Valid() && Apart(r, z) && l <= d.Length && l <= z.l <= z.d.Length
    requires Val(d[..l]) <= z.Mag()
    modifies r, r.d
    ensures r.Normal() && r.Mag() == old(z.Mag() - Val(d[..l]))
    ensures r.d == old(r.d) || fresh(r.d)
    ensures old(z.neg) && r.l > 0 ==> r.neg
    ensures r.neg ==> old(z.neg)
    ensures r.neg && r.l == 0 ==> r.d.Length == 0
    ensures if r == z then r.d == old(r.d) else z.l < r.d.Length
  {
    var x := CopyIfShared(r, d, l);
    ghost var zs := z.d[..z.l];
    if r != z {
      r.Set(z);
    }
    var n := z.l;
    assert z.d[..n] == zs;
    SubAtoms(r.d, z.d, n, x, l);
    r.l := n;
    ghost var all := r.d[..];
    assert all[..n] == r.d[..n];
    ValPadded(all, n);
    r.Normalize();
  }

  /** x still holds the same number, possibly in a longer block. */
  twostate predicate Kept(x: Mpz)
    reads x, x.d
  {
    && (x.d == old(x.d) || fresh(x.d))
    && x.l == old(x.l) <= x.d.Length && x.l <= old(x.d.Length) && x.neg == old(x.neg)
    && x.d[..x.l] == old(x.d[..x.l])
    && (old(x.Valid()) ==> x.Valid())
  }

  /** The operands of a signed operation keep their values unless they are the
      result, and no two numbers come to share storage. */
  twostate predicate OperandsKept(r: Mpz, a: Mpz, b: Mpz)
    reads r, a, b, a.d, b.d
  {
    && (r.d == old(r.d) || fresh(r.d))
    && (a != r ==> Kept(a)) && (b != r ==> Kept(b))
    && Apart(r, a) && Apart(r, b) && Apart(a, b)
  }

  /** mpz_addi_raw on the magnitudes of a and b, with sign `neg`. */
  method AddMagnitudes(r: Mpz, a: Mpz, b: Mpz, neg: bool) returns (assumed: bool)
    requires r.Valid() && a.Normal() && b.Normal() && Apart(r, a) && Apart(r, b) && Apart(a, b)
    modifies r, r.d, a`d
    ensures r.Normal() && r.Mag() == old(a.Mag() + b.Mag()) && r.neg == neg
    ensures OperandsKept(r, a, b)
    ensures r != a && old(r.d.Length <= Max(a.l, b.l)) ==> r.d.Length == old(Max(a.l, b.l)) + 1
    ensures assumed <==> r != a && a == b && old(a.l == a.d.Length > 0)
  {
    hide Val, Weight;
    assumed := AddRaw(r, a, b.d, b.l);
    r.neg := neg;
  }

  /** mpz_subi_raw on |a| >= |b|, with sign `neg` unless the result is zero. */
  method SubMagnitudes(r: Mpz, a: Mpz, b: Mpz, neg: bool)
    requires r.Valid() && a.Normal() && b.Normal() && Apart(r, a) && Apart(r, b) && Apart(a, b)
    requires a.Mag() >= b.Mag()
    modifies r, r.d
    ensures r.Normal() && r.Mag() == old(a.Mag() - b.Mag()) && r.neg == (neg && r.l > 0)
    ensures OperandsKept(r, a, b)
  {
    if a.l < b.l {
      ShorterIsSmaller(a.d[..a.l], b.d[..b.l]);
    }
    SubRaw(r, a, b.d, b.l);
    r.neg := if r.l == 0 then false else neg;
  }

  lemma ZeroLength(a: Mpz)
    requires a.Exact()
    ensures a.Mag() == 0 <==> a.l == 0
  {
    TrimmedZero(a.d[..a.l]);
  }

  /** mpz_add: r = a + b, for r, a and b in any combination of aliases; under the
      assumption of `AddRaw` exactly when a number that fills its block is added to itself
      into another one. */
  method Add(r: Mpz, a: Mpz, b: Mpz) returns (assumed: bool)
    requires r.Valid() && a.Normal() && b.Normal() && Apart(r, a) && Apart(r, b) && Apart(a, b)
    modifies r, r.d, a`d
    ensures r.Normal() && r.Int() == old(a.Int() + b.Int())
    ensures old(a.Canonical() && b.Canonical()) ==> r.Canonical()
    ensures OperandsKept(r, a, b)
    ensures r != a && old(a.neg == b.neg && r.d.Length <= Max(a.l, b.l)) ==> r.d.Length == old(Max(a.l, b.l)) + 1
    ensures assumed <==> r != a && a == b && old(a.l == a.d.Length > 0)
  {
    hide Val, Weight;
    assumed := false;
    var cmp := CmpAbs(a.d, a.l, b.d, b.l);
    ZeroLength(a);
    if a.neg == b.neg {
      assumed := AddMagnitudes(r, a, b, a.neg);
    } else if cmp >= 0 {
      SubMagnitudes(r, a, b, a.neg);
    } else {
      SubMagnitudes(r, b, a, b.neg);
    }
    ZeroLength(r);
  }

  lemma TwoAtoms(s: seq<Atom>)
    requires Trimmed(s) && Val(s) == BASE
    ensures |s| == 2
  {
    ValLowerBound(s);
    ValBound(s);
    assert Weight(1) == BASE && Weight(0) == 1;
    if |s| > 2 {
      WeightAdd(1, |s| - 2);
    }
  }

  /** 2^32 is such a number when it comes out of an addition: s = (2^32 - 1) + 1 fills the
      two atoms allocated for it, and t = s + s reads the block of s after its release. */
  method DoublingReadsReleasedBlock() returns (first: bool, second: bool)
    ensures !first && second
  {
    var x := FromAtom(0xFFFF_FFFF);
    var one := FromAtom(1);
    var s := new Mpz();
    first := Add(s, x, one);
    TwoAtoms(s.d[..s.l]);
    var t := new Mpz();
    second := Add(t, s, s);
  }

  /** mpz_sub: r = a - b, for r, a and b in any combination of aliases. No number is added
      to itself, so the assumption of `AddRaw` is never used. */
  method Sub(r: Mpz, a: Mpz, b: Mpz)
    requires r.Valid() && a.Normal() && b.Normal() && Apart(r, a) && Apart(r, b) && Apart(a, b)
    modifies r, r.d, a`d
    ensures r.Normal() && r.Int() == old(a.Int() - b.Int())
    ensures old(a.Canonical() && b.Canonical()) ==> r.Canonical()
    ensures OperandsKept(r, a, b)
  {
    hide Val, Weight;
    var cmp := CmpAbs(a.d, a.l, b.d, b.l);
    ZeroLength(a);
    if a.neg != b.neg {
      var assumed := AddMagnitudes(r, a, b, a.neg);
      assert !assumed;
    } else if cmp >= 0 {
      SubMagnitudes(r, a, b, a.neg);
    } else {
      SubMagnitudes(r, b, a, !a.neg);
    }
    ZeroLength(r);
  }
}
