// Exponentiation of src/sbignum.c by repeated squaring, plain and modular.
module MpzPow {
  import opened Arith
  import opened AtomSeq
  import opened MpzCore
  import opened MpzBits
  import opened MpzAddSub
  import opened MpzMul
  import opened MpzDiv

  /** |b|^e for e > 0, and |b| for e == 0: the power the library computes. */
  function Power(b: nat, e: nat): nat {
    Pow(b, if e == 0 then 1 else e)
  }

  /** r * b^e does not change when the exponent is halved and the base squared. */
  lemma TurnKeepsPower(r: nat, b: nat, e: nat)
    requires e > 1
    ensures (if e % 2 == 1 then r * b else r) * Power(b * b, e / 2) == r * Power(b, e)
  {
    PowSquare(b, e / 2);
    if e % 2 == 1 {
      assert e - 1 == 2 * (e / 2);
      MulAssoc(r, b, Pow(b * b, e / 2));
    }
  }

  lemma PowerOfOne(b: nat, e: nat)
    requires e <= 1
    ensures Power(b, e) == b
  {
    assert Pow(b, 1) == b * Pow(b, 0);
  }

  /** Three numbers that do not share storage. */
  ghost predicate Separate(r: Mpz, b: Mpz, e: Mpz)
    reads r, b, e
  {
    r != b && r != e && b != e && r.d != b.d && r.d != e.d && b.d != e.d
  }

  /** `_mpz_is_odd` */
  method IsOdd(e: Mpz) returns (odd: bool)
    requires e.Valid() && e.d.Length > 0
    ensures odd == (e.Mag() % 2 == 1)
  {
    odd := e.d[0] % 2 == 1;
    if e.l > 0 {
      ParityOfVal(e.d[..e.l]);
    }
  }

  /** `mpz_cmpabs_ui(e, 1) > 0` */
  method AboveOne(e: Mpz) returns (above: bool)
    requires e.Exact()
    ensures above == (e.Mag() > 1)
  {
    var one := FromAtom(1);
    var c := CmpAbs(e.d, e.l, one.d, one.l);
    above := c > 0;
  }

  /** One turn of the loop of mpz_pow. */
  method PowTurn(r: Mpz, b: Mpz, e: Mpz)
    requires r.Normal() && b.Normal() && e.Normal() && Separate(r, b, e) && !r.neg && !b.neg && e.l > 0
    modifies r, r.d, b, b.d, e, e.d
    ensures r.Normal() && b.Normal() && e.Normal() && Separate(r, b, e) && !r.neg && !b.neg
    ensures r.d == old(r.d) || fresh(r.d)
    ensures b.d == old(b.d) || fresh(b.d)
    ensures e.d == old(e.d) && e.Mag() == old(e.Mag()) / 2
    ensures b.Mag() == old(b.Mag()) * old(b.Mag())
    ensures r.Mag() == old(if e.Mag() % 2 == 1 then r.Mag() * b.Mag() else r.Mag())
  {
    var odd := IsOdd(e);
    if odd {
      MulNat(r, r, b);
    }
    ShiftRight1(e);
    MulNat(b, b, b);
  }

  /** The loop of mpz_pow: r *= b^e, stopping at exponent one. */
  method PowLoop(r: Mpz, b: Mpz, e: Mpz)
    requires r.Normal() && b.Normal() && e.Normal() && Separate(r, b, e) && !r.neg && !b.neg
    modifies r, r.d, b, b.d, e, e.d
    ensures r.Normal() && !r.neg && r.Mag() == old(r.Mag()) * Power(old(b.Mag()), old(e.Mag()))
    ensures r.d == old(r.d) || fresh(r.d)
  {
    ghost var p := r.Mag() * Power(b.Mag(), e.Mag());
    var more := AboveOne(e);
    while more
      invariant r.Normal() && b.Normal() && e.Normal() && Separate(r, b, e) && !r.neg && !b.neg
      invariant r.d == old(r.d) || fresh(r.d)
      invariant b.d == old(b.d) || fresh(b.d)
      invariant e.d == old(e.d)
      invariant p == r.Mag() * Power(b.Mag(), e.Mag()) && more == (e.Mag() > 1)
      decreases e.Mag()
    {
      ZeroLength(e);
      TurnKeepsPower(r.Mag(), b.Mag(), e.Mag());
      PowTurn(r, b, e);
      more := AboveOne(e);
    }
    PowerOfOne(b.Mag(), e.Mag());
    MulNat(r, r, b);
  }

  /** b^e over the integers. */
  function IntPow(b: int, e: nat): int {
    if e == 0 then 1 else b * IntPow(b, e - 1)
  }

  lemma {:induction false} IntPowSign(b: int, e: nat)
    ensures IntPow(b, e) == if b < 0 && e % 2 == 1 then 0 - Pow(Abs(b), e) else Pow(Abs(b), e)
  {
    if e > 0 {
      IntPowSign(b, e - 1);
      var p: int := Pow(Abs(b), e - 1);
      SignOfProduct(Abs(b), p);
    }
  }

  /** What mpz_pow leaves in its result. */
  function PowResult(b: int, e: nat): int {
    var m: int := Power(if b < 0 then -b else b, e);
    if b < 0 && e % 2 == 1 then -m else m
  }

  /** mpz_pow is b^e exactly when the exponent is positive or |b| == 1. */
  lemma PowIsRightIff(b: int, e: nat)
    ensures PowResult(b, e) == IntPow(b, e) <==> e > 0 || b == 1 || b == -1
  {
    IntPowSign(b, e);
    if e == 0 {
      PowerOfOne(Abs(b), e);
    }
  }

  /** Local copies of base and exponent: neither is the result, nor shares with it. */
  method WorkingCopies(b: Mpz, e: Mpz) returns (b': Mpz, e': Mpz)
    requires b.Normal() && e.Normal()
    ensures fresh(b') && fresh(b'.d) && fresh(e') && fresh(e'.d) && b' != e' && b'.d != e'.d
    ensures b'.Normal() && e'.Normal() && b'.Mag() == b.Mag() && e'.Mag() == e.Mag()
    ensures b'.neg == b.neg && e'.neg == e.neg && 0 < e'.d.Length
  {
    b' := new Mpz();
    e' := new Mpz();
    SetCopy(b', b);
    SetCopy(e', e);
  }

  /** `r = 1` and the loop. */
  method PowFromOne(r: Mpz, b: Mpz, e: Mpz)
    requires r.Valid() && b.Normal() && e.Normal() && Separate(r, b, e) && !b.neg
    modifies r, r.d, b, b.d, e, e.d
    ensures r.Normal() && !r.neg && r.Mag() == Power(old(b.Mag()), old(e.Mag()))
    ensures r.d == old(r.d) || fresh(r.d)
  {
    r.SetUi(1);
    PowLoop(r, b, e);
  }

  /** `r->s = rs` */
  method FinishPower(r: Mpz, negative: bool, ghost b: int, ghost e: nat)
    requires r.Normal() && !r.neg && r.Mag() == Power(Abs(b), e) && negative == (b < 0 && e % 2 == 1)
    modifies r`neg
    ensures r.Canonical() && r.Int() == PowResult(b, e)
  {
    ZeroLength(r);
    r.neg := negative;
    if negative {
      PowPositive(Abs(b), e);
    }
  }

  /** mpz_pow: r = b^e, for any aliasing. */
  method RaiseTo(r: Mpz, b: Mpz, e: Mpz) returns (st: Status)
    requires r.Valid() && b.Canonical() && e.Canonical() && Apart(r, b) && Apart(r, e)
    modifies r, r.d
    ensures r.d == old(r.d) || fresh(r.d)
    ensures (st == Inval) == old(e.neg)
    ensures st == Inval ==> unchanged(r) && unchanged(r.d)
    ensures st == Ok ==> r.Canonical() && r.Int() == PowResult(old(b.Int()), old(e.Mag()))
  {
    hide Val, Pow2, Weight, Power, IntPow;
    if e.neg {
      return Inval;
    }
    ghost var bv, ev := b.Int(), e.Mag();
    ZeroLength(b);
    var b', e' := WorkingCopies(b, e);
    var odd := IsOdd(e');
    var negative := b'.neg && odd;
    b'.neg := false;
    PowFromOne(r, b', e');
    FinishPower(r, negative, bv, ev);
    st := Ok;
  }

  // --- modular exponentiation ------------------------------------------------

  /** Reducing both factors keeps r * b^e modulo m. */
  lemma TurnKeepsResidue(r: nat, b: nat, e: nat, m: nat)
    requires e > 1 && m > 0
    ensures ((if e % 2 == 1 then (r * b) % m else r) * Power((b * b) % m, e / 2)) % m == (r * Power(b, e)) % m
  {
    var r', b', h := if e % 2 == 1 then r * b else r, b * b, e / 2;
    TurnKeepsPower(r, b, e);
    var p, p' := Power(b', h), Power(b' % m, h);
    ModPow(b', h, m);
    ModMul(p', r', m);
    ModMul(p, r', m);
    assert (r' * p') % m == (r' * p) % m;
    if e % 2 == 1 {
      ModMul(r', p', m);
    }
  }

  /** `r = r * b` and `r = r mod m` */
  method MulMod(r: Mpz, b: Mpz, m: Mpz) returns (st: Status)
    requires r.Normal() && b.Normal() && m.Normal() && Apart(r, b) && m != r && m.d != r.d && !r.neg && !b.neg
    modifies r, r.d
    ensures r.Normal() && !r.neg
    ensures r.d == old(r.d) || fresh(r.d)
    ensures (st == Inval) == (m.Mag() == 0)
    ensures st == Ok ==> r.Mag() == (old(r.Mag()) * old(b.Mag())) % m.Mag()
  {
    ghost var p := r.Mag() * b.Mag();
    MulNat(r, r, b);
    st := Mod(r, r, m);
  }

  /** `if (_mpz_is_odd(E)) r = r * B mod m` */
  method TakeFactor(r: Mpz, b: Mpz, e: Mpz, m: Mpz) returns (st: Status)
    requires r.Normal() && b.Normal() && e.Normal() && m.Normal() && Separate(r, b, e) && !r.neg && !b.neg
    requires m != r && m.d != r.d && e.d.Length > 0
    modifies r, r.d
    ensures r.Normal() && !r.neg
    ensures r.d == old(r.d) || fresh(r.d)
    ensures (st == Inval) == (e.Mag() % 2 == 1 && m.Mag() == 0)
    ensures st == Ok ==>
              r.Mag() == if e.Mag() % 2 == 1 then (old(r.Mag()) * b.Mag()) % m.Mag() else old(r.Mag())
  {
    var odd := IsOdd(e);
    if odd {
      st := MulMod(r, b, m);
    } else {
      st := Ok;
    }
  }

  /** One turn of the loop of mpz_powm. */
  method PowmTurn(r: Mpz, b: Mpz, e: Mpz, m: Mpz) returns (st: Status)
    requires r.Normal() && b.Normal() && e.Normal() && m.Normal() && Separate(r, b, e) && !r.neg && !b.neg
    requires m != r && m != b && m != e && m.d != r.d && m.d != b.d && m.d != e.d && e.l > 0
    modifies r, r.d, b, b.d, e, e.d
    ensures r.Normal() && b.Normal() && e.Normal() && Separate(r, b, e) && !r.neg && !b.neg
    ensures r.d == old(r.d) || fresh(r.d)
    ensures b.d == old(b.d) || fresh(b.d)
    ensures e.d == old(e.d)
    ensures (st == Inval) == (m.Mag() == 0)
    ensures st == Ok ==> e.Mag() == old(e.Mag()) / 2 && b.Mag() == (old(b.Mag()) * old(b.Mag())) % m.Mag()
    ensures st == Ok ==>
              r.Mag() == if old(e.Mag()) % 2 == 1 then (old(r.Mag()) * old(b.Mag())) % m.Mag() else old(r.Mag())
  {
    st := TakeFactor(r, b, e, m);
    if st != Ok {
      return;
    }
    ShiftRight1(e);
    st := MulMod(b, b, m);
  }

  /** The product that the loop of mpz_powm hands to the last reduction. */
  ghost function LastProduct(r: nat, b: nat, e: nat, m: nat): nat
    requires m > 0
    decreases e
  {
    if e <= 1 then r * b else LastProduct(if e % 2 == 1 then (r * b) % m else r, (b * b) % m, e / 2, m)
  }

  lemma {:induction false} LastProductResidue(r: nat, b: nat, e: nat, m: nat)
    requires m > 0
    ensures LastProduct(r, b, e, m) % m == (r * Power(b, e)) % m
    decreases e
  {
    if e <= 1 {
      PowerOfOne(b, e);
    } else {
      TurnKeepsResidue(r, b, e, m);
      hide Power;
      LastProductResidue(if e % 2 == 1 then (r * b) % m else r, (b * b) % m, e / 2, m);
    }
  }

  /** The loop of mpz_powm. */
  method PowmLoop(r: Mpz, b: Mpz, e: Mpz, m: Mpz) returns (st: Status)
    requires r.Normal() && b.Normal() && e.Normal() && m.Normal() && Separate(r, b, e) && !r.neg && !b.neg
    requires m != r && m != b && m != e && m.d != r.d && m.d != b.d && m.d != e.d && e.d.Length > 0
    modifies r, r.d, b, b.d, e, e.d
    ensures r.Normal() && !r.neg && b.Normal() && !b.neg && Separate(r, b, e)
    ensures r.d == old(r.d) || fresh(r.d)
    ensures b.d == old(b.d) || fresh(b.d)
    ensures st == Inval ==> m.Mag() == 0
    ensures st == Ok && m.Mag() > 0 ==>
              r.Mag() * b.Mag() == LastProduct(old(r.Mag()), old(b.Mag()), old(e.Mag()), m.Mag())
  {
    hide Val, Pow;
    st := Ok;
    ghost var r0, b0, e0 := r.Mag(), b.Mag(), e.Mag();
    var more := AboveOne(e);
    while more
      invariant r.Normal() && b.Normal() && e.Normal() && Separate(r, b, e) && !r.neg && !b.neg && st == Ok
      invariant r.d == old(r.d) || fresh(r.d)
      invariant b.d == old(b.d) || fresh(b.d)
      invariant e.d == old(e.d)
      invariant m.Mag() > 0 ==>
                  LastProduct(r0, b0, e0, m.Mag()) == LastProduct(r.Mag(), b.Mag(), e.Mag(), m.Mag())
      invariant more == (e.Mag() > 1)
      decreases e.Mag()
    {
      ZeroLength(e);
      st := PowmTurn(r, b, e, m);
      if st != Ok {
        return;
      }
      more := AboveOne(e);
    }
  }

  /** The last multiplication, the sign computed before, and the last reduction. */
  method FinishPowm(r: Mpz, b: Mpz, m: Mpz, negative: bool) returns (st: Status)
    requires r.Normal() && b.Normal() && m.Normal() && Apart(r, b) && m != r && m.d != r.d && !r.neg && !b.neg
    modifies r, r.d
    ensures r.d == old(r.d) || fresh(r.d)
    ensures (st == Inval) == (m.Mag() == 0)
    ensures st == Ok ==> r.Normal() && m.Mag() > 0
    ensures st == Ok ==> r.Int() == ModResult(old(r.Mag()) * old(b.Mag()), negative, m.Mag(), true)
    ensures st == Ok && !negative ==> !r.neg
  {
    MulNat(r, r, b);
    r.neg := negative;
    st := Mod(r, r, m);
  }

  /** `r = 1`, the loop and what follows it. */
  method PowmFromOne(r: Mpz, b: Mpz, e: Mpz, m: Mpz, negative: bool) returns (st: Status)
    requires r.Valid() && b.Normal() && e.Normal() && m.Normal() && Separate(r, b, e) && !b.neg
    requires m != r && m != b && m != e && m.d != r.d && m.d != b.d && m.d != e.d && e.d.Length > 0
    modifies r, r.d, b, b.d, e, e.d
    ensures r.d == old(r.d) || fresh(r.d)
    ensures (st == Inval) == (m.Mag() == 0)
    ensures st == Ok ==> r.Normal() && m.Mag() > 0
    ensures st == Ok ==>
              r.Int() == ModResult(LastProduct(1, old(b.Mag()), old(e.Mag()), m.Mag()), negative, m.Mag(), true)
    ensures st == Ok && !negative ==> !r.neg
  {
    hide Val, Weight, LastProduct, ModResult;
    r.SetUi(1);
    st := PowmLoop(r, b, e, m);
    if st == Ok {
      st := FinishPowm(r, b, m, negative);
    }
  }

  /** What mpz_powm leaves in its result: what the last reduction makes of the last product
      with the sign of the power. */
  ghost function PowmResult(b: int, e: nat, m: nat): int
    requires m > 0
  {
    ModResult(LastProduct(1, Abs(b), e, m), b < 0 && e % 2 == 1, m, true)
  }

  /** mpz_powm on its working copies. */
  method PowmOfCopies(r: Mpz, b: Mpz, e: Mpz, m: Mpz) returns (st: Status)
    requires r.Valid() && b.Canonical() && e.Normal() && m.Normal() && Separate(r, b, e)
    requires m != r && m != b && m != e && m.d != r.d && m.d != b.d && m.d != e.d && e.d.Length > 0
    modifies r, r.d, b, b.d, e, e.d
    ensures r.d == old(r.d) || fresh(r.d)
    ensures (st == Inval) == (m.Mag() == 0)
    ensures st == Ok ==> r.Normal() && m.Mag() > 0 && r.Int() == PowmResult(old(b.Int()), old(e.Mag()), m.Mag())
    ensures st == Ok && old(b.Int()) >= 0 ==> !r.neg
  {
    hide Val, Pow2, Weight, LastProduct, ModResult;
    ZeroLength(b);
    var odd := IsOdd(e);
    var negative := b.neg && odd;
    b.neg := false;
    st := PowmFromOne(r, b, e, m, negative);
  }

  /** mpz_powm, for any aliasing. */
  method RaiseMod(r: Mpz, b: Mpz, e: Mpz, m: Mpz) returns (st: Status)
    requires r.Valid() && b.Canonical() && e.Canonical() && m.Normal() && Apart(r, b) && Apart(r, e) && Apart(r, m)
    modifies r, r.d
    ensures r.d == old(r.d) || fresh(r.d)
    ensures (st == Inval) == (old(e.neg) || old(m.Mag()) == 0)
    ensures old(e.neg) ==> unchanged(r) && unchanged(r.d)
    ensures st == Ok ==> r.Normal() && old(m.Mag()) > 0
    ensures st == Ok ==> r.Int() == PowmResult(old(b.Int()), old(e.Mag()), old(m.Mag()))
    ensures st == Ok && old(b.Int()) >= 0 ==> !r.neg
  {
    hide Val, Pow2, Weight, PowmResult;
    if e.neg {
      return Inval;
    }
    var m' := Detached(m, r, r);
    ZeroLength(b);
    var b', e' := WorkingCopies(b, e);
    ZeroLength(b');
    st := PowmOfCopies(r, b', e', m');
  }

  lemma PowResidue(b: int, e: nat, m: nat)
    requires m > 0
    ensures var r := Pow(Abs(b), e) % m;
            IntPow(b, e) % m == if b >= 0 || e % 2 == 0 || r == 0 then r else m - r
  {
    IntPowSign(b, e);
    hide IntPow, Pow;
    ResidueOf(IntPow(b, e), m);
  }

  lemma PowZero(b: nat)
    ensures Pow(b, 0) == 1
  {
  }

  /** mpz_powm is b^e modulo m exactly for these: with exponent zero, a base that leaves
      the residue of 1; otherwise a power that is not negative or divides, or whose last
      product keeps its sign in the last reduction, or that leaves half of m. The last
      product is what the loop computes; `LastProductKnown` says when it is known before. */
  lemma PowmIsRightIff(b: int, e: nat, m: nat)
    requires m > 0
    ensures var p, r := LastProduct(1, Abs(b), e, m), Power(Abs(b), e) % m;
            PowmResult(b, e, m) == IntPow(b, e) % m <==>
            if e == 0 then Abs(b) % m == 1 % m
            else b >= 0 || e % 2 == 0 || r == 0 || SignKept(p, m, 0) || 2 * r == m
  {
    LastProductResidue(1, Abs(b), e, m);
    PowResidue(b, e, m);
    hide SignKept, LastProduct, Pow, IntPow;
    if e == 0 {
      PowerOfOne(Abs(b), e);
      PowZero(Abs(b));
    }
    var r: nat := Power(Abs(b), e) % m;
    assert r < m;
  }

  lemma FactorsBelow(r: nat, b: nat, e: nat, m: nat)
    requires r > 0 && b > 0 && e > 1 && r * Power(b, e) < m
    ensures r * b > 0 && b * b > 0 && b * b < m && (e % 2 == 1 ==> r * b < m)
  {
    TurnKeepsPower(r, b, e);
    MulPositive(r, b);
    MulPositive(b, b);
    var r', h: nat := if e % 2 == 1 then r * b else r, e / 2 - 1;
    PowPositive(b * b, h);
    var p, q := Power(b * b, e / 2), Pow(b * b, h);
    assert p == (b * b) * q;
    hide Power, Pow;
    MulMonotone(1, q, b * b);
    MulMonotone(1, r', p);
    MulMonotone(1, p, r');
  }

  lemma SmallTurn(r: nat, b: nat, e: nat, m: nat)
    requires e > 1 && b * b < m && (e % 2 == 1 ==> r * b < m)
    ensures LastProduct(r, b, e, m) == LastProduct(if e % 2 == 1 then r * b else r, b * b, e / 2, m)
  {
    var square, product: nat := b * b, if e % 2 == 1 then r * b else r;
    DivModUnique(square, m, 0, square);
    if e % 2 == 1 {
      DivModUnique(product, m, 0, product);
    }
  }

  lemma {:induction false} NothingIsReduced(r: nat, b: nat, e: nat, m: nat)
    requires r > 0 && b > 0 && r * Power(b, e) < m
    ensures LastProduct(r, b, e, m) == r * Power(b, e)
    decreases e
  {
    if e <= 1 {
      PowerOfOne(b, e);
    } else {
      var r', b', p := if e % 2 == 1 then r * b else r, b * b, Power(b * b, e / 2);
      TurnKeepsPower(r, b, e);
      FactorsBelow(r, b, e, m);
      hide Power;
      SmallTurn(r, b, e, m);
      NothingIsReduced(r', b', e / 2, m);
    }
  }

  lemma {:induction false} ZeroStaysZero(r: nat, e: nat, m: nat)
    requires m > 0
    ensures LastProduct(r, 0, e, m) == 0 && Power(0, e) == 0
    decreases e
  {
    if e > 1 {
      assert r * 0 == 0 && 0 * 0 == 0;
      DivModUnique(0, m, 0, 0);
      ZeroStaysZero(if e % 2 == 1 then (r * 0) % m else r, e / 2, m);
    }
  }

  /** The last product is the base itself for exponents up to one, and the power when that
      is below the modulus. */
  lemma LastProductKnown(b: nat, e: nat, m: nat)
    requires m > 0
    ensures e <= 1 ==> LastProduct(1, b, e, m) == b
    ensures Power(b, e) < m ==> LastProduct(1, b, e, m) == Power(b, e)
  {
    if b == 0 {
      ZeroStaysZero(1, e, m);
    } else if Power(b, e) < m {
      NothingIsReduced(1, b, e, m);
    }
  }

  /** So mpz_powm is right for every power, negative or not, whose magnitude is below the
      modulus. */
  lemma SmallPowmIsRight(b: int, e: nat, m: nat)
    requires e > 0 && Power(Abs(b), e) < m
    ensures PowmResult(b, e, m) == IntPow(b, e) % m
  {
    LastProductKnown(Abs(b), e, m);
    SmallKeepsSign(Power(Abs(b), e), m);
    PowmIsRightIff(b, e, m);
    hide SignKept, LastProduct, Power, IntPow, PowmResult;
  }
}
