// Binary greatest common divisor of src/sbignum.c.
module MpzGcd {
  import opened Arith
  import opened AtomSeq
  import opened Divisors
  import opened MpzCore
  import opened MpzBits
  import opened MpzAddSub
  import opened MpzMul
  import opened MpzDiv

  /** `_mpz_is_even` on a non-zero number whose upper atoms may be stale. */
  method IsEven(z: Mpz) returns (even: bool)
    requires 0 < z.l <= z.d.Length
    ensures even == (z.Mag() % 2 == 0)
  {
    ParityOfVal(z.d[..z.l]);
    even := z.d[0] % 2 == 0;
  }

  /** `_mpz_set`: copy the atoms in use and the length; what was above stays. */
  method SetInPlace(z: Mpz, t: Mpz)
    requires t.Exact() && t.l <= z.d.Length && z != t && z.d != t.d
    modifies z`l, z`neg, z.d
    ensures z.Exact() && z.Mag() == t.Mag() && z.l == t.l && z.neg == t.neg
  {
    forall k | 0 <= k < t.l {
      z.d[k] := t.d[k];
    }
    z.l := t.l;
    z.neg := t.neg;
    assert z.d[..z.l] == t.d[..t.l];
  }

  /** What halving leaves of a positive number as long as it is even. */
  function OddPart(n: nat): (m: nat)
    requires n > 0
    ensures m % 2 == 1 && m <= n
  {
    if n % 2 == 0 then OddPart(n / 2) else n
  }

  /** `while (_mpz_is_even(z)) _mpz_self_rshift1(z);` beside an odd or halved b. */
  method MakeOdd(z: Mpz, ghost b: nat)
    requires z.Exact() && z.l > 0 && (z.Mag() % 2 == 0 ==> b % 2 == 1)
    modifies z`l, z.d
    ensures z.Exact() && 0 < z.l <= old(z.l) && old(z.Mag()) > 0 && z.Mag() == OddPart(old(z.Mag()))
    ensures SameDivisors(old(z.Mag()), b, z.Mag(), b)
  {
    ghost var start := z.Mag();
    ZeroLength(z);
    var even := IsEven(z);
    while even
      invariant z.Exact() && 0 < z.l <= old(z.l) && even == (z.Mag() % 2 == 0) && 0 < z.Mag() <= start
      invariant OddPart(z.Mag()) == OddPart(start)
      invariant z.Mag() % 2 == 0 ==> b % 2 == 1
      invariant SameDivisors(start, b, z.Mag(), b)
      decreases z.Mag()
    {
      ghost var h := z.Mag() / 2;
      HalveKeepsDivisors(h, b);
      SameDivisorsTrans(start, b, z.Mag(), b, h, b);
      ShiftRight1(z);
      ZeroLength(z);
      even := IsEven(z);
    }
  }

  /** `_mpz_self_rshift1(t)` where t may be zero. For a zero length the macro looks at
      `d[l - 1]` with l - 1 == 2^32 - 1, outside the array. What it finds there is an
      assumption of this model: an atom that is not zero, so that the length stays. It is
      made here and nowhere else, and reported. */
  method HalveAssumingZero(t: Mpz) returns (assumed: bool)
    requires t.Normal() && t.d.Length > 0
    modifies t`l, t.d
    ensures t.Normal() && t.Mag() == old(t.Mag()) / 2
    ensures assumed <==> old(t.Mag()) == 0
  {
    ZeroLength(t);
    assumed := t.l == 0;
    if assumed {
      t.d[0] := t.d[0] / 2;
    } else {
      ShiftRight1(t);
    }
  }

  /** `t = (z - y) / 2` */
  method HalfDifference(t: Mpz, z: Mpz, y: Mpz) returns (assumed: bool)
    requires t.Valid() && z.Exact() && y.Exact() && t != z && t != y
    requires t.d != z.d && t.d != y.d && z.Mag() >= y.Mag() && z.l > 0
    modifies t, t.d
    ensures t.Normal() && t.Mag() == (z.Mag() - y.Mag()) / 2 && t.l <= z.l
    ensures t.d == old(t.d) || fresh(t.d)
    ensures assumed <==> z.Mag() == y.Mag()
  {
    if z.l < y.l {
      ShorterIsSmaller(z.d[..z.l], y.d[..y.l]);
    }
    SubRaw(t, z, y.d, y.l);
    assumed := HalveAssumingZero(t);
    if t.l > z.l {
      ShorterIsSmaller(z.d[..z.l], t.d[..t.l]);
    }
  }

  /** `t = (z - y) / 2; z = t;` for odd z >= y. */
  method SubtractHalve(t: Mpz, z: Mpz, y: Mpz) returns (assumed: bool)
    requires t.Valid() && z.Exact() && y.Exact() && t != z && t != y && z != y
    requires t.d != z.d && t.d != y.d && z.d != y.d
    requires z.Mag() >= y.Mag() && z.Mag() % 2 == 1 && y.Mag() % 2 == 1
    modifies t, t.d, z`l, z`neg, z.d
    ensures t.Valid() && z.Exact() && z.Mag() == (old(z.Mag()) - y.Mag()) / 2 && z.l <= old(z.l)
    ensures t.d == old(t.d) || fresh(t.d)
    ensures SameDivisors(old(z.Mag()), y.Mag(), z.Mag(), y.Mag())
    ensures assumed <==> old(z.Mag()) == y.Mag()
  {
    ghost var zv, yv := z.Mag(), y.Mag();
    ghost var h := (zv - yv) / 2;
    SubtractKeepsDivisors(zv, yv);
    assert zv - yv == 2 * h;
    HalveKeepsDivisors(h, yv);
    SameDivisorsTrans(zv, yv, zv - yv, yv, h, yv);
    assumed := HalfDifference(t, z, y);
    SetInPlace(z, t);
  }

  /** The working copies of mpz_gcd_raw: a, and the l atoms at b. */
  method CopyOperands(a: Mpz, b: array<Atom>, l: nat) returns (a': Mpz, b': Mpz)
    requires a.Exact() && l <= b.Length && Trimmed(b[..l])
    ensures fresh(a') && fresh(a'.d) && fresh(b') && fresh(b'.d) && a' != b' && a'.d != b'.d
    ensures a'.Exact() && a'.Mag() == a.Mag() && a'.l == a.l
    ensures b'.Exact() && b'.Mag() == Val(b[..l]) && b'.l == l
  {
    a' := Clone(a);
    a'.neg := false;
    b' := new Mpz();
    var block := new Atom[l];
    forall k | 0 <= k < l {
      block[k] := b[k];
    }
    b'.d, b'.l, b'.neg := block, l, false;
    assert b'.d[..l] == b[..l];
  }

  lemma RoomForShift(g: seq<Atom>, top: seq<Atom>, a: nat)
    requires Trimmed(g) && Val(top) == Val(g) * a && Val(top) > 0
    ensures |g| <= |top|
  {
    if |g| > |top| {
      ShorterIsSmaller(top, g);
      MulMonotone(1, a, Val(g));
    }
  }

  /** One turn of the first phase. */
  method HalveBoth(g: Mpz, a: Mpz, b: Mpz, ghost n: nat, ghost top: seq<Atom>) returns (ghost n': nat)
    requires g.Normal() && g.Mag() == Pow2(n) && a.Exact() && b.Exact() && a.l > 0 && b.l > 0
    requires g != a && g != b && a != b && g.d != a.d && g.d != b.d && a.d != b.d && |top| < g.d.Length
    requires Val(top) == Pow2(n) * a.Mag() && Val(top) > 0
    requires a.Mag() % 2 == 0 && b.Mag() % 2 == 0
    modifies g`l, g.d, a`l, a.d, b`l, b.d
    ensures n' == n + 1 && g.Normal() && g.Mag() == Pow2(n') && a.Exact() && b.Exact() && a.l > 0 && b.l > 0
    ensures Pow2(n') * a.Mag() == Pow2(n) * old(a.Mag()) && Pow2(n') * b.Mag() == Pow2(n) * old(b.Mag())
    ensures a.Mag() < old(a.Mag())
  {
    hide Val, Weight;
    n' := n + 1;
    RoomForShift(g.d[..g.l], top, a.Mag());
    ZeroLength(a);
    ZeroLength(b);
    MulAssoc(Pow2(n), 2, a.Mag() / 2);
    MulAssoc(Pow2(n), 2, b.Mag() / 2);
    ShiftRight1(a);
    ShiftRight1(b);
    ShiftLeft1(g, 0);
    ZeroLength(a);
    ZeroLength(b);
  }

  /** First phase: take out the common powers of two, collecting them in g. */
  method CommonTwos(g: Mpz, a: Mpz, b: Mpz) returns (ghost n: nat)
    requires g.Normal() && g.Mag() == 1 && a.Exact() && b.Exact() && a.l > 0 && b.l > 0
    requires g != a && g != b && a != b && g.d != a.d && g.d != b.d && a.d != b.d && a.l < g.d.Length
    modifies g`l, g.d, a`l, a.d, b`l, b.d
    ensures g.Normal() && g.Mag() == Pow2(n) && a.Exact() && b.Exact() && a.l > 0 && b.l > 0
    ensures Pow2(n) * a.Mag() == old(a.Mag()) && Pow2(n) * b.Mag() == old(b.Mag())
    ensures a.Mag() % 2 == 1 || b.Mag() % 2 == 1
  {
    ghost var a0, b0, top := a.Mag(), b.Mag(), a.d[..a.l];
    ZeroLength(a);
    n := 0;
    assert Pow2(n) == 1;
    var evenA := IsEven(a);
    var evenB := IsEven(b);
    while evenA && evenB
      invariant g.Normal() && g.Mag() == Pow2(n) && a.Exact() && b.Exact() && a.l > 0 && b.l > 0
      invariant Pow2(n) * a.Mag() == a0 && Pow2(n) * b.Mag() == b0
      invariant evenA == (a.Mag() % 2 == 0) && evenB == (b.Mag() % 2 == 0)
      decreases a.Mag()
    {
      n := HalveBoth(g, a, b, n, top);
      evenA := IsEven(a);
      evenB := IsEven(b);
    }
  }

  /** The two inner loops of the second phase. */
  method MakeBothOdd(a: Mpz, b: Mpz)
    requires a.Exact() && b.Exact() && a.l > 0 && b.l > 0 && a != b && a.d != b.d
    requires a.Mag() % 2 == 1 || b.Mag() % 2 == 1
    modifies a`l, a.d, b`l, b.d
    ensures a.Exact() && b.Exact() && a.l > 0 && b.l > 0
    ensures old(a.Mag()) > 0 && old(b.Mag()) > 0
    ensures a.Mag() == OddPart(old(a.Mag())) && b.Mag() == OddPart(old(b.Mag()))
    ensures SameDivisors(old(a.Mag()), old(b.Mag()), a.Mag(), b.Mag())
  {
    hide Val, Weight, Pow2, OddPart;
    ghost var a0, b0 := a.Mag(), b.Mag();
    MakeOdd(a, b0);
    ghost var a1 := a.Mag();
    MakeOdd(b, a1);
    ghost var b1 := b.Mag();
    SameDivisorsSwap(b0, a1, b1, a1);
    SameDivisorsTrans(a0, b0, a1, b0, a1, b1);
  }

  /** One turn of the second phase. It halves zero exactly when the odd parts are equal,
      and is then the last one. */
  method OddTurn(t: Mpz, a: Mpz, b: Mpz) returns (assumed: bool)
    requires t.Valid() && a.Exact() && b.Exact() && a.l > 0 && b.l > 0 && t != a && t != b && a != b
    requires t.d != a.d && t.d != b.d && a.d != b.d
    requires a.Mag() % 2 == 1 || b.Mag() % 2 == 1
    modifies t, t.d, a`l, a`neg, a.d, b`l, b`neg, b.d
    ensures t.Valid() && a.Exact() && b.Exact() && b.l > 0
    ensures t.d == old(t.d) || fresh(t.d)
    ensures a.Mag() % 2 == 1 || b.Mag() % 2 == 1
    ensures SameDivisors(old(a.Mag()), old(b.Mag()), a.Mag(), b.Mag())
    ensures a.Mag() + b.Mag() < old(a.Mag() + b.Mag())
    ensures old(a.Mag()) > 0 && old(b.Mag()) > 0
    ensures assumed <==> OddPart(old(a.Mag())) == OddPart(old(b.Mag()))
    ensures assumed <==> a.Mag() == 0
  {
    hide Val, Weight, Pow2, OddPart;
    ghost var a0, b0 := a.Mag(), b.Mag();
    MakeBothOdd(a, b);
    ghost var a1, b1 := a.Mag(), b.Mag();
    var cmp := CmpAbs(a.d, a.l, b.d, b.l);
    if cmp >= 0 {
      assumed := SubtractHalve(t, a, b);
    } else {
      assumed := SubtractHalve(t, b, a);
      SameDivisorsSwap(b1, a1, b.Mag(), a1);
      ZeroLength(b);
    }
    SameDivisorsTrans(a0, b0, a1, b1, a.Mag(), b.Mag());
  }

  /** Second phase: reduce to (0, gcd). The assumption of `HalveAssumingZero` is used once,
      by the last turn. */
  method OddPhase(a: Mpz, b: Mpz) returns (ghost assumptions: nat)
    requires a.Exact() && b.Exact() && a.l > 0 && b.l > 0 && a != b && a.d != b.d
    requires a.Mag() % 2 == 1 || b.Mag() % 2 == 1
    modifies a`l, a`neg, a.d, b`l, b`neg, b.d
    ensures b.Exact() && IsGcd(b.Mag(), old(a.Mag()), old(b.Mag()))
    ensures assumptions == 1
  {
    ghost var a0, b0 := a.Mag(), b.Mag();
    var t := new Mpz();
    ZeroLength(b);
    assumptions := 0;
    while a.l > 0
      invariant assumptions == if a.l == 0 then 1 else 0
      invariant a.Exact() && b.Exact() && b.l > 0 && b.Mag() > 0 && t.Valid()
      invariant fresh(t) && fresh(t.d) && t.d != a.d && t.d != b.d
      invariant a.l > 0 ==> a.Mag() % 2 == 1 || b.Mag() % 2 == 1
      invariant SameDivisors(a0, b0, a.Mag(), b.Mag())
      decreases a.Mag() + b.Mag()
    {
      ghost var a1, b1 := a.Mag(), b.Mag();
      ZeroLength(a);
      var assumed := OddTurn(t, a, b);
      assumptions := assumptions + if assumed then 1 else 0;
      ZeroLength(a);
      SameDivisorsTrans(a0, b0, a1, b1, a.Mag(), b.Mag());
      ZeroLength(b);
    }
    ZeroEndsSearch(a0, b0, b.Mag());
  }

  /** `g = 1`, with room for maxi + 1 atoms. */
  method StartAtOne(g: Mpz, maxi: nat)
    requires g.Valid()
    modifies g, g.d
    ensures g.Normal() && g.Mag() == 1 && maxi < g.d.Length && g.neg == old(g.neg)
    ensures g.d == old(g.d) || fresh(g.d)
  {
    g.ZeroRealloc(maxi);
    g.d[0] := 1;
    g.l := 1;
    assert g.d[..1] == [1];
    assert Val([1]) == 1 + BASE * Val([1][1..]);
  }

  /** The body of mpz_gcd_raw on its private copies. */
  method GcdOfCopies(g: Mpz, a: Mpz, b: Mpz) returns (ghost assumptions: nat)
    requires g.Valid() && a.Exact() && b.Exact() && a.l > 0 && b.l > 0
    requires g != a && g != b && a != b && g.d != a.d && g.d != b.d && a.d != b.d
    modifies g, g.d, a`l, a`neg, a.d, b`l, b`neg, b.d
    ensures g.Normal() && IsGcd(g.Mag(), old(a.Mag()), old(b.Mag())) && g.neg == old(g.neg)
    ensures assumptions == 1
    ensures g.d == old(g.d) || fresh(g.d)
  {
    StartAtOne(g, Max(a.l, b.l));
    ghost var n := CommonTwos(g, a, b);
    ghost var a1, b1 := a.Mag(), b.Mag();
    assumptions := OddPhase(a, b);
    GcdScale(n, b.Mag(), a1, b1);
    MulRaw(g, g, b.d, b.l);
    ZeroLength(g);
  }

  /** mpz_gcd_raw: the greatest common divisor of |a| > 0 and b > 0, for any
      overlap. The sign flag of g is not touched. Every call halves zero once. */
  method GcdRaw(g: Mpz, a: Mpz, b: array<Atom>, l: nat) returns (ghost assumptions: nat)
    requires g.Valid() && a.Exact() && a.l > 0 && 0 < l <= b.Length && b[l - 1] != 0 && Apart(g, a)
    modifies g, g.d
    ensures g.Normal() && IsGcd(g.Mag(), old(a.Mag()), old(Val(b[..l])))
    ensures g.d == old(g.d) || fresh(g.d)
    ensures g.neg == old(g.neg)
    ensures assumptions == 1
  {
    var a', b' := CopyOperands(a, b, l);
    assumptions := GcdOfCopies(g, a', b');
  }

  /** `mpz_set(g, z)` and `_mpz_abs(g)` */
  method AbsOf(g: Mpz, z: Mpz)
    requires g.Valid() && z.Normal() && Apart(g, z)
    modifies g, g.d
    ensures g.Normal() && !g.neg && g.Mag() == if g == z then 0 else old(z.Mag())
    ensures g.d == old(g.d) || fresh(g.d)
  {
    if g == z {
      g.Set(z);
    } else {
      SetCopy(g, z);
    }
    g.neg := false;
  }

  /** mpz_gcd. A zero operand hands back the other one; when the result is that other
      one itself, assigning it to itself clears it. */
  method Gcd(g: Mpz, a: Mpz, b: Mpz) returns (ghost assumptions: nat)
    requires g.Valid() && a.Normal() && b.Normal() && Apart(g, a) && Apart(g, b) && Apart(a, b)
    modifies g, g.d
    ensures g.Normal()
    ensures g.d == old(g.d) || fresh(g.d)
    ensures assumptions == if old(a.Mag()) > 0 && old(b.Mag()) > 0 then 1 else 0
    ensures old(a.Mag()) > 0 && old(b.Mag()) > 0 ==>
              IsGcd(g.Mag(), old(a.Mag()), old(b.Mag())) && g.neg == old(g.neg)
    ensures old(a.Mag()) == 0 ==> g.Mag() == (if g == b then 0 else old(b.Mag())) && !g.neg
    ensures old(a.Mag()) > 0 && old(b.Mag()) == 0 ==> g.Mag() == (if g == a then 0 else old(a.Mag())) && !g.neg
  {
    ZeroLength(a);
    ZeroLength(b);
    assumptions := 0;
    if a.l == 0 {
      AbsOf(g, b);
    } else if b.l == 0 {
      AbsOf(g, a);
    } else {
      assumptions := GcdRaw(g, a, b.d, b.l);
    }
  }

  /** With one zero operand the other is the greatest common divisor, so mpz_gcd of
      such operands is right exactly when its result is not that other one. */
  lemma GcdWithZero(g: nat, b: nat, cleared: bool)
    requires b > 0 && g == if cleared then 0 else b
    ensures IsGcd(g, 0, b) <==> !cleared
    ensures IsGcd(g, b, 0) <==> !cleared
  {
    if !cleared {
      DivModUnique(b, b, 1, 0);
      assert Divides(b, 0);
    }
  }

  lemma PositiveDivisor(k: nat, n: nat)
    requires Divides(k, n) && n > 0
    ensures k <= n
  {
    if n < k {
      DivModUnique(n, k, 0, n);
    }
  }

  /** A greatest common divisor is unique. */
  lemma GcdUnique(g: nat, h: nat, a: nat, b: nat)
    requires IsGcd(g, a, b) && IsGcd(h, a, b) && (a > 0 || b > 0)
    ensures g == h
  {
    assert Common(g, a, b) && Common(h, a, b);
    PositiveDivisor(g, h);
    PositiveDivisor(h, g);
  }
}
