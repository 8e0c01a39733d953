// Bit-serial square root of src/sbignum.c.
module MpzSqrt {
  import opened Arith
  import opened AtomSeq
  import opened MpzCore
  import opened MpzBits
  import opened MpzAddSub
  import opened MpzDiv

  lemma WholeArray(z: Mpz)
    requires z.Valid()
    ensures Val(z.d[..]) == z.Mag()
  {
    ghost var all := z.d[..];
    assert all[..z.l] == z.d[..z.l];
    ValPadded(all, z.l);
  }

  /** `_mpz_setbit`: set a clear bit and extend the length to reach it. */
  method SetBit(z: Mpz, i: nat)
    requires z.Normal() && i < 32 * z.d.Length && (z.Mag() / Pow2(i)) % 2 == 0
    modifies z`l, z.d
    ensures z.Normal() && z.Mag() == old(z.Mag()) + Pow2(i) && i < 32 * z.l
  {
    hide Val, Weight, Pow2;
    WholeArray(z);
    var a := i / 32;
    OrBitAt(z.d, i);
    if z.l < a + 1 {
      z.l := a + 1;
    }
    WholeArray(z);
  }

  /** `_mpz_clrbit`: clear a set bit and shorten the length if it was in the top
      atom. */
  method ClearBit(z: Mpz, i: nat)
    requires z.Normal() && i < 32 * z.l && (z.Mag() / Pow2(i)) % 2 == 1
    modifies z`l, z.d
    ensures z.Normal() && z.Mag() == old(z.Mag()) - Pow2(i)
  {
    WholeArray(z);
    var a := i / 32;
    ghost var s := z.d[..];
    ClearSetBit(s, i);
    z.d[a] := AndNotBit(z.d[a], i % 32);
    assert z.d[..] == s[a := AndNotBit(s[a], i % 32)];
    if a == z.l - 1 {
      z.Trim();
    } else {
      WholeArray(z);
    }
  }

  // --- the numbers behind the bit loop ----------------------------------------

  /** (r + p)^2 for r*r and 2*p*r. */
  lemma TrialIsSquare(r: nat, p: nat)
    ensures r * r + r * (2 * p) + p * p == (r + p) * (r + p)
  {
    MulDistrib(r, p, r + p);
    MulDistrib(r, p, r);
    MulDistrib(r, p, p);
    MulAssoc(r, 2, p);
  }

  /** Which root bits are left to find: r has only bits from k up, and the root of z
      lies in [r, r + 2^k). */
  ghost predicate Bracketed(r: nat, z: nat, k: nat) {
    r % Pow2(k) == 0 && r * r <= z < (r + Pow2(k)) * (r + Pow2(k))
  }

  /** Deciding one bit keeps the bracket. */
  lemma NextBracket(r: nat, z: nat, i: nat)
    requires Bracketed(r, z, i + 1)
    ensures var t := r + Pow2(i); Bracketed(if t * t <= z then t else r, z, i)
  {
    var p, u := Pow2(i), r / Pow2(i + 1);
    DivModFact(r, 2 * p);
    MulAssoc(u, 2, p);
    DivModUnique(r, p, u * 2, 0);
    MulDistrib(u * 2, 1, p);
    DivModUnique(r + p, p, u * 2 + 1, 0);
  }

  lemma BracketGivesRoot(r: nat, z: nat)
    requires Bracketed(r, z, 0)
    ensures r * r <= z < (r + 1) * (r + 1)
  {
  }

  lemma EvenQuotient(v: nat, q: nat, h: nat)
    requires q > 0 && v == (2 * h) * q
    ensures (v / q) % 2 == 0 && ((v + q) / q) % 2 == 1
  {
    DivModUnique(v, q, 2 * h, 0);
    MulDistrib(2 * h, 1, q);
    DivModUnique(v + q, q, 2 * h + 1, 0);
  }

  lemma RoomInRParts(u: nat, p: nat)
    ensures (u * (2 * p)) * (2 * p) == (4 * u) * (p * p) == (2 * u) * (2 * (p * p))
    ensures u * (2 * p) == (2 * u) * p
  {
    MulAssoc(u, 2, p);
    assert (2 * p) * (2 * p) == 4 * (p * p) by {
      MulAssoc(2, p, 2 * p);
      MulAssoc(p, 2, p);
    }
    MulAssoc(u, 2 * p, 2 * p);
    MulAssoc(u, 4, p * p);
    MulAssoc(2 * u, 2, p * p);
  }

  /** Bits 2i and 2i+1 of R = r * 2^(i+1) are clear, so the trial may set them. */
  lemma RoomInR(r: nat, i: nat, R: nat)
    requires r % Pow2(i + 1) == 0 && R == r * Pow2(i + 1)
    ensures (R / Pow2(2 * i)) % 2 == 0 && ((R + Pow2(2 * i)) / Pow2(2 * i)) % 2 == 1
    ensures (R / Pow2(2 * i + 1)) % 2 == 0 && (r / Pow2(i)) % 2 == 0
    ensures Pow2(2 * i) == Pow2(i) * Pow2(i)
  {
    var p, u := Pow2(i), r / Pow2(i + 1);
    Pow2Add(i, i);
    DivModFact(r, 2 * p);
    assert r == u * (2 * p);
    RoomInRParts(u, p);
    EvenQuotient(R, p * p, 2 * u);
    EvenQuotient(R, 2 * (p * p), u);
    EvenQuotient(r, p, u);
  }

  // --- the bit loop -------------------------------------------------------------

  /** `X = s + (R | 1 << b)`, with the bit taken out of R again. */
  method Trial(X: Mpz, s: Mpz, R: Mpz, b: nat)
    requires X.Valid() && s.Normal() && R.Normal() && X != s && X != R && s != R
    requires X.d != s.d && X.d != R.d && s.d != R.d && b < 32 * R.d.Length
    requires (R.Mag() / Pow2(b)) % 2 == 0 && ((R.Mag() + Pow2(b)) / Pow2(b)) % 2 == 1
    modifies X, X.d, s`d, R`l, R.d
    ensures X.Normal() && X.Mag() == old(s.Mag()) + old(R.Mag()) + Pow2(b)
    ensures s.Normal() && s.Mag() == old(s.Mag()) && R.Normal() && R.Mag() == old(R.Mag())
    ensures X.d == old(X.d) || fresh(X.d)
    ensures s.d == old(s.d) || fresh(s.d)
    ensures X.d != s.d && X.d != R.d && s.d != R.d
  {
    SetBit(R, b);
    var assumed := AddRaw(X, s, R.d, R.l);
    assert !assumed;
    ClearBit(R, b);
  }

  /** A bit that fits: `s = X`, and the bit enters r and R. */
  method Accept(r: Mpz, s: Mpz, R: Mpz, X: Mpz, i: nat)
    requires r.Normal() && s.Valid() && R.Normal() && X.Normal()
    requires r != s && r != R && s != R && s != X && r != X && R != X
    requires r.d != s.d && r.d != R.d && s.d != R.d && s.d != X.d && r.d != X.d && R.d != X.d
    requires i < 32 * r.d.Length && 2 * i + 1 < 32 * R.d.Length
    requires (r.Mag() / Pow2(i)) % 2 == 0 && (R.Mag() / Pow2(2 * i + 1)) % 2 == 0
    modifies r`l, r.d, s, s.d, R`l, R.d
    ensures r.Normal() && r.Mag() == old(r.Mag()) + Pow2(i)
    ensures s.Normal() && s.Mag() == X.Mag()
    ensures R.Normal() && R.Mag() == old(R.Mag()) + Pow2(2 * i + 1)
    ensures s.d == old(s.d) || fresh(s.d)
  {
    SetCopy(s, X);
    SetBit(r, i);
    SetBit(R, 2 * i + 1);
  }

  /** The loop state: s = r*r, R = r * 2^k, and the bracket. */
  ghost predicate SqrtInv(r: nat, s: nat, R: nat, z: nat, k: nat) {
    s == r * r && R == r * Pow2(k) && Bracketed(r, z, k)
  }

  lemma NextSqrtInv(r: nat, s: nat, R: nat, z: nat, i: nat)
    requires SqrtInv(r, s, R, z, i + 1)
    ensures var x := s + R + Pow2(2 * i);
            if x <= z then SqrtInv(r + Pow2(i), x, (R + Pow2(2 * i + 1)) / 2, z, i)
            else SqrtInv(r, s, R / 2, z, i)
  {
    var p := Pow2(i);
    Pow2Add(i, i);
    TrialIsSquare(r, p);
    NextBracket(r, z, i);
    MulAssoc(r, 2, p);
    MulAssoc(2, r, p);
    assert R == 2 * (r * p);
    MulDistrib(r, p, p);
  }

  /** The four working numbers and the operand are all apart. */
  ghost predicate Spread(r: Mpz, s: Mpz, R: Mpz, X: Mpz, z: Mpz)
    reads r, s, R, X, z
  {
    && r != s && r != R && s != R && s != X && r != X && R != X && z != r && z != s && z != R && z != X
    && r.d != s.d && r.d != R.d && s.d != R.d && s.d != X.d && r.d != X.d && R.d != X.d
    && z.d != r.d && z.d != s.d && z.d != R.d && z.d != X.d
  }

  /** `if (mpz_cmpabs(X, z) <= 0)` */
  method AcceptIfFits(r: Mpz, s: Mpz, R: Mpz, X: Mpz, z: Mpz, i: nat)
    requires r.Normal() && s.Normal() && R.Normal() && X.Normal() && z.Normal() && Spread(r, s, R, X, z)
    requires i < 32 * r.d.Length && 2 * i + 1 < 32 * R.d.Length
    requires (r.Mag() / Pow2(i)) % 2 == 0 && (R.Mag() / Pow2(2 * i + 1)) % 2 == 0
    modifies r`l, r.d, s, s.d, R`l, R.d
    ensures r.Normal() && s.Normal() && R.Normal()
    ensures s.d == old(s.d) || fresh(s.d)
    ensures X.Mag() <= z.Mag() ==>
              r.Mag() == old(r.Mag()) + Pow2(i) && s.Mag() == X.Mag() && R.Mag() == old(R.Mag()) + Pow2(2 * i + 1)
    ensures X.Mag() > z.Mag() ==>
              r.Mag() == old(r.Mag()) && s.Mag() == old(s.Mag()) && R.Mag() == old(R.Mag())
  {
    var cmp := CmpAbs(X.d, X.l, z.d, z.l);
    if cmp <= 0 {
      Accept(r, s, R, X, i);
    }
  }

  /** The trial and its outcome, before R is halved. */
  method TryBit(r: Mpz, s: Mpz, R: Mpz, X: Mpz, z: Mpz, i: nat)
    requires r.Normal() && s.Normal() && R.Normal() && X.Valid() && z.Normal() && Spread(r, s, R, X, z)
    requires i < 32 * r.d.Length && 2 * i + 1 < 32 * R.d.Length
    requires (R.Mag() / Pow2(2 * i)) % 2 == 0 && ((R.Mag() + Pow2(2 * i)) / Pow2(2 * i)) % 2 == 1
    requires (R.Mag() / Pow2(2 * i + 1)) % 2 == 0 && (r.Mag() / Pow2(i)) % 2 == 0
    modifies r`l, r.d, s, s.d, R`l, R.d, X, X.d
    ensures r.Normal() && s.Normal() && R.Normal() && X.Valid() && Spread(r, s, R, X, z)
    ensures s.d == old(s.d) || fresh(s.d)
    ensures X.d == old(X.d) || fresh(X.d)
    ensures X.Mag() == old(s.Mag()) + old(R.Mag()) + Pow2(2 * i)
    ensures X.Mag() <= z.Mag() ==>
              r.Mag() == old(r.Mag()) + Pow2(i) && s.Mag() == X.Mag() && R.Mag() == old(R.Mag()) + Pow2(2 * i + 1)
    ensures X.Mag() > z.Mag() ==>
              r.Mag() == old(r.Mag()) && s.Mag() == old(s.Mag()) && R.Mag() == old(R.Mag())
  {
    Trial(X, s, R, 2 * i);
    AcceptIfFits(r, s, R, X, z, i);
  }

  lemma StaysPositive(r: nat, R: nat, k: nat)
    requires R == r * Pow2(k)
    ensures r > 0 ==> R > 0
  {
    if r > 0 {
      MulMonotone(1, r, Pow2(k));
    }
  }

  lemma RoomInTurn(r: nat, s: nat, R: nat, z: nat, i: nat)
    requires SqrtInv(r, s, R, z, i + 1)
    ensures (R / Pow2(2 * i)) % 2 == 0 && ((R + Pow2(2 * i)) / Pow2(2 * i)) % 2 == 1
    ensures (R / Pow2(2 * i + 1)) % 2 == 0 && (r / Pow2(i)) % 2 == 0
  {
    RoomInR(r, i, R);
  }

  /** The first bit tried is taken. */
  lemma TurnStaysPositive(r: nat, s: nat, R: nat, z: nat, i: nat)
    requires SqrtInv(r, s, R, z, i + 1) && (r > 0 || Pow2(2 * i) <= z)
    ensures if s + R + Pow2(2 * i) <= z then r + Pow2(i) > 0 && R + Pow2(2 * i + 1) > 0 else r > 0 && R > 0
  {
    StaysPositive(r, R, i + 1);
  }

  /** One turn of the loop of mpz_sqrt. The first bit tried is taken, so R is never zero
      when it is halved. */
  method SqrtTurn(r: Mpz, s: Mpz, R: Mpz, X: Mpz, z: Mpz, i: nat)
    requires r.Normal() && s.Normal() && R.Normal() && X.Valid() && z.Normal() && Spread(r, s, R, X, z)
    requires i < 32 * r.d.Length && 2 * i + 1 < 32 * R.d.Length
    requires SqrtInv(r.Mag(), s.Mag(), R.Mag(), z.Mag(), i + 1)
    requires r.Mag() > 0 || Pow2(2 * i) <= z.Mag()
    modifies r`l, r.d, s, s.d, R`l, R.d, X, X.d
    ensures r.Normal() && s.Normal() && R.Normal() && X.Valid() && Spread(r, s, R, X, z) && r.Mag() > 0
    ensures s.d == old(s.d) || fresh(s.d)
    ensures X.d == old(X.d) || fresh(X.d)
    ensures SqrtInv(r.Mag(), s.Mag(), R.Mag(), z.Mag(), i)
  {
    hide Val, Pow2, Weight, SqrtInv;
    ghost var r0, s0, R0, z0 := r.Mag(), s.Mag(), R.Mag(), z.Mag();
    RoomInTurn(r0, s0, R0, z0, i);
    TryBit(r, s, R, X, z, i);
    TurnStaysPositive(r0, s0, R0, z0, i);
    ZeroLength(R);
    ShiftRight1(R);
    NextSqrtInv(r0, s0, R0, z0, i);
  }

  /** The bracket to start from, and why its top bit will be taken. */
  lemma FirstBracket(z: nat, j: nat, i: nat)
    requires j > 0 && Pow2(j - 1) <= z < Pow2(j) && i == (j - 1) / 2
    ensures SqrtInv(0, 0, 0, z, i + 1) && Pow2(2 * i) <= z
  {
    Pow2Monotone(2 * i, j - 1);
    Pow2Monotone(j, 2 * (i + 1));
    Pow2Add(i + 1, i + 1);
    DivModUnique(0, Pow2(i + 1), 0, 0);
  }

  /** The numbers s, R and X of mpz_sqrt, all zero. */
  method Workspace(atoms: nat) returns (s: Mpz, R: Mpz, X: Mpz)
    ensures fresh({s, R, X}) && fresh({s.d, R.d, X.d})
    ensures s != R && s != X && R != X && s.d != R.d && s.d != X.d && R.d != X.d
    ensures s.Normal() && s.l == 0 && R.Normal() && R.l == 0 && X.Normal() && atoms < R.d.Length
  {
    s := new Mpz();
    R := new Mpz();
    X := new Mpz();
    s.Realloc(atoms);
    R.Realloc(atoms);
    X.Realloc(atoms);
  }

  /** The loop of mpz_sqrt, for root bits i-1 down to 0. */
  method SqrtLoop(r: Mpz, s: Mpz, R: Mpz, X: Mpz, z: Mpz, bits: nat)
    requires r.Normal() && s.Normal() && R.Normal() && X.Valid() && z.Normal() && Spread(r, s, R, X, z)
    requires 2 * bits <= 32 * R.d.Length && bits <= 32 * r.d.Length
    requires SqrtInv(r.Mag(), s.Mag(), R.Mag(), z.Mag(), bits)
    requires bits > 0 && Pow2(2 * (bits - 1)) <= z.Mag()
    modifies r`l, r.d, s, s.d, R`l, R.d, X, X.d
    ensures r.Normal()
    ensures r.Mag() * r.Mag() <= z.Mag() < (r.Mag() + 1) * (r.Mag() + 1)
  {
    var i := bits;
    while i > 0
      invariant 0 <= i <= bits
      invariant r.Normal() && s.Normal() && R.Normal() && X.Valid() && Spread(r, s, R, X, z)
      invariant s.d == old(s.d) || fresh(s.d)
      invariant X.d == old(X.d) || fresh(X.d)
      invariant SqrtInv(r.Mag(), s.Mag(), R.Mag(), z.Mag(), i) && (r.Mag() > 0 || i == bits)
    {
      i := i - 1;
      SqrtTurn(r, s, R, X, z, i);
    }
    BracketGivesRoot(r.Mag(), z.Mag());
  }

  /** mpz_sqrt for r distinct from z. */
  method SqrtInto(r: Mpz, z: Mpz)
    requires r.Valid() && z.Normal() && z.l > 0 && r != z && r.d != z.d
    modifies r, r.d
    ensures r.Normal() && r.neg == old(r.neg)
    ensures r.d == old(r.d) || fresh(r.d)
    ensures r.Mag() * r.Mag() <= z.Mag() < (r.Mag() + 1) * (r.Mag() + 1)
  {
    var j := Bits(z);
    var i := (j - 1) / 2;
    var atoms := j / 32;
    var s, R, X := Workspace(atoms);
    r.ZeroRealloc(atoms);
    FirstBracket(z.Mag(), j, i);
    SqrtLoop(r, s, R, X, z, i + 1);
  }

  /** mpz_sqrt: r = floor(sqrt(z)) on magnitudes, for z > 0 and for r == z too. The
      sign flag of r is not touched. */
  method Sqrt(r: Mpz, z: Mpz)
    requires r.Valid() && z.Normal() && z.l > 0 && Apart(r, z)
    modifies r, r.d
    ensures r.Normal() && r.neg == old(r.neg)
    ensures r.d == old(r.d) || fresh(r.d)
    ensures r.Mag() * r.Mag() <= old(z.Mag()) < (r.Mag() + 1) * (r.Mag() + 1)
  {
    var z' := Detached(z, r, r);
    SqrtInto(r, z');
  }
}
