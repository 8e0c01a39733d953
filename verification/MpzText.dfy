// Conversion between numbers and text, src/sbignum.c and src/sbignum-tables.c.
module MpzText {
  import opened Arith
  import opened AtomSeq
  import opened Numeral
  import opened MpzCore
  import opened MpzAddSub
  import opened MpzMul

  // --- the power table ---------------------------------------------------------

  datatype BasePow = BasePow(maxpow: Atom, maxexp: nat)

  /** basepowtable for four-byte atoms. */
  function BasePowTable(b: Base): BasePow {
    match b
    case 2 => BasePow(2147483648, 31)
    case 3 => BasePow(3486784401, 20)
    case 4 => BasePow(1073741824, 15)
    case 5 => BasePow(1220703125, 13)
    case 6 => BasePow(2176782336, 12)
    case 7 => BasePow(1977326743, 11)
    case 8 => BasePow(1073741824, 10)
    case 9 => BasePow(3486784401, 10)
    case 10 => BasePow(1000000000, 9)
    case 11 => BasePow(2357947691, 9)
    case 12 => BasePow(429981696, 8)
    case 13 => BasePow(815730721, 8)
    case 14 => BasePow(1475789056, 8)
    case 15 => BasePow(2562890625, 8)
    case 16 => BasePow(268435456, 7)
    case 17 => BasePow(410338673, 7)
    case 18 => BasePow(612220032, 7)
    case 19 => BasePow(893871739, 7)
    case 20 => BasePow(1280000000, 7)
    case 21 => BasePow(1801088541, 7)
    case 22 => BasePow(2494357888, 7)
    case 23 => BasePow(3404825447, 7)
    case 24 => BasePow(191102976, 6)
    case 25 => BasePow(244140625, 6)
    case 26 => BasePow(308915776, 6)
    case 27 => BasePow(387420489, 6)
    case 28 => BasePow(481890304, 6)
    case 29 => BasePow(594823321, 6)
    case 30 => BasePow(729000000, 6)
    case 31 => BasePow(887503681, 6)
    case 32 => BasePow(1073741824, 6)
    case 33 => BasePow(1291467969, 6)
    case 34 => BasePow(1544804416, 6)
    case 35 => BasePow(1838265625, 6)
    case _ => BasePow(2176782336, 6)
  }

  /** An entry is a power of its base, and the largest that fits an atom. */
  ghost predicate EntryIsRight(b: Base) {
    var e := BasePowTable(b);
    e.maxexp > 0 && e.maxpow == Pow(b, e.maxexp) && e.maxpow * b >= BASE
  }

  lemma TableIsRight2(b: Base)
    requires 2 <= b < 4
    ensures EntryIsRight(b)
  {
    match b
    case 2 =>
      PowAdd(2, 15, 16);
      assert Pow(2, 15) == 32768 && Pow(2, 16) == 65536;
    case 3 =>
      PowAdd(3, 10, 10);
      assert Pow(3, 10) == 59049;
  }

  lemma TableIsRight4(b: Base)
    requires 4 <= b < 6
    ensures EntryIsRight(b)
  {
    match b
    case 4 => assert Pow(4, 15) == 1073741824;
    case 5 => assert Pow(5, 13) == 1220703125;
  }

  lemma TableIsRight6(b: Base)
    requires 6 <= b < 9
    ensures EntryIsRight(b)
  {
    match b
    case 6 => assert Pow(6, 12) == 2176782336;
    case 7 => assert Pow(7, 11) == 1977326743;
    case 8 => assert Pow(8, 10) == 1073741824;
  }

  lemma TableIsRight9(b: Base)
    requires 9 <= b < 13
    ensures EntryIsRight(b)
  {
    match b
    case 9 => assert Pow(9, 10) == 3486784401;
    case 10 => assert Pow(10, 9) == 1000000000;
    case 11 => assert Pow(11, 9) == 2357947691;
    case 12 => assert Pow(12, 8) == 429981696;
  }

  lemma TableIsRight13(b: Base)
    requires 13 <= b < 17
    ensures EntryIsRight(b)
  {
    match b
    case 13 => assert Pow(13, 8) == 815730721;
    case 14 => assert Pow(14, 8) == 1475789056;
    case 15 => assert Pow(15, 8) == 2562890625;
    case 16 => assert Pow(16, 7) == 268435456;
  }

  lemma TableIsRight17(b: Base)
    requires 17 <= b < 21
    ensures EntryIsRight(b)
  {
    match b
    case 17 => assert Pow(17, 7) == 410338673;
    case 18 => assert Pow(18, 7) == 612220032;
    case 19 => assert Pow(19, 7) == 893871739;
    case 20 => assert Pow(20, 7) == 1280000000;
  }

  lemma TableIsRight21(b: Base)
    requires 21 <= b < 25
    ensures EntryIsRight(b)
  {
    match b
    case 21 => assert Pow(21, 7) == 1801088541;
    case 22 => assert Pow(22, 7) == 2494357888;
    case 23 => assert Pow(23, 7) == 3404825447;
    case 24 => assert Pow(24, 6) == 191102976;
  }

  lemma TableIsRight25(b: Base)
    requires 25 <= b < 29
    ensures EntryIsRight(b)
  {
    match b
    case 25 => assert Pow(25, 6) == 244140625;
    case 26 => assert Pow(26, 6) == 308915776;
    case 27 => assert Pow(27, 6) == 387420489;
    case 28 => assert Pow(28, 6) == 481890304;
  }

  lemma TableIsRight29(b: Base)
    requires 29 <= b < 33
    ensures EntryIsRight(b)
  {
    match b
    case 29 => assert Pow(29, 6) == 594823321;
    case 30 => assert Pow(30, 6) == 729000000;
    case 31 => assert Pow(31, 6) == 887503681;
    case 32 => assert Pow(32, 6) == 1073741824;
  }

  lemma TableIsRight33(b: Base)
    requires 33 <= b < 37
    ensures EntryIsRight(b)
  {
    match b
    case 33 => assert Pow(33, 6) == 1291467969;
    case 34 => assert Pow(34, 6) == 1544804416;
    case 35 => assert Pow(35, 6) == 1838265625;
    case 36 => assert Pow(36, 6) == 2176782336;
  }

  /** basepowtable is right for every base. */
  lemma TableIsRight(b: Base)
    ensures EntryIsRight(b)
  {
    if b < 4 {
      TableIsRight2(b);
    } else if b < 6 {
      TableIsRight4(b);
    } else if b < 9 {
      TableIsRight6(b);
    } else if b < 13 {
      TableIsRight9(b);
    } else if b < 17 {
      TableIsRight13(b);
    } else if b < 21 {
      TableIsRight17(b);
    } else if b < 25 {
      TableIsRight21(b);
    } else if b < 29 {
      TableIsRight25(b);
    } else if b < 33 {
      TableIsRight29(b);
    } else {
      TableIsRight33(b);
    }
  }

  // --- writing -------------------------------------------------------------------

  lemma ValCons(s: seq<Atom>, j: nat)
    requires j < |s|
    ensures Val(s[j..]) == s[j] + BASE * Val(s[j + 1..])
  {
    assert s[j..][1..] == s[j + 1..];
  }

  /** One atom of the division: the remainder so far comes down in front of it. */
  lemma DivAtomStep(v: nat, q: nat, t: nat, x: nat, d: nat, n: nat)
    requires d > 0 && v == d * q + t && n == t * BASE + x
    ensures x + BASE * v == d * (n / d + BASE * q) + n % d
  {
    DivModFact(n, d);
    MulCommute(n / d, d);
    MulDistrib(n / d, BASE * q, d);
    assert BASE * (d * q) == d * (BASE * q);
  }

  lemma QuotientAtomFits(t: nat, x: nat, d: nat)
    requires t < d && x < BASE
    ensures (t * BASE + x) / d < BASE
  {
    var n := t * BASE + x;
    DivModFact(n, d);
    MulMonotone(t + 1, d, BASE);
    MulCommute(d, BASE);
    MulStrict(n / d, BASE, d);
  }

  /** One turn of that loop. */
  method DivideAtom(z: array<Atom>, l: nat, j: nat, d: Atom, t: Carry, ghost o: seq<Atom>) returns (t': Carry)
    requires j < l <= z.Length && |o| == l && z[j] == o[j] && t < d
    requires Val(o[j + 1..]) == d * Val(z[..l][j + 1..]) + t
    modifies z
    ensures t' < d && Val(o[j..]) == d * Val(z[..l][j..]) + t'
    ensures forall k | 0 <= k < z.Length && k != j :: z[k] == old(z[k])
  {
    ghost var high := z[..l][j + 1..];
    var n: Carry := t * BASE + z[j];
    QuotientAtomFits(t, z[j], d);
    DivModFact(n, d);
    DivAtomStep(Val(o[j + 1..]), Val(high), t, z[j], d, n);
    ValCons(o, j);
    z[j] := n / d;
    t' := n % d;
    assert z[..l][j + 1..] == high;
    ValCons(z[..l], j);
  }

  /** The loop of _mpz_selfdiv1_qr_raw, from the top atom down. */
  method DivideAtoms(z: array<Atom>, l: nat, d: Atom) returns (rem: Atom)
    requires l <= z.Length && d > 0
    modifies z
    ensures old(Val(z[..l])) == d * Val(z[..l]) + rem && rem < d
    ensures forall k | l <= k < z.Length :: z[k] == old(z[k])
  {
    ghost var o := z[..l];
    var t: Carry := 0;
    var j := l;
    assert o[l..] == z[..l][l..] == [];
    while j > 0
      invariant 0 <= j <= l && t < d
      invariant Val(o[j..]) == d * Val(z[..l][j..]) + t
      invariant forall k | 0 <= k < j :: z[k] == o[k]
      invariant forall k | l <= k < z.Length :: z[k] == old(z[k])
    {
      j := j - 1;
      t := DivideAtom(z, l, j, d, t, o);
    }
    assert o[0..] == o && z[..l][0..] == z[..l];
    rem := t;
  }

  /** Dividing by one atom costs at most one atom of length. */
  lemma SecondAtomSurvives(o: seq<Atom>, s: seq<Atom>, d: Atom, rem: nat)
    requires |o| == |s| > 1 && Trimmed(o) && s[|s| - 1] == 0 && d > 0
    requires Val(o) == d * Val(s) + rem && rem < d
    ensures s[|s| - 2] != 0
  {
    var k := |s| - 2;
    if s[k] == 0 {
      ValPadded(s, k);
      ValBound(s[..k]);
      ValLowerBound(o);
      MulMonotone(Val(s) + 1, Weight(k), d);
      MulDistrib(Val(s), 1, d);
      MulMonotone(d, BASE, Weight(k));
    }
  }

  /** _mpz_selfdiv1_qr_raw: z = z / d, and the remainder. */
  method SelfDiv1(z: Mpz, d: Atom) returns (rem: Atom)
    requires z.Normal() && z.l > 0 && d > 0
    modifies z`l, z.d
    ensures z.Normal() && old(z.Mag()) == d * z.Mag() + rem && rem < d
  {
    var n := z.l;
    ghost var o := z.d[..n];
    rem := DivideAtoms(z.d, n, d);
    ghost var s := z.d[..n];
    if z.d[n - 1] == 0 {
      z.l := n - 1;
      assert s[..n - 1] == z.d[..n - 1];
      ValPadded(s, n - 1);
      if n > 1 {
        SecondAtomSurvives(o, s, d, rem);
      }
    }
  }

  /** What is still to be written: x from the current chunk, m digits wide, and
      `high` above it. */
  ghost predicate Pending(n: nat, x: nat, high: nat, b: Base, m: nat) {
    x < Pow(b, m) && n == x + high * Pow(b, m)
  }

  /** A digit leaves the chunk: the quotient in front of it is not disturbed. */
  lemma NextPending(n: nat, x: nat, high: nat, b: Base, m: nat)
    requires Pending(n, x, high, b, m + 1)
    ensures n / b >= 0 && x / b >= 0 && 0 <= x % b < b && n % b == x % b
    ensures Pending(n / b, x / b, high, b, m)
  {
    var p := Pow(b, m);
    DivModFact(n, b);
    MulCommute(b, p);
    MulAssoc(high, p, b);
    ModAddMultiple(x, b, high * p);
    DivModFact(x, b);
    MulStrict(x / b, p, b);
  }

  lemma NothingPending(n: nat, x: nat, high: nat, b: Base, m: nat)
    requires Pending(n, x, high, b, m)
    ensures n == 0 <==> x == 0 && high == 0
    ensures m == 0 ==> n == high
  {
    PowPositive(b, m);
    if high > 0 {
      MulPositive(high, Pow(b, m));
    }
  }

  /** The next digit moves from what is pending to what is written. */
  lemma DigitWritten(done: string, n: nat, b: Base)
    requires n > 0
    ensures done + LowText(n, b) == (done + [DigitChar(n % b)]) + LowText(n / b, b)
    ensures |LowText(n, b)| > 0
  {
  }

  /** `*d++ = sbn_valtochar(v)` */
  method WriteDigit(s: array<char>, ghost start: nat, d: nat, v: nat)
    requires start <= d < s.Length && v < MAX_BASE
    modifies s
    ensures s[start..d + 1] == old(s[start..d]) + [DigitChar(v)]
    ensures forall k | 0 <= k < s.Length && k != d :: s[k] == old(s[k])
  {
    s[d] := DigitChar(v);
  }

  /** The inner loop of mpz_tostr: the digits of one chunk, padded with zeros to the
      full width unless it is the last one. `zero` says that nothing is left above
      the chunk, whose value is `high`. */
  method WriteChunk(s: array<char>, start: nat, chunk: Atom, b: Base, width: nat, zero: bool, ghost n0: nat,
                    ghost high: nat)
    returns (d: nat)
    requires Pending(n0, chunk, high, b, width) && zero == (high == 0) && n0 > 0
    requires start + |LowText(n0, b)| <= s.Length
    modifies s
    ensures start <= d <= s.Length
    ensures s[start..d] + LowText(high, b) == LowText(n0, b)
    ensures forall k | 0 <= k < s.Length && !(start <= k < d) :: s[k] == old(s[k])
  {
    hide Val, Weight, Pow2, Pow, Pending, DigitChar;
    ghost var n, whole := n0, LowText(n0, b);
    var x: nat := chunk;
    var i := 0;
    d := start;
    while i < width
      invariant 0 <= i <= width && start <= d <= s.Length && n > 0
      invariant Pending(n, x, high, b, width - i)
      invariant s[start..d] + LowText(n, b) == whole
      invariant forall k | 0 <= k < s.Length && !(start <= k < d) :: s[k] == old(s[k])
    {
      NextPending(n, x, high, b, width - i - 1);
      DigitWritten(s[start..d], n, b);
      WriteDigit(s, start, d, x % b);
      d := d + 1;
      n := n / b;
      x := x / b;
      i := i + 1;
      NothingPending(n, x, high, b, width - i);
      if x == 0 && zero {
        return;
      }
    }
    NothingPending(n, x, high, b, 0);
  }

  lemma ChunkOf(n: nat, high: nat, p: nat, x: nat)
    requires n == p * high + x && n > 0 && p > 1
    ensures n == x + high * p && high < n
  {
    MulMonotone(2, p, high);
  }

  /** One turn of the division loop. */
  method WriteNextChunk(s: array<char>, t: Mpz, b: Base, e: BasePow, d: nat, ghost whole: string) returns (d': nat)
    requires t.Normal() && t.l > 0 && d <= s.Length && |whole| <= s.Length
    requires e.maxpow == Pow(b, e.maxexp) && e.maxpow > 1
    requires s[..d] + LowText(t.Mag(), b) == whole
    modifies s, t`l, t.d
    ensures t.Normal() && t.Mag() < old(t.Mag())
    ensures d <= d' <= s.Length && s[..d'] + LowText(t.Mag(), b) == whole
    ensures forall k | d' <= k < s.Length :: s[k] == old(s[k])
  {
    ghost var n, done := t.Mag(), s[..d];
    ZeroLength(t);
    var x := SelfDiv1(t, e.maxpow);
    ghost var high := t.Mag();
    ZeroLength(t);
    ChunkOf(n, high, e.maxpow, x);
    d' := WriteChunk(s, d, x, b, e.maxexp, t.l == 0, n, high);
    ghost var chunk := s[d..d'];
    assert s[..d'] == done + chunk;
    assert (done + chunk) + LowText(high, b) == done + (chunk + LowText(high, b));
  }

  /** The division loop of mpz_tostr: the digits of t, lowest first. */
  method WriteLowText(s: array<char>, t: Mpz, b: Base) returns (d: nat)
    requires t.Normal() && |LowText(t.Mag(), b)| <= s.Length
    modifies s, t`l, t.d
    ensures d <= s.Length && s[..d] == old(LowText(t.Mag(), b))
    ensures forall k | d <= k < s.Length :: s[k] == old(s[k])
  {
    ghost var whole := LowText(t.Mag(), b);
    var e := BasePowTable(b);
    TableIsRight(b);
    d := 0;
    ZeroLength(t);
    while t.l != 0
      invariant t.Normal() && t.d == old(t.d) && d <= s.Length
      invariant s[..d] + LowText(t.Mag(), b) == whole
      invariant forall k | d <= k < s.Length :: s[k] == old(s[k])
      decreases t.Mag()
    {
      d := WriteNextChunk(s, t, b, e, d, whole);
    }
    ZeroLength(t);
    assert s[..d] + "" == s[..d];
  }

  /** The reversing loop of mpz_tostr. */
  method ReverseInPlace(s: array<char>, n: nat)
    requires n <= s.Length
    modifies s
    ensures s[..n] == Reverse(old(s[..n]))
    ensures forall k | n <= k < s.Length :: s[k] == old(s[k])
  {
    ghost var o := s[..n];
    var p, d := 0, n - 1;
    while p < d
      invariant 0 <= p <= n && p + d == n - 1 && p <= d + 1
      invariant forall k | 0 <= k < p :: s[k] == o[n - 1 - k] && s[n - 1 - k] == o[k]
      invariant forall k | p <= k < n - p :: s[k] == o[k]
      invariant forall k | n <= k < s.Length :: s[k] == old(s[k])
    {
      s[p], s[d] := s[d], s[p];
      d := d - 1;
      p := p + 1;
    }
    assert n == 0 ==> o == "";
    forall k | 0 <= k < n
      ensures |Reverse(o)| == n && s[..n][k] == Reverse(o)[k]
    {
      ReverseAt(o, k);
    }
  }

  /** The digits of z, lowest first, then the sign. */
  function BackwardText(n: int, b: Base): string {
    if n == 0 then "0" else if n < 0 then LowText(0 - n, b) + ['-'] else LowText(n, b)
  }

  lemma ReversedZero(b: Base)
    ensures Reverse("0") == IntText(0, b)
  {
    assert Reverse("0") == Reverse("0"[1..]) + ['0'];
  }

  lemma {:induction false} ReverseLength(s: string)
    ensures |Reverse(s)| == |s|
  {
    if |s| > 0 {
      ReverseAt(s, 0);
    }
  }

  lemma ReversedBackwardText(n: int, b: Base)
    ensures Reverse(BackwardText(n, b)) == IntText(n, b) && |BackwardText(n, b)| == |IntText(n, b)| > 0
  {
    ReversedZero(b);
    hide LowText, Reverse, Numeral.Numeral;
    if n < 0 {
      ReversedLowText(0 - n, b);
      ReverseSnoc(LowText(0 - n, b), '-');
    } else if n > 0 {
      ReversedLowText(n, b);
    }
    ReverseLength(BackwardText(n, b));
  }

  /** The closing NUL and the reversal. */
  method CloseText(s: array<char>, d: nat)
    requires d < s.Length
    modifies s
    ensures s[..d + 1] == Reverse(old(s[..d])) + ['\0']
  {
    s[d] := '\0';
    assert s[..d] == old(s[..d]);
    ReverseInPlace(s, d);
    assert s[..d + 1] == s[..d] + [s[d]];
  }

  /** `mpz_init(t); mpz_set(t, z)` */
  method WorkingCopy(z: Mpz) returns (t: Mpz)
    requires z.Normal()
    ensures fresh(t) && fresh(t.d) && t.Normal() && t.Mag() == z.Mag() && t.l == z.l
  {
    hide Val, Weight;
    t := new Mpz();
    t.Set(z);
    assert t.l > 0 ==> t.d[..t.l][t.l - 1] == z.d[..z.l][z.l - 1];
  }

  /** The digits of the magnitude, lowest first. */
  method WriteMagnitude(z: Mpz, b: Base, s: array<char>) returns (d: nat)
    requires z.Canonical() && |BackwardText(z.Int(), b)| < s.Length
    modifies s
    ensures d < s.Length && s[..d] == if z.Mag() == 0 then "0" else LowText(z.Mag(), b)
    ensures z.neg ==> d + 1 < s.Length
  {
    hide Val, Weight, LowText;
    ZeroLength(z);
    if z.l == 0 {
      s[0] := '0';
      assert s[..1] == "0";
      return 1;
    }
    var t := WorkingCopy(z);
    d := WriteLowText(s, t, b);
  }

  /** The part of mpz_tostr before the closing NUL. */
  method WriteBackward(z: Mpz, b: Base, s: array<char>) returns (d: nat)
    requires z.Canonical() && |BackwardText(z.Int(), b)| < s.Length
    modifies s
    ensures d < s.Length && s[..d] == BackwardText(z.Int(), b)
  {
    hide Val, Weight, LowText;
    ZeroLength(z);
    d := WriteMagnitude(z, b, s);
    if z.neg {
      ghost var low := s[..d];
      s[d] := '-';
      d := d + 1;
      assert s[..d] == low + ['-'];
    }
  }

  /** mpz_tostr for a valid base and a non-empty buffer. */
  method WriteText(z: Mpz, b: Base, s: array<char>)
    requires z.Canonical() && |IntText(z.Int(), b)| < s.Length
    modifies s
    ensures var t := IntText(z.Int(), b); s[..|t| + 1] == t + ['\0']
  {
    ghost var n := z.Int();
    ReversedBackwardText(n, b);
    var d := WriteBackward(z, b, s);
    CloseText(s, d);
  }

  /** mpz_tostr: the text of z in base b and a closing NUL. The buffer must hold both,
      whatever the length argument, which is never counted down: a length of zero writes
      nothing, and a length of one the NUL only of a number that is not zero. */
  method ToStr(z: Mpz, b: int, s: array<char>, l: nat) returns (st: Status)
    requires z.Canonical()
    requires MIN_BASE <= b <= MAX_BASE && l > 0 ==>
               |IntText(z.Int(), b)| < s.Length || (l == 1 && z.Int() != 0 && s.Length > 0)
    modifies s
    ensures st == if MIN_BASE <= b <= MAX_BASE then Ok else Inval
    ensures st == Inval || l == 0 ==> unchanged(s)
    ensures st == Ok && l == 1 && z.Int() != 0 ==> s[0] == '\0'
    ensures st == Ok && (l > 1 || (l == 1 && z.Int() == 0)) ==>
              var t := IntText(z.Int(), b); s[..|t| + 1] == t + ['\0']
  {
    if b < MIN_BASE || b > MAX_BASE {
      return Inval;
    }
    st := Ok;
    if l == 0 {
      return;
    }
    ZeroLength(z);
    if l == 1 && z.l > 0 {
      s[0] := '\0';
      return;
    }
    WriteText(z, b, s);
  }

  // --- reading ---------------------------------------------------------------------

  /** `toadd = digit * pow` */
  method ScaleDigit(toadd: Mpz, pow: Mpz, digit: Atom)
    requires toadd.Valid() && pow.Normal() && !pow.neg && toadd != pow && toadd.d != pow.d
    modifies toadd, toadd.d
    ensures toadd.Normal() && !toadd.neg && toadd.Mag() == digit * pow.Mag()
    ensures toadd.d == old(toadd.d) || fresh(toadd.d)
  {
    toadd.SetUi(digit);
    MulNat(toadd, toadd, pow);
  }

  /** `z += toadd` */
  method AddNatural(z: Mpz, toadd: Mpz)
    requires z.Normal() && toadd.Normal() && !toadd.neg && z != toadd && z.d != toadd.d
    modifies z, z.d
    ensures z.Normal() && z.Int() == old(z.Int()) + toadd.Mag()
    ensures z.d == old(z.d) || fresh(z.d)
  {
    var assumed := Add(z, z, toadd);
    assert !assumed;
  }

  /** `pow *= b` */
  method NextPower(pow: Mpz, b: Base)
    requires pow.Normal() && !pow.neg
    modifies pow, pow.d
    ensures pow.Normal() && !pow.neg && pow.Mag() == old(pow.Mag()) * b
    ensures pow.d == old(pow.d) || fresh(pow.d)
  {
    MulUi(pow, pow, b);
    ZeroLength(pow);
  }

  /** One digit from the tail: `toadd = digit * pow; z += toadd; pow *= b`. */
  method AddDigit(z: Mpz, toadd: Mpz, pow: Mpz, digit: Atom, b: Base)
    requires z.Normal() && toadd.Valid() && pow.Normal() && !pow.neg && z != toadd && z != pow && toadd != pow
    requires z.d != toadd.d && z.d != pow.d && toadd.d != pow.d
    modifies z, z.d, toadd, toadd.d, pow, pow.d
    ensures z.Normal() && toadd.Valid() && pow.Normal() && !pow.neg
    ensures z.Int() == old(z.Int()) + digit * old(pow.Mag()) && pow.Mag() == old(pow.Mag()) * b
    ensures z.d == old(z.d) || fresh(z.d)
    ensures toadd.d == old(toadd.d) || fresh(toadd.d)
    ensures pow.d == old(pow.d) || fresh(pow.d)
    ensures z.d != toadd.d && z.d != pow.d && toadd.d != pow.d
  {
    ScaleDigit(toadd, pow, digit);
    AddNatural(z, toadd);
    NextPower(pow, b);
  }

  /** `mpz_init(toadd); mpz_init(pow); mpz_set_ui(pow, 1)` */
  method NewPair() returns (toadd: Mpz, pow: Mpz)
    ensures fresh(toadd) && fresh(toadd.d) && fresh(pow) && fresh(pow.d) && toadd != pow && toadd.d != pow.d
    ensures toadd.Valid() && pow.Normal() && !pow.neg && pow.Mag() == 1
  {
    toadd := new Mpz();
    pow := new Mpz();
    pow.SetUi(1);
  }

  /** The digit loop of mpz_set_str, from the last character to the first. */
  method ReadDigits(z: Mpz, s: string, b: Base) returns (st: Status)
    requires z.Normal() && z.l == 0
    modifies z, z.d
    ensures z.Normal() && (z.d == old(z.d) || fresh(z.d))
    ensures (st == Ok) == AllDigits(s, b)
    ensures st == Ok ==> z.Mag() == ValueOf(s, b)
  {
    var toadd, pow := NewPair();
    var t := |s|;
    assert s[t..] == "" && z.Int() == 0 by {
      ZeroLength(z);
    }
    while t > 0
      invariant 0 <= t <= |s| && AllDigits(s[t..], b)
      invariant z.Normal() && z.Int() == ValueOf(s[t..], b)
      invariant toadd.Valid() && pow.Normal() && !pow.neg && pow.Mag() == Pow(b, |s| - t)
      invariant z.d == old(z.d) || fresh(z.d)
      invariant fresh(toadd) && fresh(toadd.d) && fresh(pow) && fresh(pow.d)
      invariant toadd != pow && z.d != toadd.d && z.d != pow.d && toadd.d != pow.d
    {
      t := t - 1;
      var digit := CharValue(s[t]);
      if digit < 0 || digit >= b {
        return Inval;
      }
      assert s[t..] == [s[t]] + s[t + 1..];
      ValueOfCons(s[t], s[t + 1..], b);
      MulCommute(b, pow.Mag());
      AddDigit(z, toadd, pow, digit, b);
    }
    assert s[0..] == s;
    return Ok;
  }

  /** The pointer that skips leading blanks. */
  method SkipBlanks(s: string) returns (lo: nat)
    ensures lo <= |s| && s[lo..] == SkipSpace(s)
  {
    lo := 0;
    assert s[0..] == s;
    while lo < |s| && IsSpace(s[lo])
      invariant 0 <= lo <= |s| && SkipSpace(s[lo..]) == SkipSpace(s)
    {
      assert s[lo..][1..] == s[lo + 1..];
      lo := lo + 1;
    }
  }

  /** The pointer that comes back over trailing blanks, but never past `lo`. */
  method TrimBlanks(s: string, lo: nat) returns (hi: nat)
    requires lo <= |s|
    ensures lo <= hi <= |s| && s[lo..hi] == TrimTail(s[lo..])
  {
    hi := |s|;
    assert s[lo..hi] == s[lo..];
    while hi - 1 > lo && IsSpace(s[hi - 1])
      invariant lo <= hi <= |s| && TrimTail(s[lo..hi]) == TrimTail(s[lo..])
    {
      assert s[lo..hi][..hi - lo - 1] == s[lo..hi - 1];
      hi := hi - 1;
    }
  }

  /** Blanks, sign and base prefix. */
  method ReadPrefix(s: string, base: int) returns (neg: bool, b: int, lo: nat)
    ensures lo <= |s|
    ensures var (n, rest) := SplitSign(SkipSpace(s)); neg == n && GuessBase(rest, base) == (b, s[lo..])
  {
    lo := SkipBlanks(s);
    neg := false;
    if lo < |s| && s[lo] == '-' {
      neg := true;
      assert s[lo..][1..] == s[lo + 1..];
      lo := lo + 1;
    }
    b := base;
    if b == 0 {
      b := 10;
      if lo < |s| && s[lo] == '0' {
        b := 8;
        assert s[lo..][1..] == s[lo + 1..] && (|s| > lo + 1 ==> s[lo..][2..] == s[lo + 2..]);
        lo := lo + 1;
        if lo < |s| && (s[lo] == 'x' || s[lo] == 'X') {
          b := 16;
          lo := lo + 1;
        } else if lo < |s| && (s[lo] == 'b' || s[lo] == 'B') {
          b := 2;
          lo := lo + 1;
        }
      }
    }
  }

  /** mpz_set_str: sign and magnitude of the text, or an error for a bad base or a
      bad digit. */
  method SetStr(z: Mpz, s: string, base: int) returns (st: Status)
    requires z.Valid()
    modifies z, z.d
    ensures z.Valid() && (z.d == old(z.d) || fresh(z.d))
    ensures match ParseInt(s, base)
            case None => st == Inval
            case Some((neg, v)) => st == Ok && z.Normal() && z.Mag() == v && z.neg == neg
  {
    var neg, b, lo := ReadPrefix(s, base);
    if b < MIN_BASE || b > MAX_BASE {
      return Inval;
    }
    var hi := TrimBlanks(s, lo);
    z.Zero();
    st := ReadDigits(z, s[lo..hi], b);
    if st == Ok {
      z.neg := neg;
    }
  }

  /** mpz_set_str on blanks, sign, prefix, digits and blanks. */
  method SetText(z: Mpz, before: string, minus: bool, prefix: string, d: string, after: string, base: nat, b: Base)
    returns (st: Status)
    requires z.Valid() && Blank(before) && Blank(after) && Bounded(minus, prefix, d) && Selects(prefix, d, base, b)
    modifies z, z.d
    ensures z.Valid() && (z.d == old(z.d) || fresh(z.d))
    ensures if AllDigits(d, b) then st == Ok && z.Normal() && z.neg == minus && z.Mag() == ValueOf(d, b)
            else st == Inval
  {
    hide Val, Weight, ParseInt, ValueOf, AllDigits;
    ReadsText(before, minus, prefix, d, after, base, b);
    st := SetStr(z, before + (Sign(minus) + (prefix + (d + after))), base);
  }

  // --- there and back -----------------------------------------------------------------

  lemma TextHasNoNul(n: int, b: Base)
    ensures '\0' !in IntText(n, b)
  {
    var m := if n < 0 then -n else n;
    NumeralRoundTrip(m, b);
    forall c | c in Numeral.Numeral(m, b)
      ensures c != '\0'
    {
      assert 0 <= CharValue(c) < b;
    }
  }

  /** What strlen and the characters before the NUL make of a buffer. */
  method CText(s: array<char>) returns (t: string)
    requires '\0' in s[..]
    ensures '\0' !in t && |t| < s.Length && s[..|t| + 1] == t + ['\0']
  {
    var n := 0;
    while s[n] != '\0'
      invariant 0 <= n < s.Length && '\0' !in s[..n] && '\0' in s[n..]
      decreases s.Length - n
    {
      n := n + 1;
    }
    t := s[..n];
  }

  lemma CTextEnd(s: seq<char>, t: string)
    requires '\0' !in t && |t| < |s| && s[..|t| + 1] == t + ['\0']
    ensures t == s[..|t|] && s[|t|] == '\0' && forall i | 0 <= i < |t| :: s[i] != '\0'
  {
    assert s[|t|] == s[..|t| + 1][|t|];
    assert t == s[..|t| + 1][..|t|] == s[..|t|];
  }

  lemma SameCText(s: seq<char>, t: string, u: string)
    requires '\0' !in t && |t| < |s| && s[..|t| + 1] == t + ['\0']
    requires '\0' !in u && |u| < |s| && s[..|u| + 1] == u + ['\0']
    ensures t == u
  {
    CTextEnd(s, t);
    CTextEnd(s, u);
  }

  /** mpz_tostr, then mpz_set_str on what it wrote: y is z again, in every base and also
      when y is z. */
  method WriteThenRead(z: Mpz, y: Mpz, b: Base, s: array<char>, l: nat) returns (st: Status)
    requires z.Canonical() && y.Valid() && |IntText(z.Int(), b)| < s.Length && 1 < l
    modifies s, y, y.d
    ensures st == Ok && y.Canonical() && y.Int() == old(z.Int())
    ensures y.d == old(y.d) || fresh(y.d)
  {
    hide Val, Weight, IntText, ParseInt;
    ghost var n := z.Int();
    TextHasNoNul(n, b);
    TextRoundTrip(n, b);
    st := ToStr(z, b, s, l);
    assert s[|IntText(n, b)|] == '\0';
    var t := CText(s);
    SameCText(s[..], t, IntText(n, b));
    st := SetStr(y, t, b);
    ZeroLength(y);
  }
}
