// Bit tests, bit setting and the one-bit shifts of src/sbignum.c.
module MpzBits {
  import opened Arith
  import opened AtomSeq
  import opened MpzCore

  /** Bit k of an atom, as `x & (1 << k)` tests it. */
  predicate AtomBit(x: Atom, k: nat)
    requires k < 32
  {
    (x / Pow2(k)) % 2 == 1
  }

  lemma RoomAboveEven(x: nat, p: nat, h: nat)
    requires p > 0 && (x / p) % 2 == 0 && x < p * (2 * h)
    ensures x + p < p * (2 * h)
  {
    DivModFact(x, p);
    var q := x / p;
    MulStrict(q, 2 * h, p);
    MulMonotone(q + 2, 2 * h, p);
    MulDistrib(q, 2, p);
  }

  lemma ClearBitFits(x: Atom, k: nat)
    requires k < 32 && !AtomBit(x, k)
    ensures x + Pow2(k) < BASE
  {
    Pow2Add(k, 32 - k);
    Pow2Of32();
    RoomAboveEven(x, Pow2(k), Pow2(31 - k));
  }

  /** `x | (1 << k)` */
  function OrBit(x: Atom, k: nat): (y: Atom)
    requires k < 32
    ensures AtomBit(x, k) ==> y == x
    ensures !AtomBit(x, k) ==> y == x + Pow2(k)
  {
    if AtomBit(x, k) then x else ClearBitFits(x, k); x + Pow2(k)
  }

  lemma SetBitFits(x: Atom, k: nat)
    requires k < 32 && AtomBit(x, k)
    ensures x >= Pow2(k)
  {
    if x < Pow2(k) {
      DivModUnique(x, Pow2(k), 0, x);
    }
  }

  /** `x & ~(1 << k)` */
  function AndNotBit(x: Atom, k: nat): (y: Atom)
    requires k < 32
    ensures !AtomBit(x, k) ==> y == x
    ensures AtomBit(x, k) ==> y == x - Pow2(k)
  {
    if AtomBit(x, k) then SetBitFits(x, k); x - Pow2(k) else x
  }

  lemma BitSplit(i: nat)
    ensures Pow2(i) == Weight(i / 32) * Pow2(i % 32)
  {
    WeightIsPow2(i / 32);
    Pow2Add(32 * (i / 32), i % 32);
  }

  lemma EvenMultipleKeepsParity(x: nat, rest: nat, p: nat, h: nat)
    requires p > 0
    ensures ((x + (p * (2 * h)) * rest) / p) % 2 == (x / p) % 2
  {
    MulAssoc(p, 2 * h, rest);
    MulAssoc(2, h, rest);
    var e := h * rest;
    assert (p * (2 * h)) * rest == (2 * e) * p;
    ModAddMultiple(x, p, 2 * e);
  }

  lemma HigherAtomsDoNotMatter(x: nat, rest: nat, k: nat)
    requires k < 32
    ensures ((x + BASE * rest) / Pow2(k)) % 2 == (x / Pow2(k)) % 2
  {
    Pow2Add(k, 32 - k);
    Pow2Of32();
    EvenMultipleKeepsParity(x, rest, Pow2(k), Pow2(31 - k));
  }

  lemma DropLowAtoms(s: seq<Atom>, a: nat)
    requires a <= |s|
    ensures Val(s) / Weight(a) == Val(s[a..])
  {
    assert s == s[..a] + s[a..];
    ValConcat(s[..a], s[a..]);
    ValBound(s[..a]);
    assert Val(s) == Val(s[a..]) * Weight(a) + Val(s[..a]);
    DivModUnique(Val(s), Weight(a), Val(s[a..]), Val(s[..a]));
  }

  /** Testing one atom tests the bit of the whole number. */
  lemma BitOfVal(s: seq<Atom>, i: nat)
    requires i < 32 * |s|
    ensures AtomBit(s[i / 32], i % 32) == ((Val(s) / Pow2(i)) % 2 == 1)
  {
    var a, k := i / 32, i % 32;
    BitSplit(i);
    var t := s[a..];
    assert Val(t) == t[0] + BASE * Val(t[1..]);
    hide Val, Weight, Pow2;
    DropLowAtoms(s, a);
    DivDiv(Val(s), Weight(a), Pow2(k));
    HigherAtomsDoNotMatter(t[0], Val(t[1..]), k);
  }

  lemma NextPrefix(n: nat, i: nat)
    ensures Pow2(i + 1) > 0
    ensures n / Pow2(i) == 2 * (n / Pow2(i + 1)) + (n / Pow2(i)) % 2
  {
    DivDiv(n, Pow2(i), 2);
  }

  /** A multiple of 2^(i+1) has bit i clear, so setting it adds 2^i. */
  lemma SetClearBit(s: seq<Atom>, i: nat)
    requires i < 32 * |s| && (Val(s) / Pow2(i)) % 2 == 0
    ensures !AtomBit(s[i / 32], i % 32)
    ensures Val(s[i / 32 := OrBit(s[i / 32], i % 32)]) == Val(s) + Pow2(i)
  {
    BitOfVal(s, i);
    var a, p: nat := i / 32, Pow2(i % 32);
    var x := OrBit(s[a], i % 32);
    ValUpdate(s, a, x);
    BitSplit(i);
    assert x - s[a] == p;
    MulCommute(p, Weight(a));
  }

  lemma ClearSetBit(s: seq<Atom>, i: nat)
    requires i < 32 * |s| && (Val(s) / Pow2(i)) % 2 == 1
    ensures AtomBit(s[i / 32], i % 32)
    ensures Val(s[i / 32 := AndNotBit(s[i / 32], i % 32)]) == Val(s) - Pow2(i)
  {
    hide Val, Pow2, Weight, AndNotBit;
    BitOfVal(s, i);
    var a, p: int := i / 32, Pow2(i % 32);
    var x := AndNotBit(s[a], i % 32);
    ValUpdate(s, a, x);
    BitSplit(i);
    var was: int, now: int := s[a], x;
    assert now - was == -p;
    MulCommute(p, Weight(a));
    assert (-p) * Weight(a) == -(p * Weight(a));
  }

  // --- one-bit shifts, atom by atom -----------------------------------------

  /** `x | b` for a single bit b. */
  function OrLow(x: Atom, b: nat): (y: Atom)
    requires b <= 1
  {
    if b == 1 && x % 2 == 0 then x + 1 else x
  }

  /** `x | (b << 31)` for a single bit b. */
  function OrHigh(x: Atom, b: nat): (y: Atom)
    requires b <= 1
  {
    if b == 1 && x < 0x8000_0000 then x + 0x8000_0000 else x
  }

  /** Two neighbouring atoms make one atom of the doubled number. */
  function Doubled(x: Atom, below: Atom): (y: Atom) {
    (2 * x) % BASE + below / 0x8000_0000
  }

  /** Two neighbouring atoms make one atom of the halved number. */
  function Halved(x: Atom, above: Atom): (y: Atom) {
    x / 2 + (above % 2) * 0x8000_0000
  }

  /** n is o shifted left one bit with b entering at the bottom. */
  ghost predicate ShiftedLeft(o: seq<Atom>, n: seq<Atom>, b: nat)
    requires b <= 1
  {
    && |n| == |o| + 1
    && (|o| > 0 ==> n[0] == (2 * o[0]) % BASE + b)
    && (|o| == 0 ==> n[0] == b)
    && (forall k | 0 < k < |o| :: n[k] == Doubled(o[k], o[k - 1]))
    && (|o| > 0 ==> n[|o|] == o[|o| - 1] / 0x8000_0000)
  }

  lemma {:induction false} ShiftedLeftVal(o: seq<Atom>, n: seq<Atom>, b: nat)
    requires b <= 1 && ShiftedLeft(o, n, b)
    ensures Val(n) == 2 * Val(o) + b
  {
    if |o| == 0 {
      assert n == [n[0]];
      assert Val(n[1..]) == 0;
    } else {
      ShiftedLeftVal(o[1..], n[1..], o[0] / 0x8000_0000);
    }
  }

  /** n is o shifted right one bit. */
  ghost predicate ShiftedRight(o: seq<Atom>, n: seq<Atom>) {
    && |n| == |o|
    && (forall k | 0 <= k < |o| - 1 :: n[k] == Halved(o[k], o[k + 1]))
    && (|o| > 0 ==> n[|o| - 1] == o[|o| - 1] / 2)
  }

  lemma {:induction false} ShiftedRightVal(o: seq<Atom>, n: seq<Atom>)
    requires ShiftedRight(o, n)
    ensures Val(o) == 2 * Val(n) + if |o| > 0 then o[0] % 2 else 0
  {
    if |o| > 0 {
      ShiftedRightVal(o[1..], n[1..]);
    }
  }

  lemma OrLowOfDouble(x: Atom, b: nat)
    requires b <= 1
    ensures OrLow((2 * x) % BASE, b) == (2 * x) % BASE + b && OrLow(0, b) == b
  {
  }

  /** The loop of _mpz_self_lshift1_setbit0, from the top atom down. */
  method ShiftAtomsLeft(d: array<Atom>, n: nat, b: nat)
    requires n < d.Length && d[n] == 0 && b <= 1
    modifies d
    ensures ShiftedLeft(old(d[..n]), d[..n + 1], b)
    ensures forall k | n < k < d.Length :: d[k] == old(d[k])
  {
    hide OrLow;
    ghost var o := d[..n];
    var j := n;
    while j > 0
      invariant 0 <= j <= n
      invariant forall k | 0 <= k < j :: d[k] == o[k]
      invariant forall k | j < k < n :: d[k] == Doubled(o[k], o[k - 1])
      invariant j < n ==> d[j] == (2 * o[j]) % BASE && d[n] == o[n - 1] / 0x8000_0000
      invariant j == n ==> d[n] == 0
      invariant forall k | n < k < d.Length :: d[k] == old(d[k])
    {
      j := j - 1;
      OrLowOfDouble(if j + 1 < n then o[j + 1] else 0, d[j] / 0x8000_0000);
      d[j + 1] := OrLow(d[j + 1], d[j] / 0x8000_0000);
      d[j] := (2 * d[j]) % BASE;
    }
    OrLowOfDouble(if n > 0 then o[0] else 0, b);
    d[0] := OrLow(d[0], b);
  }

  lemma TopAtomSurvives(o: seq<Atom>, s: seq<Atom>, b: nat)
    requires b <= 1 && ShiftedLeft(o, s, b) && Trimmed(o) && |o| > 0 && s[|o|] == 0
    ensures s[|o| - 1] != 0
  {
    var k := |o| - 1;
    assert o[k] < 0x8000_0000 && (2 * o[k]) % BASE == 2 * o[k];
    if k > 0 {
      assert s[k] == Doubled(o[k], o[k - 1]);
    }
  }

  /** _mpz_self_lshift1_setbit0: double z and let b enter at the bottom. */
  method ShiftLeft1(z: Mpz, b: nat)
    requires z.Normal() && z.l < z.d.Length && b <= 1
    modifies z`l, z.d
    ensures z.Normal() && z.Mag() == 2 * old(z.Mag()) + b
    ensures old(z.l) <= z.l <= old(z.l) + 1
  {
    var n := z.l;
    ghost var o := z.d[..n];
    assert n > 0 ==> o[n - 1] != 0;
    ShiftAtomsLeft(z.d, n, b);
    ghost var s := z.d[..n + 1];
    ShiftedLeftVal(o, s, b);
    if z.d[n] != 0 {
      z.l := n + 1;
    } else {
      assert s[..n] == z.d[..n];
      ValPadded(s, n);
      if n > 0 {
        TopAtomSurvives(o, s, b);
      }
    }
  }

  /** The loop of _mpz_self_rshift1, from the bottom atom up. */
  method ShiftAtomsRight(d: array<Atom>, n: nat)
    requires 0 < n <= d.Length
    modifies d
    ensures ShiftedRight(old(d[..n]), d[..n])
    ensures forall k | n <= k < d.Length :: d[k] == old(d[k])
  {
    ghost var o := d[..];
    d[0] := d[0] / 2;
    var j := 1;
    while j < n
      invariant 1 <= j <= n
      invariant forall k | 0 <= k < j - 1 :: d[k] == Halved(o[k], o[k + 1])
      invariant d[j - 1] == o[j - 1] / 2
      invariant forall k | j <= k < d.Length :: d[k] == o[k]
    {
      d[j - 1] := OrHigh(d[j - 1], d[j] % 2);
      d[j] := d[j] / 2;
      j := j + 1;
    }
  }

  /** _mpz_self_rshift1. The C macro ends with a look at atom l - 1, so it has a meaning
      for a positive length only. */
  method ShiftRight1(z: Mpz)
    requires z.Exact() && z.l > 0
    modifies z`l, z.d
    ensures z.Exact() && z.Mag() == old(z.Mag()) / 2 && z.l <= old(z.l)
    ensures old(z.Valid()) ==> z.Valid()
  {
    var n := z.l;
    ghost var o := z.d[..n];
    ShiftAtomsRight(z.d, n);
    ghost var s := z.d[..n];
    ShiftedRightVal(o, s);
    if z.d[n - 1] == 0 {
      z.l := n - 1;
      assert s[..n - 1] == z.d[..n - 1];
      ValPadded(s, n - 1);
      assert n > 1 ==> s[n - 2] == Halved(o[n - 2], o[n - 1]);
    }
  }

  lemma NoBitBeyond(s: seq<Atom>, i: nat)
    requires i >= 32 * |s|
    ensures Val(s) / Pow2(i) == 0
  {
    ValBound(s);
    WeightIsPow2(|s|);
    Pow2Monotone(32 * |s|, i);
    DivModUnique(Val(s), Pow2(i), 0, Val(s));
  }

  /** mpz_testbit: zero or not, as the bit is. */
  method TestBit(z: Mpz, i: nat) returns (b: nat)
    requires z.l <= z.d.Length
    ensures b == (z.Mag() / Pow2(i)) % 2
  {
    if i / 32 >= z.l {
      NoBitBeyond(z.d[..z.l], i);
      return 0;
    }
    BitOfVal(z.d[..z.l], i);
    b := if AtomBit(z.d[i / 32], i % 32) then 1 else 0;
  }

  lemma TopBit(low: seq<Atom>, top: Atom, c: nat)
    requires c > 0 && Pow2(c - 1) <= top < Pow2(c)
    ensures Pow2(32 * |low| + c - 1) <= Val(low + [top]) < Pow2(32 * |low| + c)
    ensures c <= 32
  {
    hide Val, Pow2, Weight;
    var w := Weight(|low|);
    ValSnoc(low, top);
    ValBound(low);
    WeightIsPow2(|low|);
    Pow2Add(32 * |low|, c);
    Pow2Add(32 * |low|, c - 1);
    MulMonotone(top + 1, Pow2(c), w);
    MulMonotone(Pow2(c - 1), top, w);
    MulDistrib(top, 1, w);
    Pow2Of32();
    Pow2Strict(c - 1, 32);
  }

  /** mpz_bits: the position above the most significant set bit. */
  method Bits(z: Mpz) returns (bits: nat)
    requires z.Exact() && z.l > 0
    ensures 32 * (z.l - 1) < bits <= 32 * z.l
    ensures Pow2(bits - 1) <= z.Mag() < Pow2(bits)
  {
    var n := z.l - 1;
    ghost var top := z.d[n];
    bits := n * 32;
    var x := z.d[n];
    ghost var c := 0;
    while x != 0
      invariant bits == n * 32 + c && x == top / Pow2(c)
      invariant c > 0 ==> Pow2(c - 1) <= top
      invariant c == 0 ==> x == top
      decreases x
    {
      if top < Pow2(c) {
        DivModUnique(top, Pow2(c), 0, top);
      }
      DivDiv(top, Pow2(c), 2);
      bits := bits + 1;
      x := x / 2;
      c := c + 1;
    }
    DivModFact(top, Pow2(c));
    TopBit(z.d[..n], z.d[n], c);
    assert z.d[..n + 1] == z.d[..n] + [z.d[n]];
  }
}
