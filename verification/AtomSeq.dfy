// The number that a little-endian sequence of 32-bit atoms stands for, and what
// the atom-by-atom steps of the library do to it.
module AtomSeq {
  import opened Arith

  const BASE: nat := 0x1_0000_0000

  /** mpz_atom_t: one 32-bit digit. */
  type Atom = x: int | 0 <= x < 0x1_0000_0000

  /** mpz_carry_t: the 64-bit accumulator of the carry loops. */
  type Carry = x: int | 0 <= x < 0x1_0000_0000_0000_0000

  /** mpz_scarry_t: the signed 64-bit accumulator of the borrow loops. */
  type SCarry = x: int | -0x8000_0000_0000_0000 <= x < 0x8000_0000_0000_0000

  /** BASE^i, the weight of atom i. */
  function Weight(i: nat): (w: nat)
    ensures w >= 1
  {
    if i == 0 then 1 else BASE * Weight(i - 1)
  }

  /** The number stored in s, least significant atom first. */
  ghost function Val(s: seq<Atom>): nat {
    if |s| == 0 then 0 else s[0] + BASE * Val(s[1..])
  }

  /** No most significant zero atom: the form in which a length is meaningful. */
  predicate Trimmed(s: seq<Atom>) {
    |s| > 0 ==> s[|s| - 1] != 0
  }

  predicate AllZero(s: seq<Atom>) {
    forall i | 0 <= i < |s| :: s[i] == 0
  }

  lemma Pow2Of32()
    ensures Pow2(32) == BASE && Pow2(31) == 0x8000_0000
  {
    assert Pow2(8) == 256;
    Pow2Add(8, 8);
    Pow2Add(16, 16);
  }

  lemma {:induction false} WeightIsPow2(i: nat)
    ensures Weight(i) == Pow2(32 * i)
  {
    if i > 0 {
      WeightIsPow2(i - 1);
      Pow2Add(32, 32 * (i - 1));
      Pow2Of32();
    }
  }

  lemma {:induction false} WeightMonotone(i: nat, j: nat)
    requires i <= j
    ensures Weight(i) <= Weight(j)
  {
    if i < j {
      WeightMonotone(i, j - 1);
    }
  }

  lemma {:induction false} WeightAdd(i: nat, j: nat)
    ensures Weight(i + j) == Weight(i) * Weight(j)
  {
    if i > 0 {
      WeightAdd(i - 1, j);
      MulAssoc(BASE, Weight(i - 1), Weight(j));
      assert i + j - 1 == i - 1 + j;
    }
  }

  /** Appending an atom adds it with its weight: how the upward loops advance. */
  lemma {:induction false} ValSnoc(s: seq<Atom>, x: Atom)
    ensures Val(s + [x]) == Val(s) + x * Weight(|s|)
  {
    if |s| == 0 {
      assert (s + [x])[1..] == [];
    } else {
      assert (s + [x])[1..] == s[1..] + [x];
      ValSnoc(s[1..], x);
      var w := Weight(|s| - 1);
      assert BASE * (x * w) == x * (BASE * w);
    }
  }

  lemma ParityOfVal(s: seq<Atom>)
    requires |s| > 0
    ensures Val(s) % 2 == s[0] % 2
  {
    var v, x: nat := Val(s[1..]), s[0];
    assert Val(s) == x + 2 * (0x8000_0000 * v);
  }

  lemma ValPrefixStep(s: seq<Atom>, j: nat)
    requires j < |s|
    ensures Val(s[..j + 1]) == Val(s[..j]) + s[j] * Weight(j)
  {
    assert s[..j + 1] == s[..j] + [s[j]];
    ValSnoc(s[..j], s[j]);
  }

  lemma {:induction false} ValConcat(s: seq<Atom>, t: seq<Atom>)
    ensures Val(s + t) == Val(s) + Weight(|s|) * Val(t)
  {
    if |s| == 0 {
      assert s + t == t;
    } else {
      assert (s + t)[1..] == s[1..] + t;
      ValConcat(s[1..], t);
      var w := Weight(|s| - 1);
      assert BASE * (w * Val(t)) == (BASE * w) * Val(t);
    }
  }

  lemma {:induction false} ValZeros(s: seq<Atom>)
    requires AllZero(s)
    ensures Val(s) == 0
  {
    if |s| > 0 {
      ValZeros(s[1..]);
    }
  }

  /** Zero atoms on top change nothing. */
  lemma ValPadded(s: seq<Atom>, k: nat)
    requires k <= |s| && AllZero(s[k..])
    ensures Val(s) == Val(s[..k])
  {
    assert s == s[..k] + s[k..];
    ValConcat(s[..k], s[k..]);
    ValZeros(s[k..]);
  }

  lemma {:induction false} ValBound(s: seq<Atom>)
    ensures Val(s) < Weight(|s|)
  {
    if |s| > 0 {
      ValBound(s[1..]);
    }
  }

  lemma ValLowerBound(s: seq<Atom>)
    requires |s| > 0 && s[|s| - 1] != 0
    ensures Weight(|s| - 1) <= Val(s)
  {
    var n := |s| - 1;
    assert s == s[..n] + [s[n]];
    ValSnoc(s[..n], s[n]);
    MulMonotone(1, s[n], Weight(n));
  }

  /** A number that needs all its atoms has a non-zero top atom. */
  lemma BigIsTrimmed(s: seq<Atom>)
    requires |s| > 0 && Val(s) >= Weight(|s| - 1)
    ensures s[|s| - 1] != 0
  {
    var n := |s| - 1;
    assert s == s[..n] + [s[n]];
    ValSnoc(s[..n], s[n]);
    ValBound(s[..n]);
  }

  /** A trimmed sequence is empty exactly when it stands for zero. */
  lemma TrimmedZero(s: seq<Atom>)
    requires Trimmed(s)
    ensures Val(s) == 0 <==> |s| == 0
  {
    if |s| > 0 {
      ValLowerBound(s);
    }
  }

  /** Comparing lengths compares trimmed numbers. */
  lemma ShorterIsSmaller(s: seq<Atom>, t: seq<Atom>)
    requires Trimmed(t) && |s| < |t|
    ensures Val(s) < Val(t)
  {
    ValBound(s);
    ValLowerBound(t);
    WeightMonotone(|s|, |t| - 1);
  }

  lemma TopAtomDecidesParts(p: seq<Atom>, x: Atom, q: seq<Atom>, y: Atom)
    requires |p| == |q| && x < y
    ensures Val(p + [x]) < Val(q + [y])
  {
    var w := Weight(|p|);
    ValSnoc(p, x);
    ValSnoc(q, y);
    ValBound(p);
    MulMonotone(x + 1, y, w);
    MulDistrib(x, 1, w);
  }

  /** The most significant differing atom decides. */
  lemma TopAtomDecides(s: seq<Atom>, t: seq<Atom>, i: nat)
    requires |s| == |t| && i < |s| && s[i + 1..] == t[i + 1..] && s[i] < t[i]
    ensures Val(s) < Val(t)
  {
    var p, q, u := s[..i] + [s[i]], t[..i] + [t[i]], s[i + 1..];
    TopAtomDecidesParts(s[..i], s[i], t[..i], t[i]);
    assert s == p + u && t == q + u;
    ValConcat(p, u);
    ValConcat(q, u);
  }

  /** Trimmed representations are unique. */
  lemma {:induction false} TrimmedUnique(s: seq<Atom>, t: seq<Atom>)
    requires Trimmed(s) && Trimmed(t) && Val(s) == Val(t)
    ensures s == t
  {
    if |s| < |t| {
      ShorterIsSmaller(s, t);
    } else if |t| < |s| {
      ShorterIsSmaller(t, s);
    } else if |s| > 0 {
      assert s[0] == t[0] && Val(s[1..]) == Val(t[1..]);
      TrimmedUnique(s[1..], t[1..]);
      assert s == [s[0]] + s[1..] && t == [t[0]] + t[1..];
    }
  }

  /** Replacing one atom changes the number by the difference times the weight. */
  lemma ValUpdate(s: seq<Atom>, i: nat, x: Atom)
    requires i < |s|
    ensures Val(s[i := x]) == Val(s) + (x - s[i]) * Weight(i)
  {
    var t := s[i := x];
    assert s == s[..i] + s[i..] && t == s[..i] + t[i..];
    ValConcat(s[..i], s[i..]);
    ValConcat(s[..i], t[i..]);
    assert t[i..][1..] == s[i..][1..];
    var v := BASE * Val(s[i..][1..]);
    var o: int, n: int, w := s[i], x, Weight(i);
    MulDistrib(n, v, w);
    MulDistrib(o, v, w);
    MulDistrib(n - o, o, w);
  }
}
