// Greatest common divisors as the binary algorithm needs them.
module Divisors {
  import opened Arith

  ghost predicate Divides(k: nat, n: nat) {
    k > 0 && n % k == 0
  }

  ghost predicate Common(k: nat, a: nat, b: nat) {
    Divides(k, a) && Divides(k, b)
  }

  /** g is a common divisor that every common divisor divides. */
  ghost predicate IsGcd(g: nat, a: nat, b: nat) {
    Common(g, a, b) && forall k: nat :: Common(k, a, b) ==> Divides(k, g)
  }

  /** Two pairs with the same common divisors. */
  ghost predicate SameDivisors(a: nat, b: nat, a': nat, b': nat) {
    forall k: nat :: Common(k, a, b) <==> Common(k, a', b')
  }

  lemma Multiple(k: nat, q: nat)
    requires k > 0
    ensures Divides(k, q * k)
  {
    DivModUnique(q * k, k, q, 0);
  }

  lemma DividesSum(k: nat, a: nat, b: nat)
    requires Divides(k, a) && Divides(k, b)
    ensures Divides(k, a + b)
    ensures a >= b ==> Divides(k, a - b)
  {
    DivModFact(a, k);
    DivModFact(b, k);
    MulDistrib(a / k, b / k, k);
    Multiple(k, a / k + b / k);
    if a >= b {
      MulDistrib(a / k, -(b / k), k);
      DivModUnique(a - b, k, a / k - b / k, 0);
    }
  }

  lemma OddFactor(q: nat, h: nat, n: nat)
    requires q * (2 * h + 1) == 2 * n
    ensures (q / 2) * (2 * h + 1) == n
  {
    MulDistrib(2 * h, 1, q);
    MulAssoc(2, h, q);
    assert q == 2 * (n - h * q);
    MulAssoc(2, n - h * q, 2 * h + 1);
  }

  /** An odd divisor of 2n divides n; an even one is twice a divisor of n. */
  lemma DividesDouble(k: nat, n: nat)
    requires Divides(k, 2 * n)
    ensures k % 2 == 1 ==> Divides(k, n)
    ensures k % 2 == 0 ==> Divides(k / 2, n)
  {
    DivModFact(2 * n, k);
    var q, h := (2 * n) / k, k / 2;
    hide Divides;
    if k % 2 == 0 {
      MulAssoc(q, h, 2);
      Multiple(h, q);
    } else {
      OddFactor(q, h, n);
      Multiple(k, q / 2);
    }
  }

  lemma EvenCannotDivideOdd(k: nat, n: nat)
    requires Divides(k, n) && n % 2 == 1
    ensures k % 2 == 1
  {
    DivModFact(n, k);
    if k % 2 == 0 {
      MulAssoc(n / k, k / 2, 2);
    }
  }

  /** Halving an even number beside an odd one loses no common divisor. */
  lemma HalveKeepsDivisors(a: nat, b: nat)
    requires b % 2 == 1
    ensures SameDivisors(2 * a, b, a, b)
  {
    forall k: nat
      ensures Common(k, 2 * a, b) <==> Common(k, a, b)
    {
      if Common(k, 2 * a, b) {
        EvenCannotDivideOdd(k, b);
        DividesDouble(k, a);
      }
      if Common(k, a, b) {
        DividesSum(k, a, a);
      }
    }
  }

  /** Subtracting the smaller number loses no common divisor. */
  lemma SubtractKeepsDivisors(a: nat, b: nat)
    requires a >= b
    ensures SameDivisors(a, b, a - b, b)
  {
    forall k: nat
      ensures Common(k, a, b) <==> Common(k, a - b, b)
    {
      if Common(k, a, b) {
        DividesSum(k, a, b);
      }
      if Common(k, a - b, b) {
        DividesSum(k, a - b, b);
      }
    }
  }

  lemma SameDivisorsSwap(a: nat, b: nat, c: nat, d: nat)
    requires SameDivisors(a, b, c, d)
    ensures SameDivisors(b, a, d, c)
  {
    forall k: nat
      ensures Common(k, b, a) <==> Common(k, d, c)
    {
      assert Common(k, a, b) <==> Common(k, c, d);
    }
  }

  lemma SameDivisorsTrans(a: nat, b: nat, c: nat, d: nat, e: nat, f: nat)
    requires SameDivisors(a, b, c, d) && SameDivisors(c, d, e, f)
    ensures SameDivisors(a, b, e, f)
  {
    forall k: nat
      ensures Common(k, a, b) <==> Common(k, e, f)
    {
      assert Common(k, a, b) <==> Common(k, c, d);
    }
  }

  lemma ZeroEndsSearch(a: nat, b: nat, g: nat)
    requires SameDivisors(a, b, 0, g) && g > 0
    ensures IsGcd(g, a, b)
  {
    DivModUnique(g, g, 1, 0);
    assert Common(g, 0, g);
    forall k: nat | Common(k, a, b)
      ensures Divides(k, g)
    {
      assert Common(k, 0, g);
    }
  }

  lemma DoubleBoth(k: nat, n: nat)
    requires Divides(k, n)
    ensures Divides(2 * k, 2 * n)
  {
    DivModFact(n, k);
    var q := n / k;
    assert 2 * n == q * (2 * k);
    Multiple(2 * k, q);
  }

  lemma GcdDouble(g: nat, a: nat, b: nat)
    requires IsGcd(g, a, b)
    ensures IsGcd(2 * g, 2 * a, 2 * b)
  {
    DoubleBoth(g, a);
    DoubleBoth(g, b);
    forall k: nat | Common(k, 2 * a, 2 * b)
      ensures Divides(k, 2 * g)
    {
      DividesDouble(k, a);
      DividesDouble(k, b);
      if k % 2 == 1 {
        assert Common(k, a, b);
        DividesSum(k, g, g);
      } else {
        assert Common(k / 2, a, b);
        DoubleBoth(k / 2, g);
      }
    }
  }

  /** The common power of two comes back in front. */
  lemma {:induction false} GcdScale(n: nat, g: nat, a: nat, b: nat)
    requires IsGcd(g, a, b)
    ensures IsGcd(Pow2(n) * g, Pow2(n) * a, Pow2(n) * b)
  {
    if n > 0 {
      GcdScale(n - 1, g, a, b);
      var p := Pow2(n - 1);
      GcdDouble(p * g, p * a, p * b);
      MulAssoc(2, p, g);
      MulAssoc(2, p, a);
      MulAssoc(2, p, b);
    }
  }
}
