// Powers, products and quotients: the arithmetic that the big-number and
// text proofs share.
module Arith {
  /** b^n. */
  function Pow(b: nat, n: nat): nat {
    if n == 0 then 1 else b * Pow(b, n - 1)
  }

  /** 2^n, the weight of bit n. */
  function Pow2(n: nat): (p: nat)
    ensures p >= 1
  {
    if n == 0 then 1 else 2 * Pow2(n - 1)
  }

  lemma {:induction false} Pow2Add(a: nat, b: nat)
    ensures Pow2(a + b) == Pow2(a) * Pow2(b)
  {
    if a == 0 {
    } else {
      Pow2Add(a - 1, b);
      assert 2 * (Pow2(a - 1) * Pow2(b)) == (2 * Pow2(a - 1)) * Pow2(b);
    }
  }

  lemma {:induction false} Pow2Monotone(a: nat, b: nat)
    requires a <= b
    ensures Pow2(a) <= Pow2(b)
  {
    if a < b {
      Pow2Monotone(a, b - 1);
    }
  }

  lemma Pow2Strict(a: nat, b: nat)
    requires Pow2(a) < Pow2(b)
    ensures a < b
  {
    if b <= a {
      Pow2Monotone(b, a);
    }
  }

  lemma MulPositive(a: nat, b: nat)
    requires a > 0 && b > 0
    ensures a * b > 0
  {
  }

  lemma {:induction false} PowPositive(b: nat, n: nat)
    requires b > 0
    ensures Pow(b, n) >= 1
  {
    if n > 0 {
      PowPositive(b, n - 1);
      MulPositive(b, Pow(b, n - 1));
    }
  }

  lemma MulAssoc(a: int, b: int, c: int)
    ensures (a * b) * c == a * (b * c)
  {
  }

  lemma {:induction false} PowAdd(b: nat, m: nat, n: nat)
    ensures Pow(b, m + n) == Pow(b, m) * Pow(b, n)
  {
    if m == 0 {
    } else {
      PowAdd(b, m - 1, n);
      MulAssoc(b, Pow(b, m - 1), Pow(b, n));
      assert m + n - 1 == m - 1 + n;
    }
  }

  /** (b*b)^n == b^(2n): what halving the exponent relies on. */
  lemma {:induction false} PowSquare(b: nat, n: nat)
    ensures Pow(b * b, n) == Pow(b, 2 * n)
  {
    if n > 0 {
      PowSquare(b, n - 1);
      var p := Pow(b, 2 * (n - 1));
      assert Pow(b, 2 * n - 1) == b * p;
      MulAssoc(b, b, p);
    }
  }

  lemma MulCommute(a: int, b: int)
    ensures a * b == b * a
  {
  }

  lemma MulDistrib(a: int, b: int, c: int)
    ensures (a + b) * c == a * c + b * c
    ensures c * (a + b) == c * a + c * b
  {
  }

  lemma MulMonotone(a: int, b: int, c: int)
    requires a <= b && c >= 0
    ensures a * c <= b * c
    ensures c * a <= c * b
  {
  }

  lemma MulStrict(a: int, b: int, c: int)
    requires a * c < b * c && c >= 0
    ensures a < b
  {
    if b <= a {
      MulMonotone(b, a, c);
    }
  }

  /** Quotient and remainder are the only pair with n == q*d + r, 0 <= r < d. */
  lemma DivModUnique(n: int, d: int, q: int, r: int)
    requires d > 0 && 0 <= r < d && n == q * d + r
    ensures n / d == q && n % d == r
  {
    var q', r' := n / d, n % d;
    assert n == q' * d + r' by {
      assert n == d * (n / d) + n % d;
    }
    if q < q' {
      MulMonotone(q + 1, q', d);
      MulDistrib(q, 1, d);
    } else if q' < q {
      MulMonotone(q' + 1, q, d);
      MulDistrib(q', 1, d);
    }
  }

  lemma DivModFact(n: int, d: int)
    requires d > 0
    ensures n == (n / d) * d + n % d && 0 <= n % d < d
  {
  }

  /** Dividing by a base makes a number smaller, and leaves something of one that
      has more than one digit. */
  lemma QuotientShrinks(n: nat, b: nat)
    requires b >= 2
    ensures n > 0 ==> n / b < n
    ensures n >= b ==> n / b >= 1
    ensures n < b ==> n / b == 0 && n % b == n
  {
    DivModFact(n, b);
    var q := n / b;
    MulMonotone(2, b, q);
    if n < b {
      DivModUnique(n, b, 0, n);
    }
  }

  /** (n / a) / b == n / (a * b). */
  lemma DivDiv(n: nat, a: nat, b: nat)
    requires a > 0 && b > 0
    ensures a * b > 0 && (n / a) / b == n / (a * b)
  {
    MulPositive(a, b);
    var q := n / a;
    DivModFact(n, a);
    DivModFact(q, b);
    var u, v := q / b, q % b;
    MulDistrib(u * b, v, a);
    MulAssoc(u, b, a);
    assert n == u * (a * b) + (v * a + n % a);
    MulMonotone(v + 1, b, a);
    MulDistrib(v, 1, a);
    DivModUnique(n, a * b, u, v * a + n % a);
  }

  /** Adding a multiple of d does not change the remainder. */
  lemma ModAddMultiple(n: int, d: int, k: int)
    requires d > 0
    ensures (n + k * d) % d == n % d
    ensures (n + k * d) / d == n / d + k
  {
    DivModFact(n, d);
    MulDistrib(n / d, k, d);
    DivModUnique(n + k * d, d, n / d + k, n % d);
  }

  /** A product may be reduced before or after multiplying. */
  lemma ModMul(a: nat, b: nat, m: nat)
    requires m > 0
    ensures ((a % m) * b) % m == (a * b) % m
    ensures (b * (a % m)) % m == (b * a) % m
  {
    DivModFact(a, m);
    var q, r := a / m, a % m;
    MulDistrib(q * m, r, b);
    assert (q * m) * b == (q * b) * m;
    ModAddMultiple(r * b, m, q * b);
  }

  /** Powers of numbers that agree modulo m agree modulo m. */
  lemma {:induction false} ModPow(b: nat, n: nat, m: nat)
    requires m > 0
    ensures Pow(b % m, n) % m == Pow(b, n) % m
  {
    if n > 0 {
      ModPow(b, n - 1, m);
      var p, p' := Pow(b, n - 1), Pow(b % m, n - 1);
      ModMul(b, p', m);
      ModMul(p', b, m);
      ModMul(p, b, m);
    }
  }
}
