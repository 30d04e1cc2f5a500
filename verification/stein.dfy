/**
 `stein_gcd` of main.cpp: the binary gcd, which needs only shifts, parity
 tests and subtraction. It is proved to return the same value as the
 Euclidean `gcd`, namely the greatest common divisor of the magnitudes.
 */
module Stein {
  import opened Arithmetic
  import opened NumberTheory
  import opened Factorization

  /** The factors of two stripped from each operand come back as the smaller power. */
  lemma SteinRecombine(m: nat, n: nat, m1: nat, n1: nat, dm: nat, dn: nat)
    requires Odd(m1) && Odd(n1)
    requires m == m1 * Pow(2, dm) && n == n1 * Pow(2, dn)
    ensures Gcd(m, n) == Pow(2, Min(dm, dn)) * Gcd(m1, n1)
  {
    if dm <= dn {
      SteinRecombineOrdered(m, n, m1, n1, dm, dn);
    } else {
      SteinRecombineOrdered(n, m, n1, m1, dn, dm);
      GcdSymmetric(m, n);
      GcdSymmetric(m1, n1);
    }
  }

  lemma MulRearrange(n1: int, c: int, e: int)
    ensures n1 * (c * e) == c * (e * n1)
  {
  }

  /** `n1 2^dn = 2^dm (2^(dn - dm) n1)` for `dm <= dn`. */
  lemma Pow2Split(n1: nat, dm: nat, dn: nat)
    requires dm <= dn
    ensures n1 * Pow(2, dn) == Pow(2, dm) * (Pow(2, dn - dm) * n1)
  {
    PowAdd(2, dm, dn - dm);
    MulRearrange(n1, Pow(2, dm), Pow(2, dn - dm));
  }

  /** Both operands as multiples of the smaller power of two `c = 2^dm`. */
  lemma CommonPow2(m: nat, n: nat, m1: nat, n1: nat, dm: nat, dn: nat, c: nat, en: nat)
    requires dm <= dn && m == m1 * Pow(2, dm) && n == n1 * Pow(2, dn)
    requires c == Pow(2, dm) && en == Pow(2, dn - dm) * n1
    ensures m == c * m1 && n == c * en
  {
    Pow2Split(n1, dm, dn);
  }

  lemma SteinRecombineOrdered(m: nat, n: nat, m1: nat, n1: nat, dm: nat, dn: nat)
    requires Odd(m1) && Odd(n1) && dm <= dn
    requires m == m1 * Pow(2, dm) && n == n1 * Pow(2, dn)
    ensures Gcd(m, n) == Pow(2, dm) * Gcd(m1, n1)
  {
    var c: nat := Pow(2, dm);
    var en: nat := Pow(2, dn - dm) * n1;
    CommonPow2(m, n, m1, n1, dm, dn, c, en);
    GcdScale(m1, en, c, m, n);
    GcdPow2OddRight(m1, n1, dn - dm, en);
  }

  /** `GcdPow2Odd` with the power of two on the right-hand operand. */
  lemma GcdPow2OddRight(m1: nat, n1: nat, j: nat, en: nat)
    requires Odd(m1) && en == Pow(2, j) * n1
    ensures Gcd(m1, en) == Gcd(m1, n1)
  {
    GcdSymmetric(m1, en);
    GcdPow2Odd(n1, m1, j, en);
    GcdSymmetric(n1, m1);
  }

  /** The stripping loops of `stein_gcd`: shift out the trailing zero bits of a
      positive `x`, counting them. The result is the odd cofactor of `x` and
      the multiplicity of two in it, so `x = rest 2^twos` by `FactorizationOf`. */
  method StripTwos(x: nat) returns (rest: nat, twos: nat)
    requires x > 0
    ensures rest == Cofactor(x, 2) && twos == Multiplicity(x, 2)
    ensures Odd(rest) && x == rest * Pow(2, twos)
  {
    rest, twos := x, 0;
    while !Odd(rest)
      invariant rest > 0
      invariant Cofactor(rest, 2) == Cofactor(x, 2)
      invariant Multiplicity(rest, 2) + twos == Multiplicity(x, 2)
      decreases rest
    {
      rest, twos := Half(rest), twos + 1;
    }
    FactorizationOf(x, 2);
  }

  /** One round of the subtract loop: `half(m - n)` keeps the gcd with an odd `n`. */
  lemma SubtractHalve(m: nat, n: nat)
    requires m > n && Odd(n) && Odd(m)
    ensures 0 < Half(m - n) < m
    ensures Gcd(Half(m - n), n) == Gcd(m, n)
  {
    var d: nat := m - n;
    var h: nat := Half(d);
    assert d == 2 * h;
    GcdSubtract(m, n);
    GcdDoubleOdd(h, n);
  }

  /** The subtract loop of `stein_gcd` on two odd operands: subtract the smaller
      from the larger and shift out the zero bits until the two meet. */
  method OddGcd(m0: nat, n0: nat) returns (g: nat)
    requires Odd(m0) && Odd(n0)
    ensures g == Gcd(m0, n0)
  {
    var m, n := m0, n0;
    while m != n
      invariant m > 0 && n > 0 && Odd(m) && Odd(n)
      invariant Gcd(m, n) == Gcd(m0, n0)
      decreases m + n
    {
      if n > m {
        GcdSymmetric(m, n);
        m, n := n, m;
      }
      ghost var top := m;
      SubtractHalve(m, n);
      m := Half(m - n);
      while !Odd(m)
        invariant 0 < m < top
        invariant Gcd(m, n) == Gcd(m0, n0)
        decreases m
      {
        GcdDoubleOdd(Half(m), n);
        m := Half(m);
      }
    }
    // m == n
    GcdSelf(m);
    g := m;
  }

  /** `stein_gcd(m, n)`: the greatest common divisor of `|m|` and `|n|`. */
  method SteinGcd(m0: int, n0: int) returns (g: nat)
    ensures IsGcd(g, Abs(m0), Abs(n0))
    ensures g == Gcd(Abs(m0), Abs(n0))
  {
    var m: nat := Abs(m0);
    var n: nat := Abs(n0);
    if m == 0 {
      GcdSymmetric(0, n);
      g := n;
    } else if n == 0 {
      g := m;
    } else {
      var m1, dm := StripTwos(m);
      var n1, dn := StripTwos(n);
      var h := OddGcd(m1, n1);
      var shift: nat := Pow(2, Min(dm, dn));
      SteinRecombine(m, n, m1, n1, dm, dn);
      assert Gcd(m, n) == shift * h;
      g := h * shift;
    }
    GcdIsGreatest(m, n);
  }
}
