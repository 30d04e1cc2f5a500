/**
 The division-based routines of main.cpp: `gcd`, `quotient_remainder`,
 `extended_gcd` and `multiplicative_inverse`. C++ `/` and `%` truncate toward
 zero while Dafny's are Euclidean; the two agree on non-negative operands,
 which is the domain modelled here.
 */
module Euclid {
  import opened Arithmetic
  import opened NumberTheory

  /** `gcd`: the Euclidean algorithm, replacing `(a, b)` by `(b, a mod b)` until `b` is zero. */
  method EuclidGcd(a: nat, b: nat) returns (g: nat)
    ensures g == Gcd(a, b)
  {
    var x, y := a, b;
    while y != 0
      invariant Gcd(x, y) == Gcd(a, b)
      decreases y
    {
      GcdEuclideanStep(x, y);
      x := x % y;
      x, y := y, x;
    }
    g := x;
  }

  /** `quotient_remainder`: the pair `(a / b, a % b)`. */
  function QuotientRemainder(a: nat, b: nat): (qr: (nat, nat))
    requires b > 0
    ensures a == qr.0 * b + qr.1
    ensures qr.1 < b
  {
    (a / b, a % b)
  }

  /** One step of the extended algorithm keeps the coefficients alternating in sign
      and their magnitudes growing by `q` times the later one. */
  lemma AlternatingStep(x0: int, x1: int, q: nat)
    requires x0 * x1 <= 0
    ensures Abs(x0 - q * x1) == Abs(x0) + q * Abs(x1)
    ensures x1 * (x0 - q * x1) <= 0
  {
    if x1 > 0 {
      assert x0 <= 0;
      assert q * x1 >= 0;
      assert x1 * (x0 - q * x1) == x1 * x0 - (q * x1) * x1;
    } else if x1 < 0 {
      assert x0 >= 0;
      assert q * x1 <= 0 by {
        assert q * (-x1) >= 0;
      }
      assert Abs(x1) == -x1;
      assert q * Abs(x1) == -(q * x1);
      assert x1 * (x0 - q * x1) == x1 * x0 - (q * x1) * x1;
      assert (q * x1) * x1 == (q * (-x1)) * (-x1);
    }
  }

  /** The magnitude identity |x1| a + |x0| b = B survives one step. */
  lemma MagnitudeStep(r0: nat, r1: nat, x0: int, x1: int, q: nat, r: nat, bound: nat)
    requires r1 > 0 && r0 == q * r1 + r
    requires Abs(x1) * r0 + Abs(x0) * r1 == bound
    requires x0 * x1 <= 0
    ensures Abs(x0 - q * x1) * r1 + Abs(x1) * r == bound
  {
    AlternatingStep(x0, x1, q);
    calc {
      Abs(x0 - q * x1) * r1 + Abs(x1) * r;
      (Abs(x0) + q * Abs(x1)) * r1 + Abs(x1) * r;
      Abs(x0) * r1 + Abs(x1) * (q * r1 + r);
    }
  }

  /** The loop invariant of `extended_gcd` apart from the gcd itself: both remainders
      are combinations of the inputs, and the coefficients of `a` alternate in sign
      with magnitudes tied to `b` (which bounds the returned coefficient). */
  ghost predicate ExtendedInvariant(a: nat, b: nat, r0: nat, r1: nat, x0: int, x1: int, y0: int, y1: int)
  {
    && a * x0 + b * y0 == r0
    && a * x1 + b * y1 == r1
    && Abs(x1) * r0 + Abs(x0) * r1 == b
    && x0 * x1 <= 0
    && (x1 == 0 || r1 < r0)
    && (Abs(x0) * r0 <= b || (x0 == 1 && x1 == 0))
  }

  lemma CombinationStep(a: int, b: int, x0: int, y0: int, x1: int, y1: int, q: int)
    ensures a * (x0 - q * x1) + b * (y0 - q * y1) == (a * x0 + b * y0) - q * (a * x1 + b * y1)
  {
    calc {
      a * (x0 - q * x1) + b * (y0 - q * y1);
      a * x0 - a * (q * x1) + b * y0 - b * (q * y1);
      { assert a * (q * x1) == q * (a * x1); assert b * (q * y1) == q * (b * y1); }
      a * x0 + b * y0 - q * (a * x1) - q * (b * y1);
    }
  }

  lemma MulMonotone(k: nat, i: nat, j: nat)
    requires i <= j
    ensures k * i <= k * j
  {
    assert k * j == k * i + k * (j - i);
  }

  lemma ExtendedStep(a: nat, b: nat, r0: nat, r1: nat, x0: int, x1: int, y0: int, y1: int, q: nat, r: nat)
    requires ExtendedInvariant(a, b, r0, r1, x0, x1, y0, y1)
    requires r1 > 0 && r0 == q * r1 + r && r < r1
    ensures ExtendedInvariant(a, b, r1, r, x1, x0 - q * x1, y1, y0 - q * y1)
  {
    MagnitudeStep(r0, r1, x0, x1, q, r, b);
    AlternatingStep(x0, x1, q);
    CombinationStep(a, b, x0, y0, x1, y1, q);
    if x1 != 0 {
      MulMonotone(Abs(x1), r1, r0);
    }
  }

  lemma ExtendedExit(a: nat, b: nat, r0: nat, x0: int, x1: int, y0: int, y1: int)
    requires ExtendedInvariant(a, b, r0, 0, x0, x1, y0, y1)
    ensures b > 0 ==> Abs(x0) * r0 <= b
  {
    assert Abs(x1) * r0 + Abs(x0) * 0 == b;
    if x1 == 0 {
      assert Abs(x1) * r0 == 0;
    }
  }

  /** `extended_gcd(a, b)`: returns `x` and `g = gcd(a, b)` such that `a x + b y = g`
      for the (unreturned) coefficient `y`. The coefficient is bounded: `|x| g <= b`. */
  method ExtendedGcd(a: nat, b: nat) returns (x: int, g: nat, ghost y: int)
    ensures a * x + b * y == g
    ensures g == Gcd(a, b)
    ensures b > 0 ==> Abs(x) * g <= b
  {
    var r0: nat, r1: nat := a, b;
    var x0: int, x1: int := 1, 0;
    ghost var y0: int, y1: int := 0, 1;
    while r1 != 0
      invariant Gcd(r0, r1) == Gcd(a, b)
      invariant ExtendedInvariant(a, b, r0, r1, x0, x1, y0, y1)
      decreases r1
    {
      var qr := QuotientRemainder(r0, r1);
      var q, r := qr.0, qr.1;
      var x2 := x0 - q * x1;
      ExtendedStep(a, b, r0, r1, x0, x1, y0, y1, q, r);
      GcdEuclideanStep(r0, r1);
      x0, x1 := x1, x2;
      y0, y1 := y1, y0 - q * y1;
      r0, r1 := r1, r;
    }
    ExtendedExit(a, b, r0, x0, x1, y0, y1);
    x, g, y := x0, r0, y0;
  }

  /** No multiple of a modulus above one equals one. */
  lemma NoUnitMultiple(n: int, k: int)
    requires n > 1
    ensures n * k != 1
  {
    if k >= 1 {
      MulAtLeast(n, k);
    } else if k <= -1 {
      MulAtLeast(n, -k);
    }
  }

  /** A Bézout coefficient of an `a` coprime to `n > 1` is neither zero nor `±n`. */
  lemma BezoutCoefficientNotTrivial(a: nat, n: nat, x: int, y: int)
    requires n > 1 && a * x + n * y == 1
    ensures x != 0 && x != n && x + n != 0
  {
    if x == 0 {
      NoUnitMultiple(n, y);
    } else if x == n {
      assert n * (a + y) == a * x + n * y;
      NoUnitMultiple(n, a + y);
    } else if x + n == 0 {
      assert n * (y - a) == a * x + n * y;
      NoUnitMultiple(n, y - a);
    }
  }

  /** Adding a multiple of the modulus to a Bézout combination equal to 1. */
  lemma ShiftedInverse(a: nat, n: nat, x: int, y: int, s: int)
    requires n > 1 && a * x + n * y == 1
    ensures (a * (x + n * s)) % n == 1
  {
    assert a * (x + n * s) == 1 + n * (a * s - y) by {
      assert a * (n * s) == n * (a * s);
    }
    ModAddMultiple(1, a * s - y, n);
    ModUnique(1, n, 0, 1);
  }

  /** A Bézout coefficient of magnitude at most `n`, shifted into `[0, n)`, is the inverse. */
  lemma InverseFromBezout(a: nat, n: nat, x: int, y: int)
    requires n > 1 && a * x + n * y == 1 && Abs(x) <= n
    ensures var d := if x < 0 then x + n else x; 0 < d < n && (a * d) % n == 1
  {
    BezoutCoefficientNotTrivial(a, n, x, y);
    if x < 0 {
      ShiftedInverse(a, n, x, y, 1);
    } else {
      ShiftedInverse(a, n, x, y, 0);
    }
  }

  /** `multiplicative_inverse(a, n)`: the inverse of `a` modulo `n`, or the sentinel 0
      when `a` and `n` are not coprime. */
  method MultiplicativeInverse(a: nat, n: nat) returns (d: int)
    requires n > 1
    ensures d == 0 <==> Gcd(a, n) != 1
    ensures d != 0 ==> 0 < d < n && (a * d) % n == 1
  {
    var x, g, y := ExtendedGcd(a, n);
    if g != 1 {
      return 0;
    }
    assert Abs(x) <= n;
    InverseFromBezout(a, n, x, y);
    if x < 0 {
      return x + n;
    }
    return x;
  }

  /** An inverse modulo `n` exists only for an `a` coprime to `n`: the sentinel is
      returned exactly when no inverse exists. */
  lemma InverseImpliesCoprime(a: nat, n: nat, d: int)
    requires n > 1 && (a * d) % n == 1
    ensures Gcd(a, n) == 1
  {
    var g := Gcd(a, n);
    GcdIsGreatest(a, n);
    assert a * d == n * ((a * d) / n) + 1;
    DividesLinear(g, a, n, d, -((a * d) / n));
    assert Divides(g, 1);
    DividesLe(g, 1);
  }

  /** A modular inverse is unique in `[0, n)`: whatever `multiplicative_inverse`
      returns is the only inverse in that range. */
  lemma InverseUnique(a: nat, n: nat, d1: int, d2: int)
    requires n > 1
    requires 0 <= d1 < n && (a * d1) % n == 1
    requires 0 <= d2 < n && (a * d2) % n == 1
    ensures d1 == d2
  {
    // d2 = d2 (a d1) = (a d2) d1 = d1, all modulo n
    calc {
      d2;
      { ModUnique(d2, n, 0, d2); }
      d2 % n;
      (d2 * 1) % n;
      (d2 * ((a * d1) % n)) % n;
      { ModMulRight(d2, a * d1, n); }
      (d2 * (a * d1)) % n;
      { assert d2 * (a * d1) == (a * d2) * d1; }
      ((a * d2) * d1) % n;
      { ModMulLeft(a * d2, d1, n); }
      (((a * d2) % n) * d1) % n;
      (1 * d1) % n;
      { ModUnique(d1, n, 0, d1); }
      d1;
    }
  }
}
