/**
 Divisibility and the greatest common divisor, stated independently of any
 algorithm: `IsGcd` is the mathematical characterisation every gcd routine of
 main.cpp is proved against, `Gcd` is the (unique) value satisfying it, and
 the identities below are the steps the Euclidean and the binary algorithm
 rely on.
 */
module NumberTheory {
  import opened Arithmetic

  /** `d` divides `x`. */
  ghost predicate Divides(d: int, x: int)
  {
    exists k :: x == d * k
  }

  /** `g` is the greatest common divisor of `a` and `b`: a non-negative common
      divisor that every common divisor divides. */
  ghost predicate IsGcd(g: int, a: int, b: int)
  {
    && g >= 0
    && Divides(g, a)
    && Divides(g, b)
    && forall c :: Divides(c, a) && Divides(c, b) ==> Divides(c, g)
  }

  lemma DividesLinear(d: int, x: int, y: int, i: int, j: int)
    requires Divides(d, x) && Divides(d, y)
    ensures Divides(d, x * i + y * j)
  {
    var s :| x == d * s;
    var t :| y == d * t;
    assert x * i + y * j == d * (s * i + t * j);
  }

  lemma DividesSelf(d: int)
    ensures Divides(d, d) && Divides(d, 0)
  {
    assert d == d * 1;
    assert 0 == d * 0;
  }

  /** A divisor of a positive number is no larger than it. */
  lemma DividesLe(d: int, x: int)
    requires Divides(d, x) && d >= 0 && x > 0
    ensures d <= x
  {
    var k :| x == d * k;
    if k >= 1 {
      MulAtLeast(d, k);
    }
  }

  lemma GcdUnique(g1: int, g2: int, a: int, b: int)
    requires IsGcd(g1, a, b) && IsGcd(g2, a, b)
    ensures g1 == g2
  {
    assert Divides(g1, g2) && Divides(g2, g1);
    var s :| g2 == g1 * s;
    var t :| g1 == g2 * t;
    if g1 == 0 || g2 == 0 {
      assert g1 == 0 && g2 == 0;
    } else {
      DividesLe(g1, g2);
      DividesLe(g2, g1);
    }
  }

  lemma GcdBase(a: int)
    requires a >= 0
    ensures IsGcd(a, a, 0)
  {
    DividesSelf(a);
  }

  /** One Euclidean step keeps the common divisors: gcd(a, b) = gcd(b, a mod b). */
  lemma GcdStep(g: int, a: int, b: int)
    requires b > 0 && IsGcd(g, b, a % b)
    ensures IsGcd(g, a, b)
  {
    assert a == b * (a / b) + (a % b);
    DividesLinear(g, b, a % b, a / b, 1);
    forall c | Divides(c, a) && Divides(c, b)
      ensures Divides(c, g)
    {
      DividesLinear(c, a, b, 1, -(a / b));
    }
  }

  /** Subtracting one operand from the other keeps the common divisors. */
  lemma SubtractStep(g: int, a: int, b: int)
    requires IsGcd(g, a - b, b)
    ensures IsGcd(g, a, b)
  {
    DividesLinear(g, a - b, b, 1, 1);
    forall c | Divides(c, a) && Divides(c, b)
      ensures Divides(c, g)
    {
      DividesLinear(c, a, b, 1, -1);
    }
  }

  lemma IsGcdSymmetric(g: int, a: int, b: int)
    requires IsGcd(g, a, b)
    ensures IsGcd(g, b, a)
  {
  }

  /** The greatest common divisor of two non-negative integers by repeated
      subtraction, independent of the division-based routines (characterised
      by `GcdIsGreatest`). */
  function Gcd(a: nat, b: nat): nat
    decreases a + b
  {
    if a == 0 then b
    else if b == 0 then a
    else if a >= b then Gcd(a - b, b)
    else Gcd(a, b - a)
  }

  /** `Gcd` meets the characterisation `IsGcd`. */
  lemma {:induction false} GcdIsGreatest(a: nat, b: nat)
    ensures IsGcd(Gcd(a, b), a, b)
    decreases a + b
  {
    if a == 0 {
      GcdBase(b);
      IsGcdSymmetric(b, b, 0);
    } else if b == 0 {
      GcdBase(a);
    } else if a >= b {
      GcdIsGreatest(a - b, b);
      SubtractStep(Gcd(a - b, b), a, b);
    } else {
      var g := Gcd(a, b - a);
      GcdIsGreatest(a, b - a);
      IsGcdSymmetric(g, a, b - a);
      SubtractStep(g, b, a);
      IsGcdSymmetric(g, b, a);
    }
  }

  /** Any value meeting the characterisation is `Gcd`. */
  lemma GcdCharacterised(g: int, a: nat, b: nat)
    requires IsGcd(g, a, b)
    ensures g == Gcd(a, b)
  {
    GcdIsGreatest(a, b);
    GcdUnique(g, Gcd(a, b), a, b);
  }

  /** The Euclidean step: gcd(a, b) = gcd(b, a mod b). */
  lemma GcdEuclideanStep(a: nat, b: nat)
    requires b > 0
    ensures Gcd(a, b) == Gcd(b, a % b)
  {
    var g := Gcd(b, a % b);
    GcdIsGreatest(b, a % b);
    GcdStep(g, a, b);
    GcdCharacterised(g, a, b);
  }

  lemma SubtractCombination(a: int, b: int, x: int, y: int)
    ensures a * x + b * (y - x) == (a - b) * x + b * y
  {
    assert b * (y - x) == b * y - b * x;
    assert (a - b) * x == a * x - b * x;
  }

  /** Bézout's identity: the gcd is an integer combination of its operands. */
  lemma {:induction false} Bezout(a: nat, b: nat) returns (x: int, y: int)
    ensures a * x + b * y == Gcd(a, b)
    decreases a + b
  {
    if a == 0 {
      x, y := 0, 1;
    } else if b == 0 {
      x, y := 1, 0;
    } else if a >= b {
      var x', y' := Bezout(a - b, b);
      x, y := x', y' - x';
      SubtractCombination(a, b, x', y');
    } else {
      var x', y' := Bezout(a, b - a);
      x, y := x' - y', y';
      SubtractCombination(b, a, y', x');
    }
  }

  lemma GcdSymmetric(a: nat, b: nat)
    ensures Gcd(a, b) == Gcd(b, a)
  {
    GcdIsGreatest(b, a);
    GcdCharacterised(Gcd(b, a), a, b);
  }

  lemma GcdSelf(a: nat)
    ensures Gcd(a, a) == a
  {
    DividesSelf(a);
    GcdCharacterised(a, a, a);
  }

  /** Subtracting the smaller operand keeps the gcd. */
  lemma GcdSubtract(a: nat, b: nat)
    requires a >= b
    ensures Gcd(a, b) == Gcd(a - b, b)
  {
    var g := Gcd(a - b, b);
    GcdIsGreatest(a - b, b);
    DividesLinear(g, a - b, b, 1, 1);
    forall c | Divides(c, a) && Divides(c, b)
      ensures Divides(c, g)
    {
      DividesLinear(c, a, b, 1, -1);
    }
    GcdCharacterised(g, a, b);
  }

  lemma DividesDouble(d: int, x: int)
    requires Divides(d, x)
    ensures Divides(d, 2 * x)
  {
    var k :| x == d * k;
    assert 2 * x == d * (2 * k);
  }

  /** For odd `b`, `a` is the combination `a b - 2 a (b / 2)`. */
  lemma OddCombination(a: int, b: nat)
    requires Odd(b)
    ensures b * a + (2 * a) * (-(b / 2)) == a
  {
    var t := b / 2;
    assert b == 2 * t + 1;
    calc {
      b * a + (2 * a) * (-t);
      (2 * t + 1) * a - (2 * a) * t;
      { MulAssociative(2, a, t); MulAssociative(2, t, a); }
      a;
    }
  }

  /** A factor of two that the other operand lacks does not contribute to the gcd. */
  lemma GcdDoubleOdd(a: nat, b: nat)
    requires Odd(b)
    ensures Gcd(2 * a, b) == Gcd(a, b)
  {
    var g := Gcd(a, b);
    GcdIsGreatest(a, b);
    DividesDouble(g, a);
    forall c | Divides(c, 2 * a) && Divides(c, b)
      ensures Divides(c, g)
    {
      OddCombination(a, b);
      DividesLinear(c, b, 2 * a, a, -(b / 2));
    }
    GcdCharacterised(g, 2 * a, b);
  }

  /** Any power of two that the other operand lacks does not contribute to the gcd. */
  lemma {:induction false} GcdPow2Odd(a: nat, b: nat, j: nat, x: nat)
    requires Odd(b) && x == Pow(2, j) * a
    ensures Gcd(x, b) == Gcd(a, b)
  {
    if j > 0 {
      var h: nat := Pow(2, j - 1) * a;
      GcdPow2Odd(a, b, j - 1, h);
      assert x == 2 * h by {
        MulAssociative(2, Pow(2, j - 1), a);
      }
      GcdDoubleOdd(h, b);
    }
  }

  lemma DividesScale(d: int, x: int, c: int)
    requires Divides(d, x)
    ensures Divides(c * d, c * x)
  {
    var k :| x == d * k;
    assert c * x == (c * d) * k;
  }

  lemma ScaleCombination(c: int, a: int, b: int, x: int, y: int)
    ensures c * (a * x + b * y) == (c * a) * x + (c * b) * y
  {
  }

  lemma ScaledIsGcd(g: int, a: int, b: int, c: int, x: int, y: int)
    requires IsGcd(g, a, b) && a * x + b * y == g && c >= 0
    ensures IsGcd(c * g, c * a, c * b)
  {
    DividesScale(g, a, c);
    DividesScale(g, b, c);
    ScaleCombination(c, a, b, x, y);
    forall d | Divides(d, c * a) && Divides(d, c * b)
      ensures Divides(d, c * g)
    {
      DividesLinear(d, c * a, c * b, x, y);
    }
  }

  /** A common factor scales the gcd: gcd(c a, c b) = c gcd(a, b). */
  lemma GcdScale(a: nat, b: nat, c: nat, ca: nat, cb: nat)
    requires ca == c * a && cb == c * b
    ensures Gcd(ca, cb) == c * Gcd(a, b)
  {
    var x, y := Bezout(a, b);
    GcdIsGreatest(a, b);
    ScaledIsGcd(Gcd(a, b), a, b, c, x, y);
    GcdCharacterised(c * Gcd(a, b), ca, cb);
  }
}
