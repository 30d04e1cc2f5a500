/**
 `factorize` of main.cpp, which divides a factor out of a non-zero integer as
 often as it goes, and the reference definitions it is proved against: the
 multiplicity of the factor and the cofactor left over.
 */
module Factorization {
  import opened Arithmetic

  /** The exponent of the largest power of `b` dividing a non-zero `x`. */
  function Multiplicity(x: int, b: int): nat
    requires x != 0 && b > 1
    decreases Abs(x)
  {
    if x % b == 0 then
      DivisionShrinks(x, b);
      1 + Multiplicity(x / b, b)
    else
      0
  }

  /** What is left of a non-zero `x` after every factor `b` is divided out. */
  function Cofactor(x: int, b: int): (y: int)
    requires x != 0 && b > 1
    ensures x > 0 ==> y > 0
    decreases Abs(x)
  {
    if x % b == 0 then
      DivisionShrinks(x, b);
      Cofactor(x / b, b)
    else
      x
  }

  lemma DivisionShrinks(x: int, b: int)
    requires x != 0 && b > 1 && x % b == 0
    ensures x == b * (x / b)
    ensures x / b != 0 && Abs(x / b) < Abs(x)
  {
    var q := x / b;
    assert x == b * q;
    ScaleGrows(b, q);
  }

  lemma ScaleGrows(b: int, q: int)
    requires b > 1
    ensures q != 0 ==> Abs(q) < Abs(b * q)
  {
    if q > 0 {
      MulAtLeast(q, b);
    } else if q < 0 {
      MulAtLeast(-q, b);
      assert (-q) * b == -(b * q);
    }
  }

  /** The split `x = y b^k` with `y` not divisible by `b` is unique. */
  lemma {:induction false} FactorizationUnique(x: int, b: int, y: int, k: nat)
    requires x != 0 && b > 1
    requires x == y * Pow(b, k) && y % b != 0
    ensures y == Cofactor(x, b) && k == Multiplicity(x, b)
    decreases k
  {
    if k == 0 {
      assert x == y;
    } else {
      var x' := y * Pow(b, k - 1);
      assert x == b * x';
      ModOfMultiple(b, x');
      ModUnique(x, b, x', 0);
      assert x' != 0;
      FactorizationUnique(x', b, y, k - 1);
    }
  }

  /** `x` splits as its cofactor times the multiplicity-th power of `b`, and the
      cofactor is not divisible by `b`. */
  lemma {:induction false} FactorizationOf(x: int, b: int)
    requires x != 0 && b > 1
    ensures x == Cofactor(x, b) * Pow(b, Multiplicity(x, b))
    ensures Cofactor(x, b) % b != 0
    decreases Abs(x)
  {
    if x % b == 0 {
      var x' := x / b;
      DivisionShrinks(x, b);
      FactorizationOf(x', b);
      var y, k := Cofactor(x', b), Multiplicity(x', b);
      assert Cofactor(x, b) == y && Multiplicity(x, b) == k + 1;
      MovePowerFactor(x, x', b, y, k);
    } else {
      assert Cofactor(x, b) == x && Multiplicity(x, b) == 0;
    }
  }

  /** `x = b x'` with `x' = y b^k` gives `x = y b^(k+1)`. */
  lemma MovePowerFactor(x: int, x': int, b: int, y: int, k: nat)
    requires x == b * x' && x' == y * Pow(b, k)
    ensures x == y * Pow(b, k + 1)
  {
    var p := Pow(b, k);
    assert Pow(b, k + 1) == b * p;
    MulAssociative(b, y, p);
    MulAssociative(y, b, p);
  }

  /** `factorize(x, val)`: divides `val` out of a non-zero `x` as often as it goes,
      returning the rest and the count, which are the cofactor and the
      multiplicity: `x = y val^k` with `y` not divisible by `val`. For `x == 0`
      the source loops forever. */
  method Factorize(x: int, val: int) returns (y: int, k: nat)
    requires x != 0 && val > 1
    ensures y == Cofactor(x, val) && k == Multiplicity(x, val)
    ensures x == y * Pow(val, k) && y % val != 0
  {
    y, k := x, 0;
    while y % val == 0
      invariant y != 0
      invariant Cofactor(y, val) == Cofactor(x, val)
      invariant Multiplicity(y, val) + k == Multiplicity(x, val)
      decreases Abs(y)
    {
      DivisionShrinks(y, val);
      y, k := y / val, k + 1;
    }
    FactorizationOf(x, val);
  }
}
