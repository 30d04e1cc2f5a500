/**
 Integer facts shared by the number-theory core: exponentiation on
 unbounded integers, Euclidean division facts, and the parity helpers
 `odd`, `even` and `half` of main.cpp on non-negative operands.
 */
module Arithmetic {

  /** `b` raised to the power `e`: the reference for every exponentiation. */
  function Pow(b: int, e: nat): (r: int)
    ensures b > 0 ==> r > 0
  {
    if e == 0 then 1 else b * Pow(b, e - 1)
  }

  function Abs(x: int): nat
  {
    if x < 0 then -x else x
  }

  function Min(a: nat, b: nat): nat
  {
    if a <= b then a else b
  }

  /** `odd(x)` of main.cpp: the lowest bit of a non-negative `x` is set. */
  predicate Odd(x: nat): (r: bool)
    ensures r <==> x == 2 * (x / 2) + 1
  {
    x % 2 == 1
  }

  /** `half(x)` of main.cpp: `x >> 1` for a non-negative `x`. */
  function Half(x: nat): (r: nat)
    ensures x == 2 * r + (if Odd(x) then 1 else 0)
    ensures x > 0 ==> r < x
  {
    x / 2
  }

  lemma {:induction false} PowAdd(b: int, i: nat, j: nat)
    ensures Pow(b, i + j) == Pow(b, i) * Pow(b, j)
  {
    if i > 0 {
      PowAdd(b, i - 1, j);
      var p, q := Pow(b, i - 1), Pow(b, j);
      calc {
        Pow(b, i + j);
        b * Pow(b, i - 1 + j);
        b * (p * q);
        { MulAssociative(b, p, q); }
        (b * p) * q;
      }
    }
  }

  lemma MulAssociative(x: int, y: int, z: int)
    ensures x * (y * z) == (x * y) * z
  {
  }

  /** A positive multiple of a positive number is at least that number. */
  lemma MulAtLeast(m: int, k: int)
    requires m > 0 && k >= 1
    ensures m * k >= m
  {
    assert m * k == m + m * (k - 1);
  }

  /** Euclidean division has a unique quotient and remainder. */
  lemma ModUnique(x: int, m: int, q: int, r: int)
    requires m > 0 && 0 <= r < m && x == m * q + r
    ensures x % m == r && x / m == q
  {
    var q', r' := x / m, x % m;
    assert x == m * q' + r';
    assert m * (q - q') == r' - r by {
      assert m * (q - q') == m * q - m * q';
    }
    if q > q' {
      MulAtLeast(m, q - q');
    } else if q < q' {
      MulAtLeast(m, q' - q);
    }
  }

  lemma ModAddMultiple(r: int, k: int, m: int)
    requires m > 0
    ensures (r + m * k) % m == r % m
  {
    assert r + m * k == m * (r / m + k) + r % m;
    ModUnique(r + m * k, m, r / m + k, r % m);
  }

  lemma SplitProduct(m: int, q: int, r: int, b: int)
    ensures (m * q + r) * b == r * b + m * (q * b)
  {
    MulAssociative(m, q, b);
  }

  lemma ModMulLeft(a: int, b: int, m: int)
    requires m > 0
    ensures ((a % m) * b) % m == (a * b) % m
  {
    var q, r := a / m, a % m;
    assert a == m * q + r;
    SplitProduct(m, q, r, b);
    ModAddMultiple(r * b, q * b, m);
  }

  lemma ModMulRight(a: int, b: int, m: int)
    requires m > 0
    ensures (a * (b % m)) % m == (a * b) % m
  {
    ModMulLeft(b, a, m);
  }

  /** A multiple of `m` leaves no remainder. */
  lemma ModOfMultiple(m: int, k: int)
    requires m > 0
    ensures (m * k) % m == 0
  {
    ModAddMultiple(0, k, m);
  }
}
