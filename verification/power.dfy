/**
 Exponentiation by squaring over an arbitrary associative operation:
 `power_accumulate_semigroup` and `power_semigroup` of main.cpp (the versions
 taking the operation `op` as a parameter).
 */
module Power {
  import opened Arithmetic

  ghost predicate Associative<A(!new)>(op: (A, A) -> A)
  {
    forall x, y, z :: op(op(x, y), z) == op(x, op(y, z))
  }

  /** `a` combined with itself `n` times under `op`: a op a op ... op a. */
  function OpPow<A>(a: A, n: nat, op: (A, A) -> A): A
    requires n >= 1
  {
    if n == 1 then a else op(a, OpPow(a, n - 1, op))
  }

  lemma {:induction false} OpPowAdd<A(!new)>(a: A, i: nat, j: nat, op: (A, A) -> A)
    requires Associative(op) && i >= 1 && j >= 1
    ensures OpPow(a, i + j, op) == op(OpPow(a, i, op), OpPow(a, j, op))
  {
    if i > 1 {
      OpPowAdd(a, i - 1, j, op);
      calc {
        OpPow(a, i + j, op);
        op(a, OpPow(a, i - 1 + j, op));
        op(a, op(OpPow(a, i - 1, op), OpPow(a, j, op)));
        op(op(a, OpPow(a, i - 1, op)), OpPow(a, j, op));
      }
    }
  }

  /** Squaring the base halves the exponent: (a op a)^m = a^(2m). */
  lemma {:induction false} OpPowSquare<A(!new)>(a: A, m: nat, op: (A, A) -> A)
    requires Associative(op) && m >= 1
    ensures OpPow(op(a, a), m, op) == OpPow(a, 2 * m, op)
  {
    if m > 1 {
      OpPowSquare(a, m - 1, op);
      OpPowAdd(a, 2, 2 * m - 2, op);
      assert OpPow(a, 2, op) == op(a, a);
    }
  }

  /** An odd exponent above one: one factor moves into the accumulator and the
      rest is the squared base to half the exponent. */
  lemma OddStep<A(!new)>(acc: A, base: A, e: nat, op: (A, A) -> A)
    requires Associative(op) && e > 1 && Odd(e)
    ensures op(acc, OpPow(base, e, op)) == op(op(acc, base), OpPow(op(base, base), Half(e), op))
  {
    OpPowSquare(base, Half(e), op);
    assert OpPow(base, e, op) == op(base, OpPow(op(base, base), Half(e), op));
  }

  /** An even exponent: the squared base to half the exponent. */
  lemma EvenStep<A(!new)>(base: A, e: nat, op: (A, A) -> A)
    requires Associative(op) && e >= 1 && !Odd(e)
    ensures OpPow(base, e, op) == OpPow(op(base, base), Half(e), op)
  {
    OpPowSquare(base, Half(e), op);
  }

  /** `power_accumulate_semigroup(r, a, n, op)`: `r` combined with `a` `n` times. */
  method PowerAccumulateSemigroup<A(!new)>(r: A, a: A, n: nat, op: (A, A) -> A) returns (res: A)
    requires Associative(op)
    ensures res == if n == 0 then r else op(r, OpPow(a, n, op))
  {
    if n == 0 {
      return r;
    }
    ghost var target := op(r, OpPow(a, n, op));
    var acc, base, e := r, a, n;
    while true
      invariant e >= 1
      invariant op(acc, OpPow(base, e, op)) == target
      decreases e
    {
      if Odd(e) {
        if e == 1 {
          return op(acc, base);
        }
        OddStep(acc, base, e, op);
        acc := op(acc, base);
      } else {
        EvenStep(base, e, op);
      }
      e := Half(e);
      base := op(base, base);
    }
  }

  /** `power_semigroup(a, n, op)`: `a` combined with itself `n` times, for `n > 0`. */
  method PowerSemigroup<A(!new)>(a: A, n: nat, op: (A, A) -> A) returns (res: A)
    requires Associative(op) && n > 0
    ensures res == OpPow(a, n, op)
  {
    var base, e := a, n;
    while !Odd(e)
      invariant e >= 1
      invariant OpPow(base, e, op) == OpPow(a, n, op)
      decreases e
    {
      EvenStep(base, e, op);
      base := op(base, base);
      e := Half(e);
    }
    if e == 1 {
      return base;
    }
    OddSplit(base, e, op);
    res := PowerAccumulateSemigroup(base, op(base, base), Half(e - 1), op);
  }

  /** An odd exponent above one is one factor and the squared base to half the rest. */
  lemma OddSplit<A(!new)>(base: A, e: nat, op: (A, A) -> A)
    requires Associative(op) && e > 1 && Odd(e)
    ensures Half(e - 1) >= 1
    ensures OpPow(base, e, op) == op(base, OpPow(op(base, base), Half(e - 1), op))
  {
    var d: nat := e - 1;
    var h := Half(d);
    assert d == 2 * h;
    OpPowSquare(base, h, op);
    assert OpPow(base, e, op) == op(base, OpPow(base, d, op));
  }
}
