/**
 `modulo_multiply` of main.cpp: multiplication modulo a fixed positive modulus,
 the associative operation that exponentiation by squaring is instantiated
 with. Operands are non-negative, where C++ `%` and Dafny `%` agree.
 */
module Modular {
  import opened Arithmetic
  import opened Power

  /** `modulo_multiply<T>(m)`: the operation `(x, y) -> (x * y) % m`, whose values
      stay below `m`. */
  function ModuloMultiply(m: int): (op: (nat, nat) -> nat)
    requires m > 0
    ensures forall x: nat, y: nat :: op(x, y) < m
  {
    (x: nat, y: nat) => (x * y) % m
  }

  /** `modulo_multiply(m)` yields the residue of the product: it differs from
      `x y` by a multiple of `m`. */
  lemma ModuloMultiplyResidue(m: int, x: nat, y: nat)
    requires m > 0
    ensures (x * y - ModuloMultiply(m)(x, y)) % m == 0
  {
    var p := x * y;
    assert ModuloMultiply(m)(x, y) == p % m;
    assert p - p % m == m * (p / m);
    ModOfMultiple(m, p / m);
  }

  /** Multiplication modulo `m` is associative and stays below `m`, so it is a
      valid operation for `power_semigroup`. */
  lemma ModuloMultiplyAssociative(m: int)
    requires m > 0
    ensures Associative(ModuloMultiply(m))
    ensures forall x: nat, y: nat :: ModuloMultiply(m)(x, y) < m
  {
    var op := ModuloMultiply(m);
    forall x: nat, y: nat, z: nat
      ensures op(op(x, y), z) == op(x, op(y, z))
    {
      ModMulLeft(x * y, z, m);
      ModMulRight(x, y * z, m);
      assert (x * y) * z == x * (y * z);
    }
  }

  /** Repeated multiplication modulo `m` computes the power modulo `m`, except that
      a single factor (`k == 1`) is returned as it is, unreduced. */
  lemma {:induction false} ModuloPower(v: nat, k: nat, m: int)
    requires m > 0 && k >= 1
    ensures k == 1 ==> OpPow(v, k, ModuloMultiply(m)) == v
    ensures k >= 2 || v < m ==> OpPow(v, k, ModuloMultiply(m)) == Pow(v, k) % m
  {
    var op := ModuloMultiply(m);
    if k == 1 {
      assert Pow(v, 1) == v;
      if v < m {
        ModUnique(v, m, 0, v);
      }
    } else {
      ModuloPower(v, k - 1, m);
      var prev := OpPow(v, k - 1, op);
      assert OpPow(v, k, op) == (v * prev) % m;
      if k - 1 == 1 {
        assert prev == v;
        assert Pow(v, k) == v * v;
      } else {
        assert prev == Pow(v, k - 1) % m;
        ModMulRight(v, Pow(v, k - 1), m);
      }
    }
  }
}
