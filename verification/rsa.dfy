/**
 The RSA layer of main.cpp: `crypt`, the exponentiation primitive used for both
 encryption and decryption (RSAEP and RSADP, sections 5.1.1 and 5.1.2 of RFC
 8017), and the deterministic tail of `rsa_key_generation` that turns two primes
 and a public exponent into a keychain.
 */
module Rsa {
  import opened Arithmetic
  import opened NumberTheory
  import opened Power
  import opened Modular
  import opened Euclid

  /** `crypt(val, n, key)`: `val^key mod n`, by squaring under `modulo_multiply(n)`.
      A key of 1 returns `val` unreduced, so the result is reduced when the key
      exceeds 1 or `val` is already below the modulus. */
  method Crypt(val: nat, n: nat, key: nat) returns (r: nat)
    requires n > 0 && key > 0
    ensures key > 1 || val < n ==> r == Pow(val, key) % n
    ensures key == 1 ==> r == val
  {
    ModuloMultiplyAssociative(n);
    r := PowerSemigroup(val, key, ModuloMultiply(n));
    ModuloPower(val, key, n);
  }

  /** `rsa_keychain`: the modulus with the public and private exponents. */
  datatype Keychain = Keychain(n: int, publicKey: int, privateKey: int)

  datatype Option<T> = None | Some(value: T)

  /** The totient `(p1 - 1)(p2 - 1)` of the modulus `p1 p2`: positive, and short of
      the modulus by exactly `p1 + p2 - 1`, so every exponent below it is below
      the modulus too. */
  function Totient(p1: int, p2: int): (phi: nat)
    requires p1 > 1 && p2 > 1
    ensures 1 <= phi && phi + p1 + p2 - 1 == p1 * p2
  {
    MulAtLeast(p1 - 1, p2 - 1);
    assert (p1 - 1) * (p2 - 1) == p1 * p2 - p1 - p2 + 1;
    (p1 - 1) * (p2 - 1)
  }

  /** One attempt of `rsa_key_generation` after the random draws: the keychain
      for primes `p1`, `p2` and public exponent `e`, or `None` when `e` has no
      inverse modulo the totient, in which case the source restarts the attempt. */
  method AssembleKeychain(p1: int, p2: int, e: nat) returns (r: Option<Keychain>)
    requires p1 > 1 && p2 > 1
    requires 0 < e < Totient(p1, p2)
    ensures r.Some? <==> Gcd(e, Totient(p1, p2)) == 1
    ensures r.Some? ==> r.value.n == p1 * p2 && r.value.publicKey == e
    ensures r.Some? ==> 0 < r.value.privateKey < Totient(p1, p2)
    ensures r.Some? ==> (e * r.value.privateKey) % Totient(p1, p2) == 1
  {
    var n := p1 * p2;
    var phi := Totient(p1, p2);
    var d := MultiplicativeInverse(e, phi);
    if d != 0 {
      return Some(Keychain(n, e, d));
    }
    return None;
  }

  /** The textbook instance p1 = 61, p2 = 53, e = 17: 17 is coprime to the totient,
      so `AssembleKeychain` returns a keychain, and the only private exponent it
      can hold is 2753. */
  lemma TextbookPrivateKey(d: int)
    requires 0 < d < Totient(61, 53) && (17 * d) % Totient(61, 53) == 1
    ensures Gcd(17, Totient(61, 53)) == 1
    ensures d == 2753
  {
    assert Totient(61, 53) == 3120;
    assert (17 * 2753) % 3120 == 1;
    InverseImpliesCoprime(17, 3120, 2753);
    InverseUnique(17, 3120, 2753, d);
  }
}
