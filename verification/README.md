# Number-theory core of a textbook RSA tool, in Dafny

This project models the arithmetic at the heart of `main.cpp`, a small
textbook-RSA key generator built on unbounded `cpp_int` integers. It covers:

- the two greatest-common-divisor routines: the Euclidean `gcd` and the binary `stein_gcd`;
- `extended_gcd` and `multiplicative_inverse`, which returns 0 as its "no inverse" sentinel;
- exponentiation by squaring over an arbitrary associative operation
  (`power_accumulate_semigroup` and `power_semigroup`, the versions taking `op`),
  instantiated with `modulo_multiply`;
- `crypt`, the RSA primitive `val^key mod n` (RSAEP/RSADP, sections 5.1.1 and
  5.1.2 of RFC 8017);
- `factorize`, a single Miller-Rabin round `miller_rabin_test` (Appendix C.3.1 of
  FIPS 186-4), and `check_primarity` with its 100 witnesses given as an input
  sequence. `check_primarity` calls the round as written, including the defect
  recorded under "## Findings". A second version with the corrected round sits
  beside it;
- the deterministic tail of `rsa_key_generation`. Given primes `p1` and `p2` and a
  public exponent `e`, it forms `n`, `phi` and the private exponent, and accepts
  only when the inverse exists.

Every routine is proved against a reference statement of what it computes:

- The gcd routines are checked against `NumberTheory.Gcd`. This is gcd by
  repeated subtraction, characterised by `IsGcd`: a common divisor that every
  common divisor divides.
- Exponentiation is checked against `OpPow` (the operation applied `n - 1`
  times) and `Pow`.
- `factorize` is checked against the split `x = y val^k` with `y` not divisible
  by `val`. `Multiplicity` and `Cofactor` are the same division loop written as
  recursion. `FactorizationOf` and `FactorizationUnique` tie them to that
  split in both directions.
- The Miller-Rabin round is checked against `PassesRound`, which states the
  round's outcome directly in terms of powers of the witness.

Module layout:

| module | file | content |
|---|---|---|
| `Arithmetic` | arithmetic.dfy | `Pow`, `odd` and `half`, Euclidean-division facts |
| `NumberTheory` | number_theory.dfy | `Divides`, `IsGcd`, `Gcd`, Bézout, gcd identities |
| `Euclid` | euclid.dfy | `gcd`, `quotient_remainder`, `extended_gcd`, `multiplicative_inverse` |
| `Stein` | stein.dfy | `stein_gcd` |
| `Power` | power.dfy | `power_accumulate_semigroup`, `power_semigroup` |
| `Modular` | modular.dfy | `modulo_multiply` |
| `Factorization` | factorization.dfy | `factorize`, multiplicity and cofactor |
| `MillerRabin` | miller_rabin.dfy | `miller_rabin_test`, `check_primarity` |
| `Rsa` | rsa.dfy | `crypt`, key assembly |

C++ `/` and `%` truncate toward zero, while Dafny's are Euclidean. The two agree
on non-negative operands, so `gcd`, `quotient_remainder`, `extended_gcd`,
`multiplicative_inverse` and `crypt` take `nat` operands. `factorize` takes any
non-zero integer. Its test `x % val == 0` and its exact quotient `x / val`
agree under both conventions, so negative `x` is modelled as the source
computes it.
`even(x)` is `!Odd(x)` throughout. `check_primarity` rejects every even `n`,
including 2, and the model does the same.

## Model

| member | source | states |
|---|---|---|
| Arithmetic.Odd | main.cpp:50-52 | `odd(x)` holds exactly when the lowest binary digit of `x` is 1, that is, when `x` is one more than twice its half |
| Arithmetic.Half | main.cpp:62-68 | `half(x)` is the quotient of `x` by two: `x` is twice it plus the low bit (`odd(x)`), and it is smaller than any positive `x` |
| NumberTheory.GcdIsGreatest | main.cpp:14-22 | the reference gcd is a non-negative common divisor of both operands that every common divisor divides |
| NumberTheory.GcdEuclideanStep | main.cpp:17-20 | replacing `(a, b)` by `(b, a mod b)` for `b > 0` keeps the gcd |
| NumberTheory.Bezout | main.cpp:30-45 | the gcd of two non-negative integers is an integer combination `a x + b y` of them |
| NumberTheory.GcdDoubleOdd | main.cpp:184 | a factor of two in one operand does not change the gcd when the other operand is odd |
| NumberTheory.GcdScale | main.cpp:189 | a common factor multiplies out of the gcd: gcd(c a, c b) = c gcd(a, b) |
| Euclid.EuclidGcd | main.cpp:14-22 | `gcd(a, b)` terminates on non-negative operands and returns their greatest common divisor |
| Euclid.QuotientRemainder | main.cpp:24-28 | the pair is the quotient and remainder of Euclidean division: `a = q b + r` with `r < b` |
| Euclid.ExtendedGcd | main.cpp:30-45 | returns `g = gcd(a, b)` and a coefficient `x` with `a x + b y = g` for some `y`; for `b > 0` the coefficient is bounded by `abs(x) g <= b` |
| Euclid.MultiplicativeInverse | main.cpp:236-242 | for `n > 1` the sentinel 0 is returned exactly when `gcd(a, n) != 1`; otherwise the result `d` lies in `(0, n)` and `a d mod n = 1` |
| Euclid.InverseImpliesCoprime | main.cpp:239 | if `a d mod n = 1` for some `d` and `n > 1`, then `a` is coprime to `n`, so returning the sentinel for a non-coprime `a` loses no inverse |
| Euclid.InverseUnique | main.cpp:236-242 | two inverses of `a` modulo `n` within `[0, n)` are equal, so the returned inverse is the only one |
| Stein.StripTwos | main.cpp:173-177 | the stripping loop on a positive `x` leaves the odd cofactor of `x` and counts the multiplicity of two in it: `x = rest 2^twos` with `rest` odd |
| Stein.SubtractHalve | main.cpp:182-184 | for odd `m > n`, `half(m - n)` is positive, smaller than `m`, and has the same gcd with `n` |
| Stein.OddGcd | main.cpp:179-187 | on two odd operands the subtract loop terminates with both values equal to their gcd |
| Stein.SteinRecombine | main.cpp:189 | with `m = m1 2^dm` and `n = n1 2^dn` for odd `m1` and `n1`, `gcd(m, n) = 2^min(dm, dn) gcd(m1, n1)` |
| Stein.SteinGcd | main.cpp:164-190 | `stein_gcd(m, n)` returns the greatest common divisor of `abs(m)` and `abs(n)` for all integers, the same value `gcd(abs(m), abs(n))` returns; the Euclidean `gcd` does not normalise signs and can return a negative value |
| Power.OpPowSquare | main.cpp:104-107 | for an associative `op`, squaring the base while halving the exponent keeps the power: `(a op a)^m = a^(2m)` |
| Power.PowerAccumulateSemigroup | main.cpp:70-83 | for an associative `op`, the result is `r` for `n = 0`, and otherwise `r` combined with `a` applied `n` times |
| Power.PowerSemigroup | main.cpp:100-111 | for an associative `op` and `n > 0`, the result is `a` combined with itself `n` times |
| Modular.ModuloMultiply | main.cpp:132-134 | `modulo_multiply(m)` maps every pair of non-negative operands to a value below `m` |
| Modular.ModuloMultiplyResidue | main.cpp:132-134 | the value of `modulo_multiply(m)` differs from the product `x y` by a multiple of `m`, so it is the residue of the product |
| Modular.ModuloMultiplyAssociative | main.cpp:126-135 | multiplication modulo `m > 0` is associative and its values stay below `m`, so it is a valid `op` for `power_semigroup` |
| Modular.ModuloPower | main.cpp:100-135 | `power_semigroup` under `modulo_multiply(m)` computes `v^k mod m`, except that `k = 1` returns `v` unreduced |
| Rsa.Crypt | main.cpp:312-314 | `crypt(val, n, key)` is `val^key mod n` whenever `key > 1` or `val < n`; a key of 1 returns `val` unchanged |
| Rsa.Totient | main.cpp:277 | `phi = (p1 - 1)(p2 - 1)` is positive and falls short of `n = p1 p2` by exactly `p1 + p2 - 1`, so an exponent below `phi` is below `n` |
| Rsa.Keychain | main.cpp:252-258 | `rsa_keychain`: a record of the modulus and the public and private exponents, with no invariant of its own; `AssembleKeychain` states what its fields hold |
| Rsa.AssembleKeychain | main.cpp:276-284 | a keychain is produced exactly when `gcd(e, phi) = 1`; then it holds `n = p1 p2` and `e`, and a private key `d` in `(0, phi)` with `e d mod phi = 1` |
| Rsa.TextbookPrivateKey | main.cpp:282-284 | for `p1 = 61`, `p2 = 53` and `e = 17`, the public exponent is coprime to `phi = 3120`, so the assembly returns a keychain, and the only private key it can hold is 2753 |
| Factorization.Factorize | main.cpp:137-143 | for `x != 0` and `val > 1`, the loop terminates and returns the cofactor of `x` (what is left after dividing out every factor `val`) and the multiplicity of `val` in `x`: `x = y val^k` with `y` not divisible by `val` |
| Factorization.FactorizationOf | main.cpp:137-143 | the cofactor and multiplicity split `x` as `x = y b^k` with `y` not divisible by `b` |
| Factorization.FactorizationUnique | main.cpp:137-143 | conversely, any split `x = y b^k` with `y` not divisible by `b` is the cofactor and the multiplicity, so the pair `factorize` returns is the only one possible |
| MillerRabin.RejectOnOne | main.cpp:158 | once a squaring reaches 1 before any reached `n - 1`, no later squaring reaches `n - 1`, so the early `false` is the round's final answer |
| MillerRabin.SquareAndCompare | main.cpp:151-160 | the squaring loop accepts exactly when the start value is 1 or `n - 1`, or one of its first `k - 1` squarings modulo `n` is `n - 1` |
| MillerRabin.SquaringsArePowers | main.cpp:154 | the loop invariant: after `i` squarings of `w^q mod n` the value is `w^(2^i q) mod n` |
| MillerRabin.AcceptsPowerIffPasses | main.cpp:150-160 | the squaring loop started from `w^q mod n` accepts exactly when the witness passes the round |
| MillerRabin.MillerRabinTestAsWritten | main.cpp:145-161 | for `q > 1` or `w < n` the round as written accepts exactly when the witness passes the round; for `q = 1` it is the squaring loop started from the unreduced `w` |
| MillerRabin.AsWrittenRejectsPrimeFive | main.cpp:150 | for the prime 5 = 2^2 1 + 1 and witness 6, the intended round passes but the as-written round rejects |
| MillerRabin.MillerRabinTest | main.cpp:145-161 | with the first value reduced modulo `n`, the round accepts exactly when `w^q mod n` is 1 or `n - 1`, or `w^(2^j q) mod n = n - 1` for some `1 <= j < k` |
| MillerRabin.PassingRoundIsFermat | main.cpp:145-161 | for `n - 1 = 2^k q` with `k >= 1`, a witness that passes the round satisfies Fermat's condition `w^(n-1) mod n = 1` |
| MillerRabin.AsWrittenRoundIsStricter | main.cpp:145-161 | a witness the round as written accepts also passes the intended round, so the defect only ever rejects |
| MillerRabin.CheckPrimarity | main.cpp:206-220 | an even `n` is rejected; an odd `n` is accepted exactly when every witness passes the round as written for `n - 1 = 2^k q` as split by `factorize`; every accepted witness is a Fermat witness |
| MillerRabin.CheckPrimarityIntended | main.cpp:206-220 | the same loop over the corrected round: an odd `n` is accepted exactly when every witness passes the intended round, and then every witness is a Fermat witness |
| MillerRabin.NinePassesWitnessEight | main.cpp:206-220 | the composite 9 passes both the round as written and the intended round for the witness 8, so `check_primarity` accepts 9 when every witness drawn is 8: passing is no proof of primality |
| MillerRabin.CheckRejectsPrimeFive | main.cpp:215 | for the prime 5 the witness 6 passes the intended round but not the round as written, so `check_primarity` rejects 5 whenever 6 is drawn |

## Left out

- Randomness. The following are outside the model: `bit_generator`, the draws in `random_coprime`, the retry loop of `probable_prime`, and the outer `while (true)` of `rsa_key_generation`. These are external nondeterministic sources with no termination bound. The witnesses and the key-generation inputs become parameters. An attempt whose private key is 0 becomes `None`, where the source draws again.
- Probabilistic error bounds for 100 rounds. They are not deterministic properties.
- Full primality correctness. Neither direction is proved.
  - "A prime passes every round" needs Fermat's little theorem and the square roots of 1 modulo a prime. It can only hold for the intended round, because the round as written rejects the prime 5 (see "## Findings").
  - "A number passing every round is prime" is false. 9 passes the round for the witness 8 = n - 1 (`NinePassesWitnessEight`).
  - What is proved is weaker: `PassingRoundIsFermat` shows that a witness passing the round satisfies Fermat's condition `w^(n-1) mod n = 1`.
- The RSA round trip `crypt(crypt(m, n, e), n, d) = m`. It needs Fermat's little theorem and the Chinese remainder theorem.
- `save`. It is file I/O.
- `main` and the commented-out `encrypt`. They are the entry point and dead code.
- `rsa_keychain::block_power_of_2` and `triple`. Neither is used by the core.
- The operator-`*` overloads of `power_accumulate_semigroup` and `power_semigroup`. They are the `op` versions instantiated with multiplication.
- Euclid.EuclidGcd: operands are restricted to non-negative values. There C++ truncating `%` and Dafny's Euclidean `%` agree.
- Euclid.ExtendedGcd: operands are restricted to non-negative values, for the same reason.
- Euclid.MultiplicativeInverse: operands are restricted to non-negative values, for the same reason.
- Stein.SteinGcd: the shift counts `d_m` and `d_n` are 32-bit `int` in the source but unbounded here. Overflowing them would take an operand with at least 2^31 trailing zero bits.
- Factorization.Factorize: `x = 0` is excluded. The source loops forever on it.
- MillerRabin.CheckPrimarity: `n = 1` is excluded. The source then calls `factorize(0, 2)`, which loops forever.
- MillerRabin.CheckPrimarity: the witnesses are the values `random_coprime` would return, and that function is not modelled. It can return `number + 1`, which is not necessarily coprime to `n`.
- Rsa.Crypt: `val` is restricted to non-negative values, which are the only values RSA encrypts.

## Findings

| source | as written | input that shows it | evidently intended | confidence | as-written member | corrected member |
|---|---|---|---|---|---|---|
| main.cpp:150 | the first value of the round is `power_semigroup(w, q, mmult)`, which returns `w` itself, unreduced, when `q = 1` | `miller_rabin_test(5, 1, 2, 6)`: 5 is prime and `6 mod 5 = 1`, yet 6 is neither 1 nor 4, and squaring it gives 1, so the round returns false, and `check_primarity(5, …)` returns false whenever 6 is drawn as a witness | `x = w^q mod n`, as in Appendix C.3.1 of FIPS 186-4 | not executed | MillerRabin.MillerRabinTestAsWritten, MillerRabin.AsWrittenRejectsPrimeFive, MillerRabin.CheckPrimarity, MillerRabin.CheckRejectsPrimeFive | MillerRabin.MillerRabinTest, MillerRabin.CheckPrimarityIntended |
