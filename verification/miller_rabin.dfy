/**
 The Miller-Rabin round of main.cpp (one witness, as in Appendix C.3.1 of
 FIPS 186-4) and `check_primarity`, which splits `n - 1` into `2^k q` with
 `factorize` and runs one round per witness. The witnesses are an
 input sequence: drawing them is left to the caller.
 */
module MillerRabin {
  import opened Arithmetic
  import opened Power
  import opened Modular
  import opened Factorization

  // ---------------------------------------------------------------------------
  // The squaring loop of miller_rabin_test

  /** The value of `x` after `i` squarings modulo `n`, starting from `x0`. */
  ghost function Squarings(x0: int, n: int, i: nat): int
    requires n > 0
  {
    if i == 0 then x0 else (Squarings(x0, n, i - 1) * Squarings(x0, n, i - 1)) % n
  }

  /** Some squaring `j` with `1 <= j < k` of `x0` is `n - 1`. */
  ghost predicate ReachesMinusOne(x0: int, n: int, k: nat)
    requires n > 0
  {
    exists j :: 1 <= j < k && Squarings(x0, n, j) == n - 1
  }

  /** The round accepts the starting value `x0`: it is 1 or `n - 1`, or one of its
      first `k - 1` squarings is `n - 1`. */
  ghost predicate Accepts(x0: int, n: int, k: nat)
    requires n > 0
  {
    x0 == 1 || x0 == n - 1 || ReachesMinusOne(x0, n, k)
  }

  /** Once a squaring reaches 1 it stays at 1. */
  lemma {:induction false} SquaringsStayOne(x0: int, n: int, i: nat, j: nat)
    requires n > 1 && i <= j && Squarings(x0, n, i) == 1
    ensures Squarings(x0, n, j) == 1
    decreases j - i
  {
    if i < j {
      SquaringsStayOne(x0, n, i, j - 1);
      ModUnique(1, n, 0, 1);
    }
  }

  /** Reaching 1 before `n - 1` means `n - 1` is never reached. */
  lemma RejectOnOne(x0: int, n: int, i: nat, k: nat)
    requires n > 2 && 1 <= i && Squarings(x0, n, i) == 1
    requires forall j :: 1 <= j < i ==> Squarings(x0, n, j) != n - 1
    ensures !ReachesMinusOne(x0, n, k)
  {
    forall j | i <= j < k
      ensures Squarings(x0, n, j) != n - 1
    {
      SquaringsStayOne(x0, n, i, j);
    }
  }

  /** main.cpp:151-160, the loop of `miller_rabin_test`: accept on 1 or `n - 1`, otherwise square
      up to `k - 1` times, accepting on `n - 1` and rejecting early on 1. */
  method SquareAndCompare(n: int, x0: nat, k: nat) returns (b: bool)
    requires n > 1
    ensures b <==> Accepts(x0, n, k)
  {
    var mmult := ModuloMultiply(n);
    if x0 == 1 || x0 == n - 1 {
      return true;
    }
    var x: nat := x0;
    var i := 1;
    while i < k
      invariant 1 <= i
      invariant x == Squarings(x0, n, i - 1)
      invariant forall j :: 1 <= j < i ==> Squarings(x0, n, j) != n - 1
      decreases k - i
    {
      // x is the (i - 1)-th squaring of x0; started from w^q mod n this is the
      // source's w^(2^(i-1) q) mod n (SquaringsArePowers)
      assert mmult(x, x) == Squarings(x0, n, i);
      x := mmult(x, x);
      if x == n - 1 {
        return true;
      }
      if x == 1 {
        RejectOnOne(x0, n, i, k);
        return false;
      }
      i := i + 1;
    }
    return false;
  }

  // ---------------------------------------------------------------------------
  // miller_rabin_test

  /** The intended outcome of a Miller-Rabin round for `n - 1 = 2^k q` and witness
      `w`: `w^q mod n` is 1 or `n - 1`, or `w^(2^j q) mod n` is `n - 1` for some
      `1 <= j < k`. */
  ghost predicate PassesRound(n: int, q: nat, k: nat, w: nat)
    requires n > 1
  {
    var x := Pow(w, q) % n;
    || x == 1
    || x == n - 1
    || exists j :: 1 <= j < k && Pow(w, Pow(2, j) * q) % n == n - 1
  }

  /** The loop invariant of main.cpp: after `i` squarings `x` is `w^(2^i q) mod n`. */
  lemma {:induction false} SquaringsArePowers(n: int, q: nat, w: nat, i: nat)
    requires n > 1
    ensures Squarings(Pow(w, q) % n, n, i) == Pow(w, Pow(2, i) * q) % n
  {
    if i > 0 {
      SquaringsArePowers(n, q, w, i - 1);
      var e := Pow(2, i - 1) * q;
      var p := Pow(w, e);
      assert Pow(2, i) * q == e + e by {
        MulAssociative(2, Pow(2, i - 1), q);
      }
      PowAdd(w, e, e);
      calc {
        Squarings(Pow(w, q) % n, n, i);
        ((p % n) * (p % n)) % n;
        { ModMulLeft(p, p % n, n); }
        (p * (p % n)) % n;
        { ModMulRight(p, p, n); }
        (p * p) % n;
        Pow(w, e + e) % n;
      }
    }
  }

  lemma AcceptsPowerIffPasses(n: int, q: nat, k: nat, w: nat)
    requires n > 1
    ensures Accepts(Pow(w, q) % n, n, k) <==> PassesRound(n, q, k, w)
  {
    forall j: nat
      ensures Squarings(Pow(w, q) % n, n, j) == Pow(w, Pow(2, j) * q) % n
    {
      SquaringsArePowers(n, q, w, j);
    }
  }

  /** `miller_rabin_test(n, q, k, w)` as written: the first value is
      `power_semigroup(w, q, mmult)`, which for `q == 1` is `w` itself, not
      reduced modulo `n`. */
  method MillerRabinTestAsWritten(n: int, q: nat, k: nat, w: nat) returns (b: bool)
    requires n > 1 && q > 0
    ensures q > 1 || w < n ==> (b <==> PassesRound(n, q, k, w))
    ensures q == 1 ==> (b <==> Accepts(w, n, k))
  {
    var mmult := ModuloMultiply(n);
    ModuloMultiplyAssociative(n);
    var x := PowerSemigroup(w, q, mmult);
    ModuloPower(w, q, n);
    b := SquareAndCompare(n, x, k);
    AcceptsPowerIffPasses(n, q, k, w);
  }

  /** Why the as-written round is wrong: 5 is prime and `5 - 1 = 2^2 * 1`, and
      the witness 6 (which is 1 modulo 5) passes the intended round, yet the
      as-written round compares the unreduced 6 and then rejects on reaching 1. */
  lemma AsWrittenRejectsPrimeFive()
    ensures 5 - 1 == Pow(2, 2) * 1
    ensures forall d :: 1 < d < 5 ==> 5 % d != 0
    ensures PassesRound(5, 1, 2, 6)
    ensures !Accepts(6, 5, 2)
  {
    assert Pow(6, 1) % 5 == 1;
    assert Squarings(6, 5, 1) == 1;
  }

  /** Reducing the start value modulo `n` changes none of its squarings. */
  lemma {:induction false} SquaringsReduce(x0: int, n: int, j: nat)
    requires n > 0 && j >= 1
    ensures Squarings(x0 % n, n, j) == Squarings(x0, n, j)
  {
    if j == 1 {
      ModMulLeft(x0, x0 % n, n);
      ModMulRight(x0, x0, n);
    } else {
      SquaringsReduce(x0, n, j - 1);
    }
  }

  /** The outcome of the round as written: for `q == 1` the squaring loop starts
      from the unreduced `w`, otherwise it is the intended outcome. */
  ghost predicate PassesRoundAsWritten(n: int, q: nat, k: nat, w: nat)
    requires n > 1
  {
    if q == 1 then Accepts(w, n, k) else PassesRound(n, q, k, w)
  }

  /** The defect only ever rejects: a witness the as-written round accepts also
      passes the intended round (the converse fails, `AsWrittenRejectsPrimeFive`). */
  lemma AsWrittenRoundIsStricter(n: int, q: nat, k: nat, w: nat)
    requires n > 1
    ensures PassesRoundAsWritten(n, q, k, w) ==> PassesRound(n, q, k, w)
  {
    if q == 1 && Accepts(w, n, k) {
      assert Pow(w, 1) == w;
      if w == 1 || w == n - 1 {
        ModUnique(w, n, 0, w);
      } else {
        var j :| 1 <= j < k && Squarings(w, n, j) == n - 1;
        SquaringsReduce(w, n, j);
        SquaringsArePowers(n, 1, w, j);
        assert Pow(w, Pow(2, j) * 1) % n == n - 1;
      }
    }
  }

  /** `miller_rabin_test(n, q, k, w)` with the first value reduced modulo `n`,
      as Appendix C.3.1 of FIPS 186-4 computes it: the result is exactly the
      intended round outcome. */
  method MillerRabinTest(n: int, q: nat, k: nat, w: nat) returns (b: bool)
    requires n > 1 && q > 0
    ensures b <==> PassesRound(n, q, k, w)
  {
    var mmult := ModuloMultiply(n);
    ModuloMultiplyAssociative(n);
    var x := PowerSemigroup(w, q, mmult);
    ModuloPower(w, q, n);
    if q == 1 {
      x := x % n;
    }
    b := SquareAndCompare(n, x, k);
    AcceptsPowerIffPasses(n, q, k, w);
  }

  /** `n - 1` squares to 1 modulo `n`. */
  lemma MinusOneSquared(n: int)
    requires n > 1
    ensures ((n - 1) * (n - 1)) % n == 1
  {
    assert (n - 1) * (n - 1) == n * (n - 2) + 1;
    ModUnique((n - 1) * (n - 1), n, n - 2, 1);
  }

  /** Reaching `n - 1` within the first `k` squarings forces the `k`-th to be 1. */
  lemma MinusOneThenOne(x0: int, n: int, j: nat, k: nat)
    requires n > 1 && j < k && Squarings(x0, n, j) == n - 1
    ensures Squarings(x0, n, k) == 1
  {
    MinusOneSquared(n);
    assert Squarings(x0, n, j + 1) == 1;
    SquaringsStayOne(x0, n, j + 1, k);
  }

  /** A witness passing the round is a Fermat witness too: `w^(n-1) = 1 mod n`. */
  lemma PassingRoundIsFermat(n: int, q: nat, k: nat, w: nat)
    requires n > 1 && k >= 1 && n - 1 == Pow(2, k) * q
    requires PassesRound(n, q, k, w)
    ensures Pow(w, n - 1) % n == 1
  {
    var x0 := Pow(w, q) % n;
    SquaringsArePowers(n, q, w, k);
    assert Squarings(x0, n, k) == Pow(w, n - 1) % n;
    if x0 == 1 {
      ModUnique(1, n, 0, 1);
      SquaringsStayOne(x0, n, 0, k);
    } else if x0 == n - 1 {
      MinusOneThenOne(x0, n, 0, k);
    } else {
      var j :| 1 <= j < k && Pow(w, Pow(2, j) * q) % n == n - 1;
      SquaringsArePowers(n, q, w, j);
      MinusOneThenOne(x0, n, j, k);
    }
  }

  // ---------------------------------------------------------------------------
  // check_primarity

  /** The number of Miller-Rabin rounds `check_primarity` runs. */
  const WitnessCount: nat := 100

  /** `n` passes the intended round for witness `w`, with `n - 1 = 2^k q` split
      by `factorize`. */
  ghost predicate StrongProbablePrime(n: int, w: nat)
    requires n > 1
  {
    PassesRound(n, Cofactor(n - 1, 2), Multiplicity(n - 1, 2), w)
  }

  /** `n` passes the round as written for witness `w`. */
  ghost predicate ProbablePrimeAsWritten(n: int, w: nat)
    requires n > 1
  {
    PassesRoundAsWritten(n, Cofactor(n - 1, 2), Multiplicity(n - 1, 2), w)
  }

  /** `check_primarity(n, rand)` over the witnesses it draws, calling the round as
      written: an even `n` is rejected, an odd one must pass a round for every
      witness. Every accepted witness is still a Fermat witness. */
  method CheckPrimarity(n: nat, witnesses: seq<nat>) returns (b: bool)
    requires n != 1 && |witnesses| == WitnessCount
    ensures b <==> Odd(n) && forall i :: 0 <= i < |witnesses| ==> ProbablePrimeAsWritten(n, witnesses[i])
    ensures b ==> forall i :: 0 <= i < |witnesses| ==> Pow(witnesses[i], n - 1) % n == 1
  {
    if !Odd(n) {
      return false;
    }
    var q, k := Factorize(n - 1, 2);
    FactorizationOf(n - 1, 2);
    assert k >= 1;
    var i := 0;
    while i < WitnessCount
      invariant 0 <= i <= WitnessCount
      invariant forall j :: 0 <= j < i ==> ProbablePrimeAsWritten(n, witnesses[j])
    {
      var passed := MillerRabinTestAsWritten(n, q, k, witnesses[i]);
      if !passed {
        return false;
      }
      i := i + 1;
    }
    forall j | 0 <= j < |witnesses|
      ensures Pow(witnesses[j], n - 1) % n == 1
    {
      AsWrittenRoundIsStricter(n, q, k, witnesses[j]);
      PassingRoundIsFermat(n, q, k, witnesses[j]);
    }
    return true;
  }

  /** `check_primarity` with the corrected round: an odd `n` is accepted exactly
      when every witness passes the intended round. */
  method CheckPrimarityIntended(n: nat, witnesses: seq<nat>) returns (b: bool)
    requires n != 1 && |witnesses| == WitnessCount
    ensures b <==> Odd(n) && forall i :: 0 <= i < |witnesses| ==> StrongProbablePrime(n, witnesses[i])
    ensures b ==> forall i :: 0 <= i < |witnesses| ==> Pow(witnesses[i], n - 1) % n == 1
  {
    if !Odd(n) {
      return false;
    }
    var q, k := Factorize(n - 1, 2);
    FactorizationOf(n - 1, 2);
    assert k >= 1;
    var i := 0;
    while i < WitnessCount
      invariant 0 <= i <= WitnessCount
      invariant forall j :: 0 <= j < i ==> StrongProbablePrime(n, witnesses[j])
    {
      var passed := MillerRabinTest(n, q, k, witnesses[i]);
      if !passed {
        return false;
      }
      i := i + 1;
    }
    forall j | 0 <= j < |witnesses|
      ensures Pow(witnesses[j], n - 1) % n == 1
    {
      PassingRoundIsFermat(n, q, k, witnesses[j]);
    }
    return true;
  }

  /** The defect reaches `check_primarity`: for the prime 5 the witness 6 passes
      the intended round but fails the round as written, so `CheckPrimarity`
      rejects 5 whenever 6 is among its witnesses. */
  lemma CheckRejectsPrimeFive()
    ensures StrongProbablePrime(5, 6)
    ensures !ProbablePrimeAsWritten(5, 6)
  {
    assert Cofactor(4, 2) == 1 && Multiplicity(4, 2) == 2;
    AsWrittenRejectsPrimeFive();
  }

  /** Passing every round does not make `n` prime: the composite 9 = 3 * 3 passes
      both the round as written and the intended round for the witness 8 = 9 - 1,
      so `CheckPrimarity` accepts 9 when every witness drawn is 8. */
  lemma NinePassesWitnessEight()
    ensures 9 == 3 * 3
    ensures StrongProbablePrime(9, 8) && ProbablePrimeAsWritten(9, 8)
  {
    assert Cofactor(8, 2) == 1 && Multiplicity(8, 2) == 3;
    assert Pow(8, 1) % 9 == 8;
  }
}
