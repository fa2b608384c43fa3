/**
 Where the constants of SHA-256 come from: the fractional parts of the square roots of the first eight
 primes and of the cube roots of the first sixty-four (sections 5.3.3 and 4.2.2 of FIPS 180-4).
 */
module Sha256Roots {
  import opened Sha256Standard
  import opened Sha256Words
  import Pixels

  const PRIMES: seq<nat> :=
    [2, 3, 5, 7, 11, 13, 17, 19] +
    [23, 29, 31, 37, 41, 43, 47, 53] +
    [59, 61, 67, 71, 73, 79, 83, 89] +
    [97, 101, 103, 107, 109, 113, 127, 131] +
    [137, 139, 149, 151, 157, 163, 167, 173] +
    [179, 181, 191, 193, 197, 199, 211, 223] +
    [227, 229, 233, 239, 241, 251, 257, 263] +
    [269, 271, 277, 281, 283, 293, 307, 311]

  /** The roots with thirty-two binary places. */
  const SQUARE_ROOTS: seq<nat> := [
    0x1_6a09e667, 0x1_bb67ae85, 0x2_3c6ef372, 0x2_a54ff53a, 0x3_510e527f, 0x3_9b05688c, 0x4_1f83d9ab, 0x4_5be0cd19]

  const CUBE_ROOTS: seq<nat> :=
    [0x1_428a2f98, 0x1_71374491, 0x1_b5c0fbcf, 0x1_e9b5dba5, 0x2_3956c25b, 0x2_59f111f1, 0x2_923f82a4, 0x2_ab1c5ed5] +
    [0x2_d807aa98, 0x3_12835b01, 0x3_243185be, 0x3_550c7dc3, 0x3_72be5d74, 0x3_80deb1fe, 0x3_9bdc06a7, 0x3_c19bf174] +
    [0x3_e49b69c1, 0x3_efbe4786, 0x4_0fc19dc6, 0x4_240ca1cc, 0x4_2de92c6f, 0x4_4a7484aa, 0x4_5cb0a9dc, 0x4_76f988da] +
    [0x4_983e5152, 0x4_a831c66d, 0x4_b00327c8, 0x4_bf597fc7, 0x4_c6e00bf3, 0x4_d5a79147, 0x5_06ca6351, 0x5_14292967] +
    [0x5_27b70a85, 0x5_2e1b2138, 0x5_4d2c6dfc, 0x5_53380d13, 0x5_650a7354, 0x5_766a0abb, 0x5_81c2c92e, 0x5_92722c85] +
    [0x5_a2bfe8a1, 0x5_a81a664b, 0x5_c24b8b70, 0x5_c76c51a3, 0x5_d192e819, 0x5_d6990624, 0x5_f40e3585, 0x6_106aa070] +
    [0x6_19a4c116, 0x6_1e376c08, 0x6_2748774c, 0x6_34b0bcb5, 0x6_391c0cb3, 0x6_4ed8aa4a, 0x6_5b9cca4f, 0x6_682e6ff3] +
    [0x6_748f82ee, 0x6_78a5636f, 0x6_84c87814, 0x6_8cc70208, 0x6_90befffa, 0x6_a4506ceb, 0x6_bef9a3f7, 0x6_c67178f2]

  const BINARY_PLACES := 0x1_0000_0000

  /** The largest number with thirty-two binary places whose square, or cube, does not exceed another. */
  predicate IsSquareRoot(c: nat, p: nat) {
    var one := BINARY_PLACES * BINARY_PLACES;
    c * c <= p * one < (c + 1) * (c + 1)
  }

  predicate IsCubeRoot(c: nat, p: nat) {
    var one := BINARY_PLACES * BINARY_PLACES * BINARY_PLACES;
    c * c * c <= p * one < (c + 1) * (c + 1) * (c + 1)
  }

  predicate IsFraction(w: Word, c: nat) { w as nat == c % BINARY_PLACES }


  predicate FromCubeRoot(i: nat)
    requires i < 64
  {
    IsCubeRoot(CUBE_ROOTS[i], PRIMES[i]) && IsFraction(ROUND_CONSTANTS[i], CUBE_ROOTS[i])
  }

  // ------------------------------------------------------------------------ the primes

  predicate Prime(n: nat) { n > 1 && forall d | 2 <= d < n :: n % d != 0 }

  /** No prime up to seventeen divides the number. */
  predicate Survives(n: nat) {
    n % 2 != 0 && n % 3 != 0 && n % 5 != 0 && n % 7 != 0 && n % 11 != 0 && n % 13 != 0 && n % 17 != 0
  }

  lemma Multiple(n: nat, e: nat, k: nat)
    requires e > 0 && n == e * k
    ensures n % e == 0
  {
    Pixels.QuotientUnique(n, k, 0, e);
  }

  lemma SmallDivisor(n: nat, d: nat)
    requires n < 18 * 18 && 2 <= d < n && n % d == 0
    ensures exists e: nat | 2 <= e < 18 :: n % e == 0
  {
    if d >= 18 {
      var e := n / d;
      assert n == e * d;
      Pixels.MulOrder(18, e, 18);
      Pixels.MulOrder(18, d, e);
      Multiple(n, e, d);
      assert 2 <= e < 18 && n % e == 0;
    }
  }

  lemma DividesNot(n: nat, e: nat)
    requires 2 <= e < 18 && n % e == 0
    ensures !Survives(n)
  {
    var k := n / e;
    if e % 2 == 0 {
      assert n == 2 * (e / 2 * k);
      Multiple(n, 2, e / 2 * k);
    } else if e % 3 == 0 {
      assert n == 3 * (e / 3 * k);
      Multiple(n, 3, e / 3 * k);
    }
  }

  /** Below the square of eighteen the small primes decide. */
  lemma SurvivorsArePrime(n: nat)
    requires 17 < n < 18 * 18
    ensures Prime(n) <==> Survives(n)
  {
    if !Prime(n) {
      var d :| 2 <= d < n && n % d == 0;
      SmallDivisor(n, d);
      var e: nat :| 2 <= e < 18 && n % e == 0;
      DividesNot(n, e);
    }
  }

  // ------------------------------------------------------------------ row by row

  /** The first eight primes, and no prime between them. */
  lemma FirstPrimes(i: nat, n: nat)
    requires i < 8
    ensures Prime(PRIMES[i]) && (i > 0 ==> PRIMES[i - 1] < PRIMES[i])
    ensures (if i == 0 then 1 else PRIMES[i - 1]) < n < PRIMES[i] ==> !Prime(n)
  {
    if i > 0 && PRIMES[i - 1] < n < PRIMES[i] {
      assert n % 2 == 0 || n % 3 == 0;
      assert (2 < n && n % 2 == 0) || (3 < n && n % 3 == 0);
    }
  }

  lemma Survivors0(i: nat)
    requires 8 <= i < 24
    ensures Survives(PRIMES[i]) && 17 < PRIMES[i - 1] < PRIMES[i] < 18 * 18
  {
  }

  lemma Survivors1(i: nat)
    requires 24 <= i < 40
    ensures Survives(PRIMES[i]) && 17 < PRIMES[i - 1] < PRIMES[i] < 18 * 18
  {
  }

  lemma Survivors2(i: nat)
    requires 40 <= i < 52
    ensures Survives(PRIMES[i]) && 17 < PRIMES[i - 1] < PRIMES[i] < 18 * 18
  {
  }

  lemma Survivors3(i: nat)
    requires 52 <= i < 64
    ensures Survives(PRIMES[i]) && 17 < PRIMES[i - 1] < PRIMES[i] < 18 * 18
  {
  }

  /** No two of the primes are further apart than fourteen. */
  lemma OneOf(p: nat, n: nat)
    requires p < n < p + 14
    ensures n == p + 1 || n == p + 2 || n == p + 3 || n == p + 4 || n == p + 5 || n == p + 6 || n == p + 7 ||
            n == p + 8 || n == p + 9 || n == p + 10 || n == p + 11 || n == p + 12 || n == p + 13
  {
  }

  lemma Gaps0(i: nat, n: nat)
    requires 8 <= i < 24 && PRIMES[i - 1] < n < PRIMES[i]
    ensures !Survives(n)
  {
    OneOf(PRIMES[i - 1], n);
  }

  lemma Gaps1(i: nat, n: nat)
    requires 24 <= i < 40 && PRIMES[i - 1] < n < PRIMES[i]
    ensures !Survives(n)
  {
    OneOf(PRIMES[i - 1], n);
  }

  lemma Gaps2(i: nat, n: nat)
    requires 40 <= i < 64 && PRIMES[i - 1] < n < PRIMES[i]
    ensures !Survives(n)
  {
    OneOf(PRIMES[i - 1], n);
  }

  lemma Survivors(i: nat)
    requires 8 <= i < 64
    ensures Survives(PRIMES[i]) && 17 < PRIMES[i - 1] < PRIMES[i] < 18 * 18
  {
    if i < 24 {
      Survivors0(i);
    } else if i < 40 {
      Survivors1(i);
    } else if i < 52 {
      Survivors2(i);
    } else {
      Survivors3(i);
    }
  }

  lemma Gaps(i: nat, n: nat)
    requires 8 <= i < 64 && PRIMES[i - 1] < n < PRIMES[i]
    ensures !Survives(n)
  {
    if i < 24 {
      Gaps0(i, n);
    } else if i < 40 {
      Gaps1(i, n);
    } else {
      Gaps2(i, n);
    }
  }

  /** The table holds the first sixty-four primes: each is prime, larger than the one before, and none is left out. */
  lemma NthPrime(i: nat, n: nat)
    requires i < 64
    ensures Prime(PRIMES[i]) && (i > 0 ==> PRIMES[i - 1] < PRIMES[i])
    ensures (if i == 0 then 1 else PRIMES[i - 1]) < n < PRIMES[i] ==> !Prime(n)
  {
    if i < 8 {
      FirstPrimes(i, n);
    } else {
      Survivors(i);
      SurvivorsArePrime(PRIMES[i]);
      if PRIMES[i - 1] < n < PRIMES[i] {
        SurvivorsArePrime(n);
        Gaps(i, n);
      }
    }
  }

  lemma Roots0(i: nat)
    requires 0 <= i < 8
    ensures FromCubeRoot(i)
  {
  }

  lemma Roots1(i: nat)
    requires 8 <= i < 16
    ensures FromCubeRoot(i)
  {
  }

  lemma Roots2(i: nat)
    requires 16 <= i < 24
    ensures FromCubeRoot(i)
  {
  }

  lemma Roots3(i: nat)
    requires 24 <= i < 32
    ensures FromCubeRoot(i)
  {
  }

  lemma Roots4(i: nat)
    requires 32 <= i < 40
    ensures FromCubeRoot(i)
  {
  }

  lemma Roots5(i: nat)
    requires 40 <= i < 48
    ensures FromCubeRoot(i)
  {
  }

  lemma Roots6(i: nat)
    requires 48 <= i < 56
    ensures FromCubeRoot(i)
  {
  }

  lemma Roots7(i: nat)
    requires 56 <= i < 64
    ensures FromCubeRoot(i)
  {
  }

  /** The round constants (section 4.2.2). */
  lemma RoundConstantsAreRoots(i: nat)
    requires i < 64
    ensures IsCubeRoot(CUBE_ROOTS[i], PRIMES[i]) && IsFraction(ROUND_CONSTANTS[i], CUBE_ROOTS[i])
  {
    if i < 8 {
      Roots0(i);
    } else if i < 16 {
      Roots1(i);
    } else if i < 24 {
      Roots2(i);
    } else if i < 32 {
      Roots3(i);
    } else if i < 40 {
      Roots4(i);
    } else if i < 48 {
      Roots5(i);
    } else if i < 56 {
      Roots6(i);
    } else {
      Roots7(i);
    }
  }

  /** The initial hash value (section 5.3.3). */
  lemma InitialHashIsRoots(i: nat)
    requires i < 8
    ensures IsSquareRoot(SQUARE_ROOTS[i], PRIMES[i]) && IsFraction(INITIAL_HASH[i], SQUARE_ROOTS[i])
  {
  }
}
