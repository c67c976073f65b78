/** Where the words of SHA-256 come from: sections 4.2.2 and 5.3.3 of FIPS 180-4. */
module Sha256Constants {
  import Arithmetic
  import opened Hashing
  import opened Sha256

  /** the first 64 primes */
  const PRIMES: seq<seq<nat>> := [
    [2, 3, 5, 7, 11, 13, 17, 19],
    [23, 29, 31, 37, 41, 43, 47, 53],
    [59, 61, 67, 71, 73, 79, 83, 89],
    [97, 101, 103, 107, 109, 113, 127, 131],
    [137, 139, 149, 151, 157, 163, 167, 173],
    [179, 181, 191, 193, 197, 199, 211, 223],
    [227, 229, 233, 239, 241, 251, 257, 263],
    [269, 271, 277, 281, 283, 293, 307, 311]]

  function Prime(t: nat): nat
    requires t < 64
  {
    PRIMES[t / 8][t % 8]
  }

  // ----- they are primes, in increasing order -----

  ghost predicate IsPrime(n: nat) { n >= 2 && forall d :: 2 <= d < n ==> n % d != 0 }

  /** n is no proper multiple of a prime below 18 */
  predicate Sieved(n: nat) {
    && 2 <= n < 324
    && (n == 2 || n % 2 != 0) && (n == 3 || n % 3 != 0) && (n == 5 || n % 5 != 0) && (n == 7 || n % 7 != 0)
    && (n == 11 || n % 11 != 0) && (n == 13 || n % 13 != 0) && (n == 17 || n % 17 != 0)
  }

  lemma SievedIsPrime(n: nat)
    requires Sieved(n)
    ensures IsPrime(n)
  {
    forall d | 2 <= d < n ensures n % d != 0 {
      if n % d == 0 {
        Factored(n, d);
      }
    }
  }

  lemma Factored(n: nat, d: nat)
    requires 2 <= d < n < 324 && n % d == 0
    ensures !Sieved(n)
  {
    hide Sieved;
    var q := n / d;
    assert n == d * q;
    Cofactor(n, d, q);
    if d < 18 {
      SmallDivisor(n, d, q);
    } else {
      SmallDivisor(n, q, d);
    }
  }

  lemma Cofactor(n: nat, d: nat, q: nat)
    requires n == d * q && 2 <= d < n < 324
    ensures 2 <= q < n && (d >= 18 ==> q < 18)
  {
  }

  /** a prime divisor */
  lemma PrimeDivisor(d: nat) returns (e: nat, k: nat)
    requires 2 <= d < 18
    ensures d == k * e && e in {2, 3, 5, 7, 11, 13, 17}
  {
    e := if d % 2 == 0 then 2 else if d % 3 == 0 then 3 else if d % 5 == 0 then 5 else d;
    k := d / e;
  }

  lemma Multiplied(n: nat, e: nat, k: nat, q: nat)
    requires n == k * e * q
    ensures n == k * q * e
  {
  }

  lemma SmallDivisor(n: nat, d: nat, q: nat)
    requires n == d * q && 2 <= d < 18 && d < n
    ensures !Sieved(n)
  {
    var e, k := PrimeDivisor(d);
    Multiplied(n, e, k, q);
    Arithmetic.Remainder(n, e, k * q, 0);
  }

  ghost predicate RowRight(i: nat)
    requires i < 8
  {
    && (forall j :: 0 <= j < 8 ==> Sieved(PRIMES[i][j]))
    && (forall j :: 0 <= j < 7 ==> PRIMES[i][j] < PRIMES[i][j + 1])
    && (i < 7 ==> PRIMES[i][7] < PRIMES[i + 1][0])
  }

  lemma Row0()
    ensures RowRight(0)
  {
  }

  lemma Row1()
    ensures RowRight(1)
  {
  }

  lemma Row2()
    ensures RowRight(2)
  {
  }

  lemma Row3()
    ensures RowRight(3)
  {
  }

  lemma Row4()
    ensures RowRight(4)
  {
  }

  lemma Row5()
    ensures RowRight(5)
  {
  }

  lemma Row6()
    ensures RowRight(6)
  {
  }

  lemma Row7()
    ensures RowRight(7)
  {
  }

  lemma RowsRight(i: nat)
    requires i < 8
    ensures RowRight(i)
  {
    hide RowRight;
    Row0();
    Row1();
    Row2();
    Row3();
    Row4();
    Row5();
    Row6();
    Row7();
  }

  lemma NextPrime(t: nat)
    requires t < 63
    ensures Prime(t) < Prime(t + 1)
  {
    hide Sieved, PRIMES;
    RowsRight(t / 8);
    assert t % 8 < 7 ==> (t + 1) / 8 == t / 8 && (t + 1) % 8 == t % 8 + 1;
  }

  /** They are primes, in increasing order. */
  lemma {:induction false} PrimesListed(t: nat, u: nat)
    requires t <= u < 64
    ensures IsPrime(Prime(u)) && (t < u ==> Prime(t) < Prime(u))
    decreases u
  {
    hide IsPrime, Sieved, PRIMES, Prime;
    SievedPrime(u);
    SievedIsPrime(Prime(u));
    if t < u {
      NextPrime(u - 1);
      PrimesListed(t, u - 1);
    }
  }

  lemma SievedPrime(t: nat)
    requires t < 64
    ensures Sieved(Prime(t))
  {
    hide Sieved, PRIMES;
    RowsRight(t / 8);
  }

  // ----- the words -----

  /** x is the cube root of p with 32 bits after the point, cut off there */
  predicate CubeRoot(p: nat, x: nat) {
    x * x * x <= p * 0x1_0000_0000_0000_0000_0000_0000 < (x + 1) * (x + 1) * (x + 1)
  }

  /** the same for the square root */
  predicate SquareRoot(p: nat, x: nat) { x * x <= p * 0x1_0000_0000_0000_0000 < (x + 1) * (x + 1) }

  /** w is what stands after the point in x. */
  predicate Fraction(x: nat, w: Word) { x % 0x1_0000_0000 == w as nat }

  ghost predicate CubeRootAt(i: nat, j: nat, x: nat)
    requires i < 8 && j < 8
  {
    CubeRoot(PRIMES[i][j], x) && Fraction(x, K[i][j])
  }

  ghost predicate CubeRoots(i: nat, x: seq<nat>)
    requires i < 8 && |x| == 8
  {
    && CubeRootAt(i, 0, x[0]) && CubeRootAt(i, 1, x[1]) && CubeRootAt(i, 2, x[2]) && CubeRootAt(i, 3, x[3])
    && CubeRootAt(i, 4, x[4]) && CubeRootAt(i, 5, x[5]) && CubeRootAt(i, 6, x[6]) && CubeRootAt(i, 7, x[7])
  }

  lemma CubeRoots0()
    ensures CubeRoots(0, [
      0x1_428a2f98, 0x1_71374491, 0x1_b5c0fbcf, 0x1_e9b5dba5, 0x2_3956c25b, 0x2_59f111f1, 0x2_923f82a4, 0x2_ab1c5ed5])
  {
  }

  lemma CubeRoots1()
    ensures CubeRoots(1, [
      0x2_d807aa98, 0x3_12835b01, 0x3_243185be, 0x3_550c7dc3, 0x3_72be5d74, 0x3_80deb1fe, 0x3_9bdc06a7, 0x3_c19bf174])
  {
  }

  lemma CubeRoots2()
    ensures CubeRoots(2, [
      0x3_e49b69c1, 0x3_efbe4786, 0x4_0fc19dc6, 0x4_240ca1cc, 0x4_2de92c6f, 0x4_4a7484aa, 0x4_5cb0a9dc, 0x4_76f988da])
  {
  }

  lemma CubeRoots3()
    ensures CubeRoots(3, [
      0x4_983e5152, 0x4_a831c66d, 0x4_b00327c8, 0x4_bf597fc7, 0x4_c6e00bf3, 0x4_d5a79147, 0x5_06ca6351, 0x5_14292967])
  {
  }

  lemma CubeRoots4()
    ensures CubeRoots(4, [
      0x5_27b70a85, 0x5_2e1b2138, 0x5_4d2c6dfc, 0x5_53380d13, 0x5_650a7354, 0x5_766a0abb, 0x5_81c2c92e, 0x5_92722c85])
  {
  }

  lemma CubeRoots5()
    ensures CubeRoots(5, [
      0x5_a2bfe8a1, 0x5_a81a664b, 0x5_c24b8b70, 0x5_c76c51a3, 0x5_d192e819, 0x5_d6990624, 0x5_f40e3585, 0x6_106aa070])
  {
  }

  lemma CubeRoots6()
    ensures CubeRoots(6, [
      0x6_19a4c116, 0x6_1e376c08, 0x6_2748774c, 0x6_34b0bcb5, 0x6_391c0cb3, 0x6_4ed8aa4a, 0x6_5b9cca4f, 0x6_682e6ff3])
  {
  }

  lemma CubeRoots7()
    ensures CubeRoots(7, [
      0x6_748f82ee, 0x6_78a5636f, 0x6_84c87814, 0x6_8cc70208, 0x6_90befffa, 0x6_a4506ceb, 0x6_bef9a3f7, 0x6_c67178f2])
  {
  }

  /** RoundConstant(t): the cube root of the t-th prime, from the point on */
  lemma RoundConstants(t: nat) returns (x: nat)
    requires t < 64
    ensures CubeRoot(Prime(t), x) && Fraction(x, RoundConstant(t))
  {
    hide CubeRoot, Fraction;
    CubeRoots0();
    CubeRoots1();
    CubeRoots2();
    CubeRoots3();
    CubeRoots4();
    CubeRoots5();
    CubeRoots6();
    CubeRoots7();
    var roots := [
      [0x1_428a2f98, 0x1_71374491, 0x1_b5c0fbcf, 0x1_e9b5dba5, 0x2_3956c25b, 0x2_59f111f1, 0x2_923f82a4, 0x2_ab1c5ed5],
      [0x2_d807aa98, 0x3_12835b01, 0x3_243185be, 0x3_550c7dc3, 0x3_72be5d74, 0x3_80deb1fe, 0x3_9bdc06a7, 0x3_c19bf174],
      [0x3_e49b69c1, 0x3_efbe4786, 0x4_0fc19dc6, 0x4_240ca1cc, 0x4_2de92c6f, 0x4_4a7484aa, 0x4_5cb0a9dc, 0x4_76f988da],
      [0x4_983e5152, 0x4_a831c66d, 0x4_b00327c8, 0x4_bf597fc7, 0x4_c6e00bf3, 0x4_d5a79147, 0x5_06ca6351, 0x5_14292967],
      [0x5_27b70a85, 0x5_2e1b2138, 0x5_4d2c6dfc, 0x5_53380d13, 0x5_650a7354, 0x5_766a0abb, 0x5_81c2c92e, 0x5_92722c85],
      [0x5_a2bfe8a1, 0x5_a81a664b, 0x5_c24b8b70, 0x5_c76c51a3, 0x5_d192e819, 0x5_d6990624, 0x5_f40e3585, 0x6_106aa070],
      [0x6_19a4c116, 0x6_1e376c08, 0x6_2748774c, 0x6_34b0bcb5, 0x6_391c0cb3, 0x6_4ed8aa4a, 0x6_5b9cca4f, 0x6_682e6ff3],
      [0x6_748f82ee, 0x6_78a5636f, 0x6_84c87814, 0x6_8cc70208, 0x6_90befffa, 0x6_a4506ceb, 0x6_bef9a3f7, 0x6_c67178f2]];
    x := roots[t / 8][t % 8];
    assert CubeRoots(t / 8, roots[t / 8]);
  }

  /** the initial hash value: the square roots of the first eight primes */
  lemma InitialWords(t: nat) returns (x: nat)
    requires t < 8
    ensures SquareRoot(Prime(t), x) && Fraction(x, INITIAL[t])
  {
    x := [0x1_6a09e667, 0x1_bb67ae85, 0x2_3c6ef372, 0x2_a54ff53a, 0x3_510e527f, 0x3_9b05688c, 0x4_1f83d9ab, 0x4_5be0cd19][t];
  }
}
