/**
 Where the constants of SHA-256 come from: the first 32 bits of the fractional parts of
 the square roots of the first eight primes and of the cube roots of the first 64.
 */
module Sha256Constants {
  import opened Sha256Digest
  import opened Sha256Bits

  // The first primes.

  ghost predicate IsPrime(n: nat) {
    n >= 2 && forall a: nat, b: nat :: a * b == n ==> a == 1 || b == 1
  }

  /** The first 64 primes, eight in a row. */
  function PrimeRow(r: nat): (row: seq<nat>)
    ensures |row| == 8
  {
    if r == 0 then [2, 3, 5, 7, 11, 13, 17, 19]
    else if r == 1 then [23, 29, 31, 37, 41, 43, 47, 53]
    else if r == 2 then [59, 61, 67, 71, 73, 79, 83, 89]
    else if r == 3 then [97, 101, 103, 107, 109, 113, 127, 131]
    else if r == 4 then [137, 139, 149, 151, 157, 163, 167, 173]
    else if r == 5 then [179, 181, 191, 193, 197, 199, 211, 223]
    else if r == 6 then [227, 229, 233, 239, 241, 251, 257, 263]
    else [269, 271, 277, 281, 283, 293, 307, 311]
  }

  /** Where the numbers of row `r` start. */
  function RowStart(r: nat): nat {
    if r == 0 then 0 else if r == 1 then 23 else if r == 2 then 59 else if r == 3 then 97 else if r == 4 then 137
    else if r == 5 then 179 else if r == 6 then 227 else if r == 7 then 269 else 312
  }

  predicate Passes(n: nat, p: nat)
    requires p > 0
  {
    n == p || n % p != 0
  }

  /** What is left when the multiples of the primes to 17 are struck out. */
  predicate Sieved(n: nat) {
    && n >= 2 && Passes(n, 2) && Passes(n, 3) && Passes(n, 5) && Passes(n, 7)
    && Passes(n, 11) && Passes(n, 13) && Passes(n, 17)
  }

  lemma MultipleFails(n: nat, p: nat)
    requires n >= 2 && p >= 2 && !Passes(n, p)
    ensures !IsPrime(n)
  {
    var q := n / p;
    assert p * q == n;
    assert q != 1 && p != 1;
  }

  lemma MultipleOf(p: nat, m: nat)
    requires p >= 2 && m >= 2
    ensures (p * m) % p == 0 && p * m != p
  {
    DivideOnce(p * m, p, m, 0);
    assert p * m >= p * 2;
  }

  lemma StruckBy(a: nat, b: nat, p: nat, q: nat)
    requires a == p * q && p >= 2 && q >= 1 && b >= 2
    ensures !Passes(a * b, p)
  {
    assert a * b == p * (q * b);
    assert q * b >= 2;
    MultipleOf(p, q * b);
  }

  /** A product of two numbers, the smaller at most 17. */
  lemma ProductIsStruck(a: nat, b: nat)
    requires 2 <= a <= 17 && a <= b
    ensures !Sieved(a * b)
  {
    if a % 2 == 0 { StruckBy(a, b, 2, a / 2); }
    if a % 3 == 0 { StruckBy(a, b, 3, a / 3); }
    if a % 5 == 0 { StruckBy(a, b, 5, a / 5); }
    if a % 7 == 0 { StruckBy(a, b, 7, a / 7); }
    if a == 11 || a == 13 || a == 17 { StruckBy(a, b, a, 1); }
  }

  lemma SmallerFactor(a: nat, b: nat)
    requires a * b < 324 && a >= 18
    ensures b < 18
  {
    assert b >= 18 ==> a * b >= 18 * 18;
  }

  /** Below 18 squared, what is left are the primes. */
  lemma SievedIsPrime(n: nat)
    requires n < 324
    ensures Sieved(n) <==> IsPrime(n)
  {
    if Sieved(n) {
      forall a: nat, b: nat | a * b == n ensures a == 1 || b == 1 {
        if a >= 2 && b >= 2 {
          if a >= 18 { SmallerFactor(a, b); }
          if a <= b { ProductIsStruck(a, b); } else { ProductIsStruck(b, a); }
        }
      }
    } else if n >= 2 {
      var p :| p in [2, 3, 5, 7, 11, 13, 17] && !Passes(n, p);
      MultipleFails(n, p);
    }
  }

  lemma Sieved0(n: nat)
    requires 0 <= n <= 22
    ensures Sieved(n) <==> n == 2 || n == 3 || n == 5 || n == 7 || n == 11 || n == 13 || n == 17 || n == 19
  {
  }

  lemma Sieved23(n: nat)
    requires 23 <= n <= 40
    ensures Sieved(n) <==> n == 23 || n == 29 || n == 31 || n == 37
  {
  }

  lemma Sieved41(n: nat)
    requires 41 <= n <= 58
    ensures Sieved(n) <==> n == 41 || n == 43 || n == 47 || n == 53
  {
  }

  lemma Sieved59(n: nat)
    requires 59 <= n <= 77
    ensures Sieved(n) <==> n == 59 || n == 61 || n == 67 || n == 71 || n == 73
  {
  }

  lemma Sieved78(n: nat)
    requires 78 <= n <= 96
    ensures Sieved(n) <==> n == 79 || n == 83 || n == 89
  {
  }

  lemma Sieved97(n: nat)
    requires 97 <= n <= 116
    ensures Sieved(n) <==> n == 97 || n == 101 || n == 103 || n == 107 || n == 109 || n == 113
  {
  }

  lemma Sieved117(n: nat)
    requires 117 <= n <= 136
    ensures Sieved(n) <==> n == 127 || n == 131
  {
  }

  lemma Sieved137(n: nat)
    requires 137 <= n <= 157
    ensures Sieved(n) <==> n == 137 || n == 139 || n == 149 || n == 151 || n == 157
  {
  }

  lemma Sieved158(n: nat)
    requires 158 <= n <= 178
    ensures Sieved(n) <==> n == 163 || n == 167 || n == 173
  {
  }

  lemma Sieved179(n: nat)
    requires 179 <= n <= 202
    ensures Sieved(n) <==> n == 179 || n == 181 || n == 191 || n == 193 || n == 197 || n == 199
  {
  }

  lemma Sieved203(n: nat)
    requires 203 <= n <= 226
    ensures Sieved(n) <==> n == 211 || n == 223
  {
  }

  lemma Sieved227(n: nat)
    requires 227 <= n <= 247
    ensures Sieved(n) <==> n == 227 || n == 229 || n == 233 || n == 239 || n == 241
  {
  }

  lemma Sieved248(n: nat)
    requires 248 <= n <= 268
    ensures Sieved(n) <==> n == 251 || n == 257 || n == 263
  {
  }

  lemma Sieved269(n: nat)
    requires 269 <= n <= 290
    ensures Sieved(n) <==> n == 269 || n == 271 || n == 277 || n == 281 || n == 283
  {
  }

  lemma Sieved291(n: nat)
    requires 291 <= n <= 311
    ensures Sieved(n) <==> n == 293 || n == 307 || n == 311
  {
  }

  lemma SievedRow0(n: nat)
    requires 0 <= n < 23
    ensures Sieved(n) <==> n in PrimeRow(0)
  {
    if 0 <= n <= 22 { Sieved0(n); }
  }

  lemma SievedRow1(n: nat)
    requires 23 <= n < 59
    ensures Sieved(n) <==> n in PrimeRow(1)
  {
    if 23 <= n <= 40 { Sieved23(n); }
    if 41 <= n <= 58 { Sieved41(n); }
  }

  lemma SievedRow2(n: nat)
    requires 59 <= n < 97
    ensures Sieved(n) <==> n in PrimeRow(2)
  {
    if 59 <= n <= 77 { Sieved59(n); }
    if 78 <= n <= 96 { Sieved78(n); }
  }

  lemma SievedRow3(n: nat)
    requires 97 <= n < 137
    ensures Sieved(n) <==> n in PrimeRow(3)
  {
    if 97 <= n <= 116 { Sieved97(n); }
    if 117 <= n <= 136 { Sieved117(n); }
  }

  lemma SievedRow4(n: nat)
    requires 137 <= n < 179
    ensures Sieved(n) <==> n in PrimeRow(4)
  {
    if 137 <= n <= 157 { Sieved137(n); }
    if 158 <= n <= 178 { Sieved158(n); }
  }

  lemma SievedRow5(n: nat)
    requires 179 <= n < 227
    ensures Sieved(n) <==> n in PrimeRow(5)
  {
    if 179 <= n <= 202 { Sieved179(n); }
    if 203 <= n <= 226 { Sieved203(n); }
  }

  lemma SievedRow6(n: nat)
    requires 227 <= n < 269
    ensures Sieved(n) <==> n in PrimeRow(6)
  {
    if 227 <= n <= 247 { Sieved227(n); }
    if 248 <= n <= 268 { Sieved248(n); }
  }

  lemma SievedRow7(n: nat)
    requires 269 <= n < 312
    ensures Sieved(n) <==> n in PrimeRow(7)
  {
    if 269 <= n <= 290 { Sieved269(n); }
    if 291 <= n <= 311 { Sieved291(n); }
  }

  /** Row by row, exactly the primes. */
  lemma RowIsPrimes(r: nat, n: nat)
    requires r < 8 && RowStart(r) <= n < RowStart(r + 1)
    ensures n in PrimeRow(r) <==> IsPrime(n)
  {
    SievedIsPrime(n);
    if r == 0 { SievedRow0(n); }
    if r == 1 { SievedRow1(n); }
    if r == 2 { SievedRow2(n); }
    if r == 3 { SievedRow3(n); }
    if r == 4 { SievedRow4(n); }
    if r == 5 { SievedRow5(n); }
    if r == 6 { SievedRow6(n); }
    if r == 7 { SievedRow7(n); }
  }

  /** Each row is in order and within its bounds, so the rows together are the first 64. */
  lemma RowsAscend(r: nat, i: nat)
    requires r < 8 && i < 8
    ensures RowStart(r) <= PrimeRow(r)[i] < RowStart(r + 1) && (i < 7 ==> PrimeRow(r)[i] < PrimeRow(r)[i + 1])
  {
  }

  // Roots, in units of 2^-32.

  /** `h` is the first 32 bits of the fraction of the square root of `p`, and `whole` its whole part. */
  predicate SquareRootBits(p: nat, h: Word, whole: nat) {
    var x := whole * WORD32 + h;
    x * x <= p * WORD64 < (x + 1) * (x + 1)
  }

  /** And of the cube root. */
  predicate CubeRootBits(p: nat, k: Word, whole: nat) {
    var x := whole * WORD32 + k;
    x * x * x <= p * (WORD32 * WORD64) < (x + 1) * (x + 1) * (x + 1)
  }

  /** Section 5.3.3: the initial hash value. */
  lemma InitialWords()
    ensures SquareRootBits(2, H0.a, 1) && SquareRootBits(3, H0.b, 1) && SquareRootBits(5, H0.c, 2)
    ensures SquareRootBits(7, H0.d, 2) && SquareRootBits(11, H0.e, 3) && SquareRootBits(13, H0.f, 3)
    ensures SquareRootBits(17, H0.g, 4) && SquareRootBits(19, H0.h, 4)
  {
  }

  /** The whole part of the cube root of a prime up to 311. */
  function WholeCubeRoot(p: nat): nat {
    if p < 8 then 1 else if p < 27 then 2 else if p < 64 then 3 else if p < 125 then 4 else if p < 216 then 5 else 6
  }

  predicate IsRoot(r: nat, i: nat)
    requires i < 8
  {
    CubeRootBits(PrimeRow(r)[i], ConstantRow(r)[i], WholeCubeRoot(PrimeRow(r)[i]))
  }

  lemma Roots0()
    ensures IsRoot(0, 0) && IsRoot(0, 1) && IsRoot(0, 2) && IsRoot(0, 3)
    ensures IsRoot(0, 4) && IsRoot(0, 5) && IsRoot(0, 6) && IsRoot(0, 7)
  {
  }

  lemma Roots1()
    ensures IsRoot(1, 0) && IsRoot(1, 1) && IsRoot(1, 2) && IsRoot(1, 3)
    ensures IsRoot(1, 4) && IsRoot(1, 5) && IsRoot(1, 6) && IsRoot(1, 7)
  {
  }

  lemma Roots2()
    ensures IsRoot(2, 0) && IsRoot(2, 1) && IsRoot(2, 2) && IsRoot(2, 3)
    ensures IsRoot(2, 4) && IsRoot(2, 5) && IsRoot(2, 6) && IsRoot(2, 7)
  {
  }

  lemma Roots3()
    ensures IsRoot(3, 0) && IsRoot(3, 1) && IsRoot(3, 2) && IsRoot(3, 3)
    ensures IsRoot(3, 4) && IsRoot(3, 5) && IsRoot(3, 6) && IsRoot(3, 7)
  {
  }

  lemma Roots4()
    ensures IsRoot(4, 0) && IsRoot(4, 1) && IsRoot(4, 2) && IsRoot(4, 3)
    ensures IsRoot(4, 4) && IsRoot(4, 5) && IsRoot(4, 6) && IsRoot(4, 7)
  {
  }

  lemma Roots5()
    ensures IsRoot(5, 0) && IsRoot(5, 1) && IsRoot(5, 2) && IsRoot(5, 3)
    ensures IsRoot(5, 4) && IsRoot(5, 5) && IsRoot(5, 6) && IsRoot(5, 7)
  {
  }

  lemma Roots6()
    ensures IsRoot(6, 0) && IsRoot(6, 1) && IsRoot(6, 2) && IsRoot(6, 3)
    ensures IsRoot(6, 4) && IsRoot(6, 5) && IsRoot(6, 6) && IsRoot(6, 7)
  {
  }

  lemma Roots7()
    ensures IsRoot(7, 0) && IsRoot(7, 1) && IsRoot(7, 2) && IsRoot(7, 3)
    ensures IsRoot(7, 4) && IsRoot(7, 5) && IsRoot(7, 6) && IsRoot(7, 7)
  {
  }

  lemma RowOfRoots(r: nat, i: nat)
    requires r < 8 && i < 8
    ensures IsRoot(r, i)
  {
    if r == 0 { Roots0(); }
    if r == 1 { Roots1(); }
    if r == 2 { Roots2(); }
    if r == 3 { Roots3(); }
    if r == 4 { Roots4(); }
    if r == 5 { Roots5(); }
    if r == 6 { Roots6(); }
    if r == 7 { Roots7(); }
  }

  /** Section 4.2.2: the round constants. */
  lemma RoundConstants(t: nat)
    requires t < 64
    ensures var p := PrimeRow(t / 8)[t % 8]; CubeRootBits(p, SHA256_K[t], WholeCubeRoot(p))
  {
    RowOfRoots(t / 8, t % 8);
  }
}
