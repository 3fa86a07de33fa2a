/**
 The constants of SHA-256: the table of round constants and the initial hash value of os/lib/sha-256.c are the first
 bits of the fractional parts of roots of the first primes (FIPS 180-4, sections 4.2.2 and 5.3.3).
 */
module Sha256Constants {
  import opened Arith

  type word = bv32

  const K0: seq<word> := [0x428a2f98, 0x71374491, 0xb5c0fbcf, 0xe9b5dba5]
  const K1: seq<word> := [0x3956c25b, 0x59f111f1, 0x923f82a4, 0xab1c5ed5]
  const K2: seq<word> := [0xd807aa98, 0x12835b01, 0x243185be, 0x550c7dc3]
  const K3: seq<word> := [0x72be5d74, 0x80deb1fe, 0x9bdc06a7, 0xc19bf174]
  const K4: seq<word> := [0xe49b69c1, 0xefbe4786, 0x0fc19dc6, 0x240ca1cc]
  const K5: seq<word> := [0x2de92c6f, 0x4a7484aa, 0x5cb0a9dc, 0x76f988da]
  const K6: seq<word> := [0x983e5152, 0xa831c66d, 0xb00327c8, 0xbf597fc7]
  const K7: seq<word> := [0xc6e00bf3, 0xd5a79147, 0x06ca6351, 0x14292967]
  const K8: seq<word> := [0x27b70a85, 0x2e1b2138, 0x4d2c6dfc, 0x53380d13]
  const K9: seq<word> := [0x650a7354, 0x766a0abb, 0x81c2c92e, 0x92722c85]
  const K10: seq<word> := [0xa2bfe8a1, 0xa81a664b, 0xc24b8b70, 0xc76c51a3]
  const K11: seq<word> := [0xd192e819, 0xd6990624, 0xf40e3585, 0x106aa070]
  const K12: seq<word> := [0x19a4c116, 0x1e376c08, 0x2748774c, 0x34b0bcb5]
  const K13: seq<word> := [0x391c0cb3, 0x4ed8aa4a, 0x5b9cca4f, 0x682e6ff3]
  const K14: seq<word> := [0x748f82ee, 0x78a5636f, 0x84c87814, 0x8cc70208]
  const K15: seq<word> := [0x90befffa, 0xa4506ceb, 0xbef9a3f7, 0xc67178f2]

  /** Section 4.2.2. */
  const K: seq<word> :=
    K0 + K1 + K2 + K3 + K4 + K5 + K6 + K7 + K8 + K9 + K10 + K11 + K12 + K13 + K14 + K15

  const IV0: seq<word> := [0x6a09e667, 0xbb67ae85, 0x3c6ef372, 0xa54ff53a]
  const IV1: seq<word> := [0x510e527f, 0x9b05688c, 0x1f83d9ab, 0x5be0cd19]

  /** Section 5.3.3. */
  const IV: seq<word> := IV0 + IV1

  const P0: seq<nat> := [2, 3, 5, 7]
  const P1: seq<nat> := [11, 13, 17, 19]
  const P2: seq<nat> := [23, 29, 31, 37]
  const P3: seq<nat> := [41, 43, 47, 53]
  const P4: seq<nat> := [59, 61, 67, 71]
  const P5: seq<nat> := [73, 79, 83, 89]
  const P6: seq<nat> := [97, 101, 103, 107]
  const P7: seq<nat> := [109, 113, 127, 131]
  const P8: seq<nat> := [137, 139, 149, 151]
  const P9: seq<nat> := [157, 163, 167, 173]
  const P10: seq<nat> := [179, 181, 191, 193]
  const P11: seq<nat> := [197, 199, 211, 223]
  const P12: seq<nat> := [227, 229, 233, 239]
  const P13: seq<nat> := [241, 251, 257, 263]
  const P14: seq<nat> := [269, 271, 277, 281]
  const P15: seq<nat> := [283, 293, 307, 311]

  /** The first 64 primes. */
  const PRIMES: seq<nat> :=
    P0 + P1 + P2 + P3 + P4 + P5 + P6 + P7 + P8 + P9 + P10 + P11 + P12 + P13 + P14 + P15

  // -------------------------------------------------------------------- primes

  ghost predicate Prime(n: nat)
  {
    n >= 2 && forall d: nat {:trigger n % d} :: 2 <= d < n ==> n % d != 0
  }

  /** None of the primes below 19 divides n, unless it is n itself. */
  predicate Sieved(n: nat)
  {
    && (n == 2 || n % 2 != 0) && (n == 3 || n % 3 != 0) && (n == 5 || n % 5 != 0) && (n == 7 || n % 7 != 0)
    && (n == 11 || n % 11 != 0) && (n == 13 || n % 13 != 0) && (n == 17 || n % 17 != 0)
  }

  lemma DividesOn(n: nat, e: nat, f: nat)
    requires e > 0 && f > 0 && n % e == 0 && e % f == 0
    ensures n % f == 0
  {
    var q, r := n / e, e / f;
    assert n == e * q && e == f * r;
    Regroup(f, r, q);
    ModUnique(n, f, r * q, 0);
  }

  lemma Regroup(f: nat, r: nat, q: nat)
    ensures (f * r) * q == (r * q) * f
  {
  }

  /** A proper divisor below 19 is not sieved out. */
  lemma SmallDivisor(n: nat, e: nat)
    requires 2 <= e < 19 && e < n && n % e == 0
    ensures !Sieved(n)
  {
    if e % 2 == 0 {
      DividesOn(n, e, 2);
    } else if e % 3 == 0 {
      DividesOn(n, e, 3);
    }
  }

  /** Below 19 * 19 the primes are what is left by the sieve. */
  lemma SieveFindsPrimes(n: nat)
    requires 2 <= n < 361
    ensures Prime(n) <==> Sieved(n)
  {
    if !Sieved(n) {
      assert n % 2 == 0 || n % 3 == 0 || n % 5 == 0 || n % 7 == 0 || n % 11 == 0 || n % 13 == 0 || n % 17 == 0;
    } else {
      forall d: nat {:trigger n % d} | 2 <= d < n
        ensures n % d != 0
      {
        if n % d == 0 {
          OtherDivisor(n, d);
          SmallDivisor(n, if d < 19 then d else n / d);
        }
      }
    }
  }

  lemma OtherDivisor(n: nat, d: nat)
    requires 2 <= d < n < 361 && n % d == 0
    ensures d < 19 || (2 <= n / d < 19 && n / d < n && n % (n / d) == 0)
  {
    var q := n / d;
    assert n == d * q;
    if d >= 19 {
      TooLarge(d, q);
      ModUnique(n, q, d, 0);
    }
  }

  lemma TooLarge(d: nat, q: nat)
    requires 19 <= d && d * q < 361 && d < d * q
    ensures 2 <= q < 19 && q < d * q
  {
    Times(d, q);
  }

  lemma Times(d: nat, q: nat)
    requires 19 <= d
    ensures 19 * q <= d * q
  {
  }

  /** No number from n on and below end is left. */
  predicate NoneFrom(n: nat, end: nat)
    decreases end - n
  {
    n >= end || (!Sieved(n) && NoneFrom(n + 1, end))
  }

  lemma {:induction false} NoneIs(n: nat, end: nat, x: nat)
    requires NoneFrom(n, end) && n <= x < end
    ensures !Sieved(x)
    decreases end - n
  {
    if n < x {
      NoneIs(n + 1, end, x);
    }
  }

  /** These are, in order, the numbers that are left from lo on and below end. */
  ghost predicate Row(p: seq<nat>, lo: nat, end: nat)
  {
    && (forall i: nat, j: nat {:trigger p[i], p[j]} :: i < j < |p| ==> p[i] < p[j])
    && (forall i: nat {:trigger p[i]} :: i < |p| ==> lo <= p[i] < end)
    && (forall n: nat {:trigger Sieved(n)} :: lo <= n < end ==> (Sieved(n) <==> n in p))
  }

  predicate Gap(p: nat, next: nat)
  {
    p < next && Sieved(p) && NoneFrom(p + 1, next)
  }

  lemma FourPrimes(p: seq<nat>, end: nat)
    requires |p| == 4 && Gap(p[0], p[1]) && Gap(p[1], p[2]) && Gap(p[2], p[3]) && Gap(p[3], end)
    ensures Row(p, p[0], end)
  {
    forall n: nat {:trigger Sieved(n)} | p[0] <= n < end
      ensures Sieved(n) <==> n in p
    {
      if n < p[1] {
        InGap(p[0], p[1], n);
      } else if n < p[2] {
        InGap(p[1], p[2], n);
      } else if n < p[3] {
        InGap(p[2], p[3], n);
      } else {
        InGap(p[3], end, n);
      }
    }
  }

  lemma InGap(p: nat, next: nat, n: nat)
    requires Gap(p, next) && p <= n < next
    ensures Sieved(n) <==> n == p
  {
    if n != p {
      NoneIs(p + 1, next, n);
    }
  }

  lemma JoinRows(p: seq<nat>, q: seq<nat>, lo: nat, mid: nat, end: nat)
    requires lo <= mid <= end && Row(p, lo, mid) && Row(q, mid, end)
    ensures Row(p + q, lo, end)
  {
    forall n: nat {:trigger Sieved(n)} | lo <= n < end
      ensures Sieved(n) <==> n in p + q
    {
    }
  }

  lemma Primes0()
    ensures Row(P0, 2, 11)
  {
    assert Gap(2, 3) && Gap(3, 5) && Gap(5, 7) && Gap(7, 11);
    FourPrimes(P0, 11);
  }

  lemma Primes1()
    ensures Row(P1, 11, 23)
  {
    assert Gap(11, 13) && Gap(13, 17) && Gap(17, 19) && Gap(19, 23);
    FourPrimes(P1, 23);
  }

  lemma Primes2()
    ensures Row(P2, 23, 41)
  {
    assert Gap(23, 29) && Gap(29, 31) && Gap(31, 37) && Gap(37, 41);
    FourPrimes(P2, 41);
  }

  lemma Primes3()
    ensures Row(P3, 41, 59)
  {
    assert Gap(41, 43) && Gap(43, 47) && Gap(47, 53) && Gap(53, 59);
    FourPrimes(P3, 59);
  }

  lemma Primes4()
    ensures Row(P4, 59, 73)
  {
    assert Gap(59, 61) && Gap(61, 67) && Gap(67, 71) && Gap(71, 73);
    FourPrimes(P4, 73);
  }

  lemma Primes5()
    ensures Row(P5, 73, 97)
  {
    assert Gap(73, 79) && Gap(79, 83) && Gap(83, 89) && Gap(89, 97);
    FourPrimes(P5, 97);
  }

  lemma Primes6()
    ensures Row(P6, 97, 109)
  {
    assert Gap(97, 101) && Gap(101, 103) && Gap(103, 107) && Gap(107, 109);
    FourPrimes(P6, 109);
  }

  lemma Primes7()
    ensures Row(P7, 109, 137)
  {
    assert Gap(109, 113) && Gap(113, 127) && Gap(127, 131) && Gap(131, 137);
    FourPrimes(P7, 137);
  }

  lemma Primes8()
    ensures Row(P8, 137, 157)
  {
    assert Gap(137, 139) && Gap(139, 149) && Gap(149, 151) && Gap(151, 157);
    FourPrimes(P8, 157);
  }

  lemma Primes9()
    ensures Row(P9, 157, 179)
  {
    assert Gap(157, 163) && Gap(163, 167) && Gap(167, 173) && Gap(173, 179);
    FourPrimes(P9, 179);
  }

  lemma Primes10()
    ensures Row(P10, 179, 197)
  {
    assert Gap(179, 181) && Gap(181, 191) && Gap(191, 193) && Gap(193, 197);
    FourPrimes(P10, 197);
  }

  lemma Primes11()
    ensures Row(P11, 197, 227)
  {
    assert Gap(197, 199) && Gap(199, 211) && Gap(211, 223) && Gap(223, 227);
    FourPrimes(P11, 227);
  }

  lemma Primes12()
    ensures Row(P12, 227, 241)
  {
    assert Gap(227, 229) && Gap(229, 233) && Gap(233, 239) && Gap(239, 241);
    FourPrimes(P12, 241);
  }

  lemma Primes13()
    ensures Row(P13, 241, 269)
  {
    assert Gap(241, 251) && Gap(251, 257) && Gap(257, 263) && Gap(263, 269);
    FourPrimes(P13, 269);
  }

  lemma Primes14()
    ensures Row(P14, 269, 283)
  {
    assert Gap(269, 271) && Gap(271, 277) && Gap(277, 281) && Gap(281, 283);
    FourPrimes(P14, 283);
  }

  lemma Primes15()
    ensures Row(P15, 283, 312)
  {
    assert Gap(283, 293) && Gap(293, 307) && Gap(307, 311) && Gap(311, 312);
    FourPrimes(P15, 312);
  }

  /** The numbers are the first primes, in order. */
  lemma FirstPrimes()
    ensures |PRIMES| == 64
    ensures forall i: nat, j: nat {:trigger PRIMES[i], PRIMES[j]} :: i < j < 64 ==> PRIMES[i] < PRIMES[j]
    ensures forall n: nat {:trigger n in PRIMES} :: n in PRIMES <==> n < 312 && Prime(n)
  {
    Primes0();
    Primes1();
    Primes2();
    Primes3();
    Primes4();
    Primes5();
    Primes6();
    Primes7();
    Primes8();
    Primes9();
    Primes10();
    Primes11();
    Primes12();
    Primes13();
    Primes14();
    Primes15();
    var p := P0;
    JoinRows(p, P1, 2, 11, 23);
    p := p + P1;
    JoinRows(p, P2, 2, 23, 41);
    p := p + P2;
    JoinRows(p, P3, 2, 41, 59);
    p := p + P3;
    JoinRows(p, P4, 2, 59, 73);
    p := p + P4;
    JoinRows(p, P5, 2, 73, 97);
    p := p + P5;
    JoinRows(p, P6, 2, 97, 109);
    p := p + P6;
    JoinRows(p, P7, 2, 109, 137);
    p := p + P7;
    JoinRows(p, P8, 2, 137, 157);
    p := p + P8;
    JoinRows(p, P9, 2, 157, 179);
    p := p + P9;
    JoinRows(p, P10, 2, 179, 197);
    p := p + P10;
    JoinRows(p, P11, 2, 197, 227);
    p := p + P11;
    JoinRows(p, P12, 2, 227, 241);
    p := p + P12;
    JoinRows(p, P13, 2, 241, 269);
    p := p + P13;
    JoinRows(p, P14, 2, 269, 283);
    p := p + P14;
    JoinRows(p, P15, 2, 283, 312);
    p := p + P15;
    forall n: nat {:trigger n in PRIMES}
      ensures n in PRIMES <==> n < 312 && Prime(n)
    {
      PrimeListed(PRIMES, n);
    }
  }

  lemma PrimeListed(p: seq<nat>, n: nat)
    requires Row(p, 2, 312)
    ensures n in p <==> n < 312 && Prime(n)
  {
    if 2 <= n < 312 {
      SieveFindsPrimes(n);
      assert Sieved(n) <==> n in p;
    }
  }

  // --------------------------------------------------------------------- roots

  /** c is the integer part of the cube root of p, and k the first 32 bits of its fraction. */
  ghost predicate CubeRoot(p: nat, c: nat, k: nat)
  {
    var x := 0x1_0000_0000 * c + k;
    && c * c * c <= p < (c + 1) * (c + 1) * (c + 1)
    && x * x * x <= p * 0x1_0000_0000_0000_0000_0000_0000 < (x + 1) * (x + 1) * (x + 1)
  }

  /** The same for the square root. */
  ghost predicate SquareRoot(p: nat, c: nat, k: nat)
  {
    var x := 0x1_0000_0000 * c + k;
    && c * c <= p < (c + 1) * (c + 1)
    && x * x <= p * 0x1_0000_0000_0000_0000 < (x + 1) * (x + 1)
  }

  ghost predicate IsCubeRootOf(k: word, p: nat)
  {
    exists c: nat {:trigger CubeRoot(p, c, k as nat)} :: CubeRoot(p, c, k as nat)
  }

  ghost predicate IsSquareRootOf(k: word, p: nat)
  {
    exists c: nat {:trigger SquareRoot(p, c, k as nat)} :: SquareRoot(p, c, k as nat)
  }

  ghost predicate AllCubeRoots(k: seq<word>, p: seq<nat>)
  {
    |k| == |p| && forall t: nat {:trigger k[t]} :: t < |k| ==> IsCubeRootOf(k[t], p[t])
  }

  lemma FourCubeRoots(k: seq<word>, p: seq<nat>, c0: nat, c1: nat, c2: nat, c3: nat)
    requires |k| == |p| == 4 && CubeRoot(p[0], c0, k[0] as nat) && CubeRoot(p[1], c1, k[1] as nat)
    requires CubeRoot(p[2], c2, k[2] as nat) && CubeRoot(p[3], c3, k[3] as nat)
    ensures AllCubeRoots(k, p)
  {
  }

  lemma JoinCubeRoots(k: seq<word>, p: seq<nat>, k': seq<word>, p': seq<nat>)
    requires AllCubeRoots(k, p) && AllCubeRoots(k', p')
    ensures AllCubeRoots(k + k', p + p')
  {
  }

  lemma CubeRoots0()
    ensures AllCubeRoots(K0, P0) && AllCubeRoots(K1, P1)
  {
    FourCubeRoots(K0, P0, 1, 1, 1, 1);
    FourCubeRoots(K1, P1, 2, 2, 2, 2);
  }

  lemma CubeRoots1()
    ensures AllCubeRoots(K2, P2) && AllCubeRoots(K3, P3)
  {
    FourCubeRoots(K2, P2, 2, 3, 3, 3);
    FourCubeRoots(K3, P3, 3, 3, 3, 3);
  }

  lemma CubeRoots2()
    ensures AllCubeRoots(K4, P4) && AllCubeRoots(K5, P5)
  {
    FourCubeRoots(K4, P4, 3, 3, 4, 4);
    FourCubeRoots(K5, P5, 4, 4, 4, 4);
  }

  lemma CubeRoots3()
    ensures AllCubeRoots(K6, P6) && AllCubeRoots(K7, P7)
  {
    FourCubeRoots(K6, P6, 4, 4, 4, 4);
    FourCubeRoots(K7, P7, 4, 4, 5, 5);
  }

  lemma CubeRoots4()
    ensures AllCubeRoots(K8, P8) && AllCubeRoots(K9, P9)
  {
    FourCubeRoots(K8, P8, 5, 5, 5, 5);
    FourCubeRoots(K9, P9, 5, 5, 5, 5);
  }

  lemma CubeRoots5()
    ensures AllCubeRoots(K10, P10) && AllCubeRoots(K11, P11)
  {
    FourCubeRoots(K10, P10, 5, 5, 5, 5);
    FourCubeRoots(K11, P11, 5, 5, 5, 6);
  }

  lemma CubeRoots6()
    ensures AllCubeRoots(K12, P12) && AllCubeRoots(K13, P13)
  {
    FourCubeRoots(K12, P12, 6, 6, 6, 6);
    FourCubeRoots(K13, P13, 6, 6, 6, 6);
  }

  lemma CubeRoots7()
    ensures AllCubeRoots(K14, P14) && AllCubeRoots(K15, P15)
  {
    FourCubeRoots(K14, P14, 6, 6, 6, 6);
    FourCubeRoots(K15, P15, 6, 6, 6, 6);
  }

  /** The round constants are the cube roots of the first 64 primes. */
  lemma RoundConstants()
    ensures AllCubeRoots(K, PRIMES)
  {
    CubeRoots0();
    CubeRoots1();
    CubeRoots2();
    CubeRoots3();
    CubeRoots4();
    CubeRoots5();
    CubeRoots6();
    CubeRoots7();
    var k, p := K0, P0;
    JoinCubeRoots(k, p, K1, P1);
    k, p := k + K1, p + P1;
    JoinCubeRoots(k, p, K2, P2);
    k, p := k + K2, p + P2;
    JoinCubeRoots(k, p, K3, P3);
    k, p := k + K3, p + P3;
    JoinCubeRoots(k, p, K4, P4);
    k, p := k + K4, p + P4;
    JoinCubeRoots(k, p, K5, P5);
    k, p := k + K5, p + P5;
    JoinCubeRoots(k, p, K6, P6);
    k, p := k + K6, p + P6;
    JoinCubeRoots(k, p, K7, P7);
    k, p := k + K7, p + P7;
    JoinCubeRoots(k, p, K8, P8);
    k, p := k + K8, p + P8;
    JoinCubeRoots(k, p, K9, P9);
    k, p := k + K9, p + P9;
    JoinCubeRoots(k, p, K10, P10);
    k, p := k + K10, p + P10;
    JoinCubeRoots(k, p, K11, P11);
    k, p := k + K11, p + P11;
    JoinCubeRoots(k, p, K12, P12);
    k, p := k + K12, p + P12;
    JoinCubeRoots(k, p, K13, P13);
    k, p := k + K13, p + P13;
    JoinCubeRoots(k, p, K14, P14);
    k, p := k + K14, p + P14;
    JoinCubeRoots(k, p, K15, P15);
    k, p := k + K15, p + P15;
  }

  /** The initial hash value holds the square roots of the first eight. */
  lemma InitialValues()
    ensures |IV| == 8 && forall t: nat {:trigger IV[t]} :: t < 8 ==> IsSquareRootOf(IV[t], PRIMES[t])
  {
    SquareRoots0();
    SquareRoots1();
    forall t: nat {:trigger IV[t]} | t < 8
      ensures IsSquareRootOf(IV[t], PRIMES[t])
    {
      assert IV[t] == if t < 4 then IV0[t] else IV1[t - 4];
      assert PRIMES[t] == if t < 4 then P0[t] else P1[t - 4];
    }
  }

  lemma SquareRoots0()
    ensures forall t: nat {:trigger IV0[t]} :: t < 4 ==> IsSquareRootOf(IV0[t], P0[t])
  {
    FourSquareRoots(IV0, P0, 1, 1, 2, 2);
  }

  lemma SquareRoots1()
    ensures forall t: nat {:trigger IV1[t]} :: t < 4 ==> IsSquareRootOf(IV1[t], P1[t])
  {
    FourSquareRoots(IV1, P1, 3, 3, 4, 4);
  }

  lemma FourSquareRoots(k: seq<word>, p: seq<nat>, c0: nat, c1: nat, c2: nat, c3: nat)
    requires |k| == |p| == 4 && SquareRoot(p[0], c0, k[0] as nat) && SquareRoot(p[1], c1, k[1] as nat)
    requires SquareRoot(p[2], c2, k[2] as nat) && SquareRoot(p[3], c3, k[3] as nat)
    ensures forall t: nat {:trigger k[t]} :: t < 4 ==> IsSquareRootOf(k[t], p[t])
  {
  }
}
