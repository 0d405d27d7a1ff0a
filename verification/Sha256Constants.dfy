/**
 Where the constants come from (sections 4.2.2 and 5.3.3 of FIPS 180-4): they are the first 32
 bits of the fractional parts of the cube roots of the first 64 primes, and of the square roots
 of the first eight.
 */
module Sha256Constants {
  import opened Sha256Spec

  /* ---------- The first 64 primes ---------- */

  const P0: seq<nat> := [2, 3, 5, 7, 11, 13, 17, 19]
  const P1: seq<nat> := [23, 29, 31, 37, 41, 43, 47, 53]
  const P2: seq<nat> := [59, 61, 67, 71, 73, 79, 83, 89]
  const P3: seq<nat> := [97, 101, 103, 107, 109, 113, 127, 131]
  const P4: seq<nat> := [137, 139, 149, 151, 157, 163, 167, 173]
  const P5: seq<nat> := [179, 181, 191, 193, 197, 199, 211, 223]
  const P6: seq<nat> := [227, 229, 233, 239, 241, 251, 257, 263]
  const P7: seq<nat> := [269, 271, 277, 281, 283, 293, 307, 311]

  const PRIMES: seq<nat> := P0 + P1 + P2 + P3 + P4 + P5 + P6 + P7

  predicate Product(a: nat, b: nat, n: nat) { a * b == n }

  ghost predicate IsPrime(n: nat) { n >= 2 && !exists a: nat, b: nat :: a >= 2 && b >= 2 && Product(a, b, n) }

  /** Not divisible by a prime below 18 other than itself. */
  predicate Sieved(n: nat) {
    && n >= 2
    && (n == 2 || n % 2 != 0) && (n == 3 || n % 3 != 0) && (n == 5 || n % 5 != 0) && (n == 7 || n % 7 != 0)
    && (n == 11 || n % 11 != 0) && (n == 13 || n % 13 != 0) && (n == 17 || n % 17 != 0)
  }

  /** No number from a up to b, b excluded, passes the sieve. */
  predicate NoneBetween(a: nat, b: nat)
    decreases b - a
  {
    a >= b || (!Sieved(a) && NoneBetween(a + 1, b))
  }

  /** q is the next number after p that passes the sieve. */
  predicate Next(p: nat, q: nat) { p < q && Sieved(q) && NoneBetween(p + 1, q) }

  lemma {:induction false} NoneBetweenMeans(a: nat, b: nat, n: nat)
    requires NoneBetween(a, b) && a <= n < b
    ensures !Sieved(n)
    decreases b - a
  {
    if n == a {
    } else {
      NoneBetweenMeans(a + 1, b, n);
    }
  }

  lemma Gaps0()
    ensures Next(2, 3) && Next(3, 5) && Next(5, 7) && Next(7, 11)
    ensures Next(11, 13) && Next(13, 17) && Next(17, 19) && Next(19, 23)
  {
  }

  lemma Gaps1()
    ensures Next(23, 29) && Next(29, 31) && Next(31, 37) && Next(37, 41)
    ensures Next(41, 43) && Next(43, 47) && Next(47, 53) && Next(53, 59)
  {
  }

  lemma Gaps2()
    ensures Next(59, 61) && Next(61, 67) && Next(67, 71) && Next(71, 73)
    ensures Next(73, 79) && Next(79, 83) && Next(83, 89) && Next(89, 97)
  {
  }

  lemma Gaps3()
    ensures Next(97, 101) && Next(101, 103) && Next(103, 107) && Next(107, 109)
    ensures Next(109, 113) && Next(113, 127) && Next(127, 131) && Next(131, 137)
  {
  }

  lemma Gaps4()
    ensures Next(137, 139) && Next(139, 149) && Next(149, 151) && Next(151, 157)
    ensures Next(157, 163) && Next(163, 167) && Next(167, 173) && Next(173, 179)
  {
  }

  lemma Gaps5()
    ensures Next(179, 181) && Next(181, 191) && Next(191, 193) && Next(193, 197)
    ensures Next(197, 199) && Next(199, 211) && Next(211, 223) && Next(223, 227)
  {
  }

  lemma Gaps6()
    ensures Next(227, 229) && Next(229, 233) && Next(233, 239) && Next(239, 241)
    ensures Next(241, 251) && Next(251, 257) && Next(257, 263) && Next(263, 269)
  {
  }

  lemma Gaps7()
    ensures Next(269, 271) && Next(271, 277) && Next(277, 281) && Next(281, 283)
    ensures Next(283, 293) && Next(293, 307) && Next(307, 311)
  {
  }

  lemma NextInGroup0(j: nat)
    requires j < 8
    ensures Next((P0 + P1)[j], (P0 + P1)[j + 1])
  {
    Gaps0();
  }

  lemma NextInGroup1(j: nat)
    requires j < 8
    ensures Next((P1 + P2)[j], (P1 + P2)[j + 1])
  {
    Gaps1();
  }

  lemma NextInGroup2(j: nat)
    requires j < 8
    ensures Next((P2 + P3)[j], (P2 + P3)[j + 1])
  {
    Gaps2();
  }

  lemma NextInGroup3(j: nat)
    requires j < 8
    ensures Next((P3 + P4)[j], (P3 + P4)[j + 1])
  {
    Gaps3();
  }

  lemma NextInGroup4(j: nat)
    requires j < 8
    ensures Next((P4 + P5)[j], (P4 + P5)[j + 1])
  {
    Gaps4();
  }

  lemma NextInGroup5(j: nat)
    requires j < 8
    ensures Next((P5 + P6)[j], (P5 + P6)[j + 1])
  {
    Gaps5();
  }

  lemma NextInGroup6(j: nat)
    requires j < 8
    ensures Next((P6 + P7)[j], (P6 + P7)[j + 1])
  {
    Gaps6();
  }

  lemma NextInGroup7(j: nat)
    requires j < 7
    ensures Next(P7[j], P7[j + 1])
  {
    Gaps7();
  }

  lemma PrimesOfGroups(t: nat)
    requires t < 64
    ensures |PRIMES| == 64
    ensures PRIMES[t] ==
      if t < 32 then (if t < 8 then P0[t] else if t < 16 then P1[t - 8] else if t < 24 then P2[t - 16] else P3[t - 24])
      else (if t < 40 then P4[t - 32] else if t < 48 then P5[t - 40] else if t < 56 then P6[t - 48] else P7[t - 56])
  {
  }

  /** Each prime of the list is followed by the next one. */
  lemma NextInList(i: nat)
    requires i < 63
    ensures |PRIMES| == 64 && Next(PRIMES[i], PRIMES[i + 1])
  {
    PrimesOfGroups(i);
    PrimesOfGroups(i + 1);
    if i < 8 {
      NextInGroup0(i);
    } else if i < 16 {
      NextInGroup1(i - 8);
    } else if i < 24 {
      NextInGroup2(i - 16);
    } else if i < 32 {
      NextInGroup3(i - 24);
    } else if i < 40 {
      NextInGroup4(i - 32);
    } else if i < 48 {
      NextInGroup5(i - 40);
    } else if i < 56 {
      NextInGroup6(i - 48);
    } else {
      NextInGroup7(i - 56);
    }
  }

  /** In a list of numbers that each come next after the one before, every sieved number occurs. */
  lemma {:induction false} NoneMissing(s: seq<nat>, n: nat)
    requires s != [] && Sieved(s[0]) && forall j :: 0 <= j < |s| - 1 ==> Next(s[j], s[j + 1])
    requires s[0] <= n <= s[|s| - 1]
    ensures Sieved(n) <==> n in s
    decreases |s|
  {
    if |s| == 1 {
    } else {
      var tail := s[1..];
      assert forall j :: 0 <= j < |tail| ==> tail[j] == s[j + 1];
      assert Next(s[0], s[1]) && s == [s[0]] + tail;
      if n < s[1] {
        if n > s[0] { NoneBetweenMeans(s[0] + 1, s[1], n); }
        TailIsAbove(tail, n);
      } else {
        NoneMissing(tail, n);
      }
    }
  }

  lemma {:induction false} TailIsAbove(s: seq<nat>, n: nat)
    requires s != [] && n < s[0] && forall j :: 0 <= j < |s| - 1 ==> Next(s[j], s[j + 1])
    ensures n !in s
    decreases |s|
  {
    if |s| == 1 {
    } else {
      var tail := s[1..];
      assert Next(s[0], s[1]) && s == [s[0]] + tail;
      assert forall j :: 0 <= j < |tail| ==> tail[j] == s[j + 1];
      TailIsAbove(tail, n);
    }
  }

  lemma Regroup(p: nat, c: nat, e: nat)
    requires c >= 1 && e >= 2
    ensures p * c * e == p * (c * e) && c * e >= 2
  {
    assert c * e == e + (c - 1) * e;
  }

  lemma Multiples(m: nat)
    ensures (2 * m) % 2 == 0 && (3 * m) % 3 == 0 && (5 * m) % 5 == 0 && (7 * m) % 7 == 0
    ensures (11 * m) % 11 == 0 && (13 * m) % 13 == 0 && (17 * m) % 17 == 0
  {
  }

  lemma MultipleOfSmallPrime(p: nat, m: nat, n: nat)
    requires p in [2, 3, 5, 7, 11, 13, 17] && m >= 2 && n == p * m
    ensures n > p && n % p == 0
  {
    Multiples(m);
  }

  /** Every number from 2 to 17 has a prime factor below 18, which then divides its multiples. */
  lemma SmallFactor(d: nat, e: nat, n: nat)
    requires 2 <= d < 18 && e >= 2 && Product(d, e, n)
    ensures !Sieved(n)
  {
    var p := if d % 2 == 0 then 2 else if d % 3 == 0 then 3 else if d % 5 == 0 then 5 else d;
    var c := if p == d then 1 else d / p;
    assert p in [2, 3, 5, 7, 11, 13, 17] && d == p * c;
    Regroup(p, c, e);
    MultipleOfSmallPrime(p, c * e, n);
  }

  /** Below 18 squared, trial division by the primes below 18 decides. */
  lemma SievedIsPrime(n: nat)
    requires n < 18 * 18
    ensures Sieved(n) <==> IsPrime(n)
  {
    if a: nat, b: nat :| a >= 2 && b >= 2 && Product(a, b, n) {
      if a < 18 {
        SmallFactor(a, b, n);
      } else {
        assert b < 18;
        SmallFactor(b, a, n);
      }
    } else if n >= 2 && !Sieved(n) {
      var p := if n % 2 == 0 then 2 else if n % 3 == 0 then 3 else if n % 5 == 0 then 5 else if n % 7 == 0 then 7
               else if n % 11 == 0 then 11 else if n % 13 == 0 then 13 else 17;
      assert Product(p, n / p, n);
    }
  }

  /** The list holds every prime up to 311 and nothing else, in increasing order: the first 64 primes. */
  lemma FirstPrimes(n: nat)
    requires n <= 311
    ensures n in PRIMES <==> IsPrime(n)
    ensures |PRIMES| == 64 && forall i :: 0 <= i < 63 ==> PRIMES[i] < PRIMES[i + 1]
  {
    forall i | 0 <= i < 63 ensures Next(PRIMES[i], PRIMES[i + 1]) {
      NextInList(i);
    }
    PrimesOfGroups(0);
    PrimesOfGroups(63);
    SievedIsPrime(n);
    if n >= 2 {
      NoneMissing(PRIMES, n);
    } else {
      TailIsAbove(PRIMES, n);
    }
  }

  /* ---------- Roots ---------- */

  const TWO_TO_THE_32: nat := 0x1_0000_0000

  function WholeCubeRoot(p: nat): nat {
    if p < 8 then 1 else if p < 27 then 2 else if p < 64 then 3 else if p < 125 then 4 else if p < 216 then 5 else 6
  }

  function WholeSquareRoot(p: nat): nat {
    if p < 4 then 1 else if p < 9 then 2 else if p < 16 then 3 else 4
  }

  /** The cube root of p, scaled by 2^32, lies between the whole part followed by w and the next number. */
  predicate CubeRoot(w: Word, p: nat) {
    var q := WholeCubeRoot(p) * TWO_TO_THE_32 + w as int;
    q * q * q <= p * (TWO_TO_THE_32 * TWO_TO_THE_32 * TWO_TO_THE_32) < (q + 1) * (q + 1) * (q + 1)
  }

  predicate SquareRoot(w: Word, p: nat) {
    var q := WholeSquareRoot(p) * TWO_TO_THE_32 + w as int;
    q * q <= p * (TWO_TO_THE_32 * TWO_TO_THE_32) < (q + 1) * (q + 1)
  }

  lemma RoundConstants0To7()
    ensures CubeRoot(K0[0], 2) && CubeRoot(K0[1], 3) && CubeRoot(K0[2], 5) && CubeRoot(K0[3], 7)
    ensures CubeRoot(K0[4], 11) && CubeRoot(K0[5], 13) && CubeRoot(K0[6], 17) && CubeRoot(K0[7], 19)
  {
  }

  lemma RoundConstants8To15()
    ensures CubeRoot(K0[8], 23) && CubeRoot(K0[9], 29) && CubeRoot(K0[10], 31) && CubeRoot(K0[11], 37)
    ensures CubeRoot(K0[12], 41) && CubeRoot(K0[13], 43) && CubeRoot(K0[14], 47) && CubeRoot(K0[15], 53)
  {
  }

  lemma RoundConstants16To23()
    ensures CubeRoot(K1[0], 59) && CubeRoot(K1[1], 61) && CubeRoot(K1[2], 67) && CubeRoot(K1[3], 71)
    ensures CubeRoot(K1[4], 73) && CubeRoot(K1[5], 79) && CubeRoot(K1[6], 83) && CubeRoot(K1[7], 89)
  {
  }

  lemma RoundConstants24To31()
    ensures CubeRoot(K1[8], 97) && CubeRoot(K1[9], 101) && CubeRoot(K1[10], 103) && CubeRoot(K1[11], 107)
    ensures CubeRoot(K1[12], 109) && CubeRoot(K1[13], 113) && CubeRoot(K1[14], 127) && CubeRoot(K1[15], 131)
  {
  }

  lemma RoundConstants32To39()
    ensures CubeRoot(K2[0], 137) && CubeRoot(K2[1], 139) && CubeRoot(K2[2], 149) && CubeRoot(K2[3], 151)
    ensures CubeRoot(K2[4], 157) && CubeRoot(K2[5], 163) && CubeRoot(K2[6], 167) && CubeRoot(K2[7], 173)
  {
  }

  lemma RoundConstants40To47()
    ensures CubeRoot(K2[8], 179) && CubeRoot(K2[9], 181) && CubeRoot(K2[10], 191) && CubeRoot(K2[11], 193)
    ensures CubeRoot(K2[12], 197) && CubeRoot(K2[13], 199) && CubeRoot(K2[14], 211) && CubeRoot(K2[15], 223)
  {
  }

  lemma RoundConstants48To55()
    ensures CubeRoot(K3[0], 227) && CubeRoot(K3[1], 229) && CubeRoot(K3[2], 233) && CubeRoot(K3[3], 239)
    ensures CubeRoot(K3[4], 241) && CubeRoot(K3[5], 251) && CubeRoot(K3[6], 257) && CubeRoot(K3[7], 263)
  {
  }

  lemma RoundConstants56To63()
    ensures CubeRoot(K3[8], 269) && CubeRoot(K3[9], 271) && CubeRoot(K3[10], 277) && CubeRoot(K3[11], 281)
    ensures CubeRoot(K3[12], 283) && CubeRoot(K3[13], 293) && CubeRoot(K3[14], 307) && CubeRoot(K3[15], 311)
  {
  }

  lemma CubeRoots0(j: nat)
    requires j < 16
    ensures CubeRoot(K0[j], (P0 + P1)[j])
  {
    if j < 8 {
      RoundConstants0To7();
    } else {
      RoundConstants8To15();
    }
  }

  lemma CubeRoots1(j: nat)
    requires j < 16
    ensures CubeRoot(K1[j], (P2 + P3)[j])
  {
    if j < 8 {
      RoundConstants16To23();
    } else {
      RoundConstants24To31();
    }
  }

  lemma CubeRoots2(j: nat)
    requires j < 16
    ensures CubeRoot(K2[j], (P4 + P5)[j])
  {
    if j < 8 {
      RoundConstants32To39();
    } else {
      RoundConstants40To47();
    }
  }

  lemma CubeRoots3(j: nat)
    requires j < 16
    ensures CubeRoot(K3[j], (P6 + P7)[j])
  {
    if j < 8 {
      RoundConstants48To55();
    } else {
      RoundConstants56To63();
    }
  }

  /** Each round constant is that of its prime. */
  lemma RoundConstant(t: nat)
    requires t < 64
    ensures CubeRoot(K[t], PRIMES[t])
  {
    PrimesOfGroups(t);
    if t < 16 {
      CubeRoots0(t);
    } else if t < 32 {
      CubeRoots1(t - 16);
    } else if t < 48 {
      CubeRoots2(t - 32);
    } else {
      CubeRoots3(t - 48);
    }
  }

  lemma SquareRoots()
    ensures SquareRoot(IV.a, 2) && SquareRoot(IV.b, 3) && SquareRoot(IV.c, 5) && SquareRoot(IV.d, 7)
    ensures SquareRoot(IV.e, 11) && SquareRoot(IV.f, 13) && SquareRoot(IV.g, 17) && SquareRoot(IV.h, 19)
  {
  }

  /** Each word of the initial value is that of its prime. */
  lemma InitialValue(t: nat)
    requires t < 8
    ensures SquareRoot(Words(IV)[t], PRIMES[t])
  {
    SquareRoots();
    PrimesOfGroups(t);
  }
}
