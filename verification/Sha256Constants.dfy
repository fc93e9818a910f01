/** The constants of SHA-256: fractions of roots of primes (sections 4.2.2 and 5.3.3 of FIPS 180-4). */
module Sha256Constants {
  import opened Common
  import opened Sha256Block
  import opened Sha256

  // ----- the first 64 primes

  ghost predicate Factors(d: nat, q: nat, p: nat)
  {
    d * q == p
  }

  ghost predicate Prime(p: nat)
  {
    p >= 2 && forall d, q :: 2 <= d < p ==> !Factors(d, q, p)
  }

  function EighthOf(i: int, p0: nat, p1: nat, p2: nat, p3: nat, p4: nat, p5: nat, p6: nat, p7: nat): nat
  {
    if i < 4 then if i < 2 then if i < 1 then p0 else p1 else if i < 3 then p2 else p3
    else if i < 6 then if i < 5 then p4 else p5 else if i < 7 then p6 else p7
  }

  /** The first 64 primes. */
  function NthPrime(i: nat): nat
  {
    if i < 8 then EighthOf(i - 0, 2, 3, 5, 7, 11, 13, 17, 19)
    else if i < 16 then EighthOf(i - 8, 23, 29, 31, 37, 41, 43, 47, 53)
    else if i < 24 then EighthOf(i - 16, 59, 61, 67, 71, 73, 79, 83, 89)
    else if i < 32 then EighthOf(i - 24, 97, 101, 103, 107, 109, 113, 127, 131)
    else if i < 40 then EighthOf(i - 32, 137, 139, 149, 151, 157, 163, 167, 173)
    else if i < 48 then EighthOf(i - 40, 179, 181, 191, 193, 197, 199, 211, 223)
    else if i < 56 then EighthOf(i - 48, 227, 229, 233, 239, 241, 251, 257, 263)
    else EighthOf(i - 56, 269, 271, 277, 281, 283, 293, 307, 311)
  }

  /** Not a multiple of a smaller number up to 17. */
  ghost predicate Sieved(p: nat)
  {
    && (p % 2 != 0 || p == 2) && (p % 3 != 0 || p == 3) && (p % 5 != 0 || p == 5) && (p % 7 != 0 || p == 7)
    && (p % 11 != 0 || p == 11) && (p % 13 != 0 || p == 13) && (p % 17 != 0 || p == 17)
  }

  lemma Multiples(k: nat)
    ensures (2 * k) % 2 == 0 && (3 * k) % 3 == 0 && (5 * k) % 5 == 0 && (7 * k) % 7 == 0
    ensures (11 * k) % 11 == 0 && (13 * k) % 13 == 0 && (17 * k) % 17 == 0
  {
  }

  lemma PrimeMultiples(k: nat, p: nat)
    requires 2 <= k && Sieved(p)
    ensures 2 * k != p && 3 * k != p && 5 * k != p && 7 * k != p && 11 * k != p && 13 * k != p && 17 * k != p
  {
    Multiples(k);
  }

  lemma SmallFactor(d: nat, q: nat, p: nat)
    requires 2 <= d <= 17 && 2 <= q && Sieved(p)
    ensures d * q != p
  {
    hide Sieved;
    var e := if d % 2 == 0 then 2 else if d % 3 == 0 then 3 else if d % 5 == 0 then 5 else d;
    var r := d / e;
    assert d == e * r && r >= 1;
    assert r * q >= q;
    assert d * q == e * (r * q);
    PrimeMultiples(r * q, p);
  }

  lemma LargeFactors(d: nat, q: nat)
    requires d >= 18 && q >= 18
    ensures d * q >= 324
  {
    assert d * q >= 18 * q;
  }

  lemma NoFactors(d: nat, q: nat, p: nat)
    requires 2 <= d < p < 324 && Sieved(p)
    ensures d * q != p
  {
    if q >= 2 {
      if d <= 17 {
        SmallFactor(d, q, p);
      } else if q <= 17 {
        SmallFactor(q, d, p);
        assert d * q == q * d;
      } else {
        LargeFactors(d, q);
      }
    } else if q == 1 {
      assert d * q == d;
    }
  }

  /** Below 18^2 a number is prime if and only if it passes the sieve. */
  lemma SievedIsPrime(p: nat)
    requires 2 <= p < 324
    ensures Prime(p) <==> Sieved(p)
  {
    hide Sieved;
    if Sieved(p) {
      forall d, q | 2 <= d < p ensures !Factors(d, q, p) {
        NoFactors(d, q, p);
      }
    } else {
      NotSieved(p);
    }
  }

  lemma NotSieved(p: nat)
    requires 2 <= p < 324 && !Sieved(p)
    ensures !Prime(p)
  {
    var e := if p % 2 == 0 && p != 2 then 2 else if p % 3 == 0 && p != 3 then 3 else if p % 5 == 0 && p != 5 then 5
             else if p % 7 == 0 && p != 7 then 7 else if p % 11 == 0 && p != 11 then 11
             else if p % 13 == 0 && p != 13 then 13 else 17;
    assert Factors(e, p / e, p) && 2 <= e < p;
  }

  /** Number `i` of the list is prime and the next after the one before it, the first is 2. */
  ghost predicate Next(i: nat)
  {
    && Prime(NthPrime(i)) && (i == 0 ==> NthPrime(i) == 2)
    && (i > 0 ==> NthPrime(i - 1) < NthPrime(i) && forall p :: NthPrime(i - 1) < p < NthPrime(i) ==> !Prime(p))
  }

  lemma NextIs(i: nat, last: nat)
    requires i < 64 && last == (if i == 0 then 1 else NthPrime(i - 1)) && 1 <= last < NthPrime(i) < 324
             && Sieved(NthPrime(i))
    requires forall n :: last < n < NthPrime(i) ==> !Sieved(n)
    requires i == 0 ==> NthPrime(i) == 2
    ensures Next(i)
  {
    hide Prime;
    hide Sieved;
    hide NthPrime;
    SievedIsPrime(NthPrime(i));
    forall n | last < n < NthPrime(i) ensures !Prime(n) {
      SievedIsPrime(n);
    }
  }

  // The numbers up to the 64th prime, sieved.

  lemma Sieved0()
    ensures Sieved(2) && Sieved(3) && !Sieved(4) && Sieved(5) && !Sieved(6) && Sieved(7) && !Sieved(8) && !Sieved(9)
    ensures !Sieved(10) && Sieved(11) && !Sieved(12) && Sieved(13) && !Sieved(14) && !Sieved(15) && !Sieved(16) && Sieved(17)
    ensures !Sieved(18) && Sieved(19) && !Sieved(20) && !Sieved(21) && !Sieved(22) && Sieved(23) && !Sieved(24)
            && !Sieved(25)
    ensures !Sieved(26) && !Sieved(27) && !Sieved(28) && Sieved(29) && !Sieved(30) && Sieved(31)
  {
  }

  lemma Sieved32()
    ensures !Sieved(32) && !Sieved(33) && !Sieved(34) && !Sieved(35) && !Sieved(36) && Sieved(37) && !Sieved(38)
            && !Sieved(39)
    ensures !Sieved(40) && Sieved(41) && !Sieved(42) && Sieved(43) && !Sieved(44) && !Sieved(45) && !Sieved(46) && Sieved(47)
    ensures !Sieved(48) && !Sieved(49) && !Sieved(50) && !Sieved(51) && !Sieved(52) && Sieved(53) && !Sieved(54)
            && !Sieved(55)
    ensures !Sieved(56) && !Sieved(57) && !Sieved(58) && Sieved(59) && !Sieved(60) && Sieved(61) && !Sieved(62)
            && !Sieved(63)
  {
  }

  lemma Sieved64()
    ensures !Sieved(64) && !Sieved(65) && !Sieved(66) && Sieved(67) && !Sieved(68) && !Sieved(69) && !Sieved(70)
            && Sieved(71)
    ensures !Sieved(72) && Sieved(73) && !Sieved(74) && !Sieved(75) && !Sieved(76) && !Sieved(77) && !Sieved(78)
            && Sieved(79)
    ensures !Sieved(80) && !Sieved(81) && !Sieved(82) && Sieved(83) && !Sieved(84) && !Sieved(85) && !Sieved(86)
            && !Sieved(87)
    ensures !Sieved(88) && Sieved(89) && !Sieved(90) && !Sieved(91) && !Sieved(92) && !Sieved(93) && !Sieved(94)
            && !Sieved(95)
  {
  }

  lemma Sieved96()
    ensures !Sieved(96) && Sieved(97) && !Sieved(98) && !Sieved(99) && !Sieved(100) && Sieved(101) && !Sieved(102)
            && Sieved(103)
    ensures !Sieved(104) && !Sieved(105) && !Sieved(106) && Sieved(107) && !Sieved(108) && Sieved(109) && !Sieved(110)
            && !Sieved(111)
    ensures !Sieved(112) && Sieved(113) && !Sieved(114) && !Sieved(115) && !Sieved(116) && !Sieved(117)
            && !Sieved(118) && !Sieved(119)
    ensures !Sieved(120) && !Sieved(121) && !Sieved(122) && !Sieved(123) && !Sieved(124) && !Sieved(125)
            && !Sieved(126) && Sieved(127)
  {
  }

  lemma Sieved128()
    ensures !Sieved(128) && !Sieved(129) && !Sieved(130) && Sieved(131) && !Sieved(132) && !Sieved(133)
            && !Sieved(134) && !Sieved(135)
    ensures !Sieved(136) && Sieved(137) && !Sieved(138) && Sieved(139) && !Sieved(140) && !Sieved(141) && !Sieved(142)
            && !Sieved(143)
    ensures !Sieved(144) && !Sieved(145) && !Sieved(146) && !Sieved(147) && !Sieved(148) && Sieved(149)
            && !Sieved(150) && Sieved(151)
    ensures !Sieved(152) && !Sieved(153) && !Sieved(154) && !Sieved(155) && !Sieved(156) && Sieved(157)
            && !Sieved(158) && !Sieved(159)
  {
  }

  lemma Sieved160()
    ensures !Sieved(160) && !Sieved(161) && !Sieved(162) && Sieved(163) && !Sieved(164) && !Sieved(165)
            && !Sieved(166) && Sieved(167)
    ensures !Sieved(168) && !Sieved(169) && !Sieved(170) && !Sieved(171) && !Sieved(172) && Sieved(173)
            && !Sieved(174) && !Sieved(175)
    ensures !Sieved(176) && !Sieved(177) && !Sieved(178) && Sieved(179) && !Sieved(180) && Sieved(181) && !Sieved(182)
            && !Sieved(183)
    ensures !Sieved(184) && !Sieved(185) && !Sieved(186) && !Sieved(187) && !Sieved(188) && !Sieved(189)
            && !Sieved(190) && Sieved(191)
  {
  }

  lemma Sieved192()
    ensures !Sieved(192) && Sieved(193) && !Sieved(194) && !Sieved(195) && !Sieved(196) && Sieved(197) && !Sieved(198)
            && Sieved(199)
    ensures !Sieved(200) && !Sieved(201) && !Sieved(202) && !Sieved(203) && !Sieved(204) && !Sieved(205)
            && !Sieved(206) && !Sieved(207)
    ensures !Sieved(208) && !Sieved(209) && !Sieved(210) && Sieved(211) && !Sieved(212) && !Sieved(213)
            && !Sieved(214) && !Sieved(215)
    ensures !Sieved(216) && !Sieved(217) && !Sieved(218) && !Sieved(219) && !Sieved(220) && !Sieved(221)
            && !Sieved(222) && Sieved(223)
  {
  }

  lemma Sieved224()
    ensures !Sieved(224) && !Sieved(225) && !Sieved(226) && Sieved(227) && !Sieved(228) && Sieved(229) && !Sieved(230)
            && !Sieved(231)
    ensures !Sieved(232) && Sieved(233) && !Sieved(234) && !Sieved(235) && !Sieved(236) && !Sieved(237)
            && !Sieved(238) && Sieved(239)
    ensures !Sieved(240) && Sieved(241) && !Sieved(242) && !Sieved(243) && !Sieved(244) && !Sieved(245)
            && !Sieved(246) && !Sieved(247)
    ensures !Sieved(248) && !Sieved(249) && !Sieved(250) && Sieved(251) && !Sieved(252) && !Sieved(253)
            && !Sieved(254) && !Sieved(255)
  {
  }

  lemma Sieved256()
    ensures !Sieved(256) && Sieved(257) && !Sieved(258) && !Sieved(259) && !Sieved(260) && !Sieved(261)
            && !Sieved(262) && Sieved(263)
    ensures !Sieved(264) && !Sieved(265) && !Sieved(266) && !Sieved(267) && !Sieved(268) && Sieved(269)
            && !Sieved(270) && Sieved(271)
    ensures !Sieved(272) && !Sieved(273) && !Sieved(274) && !Sieved(275) && !Sieved(276) && Sieved(277)
            && !Sieved(278) && !Sieved(279)
    ensures !Sieved(280) && Sieved(281) && !Sieved(282) && Sieved(283) && !Sieved(284) && !Sieved(285) && !Sieved(286)
            && !Sieved(287)
  {
  }

  lemma Sieved288()
    ensures !Sieved(288) && !Sieved(289) && !Sieved(290) && !Sieved(291) && !Sieved(292) && Sieved(293)
            && !Sieved(294) && !Sieved(295)
    ensures !Sieved(296) && !Sieved(297) && !Sieved(298) && !Sieved(299) && !Sieved(300) && !Sieved(301)
            && !Sieved(302) && !Sieved(303)
    ensures !Sieved(304) && !Sieved(305) && !Sieved(306) && Sieved(307) && !Sieved(308) && !Sieved(309)
            && !Sieved(310) && Sieved(311)
  {
  }

  lemma Primes0(i: nat)
    requires 0 <= i < 8
    ensures Next(i)
  {
    hide Next;
    hide Sieved;
    Sieved0();
    NextIs(i, if i == 0 then 1 else NthPrime(i - 1));
  }

  lemma Primes8(i: nat)
    requires 8 <= i < 16
    ensures Next(i)
  {
    hide Next;
    hide Sieved;
    Sieved0();
    Sieved32();
    NextIs(i, if i == 0 then 1 else NthPrime(i - 1));
  }

  lemma Primes16(i: nat)
    requires 16 <= i < 24
    ensures Next(i)
  {
    hide Next;
    hide Sieved;
    Sieved32();
    Sieved64();
    NextIs(i, if i == 0 then 1 else NthPrime(i - 1));
  }

  lemma Primes24(i: nat)
    requires 24 <= i < 32
    ensures Next(i)
  {
    hide Next;
    hide Sieved;
    Sieved64();
    Sieved96();
    Sieved128();
    NextIs(i, if i == 0 then 1 else NthPrime(i - 1));
  }

  lemma Primes32(i: nat)
    requires 32 <= i < 40
    ensures Next(i)
  {
    hide Next;
    hide Sieved;
    Sieved128();
    Sieved160();
    NextIs(i, if i == 0 then 1 else NthPrime(i - 1));
  }

  lemma Primes40(i: nat)
    requires 40 <= i < 48
    ensures Next(i)
  {
    hide Next;
    hide Sieved;
    Sieved160();
    Sieved192();
    NextIs(i, if i == 0 then 1 else NthPrime(i - 1));
  }

  lemma Primes48(i: nat)
    requires 48 <= i < 56
    ensures Next(i)
  {
    hide Next;
    hide Sieved;
    Sieved192();
    Sieved224();
    Sieved256();
    NextIs(i, if i == 0 then 1 else NthPrime(i - 1));
  }

  lemma Primes56(i: nat)
    requires 56 <= i < 64
    ensures Next(i)
  {
    hide Next;
    hide Sieved;
    Sieved256();
    Sieved288();
    NextIs(i, if i == 0 then 1 else NthPrime(i - 1));
  }

  lemma PrimesAre(i: nat)
    requires i < 64
    ensures Next(i)
  {
    hide Next;
    if i < 32 {
      if i < 16 {
        if i < 8 {
          Primes0(i);
        } else {
          Primes8(i);
        }
      } else {
        if i < 24 {
          Primes16(i);
        } else {
          Primes24(i);
        }
      }
    } else {
      if i < 48 {
        if i < 40 {
          Primes32(i);
        } else {
          Primes40(i);
        }
      } else {
        if i < 56 {
          Primes48(i);
        } else {
          Primes56(i);
        }
      }
    }
  }

  // ----- their roots

  const TWO96: nat := 0x1_0000_0000_0000_0000_0000_0000

  function Square(n: nat): nat
  {
    n * n
  }

  function Cube(n: nat): nat
  {
    n * n * n
  }

  /** With `a` ones, `k` is the first 32 bits of the fraction of the cube root of `p`. */
  ghost predicate CubeRoot(a: nat, k: nat, p: nat)
  {
    Cube(a * TWO32 + k) <= p * TWO96 < Cube(a * TWO32 + k + 1)
  }

  ghost predicate SquareRoot(a: nat, k: nat, p: nat)
  {
    Square(a * TWO32 + k) <= p * TWO64 < Square(a * TWO32 + k + 1)
  }

  /** Round constant `i` as a number. */
  function Constant(i: nat): nat
  {
    K(i) as int
  }

  lemma CubeRoots0()
    ensures Constant(0) == 0x428a2f98 && NthPrime(0) == 2 && CubeRoot(1, 0x428a2f98, 2)
    ensures Constant(1) == 0x71374491 && NthPrime(1) == 3 && CubeRoot(1, 0x71374491, 3)
    ensures Constant(2) == 0xb5c0fbcf && NthPrime(2) == 5 && CubeRoot(1, 0xb5c0fbcf, 5)
    ensures Constant(3) == 0xe9b5dba5 && NthPrime(3) == 7 && CubeRoot(1, 0xe9b5dba5, 7)
    ensures Constant(4) == 0x3956c25b && NthPrime(4) == 11 && CubeRoot(2, 0x3956c25b, 11)
    ensures Constant(5) == 0x59f111f1 && NthPrime(5) == 13 && CubeRoot(2, 0x59f111f1, 13)
    ensures Constant(6) == 0x923f82a4 && NthPrime(6) == 17 && CubeRoot(2, 0x923f82a4, 17)
    ensures Constant(7) == 0xab1c5ed5 && NthPrime(7) == 19 && CubeRoot(2, 0xab1c5ed5, 19)
  {
  }

  lemma CubeRoots8()
    ensures Constant(8) == 0xd807aa98 && NthPrime(8) == 23 && CubeRoot(2, 0xd807aa98, 23)
    ensures Constant(9) == 0x12835b01 && NthPrime(9) == 29 && CubeRoot(3, 0x12835b01, 29)
    ensures Constant(10) == 0x243185be && NthPrime(10) == 31 && CubeRoot(3, 0x243185be, 31)
    ensures Constant(11) == 0x550c7dc3 && NthPrime(11) == 37 && CubeRoot(3, 0x550c7dc3, 37)
    ensures Constant(12) == 0x72be5d74 && NthPrime(12) == 41 && CubeRoot(3, 0x72be5d74, 41)
    ensures Constant(13) == 0x80deb1fe && NthPrime(13) == 43 && CubeRoot(3, 0x80deb1fe, 43)
    ensures Constant(14) == 0x9bdc06a7 && NthPrime(14) == 47 && CubeRoot(3, 0x9bdc06a7, 47)
    ensures Constant(15) == 0xc19bf174 && NthPrime(15) == 53 && CubeRoot(3, 0xc19bf174, 53)
  {
  }

  lemma CubeRoots16()
    ensures Constant(16) == 0xe49b69c1 && NthPrime(16) == 59 && CubeRoot(3, 0xe49b69c1, 59)
    ensures Constant(17) == 0xefbe4786 && NthPrime(17) == 61 && CubeRoot(3, 0xefbe4786, 61)
    ensures Constant(18) == 0x0fc19dc6 && NthPrime(18) == 67 && CubeRoot(4, 0x0fc19dc6, 67)
    ensures Constant(19) == 0x240ca1cc && NthPrime(19) == 71 && CubeRoot(4, 0x240ca1cc, 71)
    ensures Constant(20) == 0x2de92c6f && NthPrime(20) == 73 && CubeRoot(4, 0x2de92c6f, 73)
    ensures Constant(21) == 0x4a7484aa && NthPrime(21) == 79 && CubeRoot(4, 0x4a7484aa, 79)
    ensures Constant(22) == 0x5cb0a9dc && NthPrime(22) == 83 && CubeRoot(4, 0x5cb0a9dc, 83)
    ensures Constant(23) == 0x76f988da && NthPrime(23) == 89 && CubeRoot(4, 0x76f988da, 89)
  {
  }

  lemma CubeRoots24()
    ensures Constant(24) == 0x983e5152 && NthPrime(24) == 97 && CubeRoot(4, 0x983e5152, 97)
    ensures Constant(25) == 0xa831c66d && NthPrime(25) == 101 && CubeRoot(4, 0xa831c66d, 101)
    ensures Constant(26) == 0xb00327c8 && NthPrime(26) == 103 && CubeRoot(4, 0xb00327c8, 103)
    ensures Constant(27) == 0xbf597fc7 && NthPrime(27) == 107 && CubeRoot(4, 0xbf597fc7, 107)
    ensures Constant(28) == 0xc6e00bf3 && NthPrime(28) == 109 && CubeRoot(4, 0xc6e00bf3, 109)
    ensures Constant(29) == 0xd5a79147 && NthPrime(29) == 113 && CubeRoot(4, 0xd5a79147, 113)
    ensures Constant(30) == 0x06ca6351 && NthPrime(30) == 127 && CubeRoot(5, 0x06ca6351, 127)
    ensures Constant(31) == 0x14292967 && NthPrime(31) == 131 && CubeRoot(5, 0x14292967, 131)
  {
  }

  lemma CubeRoots32()
    ensures Constant(32) == 0x27b70a85 && NthPrime(32) == 137 && CubeRoot(5, 0x27b70a85, 137)
    ensures Constant(33) == 0x2e1b2138 && NthPrime(33) == 139 && CubeRoot(5, 0x2e1b2138, 139)
    ensures Constant(34) == 0x4d2c6dfc && NthPrime(34) == 149 && CubeRoot(5, 0x4d2c6dfc, 149)
    ensures Constant(35) == 0x53380d13 && NthPrime(35) == 151 && CubeRoot(5, 0x53380d13, 151)
    ensures Constant(36) == 0x650a7354 && NthPrime(36) == 157 && CubeRoot(5, 0x650a7354, 157)
    ensures Constant(37) == 0x766a0abb && NthPrime(37) == 163 && CubeRoot(5, 0x766a0abb, 163)
    ensures Constant(38) == 0x81c2c92e && NthPrime(38) == 167 && CubeRoot(5, 0x81c2c92e, 167)
    ensures Constant(39) == 0x92722c85 && NthPrime(39) == 173 && CubeRoot(5, 0x92722c85, 173)
  {
  }

  lemma CubeRoots40()
    ensures Constant(40) == 0xa2bfe8a1 && NthPrime(40) == 179 && CubeRoot(5, 0xa2bfe8a1, 179)
    ensures Constant(41) == 0xa81a664b && NthPrime(41) == 181 && CubeRoot(5, 0xa81a664b, 181)
    ensures Constant(42) == 0xc24b8b70 && NthPrime(42) == 191 && CubeRoot(5, 0xc24b8b70, 191)
    ensures Constant(43) == 0xc76c51a3 && NthPrime(43) == 193 && CubeRoot(5, 0xc76c51a3, 193)
    ensures Constant(44) == 0xd192e819 && NthPrime(44) == 197 && CubeRoot(5, 0xd192e819, 197)
    ensures Constant(45) == 0xd6990624 && NthPrime(45) == 199 && CubeRoot(5, 0xd6990624, 199)
    ensures Constant(46) == 0xf40e3585 && NthPrime(46) == 211 && CubeRoot(5, 0xf40e3585, 211)
    ensures Constant(47) == 0x106aa070 && NthPrime(47) == 223 && CubeRoot(6, 0x106aa070, 223)
  {
  }

  lemma CubeRoots48()
    ensures Constant(48) == 0x19a4c116 && NthPrime(48) == 227 && CubeRoot(6, 0x19a4c116, 227)
    ensures Constant(49) == 0x1e376c08 && NthPrime(49) == 229 && CubeRoot(6, 0x1e376c08, 229)
    ensures Constant(50) == 0x2748774c && NthPrime(50) == 233 && CubeRoot(6, 0x2748774c, 233)
    ensures Constant(51) == 0x34b0bcb5 && NthPrime(51) == 239 && CubeRoot(6, 0x34b0bcb5, 239)
    ensures Constant(52) == 0x391c0cb3 && NthPrime(52) == 241 && CubeRoot(6, 0x391c0cb3, 241)
    ensures Constant(53) == 0x4ed8aa4a && NthPrime(53) == 251 && CubeRoot(6, 0x4ed8aa4a, 251)
    ensures Constant(54) == 0x5b9cca4f && NthPrime(54) == 257 && CubeRoot(6, 0x5b9cca4f, 257)
    ensures Constant(55) == 0x682e6ff3 && NthPrime(55) == 263 && CubeRoot(6, 0x682e6ff3, 263)
  {
  }

  lemma CubeRoots56()
    ensures Constant(56) == 0x748f82ee && NthPrime(56) == 269 && CubeRoot(6, 0x748f82ee, 269)
    ensures Constant(57) == 0x78a5636f && NthPrime(57) == 271 && CubeRoot(6, 0x78a5636f, 271)
    ensures Constant(58) == 0x84c87814 && NthPrime(58) == 277 && CubeRoot(6, 0x84c87814, 277)
    ensures Constant(59) == 0x8cc70208 && NthPrime(59) == 281 && CubeRoot(6, 0x8cc70208, 281)
    ensures Constant(60) == 0x90befffa && NthPrime(60) == 283 && CubeRoot(6, 0x90befffa, 283)
    ensures Constant(61) == 0xa4506ceb && NthPrime(61) == 293 && CubeRoot(6, 0xa4506ceb, 293)
    ensures Constant(62) == 0xbef9a3f7 && NthPrime(62) == 307 && CubeRoot(6, 0xbef9a3f7, 307)
    ensures Constant(63) == 0xc67178f2 && NthPrime(63) == 311 && CubeRoot(6, 0xc67178f2, 311)
  {
  }

  /** The whole part of the cube root of a prime of the list. */
  function Whole(p: nat): nat
  {
    if p < 8 then 1 else if p < 27 then 2 else if p < 64 then 3 else if p < 125 then 4 else if p < 216 then 5 else 6
  }

  /** Section 4.2.2: constant `i` is the first 32 bits of the fraction of the cube root of prime `i`. */
  lemma ConstantsAre(i: nat)
    requires i < 64
    ensures CubeRoot(Whole(NthPrime(i)), Constant(i), NthPrime(i)) && Next(i)
  {
    hide Constant;
    hide NthPrime;
    hide CubeRoot;
    hide Next;
    PrimesAre(i);
    if i < 32 {
      if i < 16 {
        if i < 8 {
          CubeRoots0();
        } else {
          CubeRoots8();
        }
      } else {
        if i < 24 {
          CubeRoots16();
        } else {
          CubeRoots24();
        }
      }
    } else {
      if i < 48 {
        if i < 40 {
          CubeRoots32();
        } else {
          CubeRoots40();
        }
      } else {
        if i < 56 {
          CubeRoots48();
        } else {
          CubeRoots56();
        }
      }
    }
  }

  /** Section 5.3.3: the eight initial words are those of the square roots of the first eight primes. */
  lemma SquareRoots()
    ensures INITIAL.a as int == 0x6a09e667 && SquareRoot(1, 0x6a09e667, 2)
    ensures INITIAL.b as int == 0xbb67ae85 && SquareRoot(1, 0xbb67ae85, 3)
    ensures INITIAL.c as int == 0x3c6ef372 && SquareRoot(2, 0x3c6ef372, 5)
    ensures INITIAL.d as int == 0xa54ff53a && SquareRoot(2, 0xa54ff53a, 7)
    ensures INITIAL.e as int == 0x510e527f && SquareRoot(3, 0x510e527f, 11)
    ensures INITIAL.f as int == 0x9b05688c && SquareRoot(3, 0x9b05688c, 13)
    ensures INITIAL.g as int == 0x1f83d9ab && SquareRoot(4, 0x1f83d9ab, 17)
    ensures INITIAL.h as int == 0x5be0cd19 && SquareRoot(4, 0x5be0cd19, 19)
  {
  }
}
