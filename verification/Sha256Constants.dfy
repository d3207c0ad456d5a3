// The constants of FIPS 180-4 are what the standard says they are: the first 32 bits of
// the fractional parts of the roots of the first primes.
module Sha256Constants {
  import opened Basics
  import opened Fips180

  // The first 64 primes.
  function PrimeRow(r: nat): (row: seq<nat>)
    requires r < 8
    ensures |row| == 8
  {
    if r == 0 then
      [2, 3, 5, 7, 11, 13, 17, 19]
    else if r == 1 then
      [23, 29, 31, 37, 41, 43, 47, 53]
    else if r == 2 then
      [59, 61, 67, 71, 73, 79, 83, 89]
    else if r == 3 then
      [97, 101, 103, 107, 109, 113, 127, 131]
    else if r == 4 then
      [137, 139, 149, 151, 157, 163, 167, 173]
    else if r == 5 then
      [179, 181, 191, 193, 197, 199, 211, 223]
    else if r == 6 then
      [227, 229, 233, 239, 241, 251, 257, 263]
    else
      [269, 271, 277, 281, 283, 293, 307, 311]
  }

  function Product(a: nat, b: nat): nat { a * b }

  ghost predicate IsPrime(n: nat) { 2 <= n && forall a: nat, b: nat | 2 <= a && 2 <= b :: Product(a, b) != n }

  // There is no prime between two numbers.
  ghost predicate Gap(a: nat, b: nat) { forall n: nat | a < n < b :: !IsPrime(n) }

  // One of the primes up to 17 divides n.
  predicate Divided(n: nat) {
    n % 2 == 0 || n % 3 == 0 || n % 5 == 0 || n % 7 == 0 || n % 11 == 0 || n % 13 == 0 || n % 17 == 0
  }

  lemma SmallFactor(d: nat, k: nat)
    requires 2 <= d <= 18
    ensures Divided(Product(d, k))
  {
    hide Product;
    var q := if d % 2 == 0 then 2 else if d % 3 == 0 then 3 else if d % 5 == 0 then 5 else d;
    assert q in [2, 3, 5, 7, 11, 13, 17] && q * (d / q) == d;
    Multiple(q, d / q, k);
  }

  lemma Multiple(q: nat, m: nat, k: nat)
    requires q > 0
    ensures Product(q * m, k) % q == 0
  {
    assert Product(q * m, k) == q * (m * k) + 0;
    QuotientIs(q * (m * k), q, m * k, 0);
  }

  // Below 19 * 19 trial division by these is enough.
  lemma TrialDivision(n: nat)
    requires 17 < n < 361
    ensures IsPrime(n) <==> !Divided(n)
  {
    hide Divided, Product;
    if Divided(n) {
      Composite(n);
    } else {
      forall a: nat, b: nat | 2 <= a && 2 <= b
        ensures Product(a, b) != n
      {
        if a <= 18 {
          SmallFactor(a, b);
        } else if b <= 18 {
          SmallFactor(b, a);
          Commutes(a, b);
        } else {
          BothLarge(a, b);
        }
      }
    }
  }

  lemma Commutes(a: nat, b: nat)
    ensures Product(a, b) == Product(b, a)
  {
  }

  lemma BothLarge(a: nat, b: nat)
    requires 19 <= a && 19 <= b
    ensures Product(a, b) >= 361
  {
    assert a * b >= 19 * b;
  }

  lemma Composite(n: nat)
    requires 17 < n && Divided(n)
    ensures !IsPrime(n)
  {
    var q := if n % 2 == 0 then 2 else if n % 3 == 0 then 3 else if n % 5 == 0 then 5 else if n % 7 == 0 then 7
             else if n % 11 == 0 then 11 else if n % 13 == 0 then 13 else 17;
    assert q in [2, 3, 5, 7, 11, 13, 17];
    Quotient(n, q);
    assert Product(q, n / q) == n;
  }

  lemma Quotient(n: nat, q: nat)
    requires 2 <= q < n && n % q == 0
    ensures n / q >= 2 && Product(q, n / q) == n
  {
    assert n == q * (n / q);
  }

  lemma SmallPrime(n: nat)
    requires n in [2, 3, 5, 7, 11, 13, 17]
    ensures IsPrime(n)
  {
    forall a: nat, b: nat | 2 <= a && 2 <= b
      ensures Product(a, b) != n
    {
      if a >= 5 && b >= 5 {
        assert a * b >= 5 * b;
      } else if a < 5 {
        assert a == 2 || a == 3 || a == 4;
      } else {
        assert b == 2 || b == 3 || b == 4;
      }
    }
  }

  // The odd number 2 * m + 1 is a product.
  ghost predicate OddProduct(m: nat) { !IsPrime(2 * m + 1) }

  lemma Odd(a: nat, b: nat)
    requires 3 <= a && 3 <= b && a % 2 == 1 && b % 2 == 1
    ensures OddProduct(a * b / 2)
  {
    assert Product(a, b) == a * b;
    OddTimes(a, b);
  }

  lemma OddTimes(a: nat, b: nat)
    requires a % 2 == 1 && b % 2 == 1
    ensures a * b % 2 == 1
  {
    var c := a / 2;
    assert a * b == 2 * (c * b) + b;
  }

  lemma EvenGap(a: nat, b: nat)
    requires 2 <= a && forall m: nat | a < 2 * m + 1 < b :: OddProduct(m)
    ensures Gap(a, b)
  {
    forall n: nat | a < n < b
      ensures !IsPrime(n)
    {
      if n % 2 == 0 {
        Quotient(n, 2);
      } else {
        assert OddProduct(n / 2);
      }
    }
  }

  // b is the next prime after a.
  ghost predicate IsNext(a: nat, b: nat) { IsPrime(b) && Gap(a, b) }

  predicate Undivided(b: nat) { b in [3, 5, 7, 11, 13, 17] || (17 < b && !Divided(b)) }

  lemma FirstPrime()
    ensures IsNext(1, 2)
  {
    SmallPrime(2);
  }

  lemma Next(a: nat, b: nat)
    requires 2 <= a < b < 361 && Undivided(b)
    requires forall m: nat | a < 2 * m + 1 < b :: OddProduct(m)
    ensures IsNext(a, b)
  {
    if b <= 17 {
      SmallPrime(b);
    } else {
      TrialDivision(b);
    }
    EvenGap(a, b);
  }

  // Prime i of row r is the next after the one before it.
  ghost predicate PrimeAt(r: nat, i: nat)
    requires r < 8 && i < 8
  {
    IsNext(if i > 0 then PrimeRow(r)[i - 1] else if r > 0 then PrimeRow(r - 1)[7] else 1, PrimeRow(r)[i])
  }

  lemma Nexts0()
    ensures IsNext(1, 2) && IsNext(2, 3) && IsNext(3, 5) && IsNext(5, 7)
    ensures IsNext(7, 11) && IsNext(11, 13) && IsNext(13, 17) && IsNext(17, 19)
  {
    hide IsPrime, Product, OddProduct, IsNext, Undivided, Gap;
    FirstPrime();
    Undivided0();
    Next(2, 3);
    Next(3, 5);
    Next(5, 7);
    Odd(3, 3);
    Next(7, 11);
    Next(11, 13);
    Odd(3, 5);
    Next(13, 17);
    Next(17, 19);
  }

  lemma Undivided0()
    ensures Undivided(3) && Undivided(5) && Undivided(7) && Undivided(11)
    ensures Undivided(13) && Undivided(17) && Undivided(19)
  {
  }

  lemma Nexts1()
    ensures IsNext(19, 23) && IsNext(23, 29) && IsNext(29, 31) && IsNext(31, 37)
    ensures IsNext(37, 41) && IsNext(41, 43) && IsNext(43, 47) && IsNext(47, 53)
  {
    hide IsPrime, Product, OddProduct, IsNext, Undivided, Gap;
    Undivided1();
    Odd(3, 7);
    Next(19, 23);
    Odd(5, 5);
    Odd(3, 9);
    Next(23, 29);
    Next(29, 31);
    Odd(3, 11);
    Odd(5, 7);
    Next(31, 37);
    Odd(3, 13);
    Next(37, 41);
    Next(41, 43);
    Odd(3, 15);
    Next(43, 47);
    Odd(7, 7);
    Odd(3, 17);
    Next(47, 53);
  }

  lemma Undivided1()
    ensures Undivided(23) && Undivided(29) && Undivided(31) && Undivided(37)
    ensures Undivided(41) && Undivided(43) && Undivided(47) && Undivided(53)
  {
  }

  lemma Nexts2()
    ensures IsNext(53, 59) && IsNext(59, 61) && IsNext(61, 67) && IsNext(67, 71)
    ensures IsNext(71, 73) && IsNext(73, 79) && IsNext(79, 83) && IsNext(83, 89)
  {
    hide IsPrime, Product, OddProduct, IsNext, Undivided, Gap;
    Undivided2();
    Odd(5, 11);
    Odd(3, 19);
    Next(53, 59);
    Next(59, 61);
    Odd(3, 21);
    Odd(5, 13);
    Next(61, 67);
    Odd(3, 23);
    Next(67, 71);
    Next(71, 73);
    Odd(3, 25);
    Odd(7, 11);
    Next(73, 79);
    Odd(3, 27);
    Next(79, 83);
    Odd(5, 17);
    Odd(3, 29);
    Next(83, 89);
  }

  lemma Undivided2()
    ensures Undivided(59) && Undivided(61) && Undivided(67) && Undivided(71)
    ensures Undivided(73) && Undivided(79) && Undivided(83) && Undivided(89)
  {
  }

  lemma Nexts3()
    ensures IsNext(89, 97) && IsNext(97, 101) && IsNext(101, 103) && IsNext(103, 107)
    ensures IsNext(107, 109) && IsNext(109, 113) && IsNext(113, 127) && IsNext(127, 131)
  {
    hide IsPrime, Product, OddProduct, IsNext, Undivided, Gap;
    Undivided3();
    Odd(7, 13);
    Odd(3, 31);
    Odd(5, 19);
    Next(89, 97);
    Odd(3, 33);
    Next(97, 101);
    Next(101, 103);
    Odd(3, 35);
    Next(103, 107);
    Next(107, 109);
    Odd(3, 37);
    Next(109, 113);
    Odd(5, 23);
    Odd(3, 39);
    Odd(7, 17);
    Odd(11, 11);
    Odd(3, 41);
    Odd(5, 25);
    Next(113, 127);
    Odd(3, 43);
    Next(127, 131);
  }

  lemma Undivided3()
    ensures Undivided(97) && Undivided(101) && Undivided(103) && Undivided(107)
    ensures Undivided(109) && Undivided(113) && Undivided(127) && Undivided(131)
  {
  }

  lemma Nexts4()
    ensures IsNext(131, 137) && IsNext(137, 139) && IsNext(139, 149) && IsNext(149, 151)
    ensures IsNext(151, 157) && IsNext(157, 163) && IsNext(163, 167) && IsNext(167, 173)
  {
    hide IsPrime, Product, OddProduct, IsNext, Undivided, Gap;
    Undivided4();
    Odd(7, 19);
    Odd(3, 45);
    Next(131, 137);
    Next(137, 139);
    Odd(3, 47);
    Odd(11, 13);
    Odd(5, 29);
    Odd(3, 49);
    Next(139, 149);
    Next(149, 151);
    Odd(3, 51);
    Odd(5, 31);
    Next(151, 157);
    Odd(3, 53);
    Odd(7, 23);
    Next(157, 163);
    Odd(3, 55);
    Next(163, 167);
    Odd(13, 13);
    Odd(3, 57);
    Next(167, 173);
  }

  lemma Undivided4()
    ensures Undivided(137) && Undivided(139) && Undivided(149) && Undivided(151)
    ensures Undivided(157) && Undivided(163) && Undivided(167) && Undivided(173)
  {
  }

  lemma Nexts5()
    ensures IsNext(173, 179) && IsNext(179, 181) && IsNext(181, 191) && IsNext(191, 193)
    ensures IsNext(193, 197) && IsNext(197, 199) && IsNext(199, 211) && IsNext(211, 223)
  {
    hide IsPrime, Product, OddProduct, IsNext, Undivided, Gap;
    Undivided5();
    Odd(5, 35);
    Odd(3, 59);
    Next(173, 179);
    Next(179, 181);
    Odd(3, 61);
    Odd(5, 37);
    Odd(11, 17);
    Odd(3, 63);
    Next(181, 191);
    Next(191, 193);
    Odd(3, 65);
    Next(193, 197);
    Next(197, 199);
    Odd(3, 67);
    Odd(7, 29);
    Odd(5, 41);
    Odd(3, 69);
    Odd(11, 19);
    Next(199, 211);
    Odd(3, 71);
    Odd(5, 43);
    Odd(7, 31);
    Odd(3, 73);
    Odd(13, 17);
    Next(211, 223);
  }

  lemma Undivided5()
    ensures Undivided(179) && Undivided(181) && Undivided(191) && Undivided(193)
    ensures Undivided(197) && Undivided(199) && Undivided(211) && Undivided(223)
  {
  }

  lemma Nexts6()
    ensures IsNext(223, 227) && IsNext(227, 229) && IsNext(229, 233) && IsNext(233, 239)
    ensures IsNext(239, 241) && IsNext(241, 251) && IsNext(251, 257) && IsNext(257, 263)
  {
    hide IsPrime, Product, OddProduct, IsNext, Undivided, Gap;
    Undivided6();
    Odd(3, 75);
    Next(223, 227);
    Next(227, 229);
    Odd(3, 77);
    Next(229, 233);
    Odd(5, 47);
    Odd(3, 79);
    Next(233, 239);
    Next(239, 241);
    Odd(3, 81);
    Odd(5, 49);
    Odd(13, 19);
    Odd(3, 83);
    Next(241, 251);
    Odd(11, 23);
    Odd(3, 85);
    Next(251, 257);
    Odd(7, 37);
    Odd(3, 87);
    Next(257, 263);
  }

  lemma Undivided6()
    ensures Undivided(227) && Undivided(229) && Undivided(233) && Undivided(239)
    ensures Undivided(241) && Undivided(251) && Undivided(257) && Undivided(263)
  {
  }

  lemma Nexts7()
    ensures IsNext(263, 269) && IsNext(269, 271) && IsNext(271, 277) && IsNext(277, 281)
    ensures IsNext(281, 283) && IsNext(283, 293) && IsNext(293, 307) && IsNext(307, 311)
  {
    hide IsPrime, Product, OddProduct, IsNext, Undivided, Gap;
    Undivided7();
    Odd(5, 53);
    Odd(3, 89);
    Next(263, 269);
    Next(269, 271);
    Odd(3, 91);
    Odd(5, 55);
    Next(271, 277);
    Odd(3, 93);
    Next(277, 281);
    Next(281, 283);
    Odd(3, 95);
    Odd(7, 41);
    Odd(17, 17);
    Odd(3, 97);
    Next(283, 293);
    Odd(5, 59);
    Odd(3, 99);
    Odd(13, 23);
    Odd(7, 43);
    Odd(3, 101);
    Odd(5, 61);
    Next(293, 307);
    Odd(3, 103);
    Next(307, 311);
  }

  lemma Undivided7()
    ensures Undivided(269) && Undivided(271) && Undivided(277) && Undivided(281)
    ensures Undivided(283) && Undivided(293) && Undivided(307) && Undivided(311)
  {
  }

  /** The rows hold the first 64 primes: each is prime, and there is none in between. */
  lemma FirstPrimes(r: nat, i: nat)
    requires r < 8 && i < 8
    ensures PrimeAt(r, i)
  {
    hide IsNext;
    match r
    case 0 => Nexts0();
    case 1 => Nexts1();
    case 2 => Nexts2();
    case 3 => Nexts3();
    case 4 => Nexts4();
    case 5 => Nexts5();
    case 6 => Nexts6();
    case _ => Nexts7();
  }

  // k is the first 32 bits of the fractional part of the root of p, whose integer part is n.

  predicate SquareRoot(p: nat, n: nat, k: nat) {
    var r := n * U32 + k;
    k < U32 && r * r <= p * (U32 * U32) < (r + 1) * (r + 1)
  }

  predicate CubeRoot(p: nat, n: nat, k: nat) {
    var r := n * U32 + k;
    k < U32 && r * r * r <= p * (U32 * U32 * U32) < (r + 1) * (r + 1) * (r + 1)
  }

  lemma Cubes0()
    ensures CubeRoot(2, 1, 0x428a2f98) && CubeRoot(3, 1, 0x71374491)
    ensures CubeRoot(5, 1, 0xb5c0fbcf) && CubeRoot(7, 1, 0xe9b5dba5)
    ensures CubeRoot(11, 2, 0x3956c25b) && CubeRoot(13, 2, 0x59f111f1)
    ensures CubeRoot(17, 2, 0x923f82a4) && CubeRoot(19, 2, 0xab1c5ed5)
  {
  }

  lemma Cubes1()
    ensures CubeRoot(23, 2, 0xd807aa98) && CubeRoot(29, 3, 0x12835b01)
    ensures CubeRoot(31, 3, 0x243185be) && CubeRoot(37, 3, 0x550c7dc3)
    ensures CubeRoot(41, 3, 0x72be5d74) && CubeRoot(43, 3, 0x80deb1fe)
    ensures CubeRoot(47, 3, 0x9bdc06a7) && CubeRoot(53, 3, 0xc19bf174)
  {
  }

  lemma Cubes2()
    ensures CubeRoot(59, 3, 0xe49b69c1) && CubeRoot(61, 3, 0xefbe4786)
    ensures CubeRoot(67, 4, 0x0fc19dc6) && CubeRoot(71, 4, 0x240ca1cc)
    ensures CubeRoot(73, 4, 0x2de92c6f) && CubeRoot(79, 4, 0x4a7484aa)
    ensures CubeRoot(83, 4, 0x5cb0a9dc) && CubeRoot(89, 4, 0x76f988da)
  {
  }

  lemma Cubes3()
    ensures CubeRoot(97, 4, 0x983e5152) && CubeRoot(101, 4, 0xa831c66d)
    ensures CubeRoot(103, 4, 0xb00327c8) && CubeRoot(107, 4, 0xbf597fc7)
    ensures CubeRoot(109, 4, 0xc6e00bf3) && CubeRoot(113, 4, 0xd5a79147)
    ensures CubeRoot(127, 5, 0x06ca6351) && CubeRoot(131, 5, 0x14292967)
  {
  }

  lemma Cubes4()
    ensures CubeRoot(137, 5, 0x27b70a85) && CubeRoot(139, 5, 0x2e1b2138)
    ensures CubeRoot(149, 5, 0x4d2c6dfc) && CubeRoot(151, 5, 0x53380d13)
    ensures CubeRoot(157, 5, 0x650a7354) && CubeRoot(163, 5, 0x766a0abb)
    ensures CubeRoot(167, 5, 0x81c2c92e) && CubeRoot(173, 5, 0x92722c85)
  {
  }

  lemma Cubes5()
    ensures CubeRoot(179, 5, 0xa2bfe8a1) && CubeRoot(181, 5, 0xa81a664b)
    ensures CubeRoot(191, 5, 0xc24b8b70) && CubeRoot(193, 5, 0xc76c51a3)
    ensures CubeRoot(197, 5, 0xd192e819) && CubeRoot(199, 5, 0xd6990624)
    ensures CubeRoot(211, 5, 0xf40e3585) && CubeRoot(223, 6, 0x106aa070)
  {
  }

  lemma Cubes6()
    ensures CubeRoot(227, 6, 0x19a4c116) && CubeRoot(229, 6, 0x1e376c08)
    ensures CubeRoot(233, 6, 0x2748774c) && CubeRoot(239, 6, 0x34b0bcb5)
    ensures CubeRoot(241, 6, 0x391c0cb3) && CubeRoot(251, 6, 0x4ed8aa4a)
    ensures CubeRoot(257, 6, 0x5b9cca4f) && CubeRoot(263, 6, 0x682e6ff3)
  {
  }

  lemma Cubes7()
    ensures CubeRoot(269, 6, 0x748f82ee) && CubeRoot(271, 6, 0x78a5636f)
    ensures CubeRoot(277, 6, 0x84c87814) && CubeRoot(281, 6, 0x8cc70208)
    ensures CubeRoot(283, 6, 0x90befffa) && CubeRoot(293, 6, 0xa4506ceb)
    ensures CubeRoot(307, 6, 0xbef9a3f7) && CubeRoot(311, 6, 0xc67178f2)
  {
  }

  // The integer part of the cube root of a prime below 343.
  function Whole(p: nat): nat {
    if p < 8 then 1 else if p < 27 then 2 else if p < 64 then 3 else if p < 125 then 4 else if p < 216 then 5 else 6
  }

  /** Section 4.2.2: the round constants are those of the cube roots of the first 64 primes. */
  lemma RoundConstants(r: nat, i: nat)
    requires r < 8 && i < 8
    ensures PrimeAt(r, i) && CubeRoot(PrimeRow(r)[i], Whole(PrimeRow(r)[i]), KRow(r)[i])
  {
    hide PrimeAt, CubeRoot;
    FirstPrimes(r, i);
    match r
    case 0 => Cubes0();
    case 1 => Cubes1();
    case 2 => Cubes2();
    case 3 => Cubes3();
    case 4 => Cubes4();
    case 5 => Cubes5();
    case 6 => Cubes6();
    case _ => Cubes7();
  }

  lemma Squares()
    ensures SquareRoot(2, 1, 0x6a09e667) && SquareRoot(3, 1, 0xbb67ae85)
    ensures SquareRoot(5, 2, 0x3c6ef372) && SquareRoot(7, 2, 0xa54ff53a)
    ensures SquareRoot(11, 3, 0x510e527f) && SquareRoot(13, 3, 0x9b05688c)
    ensures SquareRoot(17, 4, 0x1f83d9ab) && SquareRoot(19, 4, 0x5be0cd19)
  {
  }

  /** Section 5.3.3: the initial hash value is that of the square roots of the first eight. */
  lemma InitialHash(i: nat)
    requires i < 8
    ensures var p := PrimeRow(0)[i];
            var n := if p < 4 then 1 else if p < 9 then 2 else if p < 16 then 3 else 4;
            PrimeAt(0, i) && SquareRoot(p, n, H0Row()[i])
  {
    hide PrimeAt, SquareRoot;
    FirstPrimes(0, i);
    Squares();
  }
}
