/** The constants and the functions of SHA-256 as FIPS 180-4 defines them: roots of the first
    primes (sections 4.2.2 and 5.3.3), and bits (section 4.1.2). */
module Sha256Standard {
  import opened Bytes
  import opened Sha256

  // ----- the first 64 primes -----

  ghost predicate IsPrime(n: nat) { n >= 2 && forall d :: 2 <= d < n ==> n % d != 0 }

  function PrimeRow(r: nat): (p: seq<nat>)
    requires r < 8
    ensures |p| == 8
  {
    if r == 0 then [2, 3, 5, 7, 11, 13, 17, 19]
    else if r == 1 then [23, 29, 31, 37, 41, 43, 47, 53]
    else if r == 2 then [59, 61, 67, 71, 73, 79, 83, 89]
    else if r == 3 then [97, 101, 103, 107, 109, 113, 127, 131]
    else if r == 4 then [137, 139, 149, 151, 157, 163, 167, 173]
    else if r == 5 then [179, 181, 191, 193, 197, 199, 211, 223]
    else if r == 6 then [227, 229, 233, 239, 241, 251, 257, 263]
    else [269, 271, 277, 281, 283, 293, 307, 311]
  }

  function Prime(t: nat): nat
    requires t < 64
  {
    PrimeRow(t / 8)[t % 8]
  }

  /** Division by the primes up to 17. */
  predicate Trial(n: nat) {
    n >= 2 && (n == 2 || n % 2 != 0) && (n == 3 || n % 3 != 0) && (n == 5 || n % 5 != 0) && (n == 7 || n % 7 != 0)
    && (n == 11 || n % 11 != 0) && (n == 13 || n % 13 != 0) && (n == 17 || n % 17 != 0)
  }

  /** It decides primality below the square of 19. */
  lemma TrialDecides(n: nat)
    requires n < 361
    ensures IsPrime(n) <==> Trial(n)
  {
    if Trial(n) {
      forall d | 2 <= d < n ensures n % d != 0 {
        if n % d == 0 {
          SmallDivisor(n, d, n / d);
        }
      }
    }
  }

  /** One of two factors is below 19, and so has a factor that is tried. */
  lemma SmallDivisor(n: nat, d: nat, e: nat)
    requires d >= 2 && n == d * e && d < n < 361
    ensures !Trial(n)
  {
    if d < 19 {
      Tried(n, d, e);
    } else if e < 19 {
      Tried(n, e, d);
    } else {
      MulMonotone(19, 19, e);
      MulMonotone(e, 19, d);
    }
  }

  lemma Tried(n: nat, d: nat, e: nat)
    requires 2 <= d < 19 && n == d * e && d < n
    ensures !Trial(n)
  {
    if d % 2 == 0 {
      Divides(n, 2, d / 2, e);
    } else if d % 3 == 0 {
      Divides(n, 3, d / 3, e);
    } else {
      Divides(n, d, 1, e);
    }
  }

  lemma Divides(n: nat, p: nat, k: nat, e: nat)
    requires p > 0 && n == p * k * e
    ensures n % p == 0
  {
    assert n == p * (k * e);
    ModUnique(n, p, k * e, 0);
  }

  // What passes the trial in each stretch is in the row.

  lemma Sieve0(n: nat)
    requires 1 < n <= 7 && Trial(n)
    ensures n in [2, 3, 5, 7]
  {
    var k := n / 2;
    assert n == 2 || n == 2 * k + 1;
  }

  lemma Sieve4(n: nat)
    requires 7 < n <= 19 && Trial(n)
    ensures n in [11, 13, 17, 19]
  {
    var k := n / 2;
    assert n == 2 || n == 2 * k + 1;
  }

  lemma Sieve8(n: nat)
    requires 19 < n <= 37 && Trial(n)
    ensures n in [23, 29, 31, 37]
  {
    var k := n / 2;
    assert n == 2 || n == 2 * k + 1;
  }

  lemma Sieve12(n: nat)
    requires 37 < n <= 53 && Trial(n)
    ensures n in [41, 43, 47, 53]
  {
    var k := n / 2;
    assert n == 2 || n == 2 * k + 1;
  }

  lemma Sieve16(n: nat)
    requires 53 < n <= 71 && Trial(n)
    ensures n in [59, 61, 67, 71]
  {
    var k := n / 2;
    assert n == 2 || n == 2 * k + 1;
  }

  lemma Sieve20(n: nat)
    requires 71 < n <= 89 && Trial(n)
    ensures n in [73, 79, 83, 89]
  {
    var k := n / 2;
    assert n == 2 || n == 2 * k + 1;
  }

  lemma Sieve24(n: nat)
    requires 89 < n <= 107 && Trial(n)
    ensures n in [97, 101, 103, 107]
  {
    var k := n / 2;
    assert n == 2 || n == 2 * k + 1;
  }

  lemma Sieve28(n: nat)
    requires 107 < n <= 131 && Trial(n)
    ensures n in [109, 113, 127, 131]
  {
    var k := n / 2;
    assert n == 2 || n == 2 * k + 1;
  }

  lemma Sieve32(n: nat)
    requires 131 < n <= 151 && Trial(n)
    ensures n in [137, 139, 149, 151]
  {
    var k := n / 2;
    assert n == 2 || n == 2 * k + 1;
  }

  lemma Sieve36(n: nat)
    requires 151 < n <= 173 && Trial(n)
    ensures n in [157, 163, 167, 173]
  {
    var k := n / 2;
    assert n == 2 || n == 2 * k + 1;
  }

  lemma Sieve40(n: nat)
    requires 173 < n <= 193 && Trial(n)
    ensures n in [179, 181, 191, 193]
  {
    var k := n / 2;
    assert n == 2 || n == 2 * k + 1;
  }

  lemma Sieve44(n: nat)
    requires 193 < n <= 223 && Trial(n)
    ensures n in [197, 199, 211, 223]
  {
    var k := n / 2;
    assert n == 2 || n == 2 * k + 1;
  }

  lemma Sieve48(n: nat)
    requires 223 < n <= 239 && Trial(n)
    ensures n in [227, 229, 233, 239]
  {
    var k := n / 2;
    assert n == 2 || n == 2 * k + 1;
  }

  lemma Sieve52(n: nat)
    requires 239 < n <= 263 && Trial(n)
    ensures n in [241, 251, 257, 263]
  {
    var k := n / 2;
    assert n == 2 || n == 2 * k + 1;
  }

  lemma Sieve56(n: nat)
    requires 263 < n <= 281 && Trial(n)
    ensures n in [269, 271, 277, 281]
  {
    var k := n / 2;
    assert n == 2 || n == 2 * k + 1;
  }

  lemma Sieve60(n: nat)
    requires 281 < n <= 311 && Trial(n)
    ensures n in [283, 293, 307, 311]
  {
    var k := n / 2;
    assert n == 2 || n == 2 * k + 1;
  }

  lemma Tried0(t: nat)
    requires t < 16
    ensures Trial(Prime(t)) && Prime(t) < 361 && (t > 0 ==> Prime(t - 1) < Prime(t))
  {
  }

  lemma Tried16(t: nat)
    requires 16 <= t < 32
    ensures Trial(Prime(t)) && Prime(t) < 361 && (t > 0 ==> Prime(t - 1) < Prime(t))
  {
  }

  lemma Tried32(t: nat)
    requires 32 <= t < 48
    ensures Trial(Prime(t)) && Prime(t) < 361 && (t > 0 ==> Prime(t - 1) < Prime(t))
  {
  }

  lemma Tried48(t: nat)
    requires 48 <= t < 64
    ensures Trial(Prime(t)) && Prime(t) < 361 && (t > 0 ==> Prime(t - 1) < Prime(t))
  {
  }

  /** The entries of the table are primes, in ascending order, and no prime up to the last of them is missing:
      Prime(t) is the t-th prime, from 2 on. */
  lemma FirstPrimes(t: nat)
    requires t < 64
    ensures IsPrime(Prime(t)) && (t > 0 ==> Prime(t - 1) < Prime(t))
  {
    if t < 16 {
      Tried0(t);
    } else if t < 32 {
      Tried16(t);
    } else if t < 48 {
      Tried32(t);
    } else {
      Tried48(t);
    }
    TrialDecides(Prime(t));
  }

  lemma NoPrimeMissing(n: nat)
    requires n <= 311 && IsPrime(n)
    ensures exists t :: 0 <= t < 64 && Prime(t) == n
  {
    TrialDecides(n);
    hide IsPrime, Trial;
    var r := InSomeRow(n);
    hide PrimeRow;
    var k :| 0 <= k < 8 && PrimeRow(r)[k] == n;
    assert (8 * r + k) / 8 == r && (8 * r + k) % 8 == k;
    assert Prime(8 * r + k) == n;
  }

  lemma InSomeRow(n: nat) returns (r: nat)
    requires n <= 311 && Trial(n)
    ensures r < 8 && n in PrimeRow(r)
  {
    assert n >= 2;
    hide Trial, PrimeRow;
    if n <= 7 {
      Sieve0(n);
      r := 0;
    } else if n <= 19 {
      Sieve4(n);
      r := 0;
    } else if n <= 37 {
      Sieve8(n);
      r := 1;
    } else if n <= 53 {
      Sieve12(n);
      r := 1;
    } else if n <= 71 {
      Sieve16(n);
      r := 2;
    } else if n <= 89 {
      Sieve20(n);
      r := 2;
    } else if n <= 107 {
      Sieve24(n);
      r := 3;
    } else if n <= 131 {
      Sieve28(n);
      r := 3;
    } else if n <= 151 {
      Sieve32(n);
      r := 4;
    } else if n <= 173 {
      Sieve36(n);
      r := 4;
    } else if n <= 193 {
      Sieve40(n);
      r := 5;
    } else if n <= 223 {
      Sieve44(n);
      r := 5;
    } else if n <= 239 {
      Sieve48(n);
      r := 6;
    } else if n <= 263 {
      Sieve52(n);
      r := 6;
    } else if n <= 281 {
      Sieve56(n);
      r := 7;
    } else {
      Sieve60(n);
      r := 7;
    }
  }

  // ----- the constants -----

  /** x / 2^32 is the root of p cut off after 32 bits of fraction, and k is that fraction. */
  predicate CubeRoot(p: nat, q: nat, k: nat) {
    var x := q * 0x1_0000_0000 + k;
    x * x * x <= p * 0x1_0000_0000_0000_0000_0000_0000 < (x + 1) * (x + 1) * (x + 1)
  }

  predicate SquareRoot(p: nat, q: nat, k: nat) {
    var x := q * 0x1_0000_0000 + k;
    x * x <= p * 0x1_0000_0000_0000_0000 < (x + 1) * (x + 1)
  }

  predicate KRoot(t: nat, q: nat)
    requires t < 64
  {
    CubeRoot(Prime(t), q, K(t) as int)
  }

  lemma RootOf(t: nat, q: nat, p: nat, k: nat)
    requires t < 64 && Prime(t) == p && K(t) as int == k && CubeRoot(p, q, k)
    ensures KRoot(t, q)
  {
    hide CubeRoot, Prime, K;
  }

  lemma Cubes0()
    ensures KRoot(0, 1) && KRoot(1, 1) && KRoot(2, 1) && KRoot(3, 1)
  {
    RootOf(0, 1, 2, 0x428a2f98); RootOf(1, 1, 3, 0x71374491);
    RootOf(2, 1, 5, 0xb5c0fbcf); RootOf(3, 1, 7, 0xe9b5dba5);
    hide KRoot;
  }

  lemma Cubes4()
    ensures KRoot(4, 2) && KRoot(5, 2) && KRoot(6, 2) && KRoot(7, 2)
  {
    RootOf(4, 2, 11, 0x3956c25b); RootOf(5, 2, 13, 0x59f111f1);
    RootOf(6, 2, 17, 0x923f82a4); RootOf(7, 2, 19, 0xab1c5ed5);
    hide KRoot;
  }

  lemma Cubes8()
    ensures KRoot(8, 2) && KRoot(9, 3) && KRoot(10, 3) && KRoot(11, 3)
  {
    RootOf(8, 2, 23, 0xd807aa98); RootOf(9, 3, 29, 0x12835b01);
    RootOf(10, 3, 31, 0x243185be); RootOf(11, 3, 37, 0x550c7dc3);
    hide KRoot;
  }

  lemma Cubes12()
    ensures KRoot(12, 3) && KRoot(13, 3) && KRoot(14, 3) && KRoot(15, 3)
  {
    RootOf(12, 3, 41, 0x72be5d74); RootOf(13, 3, 43, 0x80deb1fe);
    RootOf(14, 3, 47, 0x9bdc06a7); RootOf(15, 3, 53, 0xc19bf174);
    hide KRoot;
  }

  lemma Cubes16()
    ensures KRoot(16, 3) && KRoot(17, 3) && KRoot(18, 4) && KRoot(19, 4)
  {
    RootOf(16, 3, 59, 0xe49b69c1); RootOf(17, 3, 61, 0xefbe4786);
    RootOf(18, 4, 67, 0x0fc19dc6); RootOf(19, 4, 71, 0x240ca1cc);
    hide KRoot;
  }

  lemma Cubes20()
    ensures KRoot(20, 4) && KRoot(21, 4) && KRoot(22, 4) && KRoot(23, 4)
  {
    RootOf(20, 4, 73, 0x2de92c6f); RootOf(21, 4, 79, 0x4a7484aa);
    RootOf(22, 4, 83, 0x5cb0a9dc); RootOf(23, 4, 89, 0x76f988da);
    hide KRoot;
  }

  lemma Cubes24()
    ensures KRoot(24, 4) && KRoot(25, 4) && KRoot(26, 4) && KRoot(27, 4)
  {
    RootOf(24, 4, 97, 0x983e5152); RootOf(25, 4, 101, 0xa831c66d);
    RootOf(26, 4, 103, 0xb00327c8); RootOf(27, 4, 107, 0xbf597fc7);
    hide KRoot;
  }

  lemma Cubes28()
    ensures KRoot(28, 4) && KRoot(29, 4) && KRoot(30, 5) && KRoot(31, 5)
  {
    RootOf(28, 4, 109, 0xc6e00bf3); RootOf(29, 4, 113, 0xd5a79147);
    RootOf(30, 5, 127, 0x06ca6351); RootOf(31, 5, 131, 0x14292967);
    hide KRoot;
  }

  lemma Cubes32()
    ensures KRoot(32, 5) && KRoot(33, 5) && KRoot(34, 5) && KRoot(35, 5)
  {
    RootOf(32, 5, 137, 0x27b70a85); RootOf(33, 5, 139, 0x2e1b2138);
    RootOf(34, 5, 149, 0x4d2c6dfc); RootOf(35, 5, 151, 0x53380d13);
    hide KRoot;
  }

  lemma Cubes36()
    ensures KRoot(36, 5) && KRoot(37, 5) && KRoot(38, 5) && KRoot(39, 5)
  {
    RootOf(36, 5, 157, 0x650a7354); RootOf(37, 5, 163, 0x766a0abb);
    RootOf(38, 5, 167, 0x81c2c92e); RootOf(39, 5, 173, 0x92722c85);
    hide KRoot;
  }

  lemma Cubes40()
    ensures KRoot(40, 5) && KRoot(41, 5) && KRoot(42, 5) && KRoot(43, 5)
  {
    RootOf(40, 5, 179, 0xa2bfe8a1); RootOf(41, 5, 181, 0xa81a664b);
    RootOf(42, 5, 191, 0xc24b8b70); RootOf(43, 5, 193, 0xc76c51a3);
    hide KRoot;
  }

  lemma Cubes44()
    ensures KRoot(44, 5) && KRoot(45, 5) && KRoot(46, 5) && KRoot(47, 6)
  {
    RootOf(44, 5, 197, 0xd192e819); RootOf(45, 5, 199, 0xd6990624);
    RootOf(46, 5, 211, 0xf40e3585); RootOf(47, 6, 223, 0x106aa070);
    hide KRoot;
  }

  lemma Cubes48()
    ensures KRoot(48, 6) && KRoot(49, 6) && KRoot(50, 6) && KRoot(51, 6)
  {
    RootOf(48, 6, 227, 0x19a4c116); RootOf(49, 6, 229, 0x1e376c08);
    RootOf(50, 6, 233, 0x2748774c); RootOf(51, 6, 239, 0x34b0bcb5);
    hide KRoot;
  }

  lemma Cubes52()
    ensures KRoot(52, 6) && KRoot(53, 6) && KRoot(54, 6) && KRoot(55, 6)
  {
    RootOf(52, 6, 241, 0x391c0cb3); RootOf(53, 6, 251, 0x4ed8aa4a);
    RootOf(54, 6, 257, 0x5b9cca4f); RootOf(55, 6, 263, 0x682e6ff3);
    hide KRoot;
  }

  lemma Cubes56()
    ensures KRoot(56, 6) && KRoot(57, 6) && KRoot(58, 6) && KRoot(59, 6)
  {
    RootOf(56, 6, 269, 0x748f82ee); RootOf(57, 6, 271, 0x78a5636f);
    RootOf(58, 6, 277, 0x84c87814); RootOf(59, 6, 281, 0x8cc70208);
    hide KRoot;
  }

  lemma Cubes60()
    ensures KRoot(60, 6) && KRoot(61, 6) && KRoot(62, 6) && KRoot(63, 6)
  {
    RootOf(60, 6, 283, 0x90befffa); RootOf(61, 6, 293, 0xa4506ceb);
    RootOf(62, 6, 307, 0xbef9a3f7); RootOf(63, 6, 311, 0xc67178f2);
    hide KRoot;
  }

  /** Section 4.2.2: K(t) is the first 32 bits of the fraction of the cube root of the t-th prime. */
  lemma KIsCubeRoot(t: nat)
    requires t < 64
    ensures exists q: nat :: KRoot(t, q)
  {
    hide KRoot;
    if t < 8 {
      Cubes0();
      Cubes4();
    } else if t < 16 {
      Cubes8();
      Cubes12();
    } else if t < 24 {
      Cubes16();
      Cubes20();
    } else if t < 32 {
      Cubes24();
      Cubes28();
    } else if t < 40 {
      Cubes32();
      Cubes36();
    } else if t < 48 {
      Cubes40();
      Cubes44();
    } else if t < 56 {
      Cubes48();
      Cubes52();
    } else {
      Cubes56();
      Cubes60();
    }
  }

  predicate InitialRoot(t: nat, q: nat)
    requires t < 8
  {
    SquareRoot(Prime(t), q, H0[t] as int)
  }

  lemma SquareOf(t: nat, q: nat, p: nat, k: nat)
    requires t < 8 && Prime(t) == p && H0[t] as int == k && SquareRoot(p, q, k)
    ensures InitialRoot(t, q)
  {
    hide SquareRoot, Prime;
  }

  lemma Squares()
    ensures InitialRoot(0, 1) && InitialRoot(1, 1) && InitialRoot(2, 2) && InitialRoot(3, 2)
    ensures InitialRoot(4, 3) && InitialRoot(5, 3) && InitialRoot(6, 4) && InitialRoot(7, 4)
  {
    SquareOf(0, 1, 2, 0x6a09e667); SquareOf(1, 1, 3, 0xbb67ae85);
    SquareOf(2, 2, 5, 0x3c6ef372); SquareOf(3, 2, 7, 0xa54ff53a);
    SquareOf(4, 3, 11, 0x510e527f); SquareOf(5, 3, 13, 0x9b05688c);
    SquareOf(6, 4, 17, 0x1f83d9ab); SquareOf(7, 4, 19, 0x5be0cd19);
    hide InitialRoot;
  }

  /** Section 5.3.3: the initial words are those of the square roots of the first eight. */
  lemma InitialIsSquareRoot(t: nat)
    requires t < 8
    ensures exists q: nat :: InitialRoot(t, q)
  {
    Squares();
    hide InitialRoot;
  }

  // ----- the functions, bit by bit -----

  function Sum(x: word, y: word): word { x ^ y }
  function Both(x: word, y: word): word { x & y }
  function Flipped(x: word): word { !x }

  /** Bit i of a word, zero or one. */
  function Nth(x: word, i: word): word
    requires i < 32
  {
    (x >> i) & 1
  }

  lemma ZeroOrOne(x: word, i: word)
    requires i < 32
    ensures Nth(x, i) == 0 || Nth(x, i) == 1
  {
  }

  lemma XorNth(x: word, y: word, i: word)
    requires i < 32
    ensures Nth(x ^ y, i) == Sum(Nth(x, i), Nth(y, i))
  {
  }

  lemma BothNth(x: word, y: word, i: word)
    requires i < 32
    ensures Nth(Both(x, y), i) == if Nth(x, i) == 1 then Nth(y, i) else 0
  {
  }

  lemma FlippedNth(x: word, i: word)
    requires i < 32
    ensures Nth(Flipped(x), i) == if Nth(x, i) == 1 then 0 else 1
  {
  }

  lemma SumIf(a: word, b: word)
    requires (a == 0 || a == 1) && (b == 0 || b == 1)
    ensures Sum(a, b) == if a == b then 0 else 1
  {
  }

  lemma ChSum(x: word, y: word, z: word, i: word)
    requires i < 32
    ensures Nth(Ch(x, y, z), i) == Sum(Nth(x & y, i), Nth(!x & z, i))
  {
    hide Nth, Sum;
    XorNth(x & y, !x & z, i);
  }

  lemma ChParts(x: word, y: word, z: word, i: word)
    requires i < 32
    ensures Nth(Ch(x, y, z), i) == Sum(Nth(Both(x, y), i), Nth(Both(Flipped(x), z), i))
  {
    hide Nth, Sum, Ch;
    ChSum(x, y, z, i);
  }

  /** Ch chooses by its first argument, and Maj takes the majority. */
  lemma ChChooses(x: word, y: word, z: word, i: word)
    requires i < 32
    ensures Nth(Ch(x, y, z), i) == if Nth(x, i) == 1 then Nth(y, i) else Nth(z, i)
  {
    hide Nth, Sum, Both, Flipped, Ch;
    ChParts(x, y, z, i);
    ZeroOrOne(x, i); ZeroOrOne(y, i); ZeroOrOne(z, i);
    BothNth(x, y, i); FlippedNth(x, i); BothNth(Flipped(x), z, i);
    SumIf(Nth(Both(x, y), i), Nth(Both(Flipped(x), z), i));
  }

  lemma MajSum(x: word, y: word, z: word, i: word)
    requires i < 32
    ensures Nth(Maj(x, y, z), i) == Sum(Sum(Nth(x & y, i), Nth(x & z, i)), Nth(y & z, i))
  {
    hide Nth, Sum;
    XorNth(x & y, x & z, i);
    XorNth((x & y) ^ (x & z), y & z, i);
  }

  lemma MajParts(x: word, y: word, z: word, i: word)
    requires i < 32
    ensures Nth(Maj(x, y, z), i) == Sum(Sum(Nth(Both(x, y), i), Nth(Both(x, z), i)), Nth(Both(y, z), i))
  {
    hide Nth, Sum, Maj;
    MajSum(x, y, z, i);
  }

  lemma MajIsMajority(x: word, y: word, z: word, i: word)
    requires i < 32
    ensures Nth(Maj(x, y, z), i) == if Nth(x, i) == Nth(y, i) then Nth(x, i) else Nth(z, i)
  {
    hide Nth, Sum, Both, Maj;
    MajParts(x, y, z, i);
    ZeroOrOne(x, i); ZeroOrOne(y, i); ZeroOrOne(z, i);
    BothNth(x, y, i); BothNth(x, z, i); BothNth(y, z, i);
    SumIf(Nth(Both(x, y), i), Nth(Both(x, z), i));
    SumIf(Sum(Nth(Both(x, y), i), Nth(Both(x, z), i)), Nth(Both(y, z), i));
  }

  lemma BigSigma0Parts(x: word, i: word)
    requires i < 32
    ensures Nth((x >> 2) | (x << 30), i) == Nth(x, (i + 2) % 32)
    ensures Nth((x >> 13) | (x << 19), i) == Nth(x, (i + 13) % 32)
    ensures Nth((x >> 22) | (x << 10), i) == Nth(x, (i + 22) % 32)
  {
  }

  /** The big sigmas are sums of three rotations to the right, the small ones of two and a shift. */
  lemma BigSigma0Bits(x: word, i: word)
    requires i < 32
    ensures Nth(BigSigma0(x), i)
         == Sum(Sum(Nth(x, (i + 2) % 32), Nth(x, (i + 13) % 32)), Nth(x, (i + 22) % 32))
  {
    BigSigma0Parts(x, i);
    hide Nth, Sum;
    XorNth((x >> 2) | (x << 30), (x >> 13) | (x << 19), i);
    XorNth(((x >> 2) | (x << 30)) ^ ((x >> 13) | (x << 19)), (x >> 22) | (x << 10), i);
  }

  lemma BigSigma1Parts(x: word, i: word)
    requires i < 32
    ensures Nth((x >> 6) | (x << 26), i) == Nth(x, (i + 6) % 32)
    ensures Nth((x >> 11) | (x << 21), i) == Nth(x, (i + 11) % 32)
    ensures Nth((x >> 25) | (x << 7), i) == Nth(x, (i + 25) % 32)
  {
  }

  lemma BigSigma1Bits(x: word, i: word)
    requires i < 32
    ensures Nth(BigSigma1(x), i)
         == Sum(Sum(Nth(x, (i + 6) % 32), Nth(x, (i + 11) % 32)), Nth(x, (i + 25) % 32))
  {
    BigSigma1Parts(x, i);
    hide Nth, Sum;
    XorNth((x >> 6) | (x << 26), (x >> 11) | (x << 21), i);
    XorNth(((x >> 6) | (x << 26)) ^ ((x >> 11) | (x << 21)), (x >> 25) | (x << 7), i);
  }

  lemma SmallSigma0Parts(x: word, i: word)
    requires i < 32
    ensures Nth((x >> 7) | (x << 25), i) == Nth(x, (i + 7) % 32)
    ensures Nth((x >> 18) | (x << 14), i) == Nth(x, (i + 18) % 32)
    ensures Nth(x >> 3, i) == if i < 29 then Nth(x, i + 3) else 0
  {
  }

  lemma SmallSigma0Bits(x: word, i: word)
    requires i < 32
    ensures Nth(SmallSigma0(x), i)
         == Sum(Sum(Nth(x, (i + 7) % 32), Nth(x, (i + 18) % 32)), if i < 29 then Nth(x, i + 3) else 0)
  {
    SmallSigma0Parts(x, i);
    hide Nth, Sum;
    XorNth((x >> 7) | (x << 25), (x >> 18) | (x << 14), i);
    XorNth(((x >> 7) | (x << 25)) ^ ((x >> 18) | (x << 14)), x >> 3, i);
  }

  lemma SmallSigma1Parts(x: word, i: word)
    requires i < 32
    ensures Nth((x >> 17) | (x << 15), i) == Nth(x, (i + 17) % 32)
    ensures Nth((x >> 19) | (x << 13), i) == Nth(x, (i + 19) % 32)
    ensures Nth(x >> 10, i) == if i < 22 then Nth(x, i + 10) else 0
  {
  }

  lemma SmallSigma1Bits(x: word, i: word)
    requires i < 32
    ensures Nth(SmallSigma1(x), i)
         == Sum(Sum(Nth(x, (i + 17) % 32), Nth(x, (i + 19) % 32)), if i < 22 then Nth(x, i + 10) else 0)
  {
    SmallSigma1Parts(x, i);
    hide Nth, Sum;
    XorNth((x >> 17) | (x << 15), (x >> 19) | (x << 13), i);
    XorNth(((x >> 17) | (x << 15)) ^ ((x >> 19) | (x << 13)), x >> 10, i);
  }
}
