/** SHA-256 and HMAC told once more: the constants by what they are, the sigma functions by their bits,
    the rounds by the two sequences of registers, padding and digest by the numbers they denote. */
module Sha256Reference {
  import opened Bits
  import opened Buffers
  import opened Word32
  import opened Sha256Spec
  import opened PrimeField

  // ---------------------------------------------------------------- the constants

  function PrimeRow(r: nat): (p: seq<nat>)
    requires r < 8
    ensures |p| == 8
  {
    if r == 0 then [2, 3, 5, 7, 11, 13, 17, 19]
    else if r == 1 then [23, 29, 31, 37, 41, 43, 47, 53]
    else if r == 2 then [59, 61, 67, 71, 73, 79, 83, 89]
    else if r == 3 then [97, 101, 103, 107, 109, 113, 127, 131]
    else if r == 4 then [137, 139, 149, 151, 157, 163, 167, 173]
    else if r == 5 then [179, 181, 191, 193, 197, 199, 211, 223]
    else if r == 6 then [227, 229, 233, 239, 241, 251, 257, 263]
    else [269, 271, 277, 281, 283, 293, 307, 311]
  }

  /** Prime number t, from 2 for t = 0. */
  function Prime(t: nat): nat
    requires t < 64
  {
    PrimeRow(t / 8)[t % 8]
  }

  function CubeRoot(p: nat): nat {
    if p < 8 then 1 else if p < 27 then 2 else if p < 64 then 3 else if p < 125 then 4 else if p < 216 then 5 else 6
  }

  /** k is the first 32 bits of the fraction of the cube root of p. */
  predicate CubeRootBits(p: nat, k: int) {
    var c := 0x1_0000_0000 * CubeRoot(p) + k;
    0 <= k < 0x1_0000_0000 && c * c * c <= p * 0x1_0000_0000_0000_0000_0000_0000 < (c + 1) * (c + 1) * (c + 1)
  }

  /** h and k are the square root of p in units of 1 / n, k its last 32 bits. */
  predicate SquareRootBits(p: nat, n: nat, h: nat, k: int) {
    var c := 0x1_0000_0000 * h + k;
    0 <= k < 0x1_0000_0000 && c * c <= p * (n * n) < (c + 1) * (c + 1)
  }

  // ---------------------------------------------------------------- the primes

  /** No prime up to 17 divides n, unless it is n. */
  predicate Sieved(n: int) {
    && (n % 2 == 0 ==> n == 2) && (n % 3 == 0 ==> n == 3) && (n % 5 == 0 ==> n == 5) && (n % 7 == 0 ==> n == 7)
    && (n % 11 == 0 ==> n == 11) && (n % 13 == 0 ==> n == 13) && (n % 17 == 0 ==> n == 17)
  }

  /** Below 18^2 that makes a prime. */
  lemma SievedIs(n: int)
    requires 2 <= n <= 311
    ensures IsPrime(n) <==> Sieved(n)
  {
    hide IsPrime, IsFactor;
    if IsPrime(n) {
      NoFactor(n, 2); NoFactor(n, 3); NoFactor(n, 5); NoFactor(n, 7); NoFactor(n, 11); NoFactor(n, 13); NoFactor(n, 17);
    } else {
      var m := Factor(n);
      var k := if m <= 17 then m else n / m;
      SmallFactor(n, m);
      SmallDivides(n, k);
    }
  }

  lemma NoFactor(n: int, m: int)
    requires IsPrime(n) && m >= 2
    ensures n % m == 0 ==> n == m
  {
    if n % m == 0 {
      SmallerFactor(n, m);
      assert m < n ==> !IsFactor(m, n);
    }
  }

  lemma SmallerFactor(n: int, m: int)
    requires n > 0 && m > 0 && n % m == 0
    ensures m <= n
  {
  }

  lemma Factor(n: int) returns (m: int)
    requires n >= 2 && !IsPrime(n)
    ensures 2 <= m < n && n % m == 0
  {
    m :| 2 <= m < n && IsFactor(m, n);
  }

  /** A factor or its cofactor is at most 17. */
  lemma SmallFactor(n: int, m: int)
    requires 2 <= m < n <= 311 && n % m == 0
    ensures m > 17 ==> 2 <= n / m <= 17 && n % (n / m) == 0 && n / m < n
  {
    var c := n / m;
    assert n == m * c;
    if m > 17 {
      CofactorSmall(m, c);
      MultipleOf(m, c);
    }
  }

  lemma CofactorSmall(m: int, c: int)
    requires 18 <= m < m * c <= 311
    ensures 2 <= c <= 17
  {
    assert m * c >= 18 * c || c < 0;
    assert m * (c - 1) > 0;
  }

  lemma MultipleOf(m: int, c: int)
    requires c > 0
    ensures m * c % c == 0
  {
    DivModUnique(m * c, c, m, 0);
  }

  lemma SmallDivides(n: int, k: int)
    requires 2 <= k <= 17 && k < n && n % k == 0
    ensures !Sieved(n)
  {
    var p := if k % 2 == 0 then 2 else if k % 3 == 0 then 3 else if k % 5 == 0 then 5 else k;
    assert p == 2 || p == 3 || p == 5 || p == 7 || p == 11 || p == 13 || p == 17;
    FactorOf(n, k, p);
  }

  lemma FactorOf(n: int, k: int, p: int)
    requires k > 0 && p > 0 && n % k == 0 && k % p == 0
    ensures n % p == 0
  {
    var c, e := n / k, k / p;
    assert n == k * c && k == p * e;
    assert n == (e * c) * p;
    MultipleOf(e * c, p);
  }

  lemma Row0Is(n: int)
    ensures n in PrimeRow(0) <==> 1 < n <= 19 && Sieved(n)
  {
    var h := n / 2;
    if 1 < n <= 19 && n % 2 == 1 {
      assert h == 1 || h == 2 || h == 3 || h == 4 || h == 5 || h == 6 || h == 7 || h == 8 || h == 9;
    }
  }

  lemma Row1Is(n: int)
    ensures n in PrimeRow(1) <==> 19 < n <= 53 && Sieved(n)
  {
    var h := n / 2;
    if 19 < n <= 53 && n % 2 == 1 {
      assert h == 10 || h == 11 || h == 12 || h == 13 || h == 14 || h == 15 || h == 16 || h == 17 || h == 18
        || h == 19 || h == 20 || h == 21 || h == 22 || h == 23 || h == 24 || h == 25 || h == 26;
    }
  }

  lemma Row2Is(n: int)
    ensures n in PrimeRow(2) <==> 53 < n <= 89 && Sieved(n)
  {
    var h := n / 2;
    if 53 < n <= 89 && n % 2 == 1 {
      assert h == 27 || h == 28 || h == 29 || h == 30 || h == 31 || h == 32 || h == 33 || h == 34 || h == 35
        || h == 36 || h == 37 || h == 38 || h == 39 || h == 40 || h == 41 || h == 42 || h == 43 || h == 44;
    }
  }

  lemma Row3Is(n: int)
    ensures n in PrimeRow(3) <==> 89 < n <= 131 && Sieved(n)
  {
    var h := n / 2;
    if 89 < n <= 131 && n % 2 == 1 {
      assert h == 45 || h == 46 || h == 47 || h == 48 || h == 49 || h == 50 || h == 51 || h == 52 || h == 53
        || h == 54 || h == 55 || h == 56 || h == 57 || h == 58 || h == 59 || h == 60 || h == 61 || h == 62
        || h == 63 || h == 64 || h == 65;
    }
  }

  lemma Row4Is(n: int)
    ensures n in PrimeRow(4) <==> 131 < n <= 173 && Sieved(n)
  {
    var h := n / 2;
    if 131 < n <= 173 && n % 2 == 1 {
      assert h == 66 || h == 67 || h == 68 || h == 69 || h == 70 || h == 71 || h == 72 || h == 73 || h == 74
        || h == 75 || h == 76 || h == 77 || h == 78 || h == 79 || h == 80 || h == 81 || h == 82 || h == 83
        || h == 84 || h == 85 || h == 86;
    }
  }

  lemma Row5Is(n: int)
    ensures n in PrimeRow(5) <==> 173 < n <= 223 && Sieved(n)
  {
    var h := n / 2;
    if 173 < n <= 223 && n % 2 == 1 {
      assert h == 87 || h == 88 || h == 89 || h == 90 || h == 91 || h == 92 || h == 93 || h == 94 || h == 95
        || h == 96 || h == 97 || h == 98 || h == 99 || h == 100 || h == 101 || h == 102 || h == 103
        || h == 104 || h == 105 || h == 106 || h == 107 || h == 108 || h == 109 || h == 110 || h == 111;
    }
  }

  lemma Row6Is(n: int)
    ensures n in PrimeRow(6) <==> 223 < n <= 263 && Sieved(n)
  {
    var h := n / 2;
    if 223 < n <= 263 && n % 2 == 1 {
      assert h == 112 || h == 113 || h == 114 || h == 115 || h == 116 || h == 117 || h == 118 || h == 119
        || h == 120 || h == 121 || h == 122 || h == 123 || h == 124 || h == 125 || h == 126 || h == 127
        || h == 128 || h == 129 || h == 130 || h == 131;
    }
  }

  lemma Row7Is(n: int)
    ensures n in PrimeRow(7) <==> 263 < n <= 311 && Sieved(n)
  {
    var h := n / 2;
    if 263 < n <= 311 && n % 2 == 1 {
      assert h == 132 || h == 133 || h == 134 || h == 135 || h == 136 || h == 137 || h == 138 || h == 139
        || h == 140 || h == 141 || h == 142 || h == 143 || h == 144 || h == 145 || h == 146 || h == 147
        || h == 148 || h == 149 || h == 150 || h == 151 || h == 152 || h == 153 || h == 154 || h == 155;
    }
  }

  lemma MemberIs(r: nat, n: int)
    requires r < 8 && n in PrimeRow(r)
    ensures exists t: nat :: t < 64 && Prime(t) == n
  {
    hide PrimeRow;
    var i: nat :| i < 8 && PrimeRow(r)[i] == n;
    assert (8 * r + i) / 8 == r && (8 * r + i) % 8 == i;
    assert Prime(8 * r + i) == n;
  }

  /** Prime lists the primes up to 311, in order. */
  lemma PrimesAre(n: int)
    requires n <= 311
    ensures IsPrime(n) <==> exists t: nat :: t < 64 && Prime(t) == n
  {
    hide Sieved, PrimeRow, IsPrime;
    Row0Is(n); Row1Is(n); Row2Is(n); Row3Is(n); Row4Is(n); Row5Is(n); Row6Is(n); Row7Is(n);
    PrimePositive(n);
    if IsPrime(n) {
      SievedIs(n);
      var r := if n <= 19 then 0 else if n <= 53 then 1 else if n <= 89 then 2 else if n <= 131 then 3
               else if n <= 173 then 4 else if n <= 223 then 5 else if n <= 263 then 6 else 7;
      MemberIs(r, n);
    }
    if t: nat :| t < 64 && Prime(t) == n {
      assert n in PrimeRow(t / 8);
      SievedIs(n);
    }
  }

  lemma PrimePositive(n: int)
    ensures IsPrime(n) ==> n >= 2
  {
  }

  lemma PrimesRise(t: nat)
    requires t < 63
    ensures Prime(t) < Prime(t + 1)
  {
    var r := t / 8;
    if t % 8 == 7 {
      assert (t + 1) / 8 == r + 1 && (t + 1) % 8 == 0;
      RowsMeet(r);
    } else {
      assert (t + 1) / 8 == r && (t + 1) % 8 == t % 8 + 1;
      RowRises(r);
    }
  }

  lemma RowRises(r: nat)
    requires r < 8
    ensures forall i :: 0 <= i < 7 ==> PrimeRow(r)[i] < PrimeRow(r)[i + 1]
  {
  }

  lemma RowsMeet(r: nat)
    requires r < 7
    ensures PrimeRow(r)[7] < PrimeRow(r + 1)[0]
  {
  }

  // ---------------------------------------------------------------- the constants are roots

  lemma Roots0(i: nat)
    requires i < 8
    ensures CubeRootBits(PrimeRow(0)[i], KRow(0)[i])
  {
    assert i == 0 || i == 1 || i == 2 || i == 3 || i == 4 || i == 5 || i == 6 || i == 7;
  }

  lemma Roots1(i: nat)
    requires i < 8
    ensures CubeRootBits(PrimeRow(1)[i], KRow(1)[i])
  {
    assert i == 0 || i == 1 || i == 2 || i == 3 || i == 4 || i == 5 || i == 6 || i == 7;
  }

  lemma Roots2(i: nat)
    requires i < 8
    ensures CubeRootBits(PrimeRow(2)[i], KRow(2)[i])
  {
    assert i == 0 || i == 1 || i == 2 || i == 3 || i == 4 || i == 5 || i == 6 || i == 7;
  }

  lemma Roots3(i: nat)
    requires i < 8
    ensures CubeRootBits(PrimeRow(3)[i], KRow(3)[i])
  {
    assert i == 0 || i == 1 || i == 2 || i == 3 || i == 4 || i == 5 || i == 6 || i == 7;
  }

  lemma Roots4(i: nat)
    requires i < 8
    ensures CubeRootBits(PrimeRow(4)[i], KRow(4)[i])
  {
    assert i == 0 || i == 1 || i == 2 || i == 3 || i == 4 || i == 5 || i == 6 || i == 7;
  }

  lemma Roots5(i: nat)
    requires i < 8
    ensures CubeRootBits(PrimeRow(5)[i], KRow(5)[i])
  {
    assert i == 0 || i == 1 || i == 2 || i == 3 || i == 4 || i == 5 || i == 6 || i == 7;
  }

  lemma Roots6(i: nat)
    requires i < 8
    ensures CubeRootBits(PrimeRow(6)[i], KRow(6)[i])
  {
    assert i == 0 || i == 1 || i == 2 || i == 3 || i == 4 || i == 5 || i == 6 || i == 7;
  }

  lemma Roots7(i: nat)
    requires i < 8
    ensures CubeRootBits(PrimeRow(7)[i], KRow(7)[i])
  {
    assert i == 0 || i == 1 || i == 2 || i == 3 || i == 4 || i == 5 || i == 6 || i == 7;
  }

  /** Section 4.2.2: the constants are the first 32 bits of the fractions of the cube roots of the
      first 64 primes. */
  lemma KIs(t: nat)
    requires t < 64
    ensures CubeRootBits(Prime(t), K(t))
  {
    hide CubeRootBits, PrimeRow, KRow;
    var r, i := t / 8, t % 8;
    if r == 0 { Roots0(i); } else if r == 1 { Roots1(i); } else if r == 2 { Roots2(i); } else if r == 3 { Roots3(i); }
    else if r == 4 { Roots4(i); } else if r == 5 { Roots5(i); } else if r == 6 { Roots6(i); } else { Roots7(i); }
  }

  /** Section 5.3.2: the first 32 bits of the fractions of the square roots of the first eight primes. */
  lemma InitialIs()
    ensures
      var s := Initial(false);
      && SquareRootBits(2, 0x1_0000_0000, 1, s.a)
      && SquareRootBits(3, 0x1_0000_0000, 1, s.b)
      && SquareRootBits(5, 0x1_0000_0000, 2, s.c)
      && SquareRootBits(7, 0x1_0000_0000, 2, s.d)
      && SquareRootBits(11, 0x1_0000_0000, 3, s.e)
      && SquareRootBits(13, 0x1_0000_0000, 3, s.f)
      && SquareRootBits(17, 0x1_0000_0000, 4, s.g)
      && SquareRootBits(19, 0x1_0000_0000, 4, s.h)
  {
  }

  /** Section 5.3.1: for SHA-224 the second 32 bits, of the next eight primes. */
  lemma Initial224Is()
    ensures
      var s := Initial(true);
      && SquareRootBits(23, 0x1_0000_0000_0000_0000, 0x4cbbb9d5d, s.a)
      && SquareRootBits(29, 0x1_0000_0000_0000_0000, 0x5629a292a, s.b)
      && SquareRootBits(31, 0x1_0000_0000_0000_0000, 0x59159015a, s.c)
      && SquareRootBits(37, 0x1_0000_0000_0000_0000, 0x6152fecd8, s.d)
      && SquareRootBits(41, 0x1_0000_0000_0000_0000, 0x667332667, s.e)
      && SquareRootBits(43, 0x1_0000_0000_0000_0000, 0x68eb44a87, s.f)
      && SquareRootBits(47, 0x1_0000_0000_0000_0000, 0x6db0c2e0d, s.g)
      && SquareRootBits(53, 0x1_0000_0000_0000_0000, 0x747b5481d, s.h)
  {
  }

  // ---------------------------------------------------------------- section 4.1.2, bit by bit

  /** An odd number of three. */
  predicate Odd3(p: bool, q: bool, r: bool) { p != (q != r) }

  lemma XorBits(x: word32, y: word32, z: word32, i: nat)
    ensures Bit(Xor32(Xor32(x, y), z), i) <==> Odd3(Bit(x, i), Bit(y, i), Bit(z, i))
  {
    hide Bit, Xor;
    BitXor(Xor32(x, y), z, i);
    BitXor(x, y, i);
  }

  lemma BigBits(x: word32, i: nat)
    requires i < 32
    ensures Bit(Big0(x), i) <==> Odd3(Bit(x, (i + 2) % 32), Bit(x, (i + 13) % 32), Bit(x, (i + 22) % 32))
    ensures Bit(Big1(x), i) <==> Odd3(Bit(x, (i + 6) % 32), Bit(x, (i + 11) % 32), Bit(x, (i + 25) % 32))
  {
    hide Bit, Xor32, Rotr;
    RotrBit(x, 2, i); RotrBit(x, 13, i); RotrBit(x, 22, i); RotrBit(x, 6, i); RotrBit(x, 11, i); RotrBit(x, 25, i);
    XorBits(Rotr(x, 2), Rotr(x, 13), Rotr(x, 22), i);
    XorBits(Rotr(x, 6), Rotr(x, 11), Rotr(x, 25), i);
  }

  lemma SmallBits(x: word32, i: nat)
    requires i < 32
    ensures Bit(Small0(x), i) <==> Odd3(Bit(x, (i + 7) % 32), Bit(x, (i + 18) % 32), i + 3 < 32 && Bit(x, i + 3))
    ensures Bit(Small1(x), i) <==> Odd3(Bit(x, (i + 17) % 32), Bit(x, (i + 19) % 32), i + 10 < 32 && Bit(x, i + 10))
  {
    hide Bit, Xor32, Rotr, Shr32;
    RotrBit(x, 7, i); RotrBit(x, 18, i); RotrBit(x, 17, i); RotrBit(x, 19, i); ShrBit(x, 3, i); ShrBit(x, 10, i);
    XorBits(Rotr(x, 7), Rotr(x, 18), Shr32(x, 3), i);
    XorBits(Rotr(x, 17), Rotr(x, 19), Shr32(x, 10), i);
  }

  /** The choice of y or z by x, and the majority of three. */
  lemma ChoiceBits(x: word32, y: word32, z: word32, i: nat)
    requires i < 32
    ensures Bit(Ch(x, y, z), i) <==> if Bit(x, i) then Bit(y, i) else Bit(z, i)
    ensures
      var p, q, r := Bit(x, i), Bit(y, i), Bit(z, i);
      Bit(Maj(x, y, z), i) <==> (p && q) || (p && r) || (q && r)
  {
    hide Bit, Xor, And;
    BitXor(And32(x, y), And32(Not32(x), z), i);
    BitAnd(x, y, i);
    BitAnd(Not32(x), z, i);
    NotBit(x, i);
    XorBits(And32(x, y), And32(x, z), And32(y, z), i);
    BitAnd(x, z, i);
    BitAnd(y, z, i);
  }

  // ---------------------------------------------------------------- section 6.2.2 as two sequences

  lemma WordIs(data: seq<byte>, t: nat)
    requires 4 * t + 4 <= |data|
    ensures Word(data, t) == BE(data[4 * t..4 * t + 4])
  {
    var b := data[4 * t..4 * t + 4];
    assert b == [] + [b[0]] + [b[1]] + [b[2]] + [b[3]];
    assert BE([]) == 0;
    hide BE;
    Append([], b[0]);
    Append([] + [b[0]], b[1]);
    Append([] + [b[0]] + [b[1]], b[2]);
    Append([] + [b[0]] + [b[1]] + [b[2]], b[3]);
  }

  /** Word t of the message schedule. */
  function W(data: seq<byte>, t: nat): word32
    requires |data| == 64
  {
    hide Small0, Small1, BE;
    if t < 16 then
      WordIs(data, t);
      BE(data[4 * t..4 * t + 4])
    else
      Sum32(Small1(W(data, t - 2)) + W(data, t - 7) + Small0(W(data, t - 15)) + W(data, t - 16))
  }

  /** The sum that both registers of round t take. */
  function Both(s: State, data: seq<byte>, t: nat): int
    requires |data| == 64 && t < 64
    decreases t + 4, 0
  {
    E(s, data, t) + Big1(E(s, data, t + 3)) + Ch(E(s, data, t + 3), E(s, data, t + 2), E(s, data, t + 1)) + K(t)
    + W(data, t)
  }

  /** The values that register a and register e ever hold, from four places before the first round. */
  function A(s: State, data: seq<byte>, n: nat): word32
    requires |data| == 64 && n < 68
    decreases n, 1
  {
    if n < 4 then [s.d, s.c, s.b, s.a][n]
    else
      Sum32(Both(s, data, n - 4) + Big0(A(s, data, n - 1))
        + Maj(A(s, data, n - 1), A(s, data, n - 2), A(s, data, n - 3)))
  }

  function E(s: State, data: seq<byte>, n: nat): word32
    requires |data| == 64 && n < 68
    decreases n, 1
  {
    if n < 4 then [s.h, s.g, s.f, s.e][n] else Sum32(A(s, data, n - 4) + Both(s, data, n - 4))
  }

  lemma {:induction false} ScheduleIs(data: seq<byte>, t: nat)
    requires |data| == 64
    ensures Schedule(data, t) == W(data, t)
  {
    hide Small0, Small1, BE, Word, Sum32;
    if t < 16 {
      WordIs(data, t);
    } else {
      ScheduleIs(data, t - 2);
      ScheduleIs(data, t - 7);
      ScheduleIs(data, t - 15);
      ScheduleIs(data, t - 16);
    }
  }

  /** Two sums cut on the way. */
  lemma CutSums(x: int, y: int)
    ensures Sum32(Sum32(x) + Sum32(y)) == Sum32(x + y) && Sum32(x + Sum32(y)) == Sum32(x + y)
  {
  }

  lemma {:induction false} RoundsAre(s: State, data: seq<byte>, t: nat)
    requires |data| == 64 && t <= 64
    ensures Rounds(s, data, t) == State(A(s, data, t + 3), A(s, data, t + 2), A(s, data, t + 1), A(s, data, t),
      E(s, data, t + 3), E(s, data, t + 2), E(s, data, t + 1), E(s, data, t))
    decreases t
  {
    hide Big0, Big1, Ch, Maj, K, W, Schedule, Sum32;
    if t > 0 {
      RoundsAre(s, data, t - 1);
      ScheduleIs(data, t - 1);
      var r := Rounds(s, data, t - 1);
      var both := Both(s, data, t - 1);
      CutSums(both, Big0(r.a) + Maj(r.a, r.b, r.c));
      CutSums(r.d, both);
    }
  }

  /** Section 6.2.2: the registers after n = 64 rounds are added to those before. */
  lemma CompressIs(s: State, data: seq<byte>, n: nat)
    requires |data| == 64 && n == 64
    ensures Compress(s, data) == State(
      Sum32(s.a + A(s, data, n + 3)), Sum32(s.b + A(s, data, n + 2)), Sum32(s.c + A(s, data, n + 1)),
      Sum32(s.d + A(s, data, n)), Sum32(s.e + E(s, data, n + 3)), Sum32(s.f + E(s, data, n + 2)),
      Sum32(s.g + E(s, data, n + 1)), Sum32(s.h + E(s, data, n)))
  {
    hide A, E, Rounds, Sum32;
    RoundsAre(s, data, n);
  }

  // ---------------------------------------------------------------- padding, digest, HMAC

  /** Section 5.1.1: the message, a one bit, the fewest zeros, and the length in bits as a number. */
  lemma PaddedIs(m: seq<byte>)
    requires |m| < 0x2000_0000_0000_0000
    ensures
      var p := Pad(m);
      var n := |p|;
      && n % 64 == 0 && |m| + 9 <= n < |m| + 73 && p[..|m|] == m && p[|m|] == 0x80
      && (forall i :: |m| < i < n - 8 ==> p[i] == 0) && BE(p[n - 8..]) == 8 * |m|
  {
    hide BE, Field64;
    PadLength(|m|);
    Field64Value(8 * |m|);
    var p := Pad(m);
    assert p[|p| - 8..] == Field64(8 * |m|);
  }

  /** Block i of a padded message. */
  function Piece(m: seq<byte>, i: nat): (b: seq<byte>)
    requires 64 * i + 64 <= |m|
    ensures |b| == 64
  {
    m[64 * i..64 * i + 64]
  }

  lemma PieceOfTail(m: seq<byte>, i: nat)
    requires 64 * i + 64 <= |m| && i > 0
    ensures Piece(m[64..], i - 1) == Piece(m, i)
  {
  }

  /** The states between the blocks of a message. */
  ghost predicate Chain(s: State, m: seq<byte>, h: seq<State>) {
    && |m| == 64 * (|h| - 1) && h[0] == s
    && forall i {:trigger h[i]} :: 0 <= i < |h| - 1 ==> h[i + 1] == Compress(h[i], Piece(m, i))
  }

  lemma {:induction false} FoldChain(s: State, m: seq<byte>) returns (h: seq<State>)
    requires |m| % 64 == 0
    ensures Chain(s, m, h) && Fold(s, m) == h[|h| - 1]
    decreases |m|
  {
    hide Compress;
    if m == [] {
      h := [s];
    } else {
      var g := FoldChain(Compress(s, m[..64]), m[64..]);
      h := [s] + g;
      forall i {:trigger h[i]} | 0 <= i < |h| - 1 ensures h[i + 1] == Compress(h[i], Piece(m, i)) {
        if i > 0 {
          assert h[i] == g[i - 1] && h[i + 1] == g[i];
          PieceOfTail(m, i);
        } else {
          assert Piece(m, 0) == m[..64];
        }
      }
    }
  }

  /** Section 6.2: the digest is the words of the last state, big-endian, one fewer for SHA-224. */
  lemma HashIs(m: seq<byte>, is224: bool) returns (h: seq<State>)
    ensures Chain(Initial(is224), Pad(m), h)
    ensures
      var d, r := Hash(m, is224), h[|h| - 1];
      && BE(d[..4]) == r.a && BE(d[4..8]) == r.b && BE(d[8..12]) == r.c && BE(d[12..16]) == r.d
      && BE(d[16..20]) == r.e && BE(d[20..24]) == r.f && BE(d[24..28]) == r.g
      && (if is224 then |d| == 28 else |d| == 32 && BE(d[28..]) == r.h)
  {
    hide BE, Pad, Fold, Compress, Initial, WordBytes;
    h := FoldChain(Initial(is224), Pad(m));
    DigestWords(h[|h| - 1], is224);
  }

  lemma DigestWords(r: State, is224: bool)
    ensures
      var d := Digest(r, is224);
      && BE(d[..4]) == r.a && BE(d[4..8]) == r.b && BE(d[8..12]) == r.c && BE(d[12..16]) == r.d
      && BE(d[16..20]) == r.e && BE(d[20..24]) == r.f && BE(d[24..28]) == r.g
      && (if is224 then |d| == 28 else |d| == 32 && BE(d[28..]) == r.h)
  {
    hide BE, WordBytes;
    WordBytesValue(r.a); WordBytesValue(r.b); WordBytesValue(r.c); WordBytesValue(r.d);
    WordBytesValue(r.e); WordBytesValue(r.f); WordBytesValue(r.g); WordBytesValue(r.h);
    var d := Digest(r, is224);
    assert d[..4] == WordBytes(r.a) && d[4..8] == WordBytes(r.b) && d[8..12] == WordBytes(r.c);
    assert d[12..16] == WordBytes(r.d) && d[16..20] == WordBytes(r.e) && d[20..24] == WordBytes(r.f);
    assert d[24..28] == WordBytes(r.g);
    if !is224 { assert d[28..] == WordBytes(r.h); }
  }

  /** Section 2 of RFC 2104: k is the key, or its hash when it is longer than a block, followed by
      zeros; i and o are k with 36 and 5C added to every byte. */
  lemma HmacIs(key: seq<byte>, m: seq<byte>, is224: bool, k: seq<byte>, i: seq<byte>, o: seq<byte>)
    requires |k| == 64 && |i| == 64 && |o| == 64
    requires
      var short := if |key| <= 64 then key else Hash(key, is224);
      forall n :: 0 <= n < 64 ==> k[n] == if n < |short| then short[n] else 0
    requires forall n :: 0 <= n < 64 ==> i[n] == Xor(k[n], 0x36) && o[n] == Xor(k[n], 0x5C)
    ensures Hmac(key, m, is224) == Hash(o + Hash(i + m, is224), is224)
  {
    hide Hash, Xor;
    assert BlockKey(key, is224) == k;
    forall n | 0 <= n < 64 ensures XorWith(k, 0x36)[n] == i[n] && XorWith(k, 0x5C)[n] == o[n] {
      XorComm(0x36, k[n]);
      XorComm(0x5C, k[n]);
    }
    assert XorWith(k, 0x36) == i && XorWith(k, 0x5C) == o;
  }
}
