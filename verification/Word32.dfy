/** 32-bit unsigned words and the operators that C applies to them. */
module Word32 {
  import opened Bits

  type word32 = x: int | 0 <= x < 0x1_0000_0000

  lemma Size()
    ensures Pow2(32) == 0x1_0000_0000 && Pow2(8) == 256 && Pow2(16) == 65536
  {
    hide Pow2;
    ByteBits();
    Pow2Add(8, 8);
    Pow2Add(16, 16);
  }

  lemma {:induction false} XorBelow(a: int, b: int, k: nat)
    requires 0 <= a < Pow2(k) && 0 <= b < Pow2(k)
    ensures 0 <= Xor(a, b) < Pow2(k)
    decreases k
  {
    if k > 0 { XorBelow(a / 2, b / 2, k - 1); }
  }

  lemma {:induction false} AndBelow(a: int, b: int, k: nat)
    requires 0 <= b < Pow2(k)
    ensures 0 <= And(a, b) < Pow2(k)
    decreases k
  {
    if k > 0 && a != 0 && b != 0 && a != -1 {
      AndBelow(a / 2, b / 2, k - 1);
      AndHalf(a % 2, b % 2);
    }
  }

  lemma {:induction false} AndNegative(a: int, b: int, k: nat)
    requires -Pow2(k) <= a < 0 && -Pow2(k) <= b < 0
    ensures -Pow2(k) <= And(a, b) < 0
    decreases k
  {
    if k > 0 && a != -1 && b != -1 {
      AndNegative(a / 2, b / 2, k - 1);
      AndHalf(a % 2, b % 2);
    }
  }

  /** `x ^ y`. */
  function Xor32(x: word32, y: word32): (r: word32)
    ensures r == Xor(x, y)
  {
    Size();
    XorBelow(x, y, 32);
    Xor(x, y)
  }

  /** `x & y`. */
  function And32(x: word32, y: word32): (r: word32)
    ensures r == And(x, y)
  {
    Size();
    AndBelow(x, y, 32);
    And(x, y)
  }

  /** `x | y`. */
  function Or32(x: word32, y: word32): (r: word32)
    ensures r == Or(x, y)
  {
    Size();
    hide Pow2;
    AndNegative(-1 - x, -1 - y, 32);
    Or(x, y)
  }

  /** `~x`. */
  function Not32(x: word32): word32 { 0xFFFF_FFFF - x }

  lemma NotBit(x: word32, i: nat)
    requires i < 32
    ensures Bit(Not32(x), i) <==> !Bit(x, i)
  {
    BitNot(x, i);
    BitPeriod(-1 - x, 32, i);
    Size();
  }

  /** Adding 2^k leaves the bits below k alone. */
  lemma {:induction false} BitPeriod(x: int, k: nat, i: nat)
    requires i < k
    ensures Bit(x + Pow2(k), i) <==> Bit(x, i)
    decreases i
  {
    if i > 0 {
      BitPeriod(x / 2, k - 1, i - 1);
      assert (x + Pow2(k)) / 2 == x / 2 + Pow2(k - 1);
    }
  }

  lemma {:induction false} BitHigh(x: int, k: nat, i: nat)
    requires 0 <= x < Pow2(k) && i >= k
    ensures !Bit(x, i)
    decreases k
  {
    if k == 0 { BitConst(i); } else { BitHigh(x / 2, k - 1, i - 1); }
  }

  /** Words are determined by their 32 bits. */
  lemma WordExt(x: word32, y: word32)
    requires forall i :: 0 <= i < 32 ==> (Bit(x, i) <==> Bit(y, i))
    ensures x == y
  {
    Size();
    forall i: nat ensures Bit(x, i) <==> Bit(y, i) {
      if i >= 32 {
        BitHigh(x, 32, i);
        BitHigh(y, 32, i);
      }
    }
    BitExt(x, y);
  }

  /** `x << n`, cut to 32 bits. */
  function Shl32(x: word32, n: nat): word32 { (x * Pow2(n)) % 0x1_0000_0000 }

  /** `x >> n`. */
  function Shr32(x: word32, n: nat): word32 {
    ShrRange(x, Pow2(n));
    x / Pow2(n)
  }

  lemma ShrRange(x: int, p: int)
    requires x >= 0 && p >= 1
    ensures 0 <= x / p <= x
  {
  }

  /** A sum of words, cut to 32 bits. */
  function Sum32(x: int): word32 { x % 0x1_0000_0000 }

  /** Rotation as arithmetic: the low n bits move to the top. */
  function Rotr(x: word32, n: nat): (r: word32)
    requires n <= 32
  {
    RotrRange(x, n);
    x / Pow2(n) + (x % Pow2(n)) * Pow2(32 - n)
  }

  lemma RotrRange(x: word32, n: nat)
    requires n <= 32
    ensures 0 <= x / Pow2(n) < Pow2(32 - n) && 0 <= x % Pow2(n) < Pow2(n)
    ensures 0 <= x / Pow2(n) + (x % Pow2(n)) * Pow2(32 - n) < 0x1_0000_0000
    ensures Shl32(x, 32 - n) == (x % Pow2(n)) * Pow2(32 - n)
  {
    hide Pow2;
    Size();
    Pow2Add(n, 32 - n);
    Divided(x, Pow2(n));
    RotateParts(x, Pow2(n), Pow2(32 - n), x / Pow2(n), x % Pow2(n));
  }

  lemma Divided(x: int, p: int)
    requires x >= 0 && p >= 1
    ensures x == p * (x / p) + x % p && 0 <= x % p < p && x / p >= 0
  {
  }

  lemma RotateParts(x: int, p: int, q: int, h: int, l: int)
    requires 0 <= x < 0x1_0000_0000 && p >= 1 && q >= 1 && p * q == 0x1_0000_0000 && x == p * h + l && 0 <= l < p
      && h >= 0
    ensures h < q && 0 <= h + l * q < 0x1_0000_0000 && (x * q) % 0x1_0000_0000 == l * q
  {
    ProductOrder(p, h, q);
    RowBelow(l, p, q);
    Spread(p, q, h, l);
    DivModUnique(x * q, 0x1_0000_0000, h, l * q);
  }

  lemma ProductOrder(p: int, h: int, q: int)
    requires p >= 0
    ensures h >= q ==> p * h >= p * q
  {
    if h >= q { assert p * (h - q) >= 0; }
  }

  lemma RowBelow(l: int, p: int, q: int)
    requires 0 <= l < p && q >= 1
    ensures 0 <= l * q <= p * q - q
  {
    var m := p - 1 - l;
    assert m * q >= 0 && l * q >= 0;
    assert p == m + l + 1 && (m + l + 1) * q == m * q + l * q + q;
  }

  lemma Spread(p: int, q: int, h: int, l: int)
    ensures (p * h + l) * q == (p * q) * h + l * q
  {
  }

  // ---------------------------------------------------------------- bits of shifts and rotations

  lemma {:induction false} BitShr(x: int, n: nat, i: nat)
    ensures Bit(x / Pow2(n), i) <==> Bit(x, i + n)
    decreases n
  {
    if n > 0 {
      BitShr(x / 2, n - 1, i);
      HalvedAgain(x, Pow2(n - 1));
    }
  }

  lemma HalvedAgain(x: int, p: int)
    requires p >= 1
    ensures x / (2 * p) == x / 2 / p
  {
    var q, r := x / 2 / p, x / 2 % p;
    assert x / 2 == p * q + r && x == 2 * (x / 2) + x % 2;
    assert 2 * (p * q) == (2 * p) * q;
    DivModUnique(x, 2 * p, q, 2 * r + x % 2);
  }

  /** The bits of hi over the k bits of lo. */
  lemma {:induction false} BitJoin(lo: int, hi: int, k: nat, i: nat)
    requires 0 <= lo < Pow2(k)
    ensures Bit(lo + hi * Pow2(k), i) <==> if i < k then Bit(lo, i) else Bit(hi, i - k)
    decreases k
  {
    if k > 0 {
      JoinHalf(lo, hi, Pow2(k - 1));
      assert Pow2(k) == 2 * Pow2(k - 1);
      if i > 0 { BitJoin(lo / 2, hi, k - 1, i - 1); }
    }
  }

  lemma JoinHalf(lo: int, hi: int, p: int)
    ensures (lo + hi * (2 * p)) / 2 == lo / 2 + hi * p && (lo + hi * (2 * p)) % 2 == lo % 2
  {
    assert hi * (2 * p) == 2 * (hi * p);
  }

  /** Bit i of a rotated word is bit i + n, the index taken modulo 32. */
  lemma RotrBit(x: word32, n: nat, i: nat)
    requires n < 32 && i < 32
    ensures Bit(Rotr(x, n), i) <==> Bit(x, (i + n) % 32)
  {
    hide Bit, Pow2;
    RotrRange(x, n);
    var hi, lo := x / Pow2(n), x % Pow2(n);
    assert x == lo + hi * Pow2(n) by { Divided(x, Pow2(n)); }
    BitJoin(hi, lo, 32 - n, i);
    if i < 32 - n {
      BitShr(x, n, i);
      assert (i + n) % 32 == i + n;
    } else {
      BitJoin(lo, hi, n, i + n - 32);
      assert (i + n) % 32 == i + n - 32;
    }
  }

  /** Bits that come from above the word are 0. */
  lemma ShrBit(x: word32, n: nat, i: nat)
    requires i < 32
    ensures Bit(Shr32(x, n), i) <==> i + n < 32 && Bit(x, i + n)
  {
    hide Bit, Pow2;
    BitShr(x, n, i);
    Size();
    if i + n >= 32 { BitHigh(x, 32, i + n); }
  }

  /** `(x >> n) | (x << (32 - n))` rotates. */
  lemma RotrShift(x: word32, n: nat)
    requires n <= 32
    ensures Or32(Shr32(x, n), Shl32(x, 32 - n)) == Rotr(x, n)
  {
    RotrRange(x, n);
    hide Pow2;
    var lo, hi := Shr32(x, n), Shl32(x, 32 - n);
    DivModUnique(hi, Pow2(32 - n), x % Pow2(n), 0);
    OrDisjoint(hi, lo, 32 - n);
    OrComm(lo, hi);
  }

  /** The big-endian word of four bytes. */
  lemma FourBytes(a: int, b: int, c: int, d: int)
    requires 0 <= a < 256 && 0 <= b < 256 && 0 <= c < 256 && 0 <= d < 256
    ensures Shl32(a, 24) == 0x100_0000 * a && Shl32(b, 16) == 0x1_0000 * b && Shl32(c, 8) == 0x100 * c
    ensures Or32(Or32(Or32(Shl32(a, 24), Shl32(b, 16)), Shl32(c, 8)), d)
         == 0x100_0000 * a + 0x1_0000 * b + 0x100 * c + d
  {
    hide Pow2, Or;
    BytePlaces(a, b, c);
    Size();
    Pow2Add(16, 8);
    OrDisjoint(0x100_0000 * a, 0x1_0000 * b, 24);
    OrDisjoint(0x100_0000 * a + 0x1_0000 * b, 0x100 * c, 16);
    OrDisjoint(0x100_0000 * a + 0x1_0000 * b + 0x100 * c, d, 8);
  }

  lemma BytePlaces(a: int, b: int, c: int)
    requires 0 <= a < 256 && 0 <= b < 256 && 0 <= c < 256
    ensures Shl32(a, 24) == 0x100_0000 * a && Shl32(b, 16) == 0x1_0000 * b && Shl32(c, 8) == 0x100 * c
  {
    hide Pow2;
    Size();
    Pow2Add(16, 8);
  }
}
