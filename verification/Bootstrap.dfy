/** Two number-theory loops of the bignum library's table generator: trial division over a
    wheel modulo 6, and the inverse of an odd number modulo a power of two, bit by bit. */
module Bootstrap {
  import opened Bits
  import opened PrimeField

  /** unsigned long */
  type ulong = x: int | 0 <= x < 0x1_0000_0000_0000_0000

  // ---------------------------------------------------------------- trial division

  /** Nothing from 2 up to d - 1 divides t. */
  ghost predicate NoDivisor(t: int, d: int) { forall m :: 2 <= m < d ==> !IsFactor(m, t) }

  /** Sieving below the square root is enough. */
  lemma SieveEnough(t: int, d: int)
    requires 2 <= t < d * d && d >= 1 && NoDivisor(t, d)
    ensures IsPrime(t)
  {
    forall m | 2 <= m < t ensures !IsFactor(m, t) {
      if t % m == 0 { Cofactor(t, d, m); }
    }
  }

  /** Of a divisor and its cofactor, one is below d. */
  lemma Cofactor(t: int, d: int, m: int)
    requires 2 <= m < t < d * d && t % m == 0 && d >= 1
    ensures !NoDivisor(t, d)
  {
    var q := t / m;
    assert t == m * q;
    if m >= d {
      SmallCofactor(t, d, m, q);
      DivModUnique(t, q, m, 0);
      assert IsFactor(q, t);
    } else {
      assert IsFactor(m, t);
    }
  }

  lemma SmallCofactor(t: int, d: int, m: int, q: int)
    requires t == m * q && m >= d >= 1 && m < t < d * d
    ensures 2 <= q < d
  {
    assert q >= d ==> m * q >= d * d by { if q >= d { OrderProduct(m, q, d); } }
    assert q <= 1 ==> m * q <= m;
  }

  lemma OrderProduct(m: int, q: int, d: int)
    requires m >= d >= 1 && q >= d
    ensures m * q >= d * d
  {
    assert m * q >= d * q >= d * d;
  }

  lemma Composite(t: int, m: int)
    requires 2 <= m < t && t % m == 0
    ensures !IsPrime(t)
  {
    assert IsFactor(m, t);
  }

  /** Bit t of the mask is set exactly for the primes below 32. */
  lemma SmallPrimes(t: int)
    requires 0 <= t < 32
    ensures (0xa08a28ac / Pow2(t)) % 2 == 1 <==> IsPrime(t)
  {
    assert (0xa08a28ac / Pow2(t)) % 2 == 1 <==> t in {2, 3, 5, 7, 11, 13, 17, 19, 23, 29, 31} by {
      hide IsPrime;
      MaskBit(t);
    }
    SmallSieve(t);
  }

  lemma MaskBit(t: int)
    requires 0 <= t < 32
    ensures (0xa08a28ac / Pow2(t)) % 2 == 1 <==> t in {2, 3, 5, 7, 11, 13, 17, 19, 23, 29, 31}
  {
    hide Pow2;
    NextBit(0xa08a28ac, t);
    hide Bit;
    Nibble(0xa08a28ac, 0xa08a28a, 12, t);
    if t >= 4 { Nibble(0xa08a28a, 0xa08a28, 10, t - 4); }
    if t >= 8 { Nibble(0xa08a28, 0xa08a2, 8, t - 8); }
    if t >= 12 { Nibble(0xa08a2, 0xa08a, 2, t - 12); }
    if t >= 16 { Nibble(0xa08a, 0xa08, 10, t - 16); }
    if t >= 20 { Nibble(0xa08, 0xa0, 8, t - 20); }
    if t >= 24 { Nibble(0xa0, 10, 0, t - 24); }
    if t >= 28 { Nibble(10, 0, 10, t - 28); }
  }

  lemma BitStep(a: int, i: nat)
    ensures Bit(a, 0) <==> a % 2 == 1
    ensures i > 0 ==> (Bit(a, i) <==> Bit(a / 2, i - 1))
  {
  }

  /** The four low bits are those of the last hexadecimal digit v; the others are those of h. */
  lemma Nibble(a: int, h: int, v: int, t: nat)
    requires a == 16 * h + v && 0 <= v < 16
    ensures t == 0 ==> (Bit(a, t) <==> v % 2 == 1)
    ensures t == 1 ==> (Bit(a, t) <==> v / 2 % 2 == 1)
    ensures t == 2 ==> (Bit(a, t) <==> v / 2 / 2 % 2 == 1)
    ensures t == 3 ==> (Bit(a, t) <==> v / 2 / 2 / 2 % 2 == 1)
    ensures t >= 4 ==> (Bit(a, t) <==> Bit(h, t - 4))
  {
    hide Bit;
    HalfStep(a, 8 * h, v, t);
    if t >= 1 { HalfStep(8 * h + v / 2, 4 * h, v / 2, t - 1); }
    if t >= 2 { HalfStep(4 * h + v / 2 / 2, 2 * h, v / 2 / 2, t - 2); }
    if t >= 3 { HalfStep(2 * h + v / 2 / 2 / 2, h, v / 2 / 2 / 2, t - 3); }
    assert v / 2 / 2 / 2 / 2 == 0;
  }

  lemma HalfStep(a: int, h: int, v: int, i: nat)
    requires a == 2 * h + v
    ensures Bit(a, 0) <==> v % 2 == 1
    ensures i > 0 ==> (Bit(a, i) <==> Bit(h + v / 2, i - 1))
  {
    hide Bit;
    BitStep(a, i);
    DivModUnique(a, 2, h + v / 2, v % 2);
  }

  lemma SmallSieve(t: int)
    requires 0 <= t < 32
    ensures IsPrime(t) <==> t in {2, 3, 5, 7, 11, 13, 17, 19, 23, 29, 31}
  {
    if t < 7 { TinySieve(t); } else {
      hide IsPrime;
      if t % 2 == 0 { Composite(t, 2); }
      else if t % 3 == 0 { Composite(t, 3); }
      else if t % 5 == 0 { Composite(t, 5); }
      else {
        assert NoDivisor(t, 6) by {
          forall m | 2 <= m < 6 ensures !IsFactor(m, t) { assert m == 2 || m == 3 || m == 4 || m == 5; }
        }
        hide NoDivisor;
        SieveEnough(t, 6);
      }
    }
  }

  lemma TinySieve(t: int)
    requires 0 <= t < 7
    ensures IsPrime(t) <==> t in {2, 3, 5}
  {
    if t == 4 || t == 6 { Composite(t, 2); }
    if t == 2 || t == 3 || t == 5 {
      forall m | 2 <= m < t ensures !IsFactor(m, t) { assert m == 2 || m == 3 || m == 4; }
    }
  }

  /** The wheel skips only multiples of 2 and 3. */
  lemma WheelStep(t: int, d: int, e: int)
    requires d >= 2 && NoDivisor(t, d) && t % d != 0 && t % 2 == 1 && t % 3 != 0
    requires (d % 6 == 5 && e == d + 2) || (d % 6 == 1 && e == d + 4)
    ensures NoDivisor(t, e)
  {
    forall m | 2 <= m < e ensures !IsFactor(m, t) {
      if m > d { Skipped(t, d, e, m); }
    }
  }

  lemma Skipped(t: int, d: int, e: int, m: int)
    requires 2 <= d < m < e && t % 2 == 1 && t % 3 != 0
    requires (d % 6 == 5 && e == d + 2) || (d % 6 == 1 && e == d + 4)
    ensures !IsFactor(m, t)
  {
    SkippedKind(d, e, m);
    if t % m == 0 {
      DivisorForm(t, m);
      if m % 2 == 0 { Factor(t, m, t / m, 2); } else { Factor(t, m, t / m, 3); }
    }
  }

  lemma SkippedKind(d: int, e: int, m: int)
    requires d < m < e && ((d % 6 == 5 && e == d + 2) || (d % 6 == 1 && e == d + 4))
    ensures m % 2 == 0 || m % 3 == 0
  {
  }

  lemma DivisorForm(t: int, m: int)
    requires m > 0 && t % m == 0
    ensures t == m * (t / m)
  {
  }

  /** A divisor's divisor divides. */
  lemma Factor(t: int, m: int, q: int, c: int)
    requires t == m * q && c >= 1 && m % c == 0
    ensures t % c == 0
  {
    var k := m / c;
    assert m * q == c * (k * q);
    DivModUnique(t, c, k * q, 0);
  }

  /** The first divisor tried is 11. */
  lemma WheelStart(t: int)
    requires t % 2 != 0 && t % 3 != 0 && t % 5 != 0 && t % 7 != 0
    ensures NoDivisor(t, 11)
  {
    forall m | 2 <= m < 11 ensures !IsFactor(m, t) {
      if t % m == 0 {
        var q := t / m;
        if m % 2 == 0 { Factor(t, m, q, 2); }
        if m == 3 || m == 9 { Factor(t, m, q, 3); }
      }
    }
  }

  /** `t / d`, and `t - q * d`. */
  function Quotient(t: int, d: int): int requires d > 0 { t / d }
  function Remainder(t: int, q: int, d: int): int { t - q * d }

  /** One division: a quotient below d ends the search, a zero remainder is a divisor, and
      divisors that are still tried are below 2^32, so stepping never overflows. */
  lemma OneDivision(t: int, d: int)
    requires 0 <= t < 0x1_0000_0000_0000_0000 && d >= 2
    ensures 0 <= Quotient(t, d) <= t && Remainder(t, Quotient(t, d), d) == t % d
    ensures 0 <= t % d <= t
    ensures Quotient(t, d) < d ==> t < d * d
    ensures Quotient(t, d) >= d ==> d < 0x1_0000_0000 && d < t
  {
    DivisionFacts(t, d, t / d, t % d);
  }

  lemma DivisionFacts(t: int, d: int, q: int, r: int)
    requires 0 <= t < 0x1_0000_0000_0000_0000 && d >= 2 && t == d * q + r && 0 <= r < d
    ensures 0 <= q <= t && t - q * d == r <= t
    ensures q < d ==> t < d * d
    ensures q >= d ==> d < 0x1_0000_0000 && d < t
  {
    QuotientSign(d, q, r);
    if q < d { SquareAbove(d, q, r); } else { SquareBound(d, q, t); }
  }

  lemma QuotientSign(d: int, q: int, r: int)
    requires d >= 2 && 0 <= r < d && d * q + r >= 0
    ensures 0 <= q <= d * q
  {
    if q >= 0 { Monotone(q, 1, d); } else { Monotone(d, q, -1); }
  }

  lemma Monotone(d: int, a: int, b: int)
    requires d >= 0 && a <= b
    ensures d * a <= d * b
  {
  }

  lemma SquareAbove(d: int, q: int, r: int)
    requires d >= 2 && q < d && r < d
    ensures d * q + r < d * d
  {
    assert d * (q + 1) <= d * d;
  }

  lemma SquareBound(d: int, q: int, t: int)
    requires 2 <= d <= q && d * q <= t < 0x1_0000_0000_0000_0000
    ensures d < 0x1_0000_0000 && d < t
  {
    assert d * d <= d * q;
    assert 2 * d <= d * d;
    assert d >= 0x1_0000_0000 ==> d * d >= 0x1_0000_0000 * 0x1_0000_0000;
  }

  predicate OffTwoThree(t: int) { t % 2 == 1 && t % 3 != 0 }

  /** One turn of the search at d, and the next divisor when it goes on. */
  lemma Trial(t: int, d: int, e: int)
    requires 0 <= t < 0x1_0000_0000_0000_0000 && OffTwoThree(t) && d >= 11 && NoDivisor(t, d)
    requires (d % 6 == 5 && e == d + 2) || (d % 6 == 1 && e == d + 4)
    requires t >= 32
    ensures 0 <= Quotient(t, d) <= t && 0 <= Remainder(t, Quotient(t, d), d) <= t
    ensures Quotient(t, d) < d ==> IsPrime(t)
    ensures Quotient(t, d) >= d && Remainder(t, Quotient(t, d), d) == 0 ==> !IsPrime(t)
    ensures Quotient(t, d) >= d && Remainder(t, Quotient(t, d), d) != 0 ==> NoDivisor(t, e) && d < 0x1_0000_0000
  {
    hide IsPrime, NoDivisor, Quotient, Remainder;
    OneDivision(t, d);
    if Quotient(t, d) < d {
      SieveEnough(t, d);
    } else if t % d == 0 {
      Composite(t, d);
    } else {
      WheelStep(t, d, e);
    }
  }

  /** isprime: non-zero exactly for the primes, over every unsigned long. */
  method TestPrime(t: ulong) returns (r: bool)
    ensures r <==> IsPrime(t)
  {
    hide IsPrime, NoDivisor, Quotient, Remainder;
    if t < 32 {
      SmallPrimes(t);
      return (0xa08a28ac / Pow2(t)) % 2 == 1;
    }
    if t % 2 == 0 { Composite(t, 2); return false; }
    if t % 3 == 0 { Composite(t, 3); return false; }
    if t % 5 == 0 { Composite(t, 5); return false; }
    if t % 7 == 0 { Composite(t, 7); return false; }
    WheelStart(t);
    r := Wheel(t);
  }

  /** The endless loop of isprime. */
  method Wheel(t: ulong) returns (r: bool)
    requires t >= 32 && OffTwoThree(t) && NoDivisor(t, 11)
    ensures r <==> IsPrime(t)
  {
    hide IsPrime, NoDivisor, Quotient, Remainder, OffTwoThree;
    var d: ulong, q: ulong, rem: ulong := 11, 0, 0;
    while true
      invariant 11 <= d < 0x1_0000_0006 && d % 6 == 5 && NoDivisor(t, d)
      decreases 0x1_0000_0006 - d
    {
      Trial(t, d, d + 2);
      q := Quotient(t, d);
      rem := Remainder(t, q, d);
      if q < d { return true; }
      if rem == 0 { break; }
      d := d + 2;
      Trial(t, d, d + 4);
      q := Quotient(t, d);
      rem := Remainder(t, q, d);
      if q < d { return true; }
      if rem == 0 { break; }
      d := d + 4;
    }
    return false;
  }

  // ---------------------------------------------------------------- inverse modulo 2^n

  /** C's remainder: the sign of the dividend. */
  function TruncRem(a: int, m: int): int
    requires m > 0
  {
    if a >= 0 then a % m else -((-a) % m)
  }

  /** Bit i of a number that is 1 modulo 2^i, i > 0, is the parity of its quotient. */
  lemma {:induction false} NextBit(a: int, i: nat)
    ensures Bit(a, i) <==> (a / Pow2(i)) % 2 == 1
    decreases i
  {
    BitStep(a, i);
    hide Bit;
    if i > 0 {
      NextBit(a / 2, i - 1);
      var m := Pow2(i - 1);
      assert Pow2(i) == 2 * m;
      hide Pow2;
      QuotientTwice(a, m);
    } else {
      assert Pow2(i) == 1;
    }
  }

  lemma QuotientTwice(a: int, m: int)
    requires m >= 1
    ensures a / (2 * m) == a / 2 / m
  {
    var q, r := a / 2 / m, a / 2 % m;
    QuotientForm(a, m, q, r);
    DivModUnique(a, 2 * m, q, 2 * r + a % 2);
  }

  lemma QuotientForm(a: int, m: int, q: int, r: int)
    requires a / 2 == m * q + r
    ensures a == (2 * m) * q + (2 * r + a % 2)
  {
  }

  /** The Hensel step: setting bit i of the inverse flips bit i of the product, since a is odd. */
  lemma HenselStep(inv: int, a: int, m: int, k: int)
    requires a % 2 != 0 && m >= 2 && inv * a == 1 + k * m
    ensures k % 2 == 0 ==> Eq(inv * a, 1, 2 * m)
    ensures k % 2 == 1 ==> Eq((inv + m) * a, 1, 2 * m)
  {
    hide Eq;
    if k % 2 == 0 {
      EvenMultiple(k, k / 2, m);
      EqIntro(inv * a, 1, k / 2, 2 * m);
    } else {
      var h := OddSum(k, a);
      EvenMultiple(k + a, h, m);
      ShiftProduct(inv, a, m, k);
      EqIntro((inv + m) * a, 1, h, 2 * m);
    }
  }

  lemma OddSum(k: int, a: int) returns (h: int)
    requires k % 2 != 0 && a % 2 != 0
    ensures k + a == 2 * h
  {
    h := (k + a) / 2;
  }

  lemma ShiftProduct(inv: int, a: int, m: int, k: int)
    requires inv * a == 1 + k * m
    ensures (inv + m) * a == 1 + (k + a) * m
  {
  }

  lemma EvenMultiple(k: int, h: int, m: int)
    requires k == 2 * h
    ensures k * m == h * (2 * m)
  {
  }

  /** mpz_setbit at the first bit above a number. */
  lemma SetBit(inv: int, i: nat)
    requires 0 <= inv < Pow2(i)
    ensures Or(inv, Pow2(i)) == inv + Pow2(i)
  {
    hide Pow2, Or;
    DivModUnique(Pow2(i), Pow2(i), 1, 0);
    OrDisjoint(Pow2(i), inv, i);
    OrComm(inv, Pow2(i));
  }

  lemma OneAbove(p: int, m: int) returns (k: int)
    requires m >= 2 && Eq(p, 1, m)
    ensures p == 1 + k * m && p / m == k
  {
    k := EqElim(p, 1, m);
    DivModUnique(p, m, k, 1);
  }

  /** mpz_invert_2exp: r * a = 1 modulo 2^n for odd a of either sign. The source's closing
      assertion, on the truncated remainder, holds exactly for positive a and n > 0. */
  method InvertTwoExp(a: int, n: ulong) returns (r: int, ok: bool)
    requires a % 2 != 0
    ensures Eq(r * a, 1, Pow2(n))
    ensures 0 < r < Pow2(if n == 0 then 1 else n)
    ensures ok <==> n > 0 && a > 0
  {
    hide Pow2, Or, Bit, Eq;
    var inv := 1;
    Pow2One();
    EqOdd(a);
    var i: int := 1;
    while i < n
      invariant 1 <= i && (i <= n || i == 1)
      invariant 0 < inv < Pow2(i) && Eq(inv * a, 1, Pow2(i))
    {
      var prod := inv * a;
      Pow2Double(i);
      ghost var k := OneAbove(prod, Pow2(i));
      NextBit(prod, i);
      HenselStep(inv, a, Pow2(i), k);
      SetBit(inv, i);
      if Bit(prod, i) {
        inv := Or(inv, Pow2(i));
      }
      i := i + 1;
    }
    var prod := inv * a;
    if n == 0 { EqModOne(prod); }
    ok := TruncRem(prod, Pow2(n)) == 1;
    r := inv;
    ProductSign(inv, a);
    ClosingAssert(prod, n);
  }

  lemma Pow2One()
    ensures Pow2(0) == 1 && Pow2(1) == 2
  {
  }

  lemma Pow2Double(i: int)
    requires i >= 1
    ensures Pow2(i + 1) == 2 * Pow2(i) && Pow2(i) >= 2
  {
  }

  lemma EqOdd(a: int)
    requires a % 2 != 0
    ensures Eq(1 * a, 1, 2)
  {
  }

  lemma EqModOne(p: int)
    ensures Eq(p, 1, 1)
  {
  }

  lemma ProductSign(inv: int, a: int)
    requires inv > 0
    ensures inv * a > 0 <==> a > 0
  {
    if a > 0 { assert inv * a > 0; } else { assert inv * a <= 0; }
  }

  /** A residue of 1 is a truncated remainder of 1 for positive numbers only. */
  lemma ClosingAssert(p: int, n: nat)
    requires Eq(p, 1, Pow2(n)) && p != 0
    ensures TruncRem(p, Pow2(n)) == 1 <==> n > 0 && p > 0
  {
    if n > 0 {
      Pow2Half(n);
      var m := Pow2(n);
      hide Pow2;
      var k := OneAbove(p, m);
      DivModUnique(p, m, k, 1);
      if p < 0 { assert (-p) % m >= 0; }
    }
  }

  lemma Pow2Half(n: nat)
    requires n > 0
    ensures Pow2(n) >= 2
  {
  }

  /** There is one inverse in range. */
  lemma InverseUnique(a: int, r: int, s: int, n: nat)
    requires 0 <= r < Pow2(n) && 0 <= s < Pow2(n)
    requires Eq(r * a, 1, Pow2(n)) && Eq(s * a, 1, Pow2(n))
    ensures r == s
  {
    hide Eq, Pow2;
    var m := Pow2(n);
    EqScale(s, r * a, 1, m);
    EqScale(r, s * a, 1, m);
    assert s * (r * a) == r * (s * a);
    EqSym(r * (s * a), r, m);
    EqTrans(r, s * (r * a), s, m);
    EqResidue(r, s, m);
  }
}
