/** Word buffers of any length: the parts of the word-level binary fields that do not depend on
    the field. */
module WordOps {
  import opened Bits
  import opened Gf2
  import opened Gf2Field
  import opened Words
  import Buffers
  import ByteOps

  ghost function Val(a: array<word>): nat
    reads a
  {
    LE(a[..])
  }

  /** The value with one low word. */
  lemma LowWord(s: seq<word>)
    requires s != [] && forall i :: 0 < i < |s| ==> s[i] == 0
    ensures LE(s) == s[0]
  {
    LEZeroIff(s[1..]);
  }

  lemma OneWords(s: seq<word>)
    requires s != []
    ensures LE(s) == 1 <==> s[0] == 1 && forall i :: 0 < i < |s| ==> s[i] == 0
  {
    LEZeroIff(s[1..]);
    assert forall i :: 0 < i < |s| ==> s[i] == s[1..][i - 1];
  }

  lemma ZeroHigh(r: int)
    requires r >= 1
    ensures High(0, r) == 0
  {
  }

  lemma NoShift(x: word, y: word)
    ensures Shl(x, y, 0) == x
  {
    WordSize();
    assert Pow2(0) == 1;
  }

  // ---------------------------------------------------------------- leading bit

  /** From the highest word that is not zero, its leading byte and bit: byte index ix and mask 2^k. */
  method FirstByteBit(a: array<word>, j: nat) returns (ix: int, mask: int, ghost k: nat)
    requires j < a.Length && a[j] != 0 && forall i :: j < i < a.Length ==> a[i] == 0
    ensures 8 * j <= ix < 8 * j + 8 && k < 8 && mask == Pow2(k) && Val(a) / Pow2(8 * ix + k) == 1
  {
    hide LE, Pow2, Byte;
    ghost var s, v := a[..], Val(a);
    LETop(s, j + 1);
    LEAtLeast(s, j);
    ix := (j + 1) * 8;
    var b := 0;
    while true
      invariant 8 * j <= ix <= 8 * j + 8 && v < Pow2(8 * ix) && v >= Pow2(64 * j)
      decreases ix
    {
      assert 8 * ix != 64 * j;
      ix := ix - 1;
      b := Byte(a[..], ix);
      ByteIs(s, ix);
      TopByte(v, ix, b);
      if b != 0 { break; }
    }
    mask, k := ByteOps.MaskOf(b);
    DivModUnique(b, mask, 1, b - mask);
    Pow2Add(8 * ix, k);
    DivTwice(v, Pow2(8 * ix), mask);
  }

  /** Below 2^(8 (ix + 1)), byte ix is the whole quotient by 2^(8 ix). */
  lemma TopByte(v: nat, ix: nat, b: int)
    requires v < Pow2(8 * (ix + 1)) && b == v / Pow2(8 * ix) % 256
    ensures b == v / Pow2(8 * ix) && (b == 0 ==> v < Pow2(8 * ix))
  {
    Buffers.Pow2Byte(ix);
    hide Pow2;
    QuotientSmall(v, Pow2(8 * ix), b);
  }

  lemma QuotientSmall(v: int, p: int, b: int)
    requires p >= 1 && 0 <= v < 256 * p && b == v / p % 256
    ensures b == v / p && (b == 0 ==> v < p)
  {
    Buffers.QuotientBound(v, 256, p);
  }

  /** The closing loop of integer_length, whose 32-bit mask makes it 24 short of the number of bits. */
  method LengthFrom(ix0: nat, mask0: int, ghost k0: nat) returns (len: int)
    requires k0 < 8 && mask0 == Pow2(k0)
    ensures len == 8 * ix0 + k0 + 1 - 24
  {
    hide Pow2;
    var ix, mask := 8 * (ix0 + 1), mask0;
    ghost var k := k0;
    Mask32(k);
    ix, mask := ix - 1, mask * 2 % 0x1_0000_0000;
    while mask != 0
      invariant k <= 31 && mask == (if k == 31 then 0 else Pow2(k + 1))
      invariant 1 + ix - (31 - k) == 8 * ix0 + k0 + 1 - 24
      decreases 31 - k
    {
      k := k + 1;
      Mask32(k);
      ix, mask := ix - 1, mask * 2 % 0x1_0000_0000;
    }
    len := 1 + ix;
  }

  lemma Mask32(k: nat)
    requires k <= 31
    ensures Pow2(k) * 2 % 0x1_0000_0000 == if k == 31 then 0 else Pow2(k + 1)
  {
    hide Pow2;
    Pow2Add(k + 1, 31 - k);
    Pow2Of32();
    Buffers.Pow2Succ(k);
    OnlyPowerOne(31 - k);
    DoubledPower(Pow2(k), Pow2(k + 1), Pow2(31 - k), k);
  }

  lemma OnlyPowerOne(n: nat)
    ensures Pow2(n) == 1 <==> n == 0
  {
  }

  lemma Pow2Of32()
    ensures Pow2(32) == 0x1_0000_0000
  {
    hide Pow2;
    ByteBits();
    Pow2Add(8, 8);
    Pow2Add(16, 16);
  }

  lemma DoubledPower(p: int, q: int, r: int, k: nat)
    requires p >= 1 && q == 2 * p && r >= 1 && q * r == 0x1_0000_0000
    requires r == 1 <==> k == 31
    ensures p * 2 % 0x1_0000_0000 == if k == 31 then 0 else q
  {
    if r >= 2 { assert q * (r - 2) >= 0; }
  }

  lemma LengthIs(v: nat, n: nat)
    requires v / Pow2(n) == 1
    ensures Len(v) == n + 1
  {
    hide Pow2, Len;
    Buffers.Pow2Succ(n);
    QuotientOne(v, Pow2(n));
    LenBound(v, n);
    LenBound(v, n + 1);
  }

  lemma QuotientOne(v: int, p: int)
    requires p >= 1 && v / p == 1
    ensures p <= v < 2 * p
  {
    assert v == p * 1 + v % p;
  }

  // ---------------------------------------------------------------- reading a multiplier

  lemma NextBit(v: nat, n: nat)
    ensures v / Pow2(n) >= 0 && v / Pow2(n + 1) >= 0
    ensures v / Pow2(n) == 2 * (v / Pow2(n + 1)) + v / Pow2(n) % 2
  {
    Buffers.Pow2Succ(n);
    hide Pow2;
    DivTwice(v, Pow2(n), 2);
    Buffers.DivNonNegative(v, Pow2(n));
    Buffers.DivNonNegative(v, Pow2(n + 1));
    assert Pow2(n + 1) == Pow2(n) * 2;
  }

  /** Bit k of byte ix is bit 8 ix + k of the value. */
  lemma ByteBit(s: seq<word>, ix: nat, k: nat)
    requires ix < 8 * |s| && k < 8
    ensures And(Pow2(k), Byte(s, ix)) != 0 <==> LE(s) / Pow2(8 * ix + k) % 2 == 1
  {
    hide LE, Pow2, Byte, And;
    ByteIs(s, ix);
    Buffers.BitTest(k, Byte(s, ix));
    Pow2Add(8 * ix, k);
    DivTwice(LE(s), Pow2(8 * ix), Pow2(k));
    Pow2Add(k, 8 - k);
    Buffers.Pow2Succ(7 - k);
    WordSize();
    LowBit(LE(s) / Pow2(8 * ix), Pow2(k), Pow2(7 - k));
  }

  lemma LowBit(x: int, p: int, q: int)
    requires p >= 1 && p * (2 * q) == 256
    ensures x % 256 / p % 2 == x / p % 2
  {
    var h, b := x / 256, x % 256;
    var k, d := b / p, b % p;
    ByteSplit(x, h, b, p, q, k, d);
    DivModUnique(x, p, 2 * (q * h) + k, d);
    EvenPart(q * h, k);
  }

  lemma ByteSplit(x: int, h: int, b: int, p: int, q: int, k: int, d: int)
    requires p * (2 * q) == 256 && x == 256 * h + b && b == p * k + d
    ensures x == p * (2 * (q * h) + k) + d
  {
    assert p * (2 * q) * h == p * (2 * (q * h));
  }

  lemma EvenPart(z: int, k: int)
    ensures (2 * z + k) % 2 == k % 2
  {
  }

  lemma HalfMask(k: nat)
    ensures Pow2(k) / 2 == if k == 0 then 0 else Pow2(k - 1)
  {
  }

  lemma WholeValue(v: int)
    ensures v / Pow2(0) == v
  {
    assert Pow2(0) == 1;
  }

  /** What one bit of the multiplier does to the partial product modulo f. */
  lemma MulBit(r: nat, a: nat, v: nat, n: nat, on: bool, f: nat)
    requires Len(a) < Len(f) && Partial(r, a, v, n + 1, f)
    requires v / Pow2(n) >= 0 && (on <==> v / Pow2(n) % 2 == 1)
    ensures Partial(if on then Plus(XTime(r, f), a) else XTime(r, f), a, v, n, f)
  {
    hide IsProduct, Pow2, Plus, XTime, Len;
    NextBit(v, n);
    ProductStep(r, a, v / Pow2(n + 1), on, f);
  }

  /** r is the reduced product of a and of v without its low n bits. */
  ghost predicate Partial(r: nat, a: nat, v: nat, n: nat, f: nat) {
    v / Pow2(n) >= 0 && IsProduct(r, a, v / Pow2(n), f)
  }
}
