/** Bytes as polynomials over GF(2) modulo any f of degree eight with a constant term. */
module GfByte {
  import opened Bits
  import opened Gf2
  import opened Gf2Field
  import opened GfRing
  import opened Buffers
  import opened PackedBytes

  predicate Modulus(f: nat) { Len(f) == 9 && f % 2 == 1 }

  lemma NineBits(f: nat)
    requires 256 <= f < 512 && f % 2 == 1
    ensures Modulus(f)
  {
    LenBound(f, 8);
    LenBound(f, 9);
    assert Pow2(8) == 256 && Pow2(9) == 512;
  }

  lemma Short(x: nat)
    ensures x < 256 <==> Len(x) < 9
  {
    LenBound(x, 8);
    assert Pow2(8) == 256;
  }

  function MulB(a: byte, b: byte, f: nat): (r: byte)
    requires Modulus(f)
  {
    Short(a);
    Short(MulMod(a, b, f));
    MulMod(a, b, f)
  }

  lemma MulBComm(a: byte, b: byte, f: nat)
    requires Modulus(f)
    ensures MulB(a, b, f) == MulB(b, a, f)
  {
    hide MulMod, Len;
    Short(a);
    Short(b);
    MulModComm(a, b, f);
  }

  lemma MulBAssoc(a: byte, b: byte, c: byte, f: nat)
    requires Modulus(f)
    ensures MulB(MulB(a, b, f), c, f) == MulB(a, MulB(b, c, f), f)
  {
    hide MulMod, Len;
    Short(a);
    Short(b);
    Short(c);
    MulModAssoc(a, b, c, f);
  }

  lemma MulBAdd(a: byte, b: byte, c: byte, f: nat)
    requires Modulus(f)
    ensures MulB(a, Add8(b, c), f) == Add8(MulB(a, b, f), MulB(a, c, f))
    ensures MulB(Add8(b, c), a, f) == Add8(MulB(b, a, f), MulB(c, a, f))
  {
    hide MulMod, Len, Plus;
    Short(a);
    Short(b);
    Short(c);
    MulModPlus(a, b, c, f);
  }

  lemma MulBUnits(a: byte, f: nat)
    requires Modulus(f)
    ensures MulB(a, 1, f) == a && MulB(1, a, f) == a && MulB(a, 0, f) == 0 && MulB(0, a, f) == 0
  {
    hide MulMod, Len;
    Short(a);
    Short(1);
    MulModUnits(a, f);
  }

  /** Doubling, and subtracting the modulus on overflow. */
  lemma Doubling(x: byte, f: nat)
    requires Modulus(f)
    ensures MulB(x, 2, f) == (if x < 128 then 2 * x else Plus(2 * x, f)) && MulB(2, x, f) == MulB(x, 2, f)
  {
    MulBComm(x, 2, f);
    Short(x);
    Short(2 * x);
    Short(1);
    hide Plus;
    MulModUnits(x, f);
    assert MulMod(x, 2, f) == XTime(MulMod(x, 1, f), f);
  }

  /** Division by x: halving, and adding half the modulus on underflow. */
  function Half(x: byte, f: nat): (r: byte)
    requires Modulus(f)
  {
    HalfRange(x, f);
    if x % 2 == 1 then Plus(x / 2, f / 2) else x / 2
  }

  lemma HalfRange(x: byte, f: nat)
    requires Modulus(f)
    ensures Plus(x / 2, f / 2) < 256
  {
    assert Len(f / 2) == 8;
    Short(x / 2);
    LenPlus(x / 2, f / 2, 8);
    Short(Plus(x / 2, f / 2));
  }

  lemma HalfDoubled(x: byte, f: nat)
    requires Modulus(f)
    ensures MulB(Half(x, f), 2, f) == x && MulB(2, Half(x, f), f) == x
  {
    hide MulB, Plus, Len;
    Doubling(Half(x, f), f);
    if x % 2 == 1 {
      // x/2 + f/2 has its top bit set, so doubling it subtracts f
      TopHalf(x / 2, f);
      OddHalves(x / 2, f / 2);
    }
  }

  lemma OddHalves(a: nat, b: nat)
    ensures Plus(2 * Plus(a, b), 2 * b + 1) == 2 * a + 1
  {
    hide Plus;
    PlusDouble(a, b);
    OddPart(b);
    PlusAssoc(2 * a, 2 * b, 2 * b + 1);
    OddPart(a);
  }

  lemma TopHalf(a: nat, f: nat)
    requires Modulus(f) && a < 128
    ensures Plus(a, f / 2) >= 128
  {
    assert Len(f / 2) == 8 && Pow2(7) == 128;
    LenBound(a, 7);
    hide Plus;
    PlusRules(a, f / 2);
    LenDominates(f / 2, a);
    LenBound(Plus(a, f / 2), 7);
  }

  lemma OddPart(a: nat)
    ensures Plus(2 * a, 2 * a + 1) == 1 && Plus(2 * a, 1) == 2 * a + 1
  {
    PlusDouble(a, a);
    PlusRules(a, a);
    PlusDouble(a, 0);
    PlusRules(a, 0);
  }

  /** Halving is multiplication by the inverse of x. */
  lemma HalfIs(x: byte, f: nat)
    requires Modulus(f)
    ensures Half(x, f) == MulB(x, Half(1, f), f) && Half(x, f) == MulB(Half(1, f), x, f)
  {
    hide MulB, Half;
    var h, i := Half(x, f), Half(1, f);
    HalfDoubled(x, f);
    HalfDoubled(1, f);
    MulBAssoc(h, 2, i, f);
    MulBUnits(h, f);
    MulBComm(x, i, f);
  }
}
