/** GF(2^8) modulo x^8 + x^4 + x^3 + x + 1, and its generator 3. */
module Gf256 {
  import opened Bits
  import opened Gf2
  import opened Gf2Field
  import opened GfRing
  import opened Buffers
  import opened PackedBytes

  lemma ByteShort(x: nat)
    ensures x < 256 <==> Len(x) < 9
    ensures Len(0x11B) == 9
  {
    LenBound(x, 8);
    assert Pow2(8) == 256;
    LengthF8();
  }

  lemma LengthF8()
    ensures Len(0x11B) == 9
  {
    LenBound(0x11B, 8);
    LenBound(0x11B, 9);
    assert Pow2(8) == 256 && Pow2(9) == 512;
  }

  function Mul8(a: byte, b: byte): (r: byte) {
    ByteShort(a);
    ByteShort(MulMod(a, b, 0x11B));
    MulMod(a, b, 0x11B)
  }

  lemma Mul8Comm(a: byte, b: byte)
    ensures Mul8(a, b) == Mul8(b, a)
  {
    hide MulMod, Len;
    ByteShort(a);
    ByteShort(b);
    MulModComm(a, b, 0x11B);
  }

  lemma Mul8Assoc(a: byte, b: byte, c: byte)
    ensures Mul8(Mul8(a, b), c) == Mul8(a, Mul8(b, c))
  {
    hide MulMod, Len;
    ByteShort(a);
    ByteShort(b);
    ByteShort(c);
    MulModAssoc(a, b, c, 0x11B);
  }

  lemma Mul8Add(a: byte, b: byte, c: byte)
    ensures Mul8(a, Add8(b, c)) == Add8(Mul8(a, b), Mul8(a, c))
    ensures Mul8(Add8(b, c), a) == Add8(Mul8(b, a), Mul8(c, a))
  {
    hide MulMod, Len, Plus;
    ByteShort(a);
    ByteShort(b);
    ByteShort(c);
    MulModPlus(a, b, c, 0x11B);
  }

  lemma Mul8Units(a: byte)
    ensures Mul8(a, 1) == a && Mul8(1, a) == a && Mul8(a, 0) == 0 && Mul8(0, a) == 0
  {
    hide MulMod, Len;
    ByteShort(a);
    ByteShort(1);
    MulModUnits(a, 0x11B);
  }

  // ---------------------------------------------------------------- XTIME

  /** XTIME, before it is cut to a byte. */
  function XtimeRaw(x: byte): int { Xor(2 * x, if And(x, 0x80) != 0 then 0x1B else 0) }

  /** `XTIME(x) & 0xFF`. */
  function Xt(x: byte): (r: byte)
    ensures r == Mul8(2, x)
  {
    XtIsTwo(x);
    And(XtimeRaw(x), 0xFF)
  }

  /** The source's shift, mask and conditional exclusive-or multiply by x. */
  lemma XtIsTwo(x: byte)
    ensures And(Xor(2 * x, if And(x, 0x80) != 0 then 0x1B else 0), 0xFF) == Mul8(2, x)
  {
    hide Len, MulMod, Xor, And;
    var c: byte := if And(x, 0x80) != 0 then 0x1B else 0;
    TopBitTest(x);
    MaskByte(2 * x, c);
    XorIsPlus(2 * x, c);
    Doubled(x);
    PlusRules(2 * x, 0);
    hide Plus;
    Mul8Comm(2, x);
    if x >= 128 { DivModUnique(2 * x, 256, 1, 2 * x - 256); } else { DivModUnique(2 * x, 256, 0, 2 * x); }
  }

  lemma Doubled(x: byte)
    ensures Mul8(x, 2) == if x < 128 then 2 * x else Plus(2 * x - 256, 0x1B)
  {
    ByteShort(x);
    hide Len, MulMod, Plus;
    TwoTimes(x);
    if x >= 128 { ReduceTop(2 * x - 256); }
  }

  lemma TopBitTest(x: byte)
    ensures And(x, 0x80) != 0 <==> x >= 128
  {
    assert Pow2(7) == 0x80;
    AndComm(x, 0x80);
    BitTest(7, x);
    hide And;
    TopBit(7, x, 0x80);
  }

  /** MulMod by two is one reduced doubling. */
  lemma TwoTimes(x: byte)
    ensures Len(x) < Len(0x11B) && MulMod(x, 2, 0x11B) == if 2 * x < 256 then 2 * x else Plus(2 * x, 0x11B)
  {
    ByteShort(x);
    ByteShort(2 * x);
    MulModUnits(x, 0x11B) by { ByteShort(1); }
    assert MulMod(x, 2, 0x11B) == XTime(MulMod(x, 1, 0x11B), 0x11B);
  }

  /** Cutting bit 8 off an exclusive-or of a nine-bit and an eight-bit number. */
  lemma MaskByte(a: nat, c: nat)
    requires a < 512 && c < 256
    ensures And(Plus(a, c), 0xFF) == Plus(a % 256, c)
  {
    assert Pow2(8) == 256;
    AndMask(Plus(a, c), 8);
    PlusRules(a / 256, 0);
    hide Plus, And;
    PlusJoin(a / 256, a % 256, 0, c, 8);
    XorByte(a % 256, c);
    SmallXor(a % 256, c);
    DivModUnique(Plus(a, c), 256, a / 256, Plus(a % 256, c));
  }

  lemma SmallXor(a: byte, c: byte)
    ensures 0 <= Plus(a, c) < 256
  {
    XorByte(a, c);
  }

  lemma ReduceTop(r: nat)
    requires r < 256
    ensures Plus(r + 256, 0x11B) == Plus(r, 0x1B)
  {
    assert Pow2(8) == 256;
    PlusRules(1, 0);
    hide Plus;
    PlusJoin(1, r, 1, 0x1B, 8);
  }

  /** `x ^ XTIME(x)`, cut to a byte, is three times x. */
  lemma Three(x: byte)
    ensures Add8(x, Xt(x)) == Mul8(3, x)
  {
    hide Mul8, Xt, Plus;
    Mul8Add(x, 1, 2);
    Mul8Units(x);
    Mul8Comm(x, 2);
    OnePlusTwo();
  }

  /** `(x ^ XTIME(x)) & 0xFF`. */
  lemma ThreeMasked(x: byte)
    ensures And(Xor(x, XtimeRaw(x)), 0xFF) == Mul8(3, x)
  {
    var c: byte := if And(x, 0x80) != 0 then 0x1B else 0;
    var raw: nat := Plus(2 * x, c);
    XorIsPlus(2 * x, c);
    assert Pow2(9) == 512 && Pow2(8) == 256;
    Nine(x, c);
    AndMask(raw, 8);
    Three(x);
    hide Xor, Plus, And, Mul8, Pow2;
    XorIsPlus(x, raw);
    PlusRules(x, raw);
    PlusRules(raw % 256, x);
    MaskByte(raw, x);
  }

  lemma Nine(x: byte, c: byte)
    ensures Plus(2 * x, c) < 512
  {
    assert Pow2(9) == 512;
    hide Plus, Pow2;
    LenBound(2 * x, 9);
    LenBound(c, 9);
    LenPlus(2 * x, c, 9);
    LenBound(Plus(2 * x, c), 9);
  }

  lemma OnePlusTwo()
    ensures Add8(1, 2) == 3
  {
  }

  // ---------------------------------------------------------------- powers of the generator

  function Pow3(i: nat): byte {
    if i == 0 then 1 else Mul8(3, Pow3(i - 1))
  }

  lemma {:induction false} Pow3Add(i: nat, j: nat)
    ensures Pow3(i + j) == Mul8(Pow3(i), Pow3(j))
  {
    hide Mul8;
    if i == 0 {
      Mul8Units(Pow3(j));
    } else {
      Pow3Add(i - 1, j);
      Mul8Assoc(3, Pow3(i - 1), Pow3(j));
    }
  }

  /** One step of a product by digits: from m = a n to a (2 n) = d and a (2 n + 1) = e. */
  lemma Step(a: byte, n: nat, m: byte, d: byte, e: byte,
             ah: nat, al: nat, th: nat, tl: nat, dh: nat, dl: nat, eh: nat, el: nat)
    requires n < 128 && Mul8(a, n) == m
    requires a == 16 * ah + al && d == 16 * dh + dl && e == 16 * eh + el && al < 16 && tl < 16 && dl < 16
    requires if m < 128 then d == 2 * m else 2 * m - 256 == 16 * th + tl && Xor(th, 1) == dh && Xor(tl, 0xB) == dl
    requires Xor(dh, ah) == eh && Xor(dl, al) == el
    ensures Mul8(a, 2 * n) == d && Mul8(a, 2 * n + 1) == e
  {
    hide Mul8, Xor, Plus;
    XorHex(d, a, e, dh, dl, ah, al, eh, el);
    Doubled(m);
    if m >= 128 { XorHex(2 * m - 256, 0x1B, d, th, tl, 1, 0xB, dh, dl); }
    // a (2 n) = (a n) 2
    Doubled(n);
    Mul8Assoc(a, n, 2);
    PlusOne(2 * n);
    Mul8Add(a, 2 * n, 1);
    Mul8Units(a);
  }

  lemma PlusOne(n: byte)
    requires n % 2 == 0
    ensures Add8(n, 1) == n + 1
  {
    PlusRules(n / 2, 0);
    PlusDouble(n / 2, 0);
  }

  lemma Digits0()
    ensures Xor(0, 0) == 0 && Xor(0, 1) == 1 && Xor(0, 0xB) == 0xB && Xor(0, 0xC) == 0xC && Xor(0, 0xE) == 0xE
      && Xor(1, 0) == 1
    ensures Xor(1, 1) == 0 && Xor(1, 3) == 2 && Xor(1, 0xD) == 0xC && Xor(2, 1) == 3 && Xor(2, 0xB) == 9
      && Xor(2, 0xD) == 0xF
  {
    XorTiny();
    hide Xor;
    XorUp(0, 2, 2, 0, 1);
    XorUp(0, 5, 5, 0, 1);
    XorUp(0, 3, 3, 0, 0);
    XorUp(0, 6, 6, 0, 0);
    XorUp(0, 3, 3, 0, 1);
    XorUp(0, 7, 7, 0, 0);
    XorUp(0, 6, 6, 1, 1);
    XorUp(0, 2, 2, 1, 1);
    XorUp(1, 5, 4, 0, 1);
    XorUp(0, 3, 3, 1, 0);
    XorUp(1, 6, 7, 0, 1);
  }

  lemma Digits1()
    ensures Xor(3, 1) == 2 && Xor(3, 7) == 4 && Xor(3, 0xC) == 0xF && Xor(3, 0xE) == 0xD && Xor(4, 1) == 5
      && Xor(4, 2) == 6
    ensures Xor(4, 3) == 7 && Xor(4, 7) == 3 && Xor(4, 0xB) == 0xF && Xor(4, 0xC) == 8 && Xor(5, 1) == 4
      && Xor(5, 0xB) == 0xE
  {
    XorTiny();
    hide Xor;
    XorUp(1, 3, 2, 1, 1);
    XorUp(0, 3, 3, 1, 0);
    XorUp(1, 6, 7, 1, 0);
    XorUp(0, 3, 3, 1, 1);
    XorUp(1, 7, 6, 1, 0);
    XorUp(2, 0, 2, 0, 1);
    XorUp(2, 1, 3, 0, 0);
    XorUp(2, 1, 3, 0, 1);
    XorUp(2, 3, 1, 0, 1);
    XorUp(1, 2, 3, 0, 1);
    XorUp(2, 5, 7, 0, 1);
    XorUp(1, 3, 2, 0, 0);
    XorUp(2, 6, 4, 0, 0);
    XorUp(2, 0, 2, 1, 1);
    XorUp(2, 5, 7, 1, 1);
  }

  lemma Digits2()
    ensures Xor(6, 1) == 7 && Xor(6, 3) == 5 && Xor(6, 7) == 1 && Xor(6, 0xB) == 0xD && Xor(6, 0xC) == 0xA
      && Xor(6, 0xD) == 0xB
    ensures Xor(7, 1) == 6 && Xor(7, 2) == 5 && Xor(7, 0xB) == 0xC && Xor(7, 0xE) == 9 && Xor(8, 0xB) == 3
      && Xor(8, 0xC) == 4
  {
    XorTiny();
    hide Xor;
    XorUp(3, 0, 3, 0, 1);
    XorUp(3, 1, 2, 0, 1);
    XorUp(3, 3, 0, 0, 1);
    XorUp(1, 2, 3, 1, 1);
    XorUp(3, 5, 6, 0, 1);
    XorUp(1, 3, 2, 1, 0);
    XorUp(3, 6, 5, 0, 0);
    XorUp(3, 6, 5, 0, 1);
    XorUp(3, 0, 3, 1, 1);
    XorUp(3, 1, 2, 1, 0);
    XorUp(3, 5, 6, 1, 1);
    XorUp(1, 3, 2, 1, 1);
    XorUp(3, 7, 4, 1, 0);
    XorUp(2, 2, 0, 0, 1);
    XorUp(4, 5, 1, 0, 1);
    XorUp(2, 3, 1, 0, 0);
    XorUp(4, 6, 2, 0, 0);
  }

  lemma Digits3()
    ensures Xor(9, 1) == 8 && Xor(9, 3) == 0xA && Xor(9, 0xB) == 2 && Xor(9, 0xE) == 7 && Xor(0xA, 1) == 0xB
      && Xor(0xA, 3) == 9
    ensures Xor(0xA, 5) == 0xF && Xor(0xA, 0xB) == 1 && Xor(0xA, 0xE) == 4 && Xor(0xB, 1) == 0xA && Xor(0xB, 5) == 0xE
      && Xor(0xB, 0xB) == 0
  {
    XorTiny();
    hide Xor;
    XorUp(2, 0, 2, 0, 0);
    XorUp(4, 0, 4, 1, 1);
    XorUp(2, 0, 2, 0, 1);
    XorUp(4, 1, 5, 1, 1);
    XorUp(2, 2, 0, 0, 1);
    XorUp(4, 5, 1, 1, 1);
    XorUp(2, 3, 1, 0, 1);
    XorUp(4, 7, 3, 1, 0);
    XorUp(2, 0, 2, 1, 0);
    XorUp(5, 0, 5, 0, 1);
    XorUp(2, 0, 2, 1, 1);
    XorUp(5, 1, 4, 0, 1);
    XorUp(2, 1, 3, 1, 0);
    XorUp(5, 2, 7, 0, 1);
    XorUp(2, 2, 0, 1, 1);
    XorUp(5, 5, 0, 0, 1);
    XorUp(2, 3, 1, 1, 1);
    XorUp(5, 7, 2, 0, 0);
    XorUp(5, 0, 5, 1, 1);
    XorUp(5, 2, 7, 1, 1);
    XorUp(5, 5, 0, 1, 1);
  }

  lemma Digits4()
    ensures Xor(0xB, 0xE) == 5 && Xor(0xC, 1) == 0xD && Xor(0xC, 2) == 0xE && Xor(0xC, 0xB) == 7 && Xor(0xD, 1) == 0xC
      && Xor(0xD, 5) == 8
    ensures Xor(0xD, 7) == 0xA && Xor(0xD, 0xB) == 6 && Xor(0xD, 0xC) == 1 && Xor(0xD, 0xD) == 0 && Xor(0xD, 0xE) == 3
      && Xor(0xE, 2) == 0xC
  {
    XorTiny();
    hide Xor;
    XorUp(2, 3, 1, 1, 1);
    XorUp(5, 7, 2, 1, 0);
    XorUp(3, 0, 3, 0, 0);
    XorUp(6, 0, 6, 0, 1);
    XorUp(3, 0, 3, 0, 1);
    XorUp(6, 1, 7, 0, 0);
    XorUp(3, 2, 1, 0, 1);
    XorUp(6, 5, 3, 0, 1);
    XorUp(6, 0, 6, 1, 1);
    XorUp(3, 1, 2, 0, 0);
    XorUp(6, 2, 4, 1, 1);
    XorUp(3, 1, 2, 0, 1);
    XorUp(6, 3, 5, 1, 1);
    XorUp(6, 5, 3, 1, 1);
    XorUp(3, 3, 0, 0, 0);
    XorUp(6, 6, 0, 1, 0);
    XorUp(6, 6, 0, 1, 1);
    XorUp(3, 3, 0, 0, 1);
    XorUp(6, 7, 1, 1, 0);
    XorUp(3, 0, 3, 1, 1);
    XorUp(7, 1, 6, 0, 0);
  }

  lemma Digits5()
    ensures Xor(0xE, 3) == 0xD && Xor(0xE, 7) == 9 && Xor(0xE, 0xD) == 3 && Xor(0xE, 0xE) == 0 && Xor(0xE, 0xF) == 1
      && Xor(0xF, 3) == 0xC
    ensures Xor(0xF, 0xB) == 4
  {
    XorTiny();
    hide Xor;
    XorUp(3, 0, 3, 1, 1);
    XorUp(7, 1, 6, 0, 1);
    XorUp(3, 1, 2, 1, 1);
    XorUp(7, 3, 4, 0, 1);
    XorUp(3, 3, 0, 1, 0);
    XorUp(7, 6, 1, 0, 1);
    XorUp(3, 3, 0, 1, 1);
    XorUp(7, 7, 0, 0, 0);
    XorUp(7, 7, 0, 0, 1);
    XorUp(7, 1, 6, 1, 1);
    XorUp(3, 2, 1, 1, 1);
    XorUp(7, 5, 2, 1, 1);
  }

  /** The digit sums that the products below need. */
  lemma Digits()
    ensures Xor(0, 0) == 0 && Xor(0, 1) == 1 && Xor(0, 0xB) == 0xB && Xor(0, 0xC) == 0xC && Xor(0, 0xE) == 0xE
      && Xor(1, 0) == 1
    ensures Xor(1, 1) == 0 && Xor(1, 3) == 2 && Xor(1, 0xD) == 0xC && Xor(2, 1) == 3 && Xor(2, 0xB) == 9
      && Xor(2, 0xD) == 0xF
    ensures Xor(3, 1) == 2 && Xor(3, 7) == 4 && Xor(3, 0xC) == 0xF && Xor(3, 0xE) == 0xD && Xor(4, 1) == 5
      && Xor(4, 2) == 6
    ensures Xor(4, 3) == 7 && Xor(4, 7) == 3 && Xor(4, 0xB) == 0xF && Xor(4, 0xC) == 8 && Xor(5, 1) == 4
      && Xor(5, 0xB) == 0xE
    ensures Xor(6, 1) == 7 && Xor(6, 3) == 5 && Xor(6, 7) == 1 && Xor(6, 0xB) == 0xD && Xor(6, 0xC) == 0xA
      && Xor(6, 0xD) == 0xB
    ensures Xor(7, 1) == 6 && Xor(7, 2) == 5 && Xor(7, 0xB) == 0xC && Xor(7, 0xE) == 9 && Xor(8, 0xB) == 3
      && Xor(8, 0xC) == 4
    ensures Xor(9, 1) == 8 && Xor(9, 3) == 0xA && Xor(9, 0xB) == 2 && Xor(9, 0xE) == 7 && Xor(0xA, 1) == 0xB
      && Xor(0xA, 3) == 9
    ensures Xor(0xA, 5) == 0xF && Xor(0xA, 0xB) == 1 && Xor(0xA, 0xE) == 4 && Xor(0xB, 1) == 0xA && Xor(0xB, 5) == 0xE
      && Xor(0xB, 0xB) == 0
    ensures Xor(0xB, 0xE) == 5 && Xor(0xC, 1) == 0xD && Xor(0xC, 2) == 0xE && Xor(0xC, 0xB) == 7 && Xor(0xD, 1) == 0xC
      && Xor(0xD, 5) == 8
    ensures Xor(0xD, 7) == 0xA && Xor(0xD, 0xB) == 6 && Xor(0xD, 0xC) == 1 && Xor(0xD, 0xD) == 0 && Xor(0xD, 0xE) == 3
      && Xor(0xE, 2) == 0xC
    ensures Xor(0xE, 3) == 0xD && Xor(0xE, 7) == 9 && Xor(0xE, 0xD) == 3 && Xor(0xE, 0xE) == 0 && Xor(0xE, 0xF) == 1
      && Xor(0xF, 3) == 0xC
    ensures Xor(0xF, 0xB) == 4
  {
    hide Xor;
    Digits0(); Digits1(); Digits2(); Digits3(); Digits4(); Digits5();
  }

  lemma Times03By03()
    ensures Mul8(3, 3) == 5
  {
    hide Mul8, Plus, MulMod, Len, Add8, Xor;
    Digits();
    Mul8Units(3);
    Step(3, 1, 3, 6, 5, 0, 3, 0, 0, 0, 6, 0, 5);
  }

  lemma Times05By03()
    ensures Mul8(5, 3) == 0x0F
  {
    hide Mul8, Plus, MulMod, Len, Add8, Xor;
    Digits();
    Mul8Units(5);
    Step(5, 1, 5, 0x0A, 0x0F, 0, 5, 0, 0, 0, 0xA, 0, 0xF);
  }

  lemma Times0FBy03()
    ensures Mul8(0x0F, 3) == 0x11
  {
    hide Mul8, Plus, MulMod, Len, Add8, Xor;
    Digits();
    Mul8Units(0x0F);
    Step(0x0F, 1, 0x0F, 0x1E, 0x11, 0, 0xF, 0, 0, 1, 0xE, 1, 1);
  }

  lemma Times11By03()
    ensures Mul8(0x11, 3) == 0x33
  {
    hide Mul8, Plus, MulMod, Len, Add8, Xor;
    Digits();
    Mul8Units(0x11);
    Step(0x11, 1, 0x11, 0x22, 0x33, 1, 1, 0, 0, 2, 2, 3, 3);
  }

  lemma Times33By33()
    ensures Mul8(0x33, 0x33) == 0x72
  {
    hide Mul8, Plus, MulMod, Len, Add8, Xor;
    Digits();
    Mul8Units(0x33);
    Step(0x33, 1, 0x33, 0x66, 0x55, 3, 3, 0, 0, 6, 6, 5, 5);
    Step(0x33, 3, 0x55, 0xAA, 0x99, 3, 3, 0, 0, 0xA, 0xA, 9, 9);
    Step(0x33, 6, 0xAA, 0x4F, 0x7C, 3, 3, 5, 4, 4, 0xF, 7, 0xC);
    Step(0x33, 0x0C, 0x4F, 0x9E, 0xAD, 3, 3, 0, 0, 9, 0xE, 0xA, 0xD);
    Step(0x33, 0x19, 0xAD, 0x41, 0x72, 3, 3, 5, 0xA, 4, 1, 7, 2);
  }

  lemma Times72By33()
    ensures Mul8(0x72, 0x33) == 0x35
  {
    hide Mul8, Plus, MulMod, Len, Add8, Xor;
    Digits();
    Mul8Units(0x72);
    Step(0x72, 1, 0x72, 0xE4, 0x96, 7, 2, 0, 0, 0xE, 4, 9, 6);
    Step(0x72, 3, 0x96, 0x37, 0x45, 7, 2, 2, 0xC, 3, 7, 4, 5);
    Step(0x72, 6, 0x37, 0x6E, 0x1C, 7, 2, 0, 0, 6, 0xE, 1, 0xC);
    Step(0x72, 0x0C, 0x6E, 0xDC, 0xAE, 7, 2, 0, 0, 0xD, 0xC, 0xA, 0xE);
    Step(0x72, 0x19, 0xAE, 0x47, 0x35, 7, 2, 5, 0xC, 4, 7, 3, 5);
  }

  lemma Times35By03()
    ensures Mul8(0x35, 3) == 0x5F
  {
    hide Mul8, Plus, MulMod, Len, Add8, Xor;
    Digits();
    Mul8Units(0x35);
    Step(0x35, 1, 0x35, 0x6A, 0x5F, 3, 5, 0, 0, 6, 0xA, 5, 0xF);
  }

  lemma Times5FBy03()
    ensures Mul8(0x5F, 3) == 0xE1
  {
    hide Mul8, Plus, MulMod, Len, Add8, Xor;
    Digits();
    Mul8Units(0x5F);
    Step(0x5F, 1, 0x5F, 0xBE, 0xE1, 5, 0xF, 0, 0, 0xB, 0xE, 0xE, 1);
  }

  lemma TimesE1ByE1()
    ensures Mul8(0xE1, 0xE1) == 0x5C
  {
    hide Mul8, Plus, MulMod, Len, Add8, Xor;
    Digits();
    Mul8Units(0xE1);
    Step(0xE1, 1, 0xE1, 0xD9, 0x38, 0xE, 1, 0xC, 2, 0xD, 9, 3, 8);
    Step(0xE1, 3, 0x38, 0x70, 0x91, 0xE, 1, 0, 0, 7, 0, 9, 1);
    Step(0xE1, 7, 0x91, 0x39, 0xD8, 0xE, 1, 2, 2, 3, 9, 0xD, 8);
    Step(0xE1, 0x0E, 0x39, 0x72, 0x93, 0xE, 1, 0, 0, 7, 2, 9, 3);
    Step(0xE1, 0x1C, 0x72, 0xE4, 5, 0xE, 1, 0, 0, 0xE, 4, 0, 5);
    Step(0xE1, 0x38, 0xE4, 0xD3, 0x32, 0xE, 1, 0xC, 8, 0xD, 3, 3, 2);
    Step(0xE1, 0x70, 0xD3, 0xBD, 0x5C, 0xE, 1, 0xA, 6, 0xB, 0xD, 5, 0xC);
  }

  lemma TimesE1By5C()
    ensures Mul8(0xE1, 0x5C) == 0x0C
  {
    hide Mul8, Plus, MulMod, Len, Add8, Xor;
    Digits();
    Mul8Units(0xE1);
    Step(0xE1, 1, 0xE1, 0xD9, 0x38, 0xE, 1, 0xC, 2, 0xD, 9, 3, 8);
    Step(0xE1, 2, 0xD9, 0xA9, 0x48, 0xE, 1, 0xB, 2, 0xA, 9, 4, 8);
    Step(0xE1, 5, 0x48, 0x90, 0x71, 0xE, 1, 0, 0, 9, 0, 7, 1);
    Step(0xE1, 0x0B, 0x71, 0xE2, 3, 0xE, 1, 0, 0, 0xE, 2, 0, 3);
    Step(0xE1, 0x17, 3, 6, 0xE7, 0xE, 1, 0, 0, 0, 6, 0xE, 7);
    Step(0xE1, 0x2E, 6, 0x0C, 0xED, 0xE, 1, 0, 0, 0, 0xC, 0xE, 0xD);
  }

  lemma Times5CBy0C()
    ensures Mul8(0x5C, 0x0C) == 0xBD
  {
    hide Mul8, Plus, MulMod, Len, Add8, Xor;
    Digits();
    Mul8Units(0x5C);
    Step(0x5C, 1, 0x5C, 0xB8, 0xE4, 5, 0xC, 0, 0, 0xB, 8, 0xE, 4);
    Step(0x5C, 3, 0xE4, 0xD3, 0x8F, 5, 0xC, 0xC, 8, 0xD, 3, 8, 0xF);
    Step(0x5C, 6, 0xD3, 0xBD, 0xE1, 5, 0xC, 0xA, 6, 0xB, 0xD, 0xE, 1);
  }

  lemma TimesBDByBD()
    ensures Mul8(0xBD, 0xBD) == 0xBC
  {
    hide Mul8, Plus, MulMod, Len, Add8, Xor;
    Digits();
    Mul8Units(0xBD);
    Step(0xBD, 1, 0xBD, 0x61, 0xDC, 0xB, 0xD, 7, 0xA, 6, 1, 0xD, 0xC);
    Step(0xBD, 2, 0x61, 0xC2, 0x7F, 0xB, 0xD, 0, 0, 0xC, 2, 7, 0xF);
    Step(0xBD, 5, 0x7F, 0xFE, 0x43, 0xB, 0xD, 0, 0, 0xF, 0xE, 4, 3);
    Step(0xBD, 0x0B, 0x43, 0x86, 0x3B, 0xB, 0xD, 0, 0, 8, 6, 3, 0xB);
    Step(0xBD, 0x17, 0x3B, 0x76, 0xCB, 0xB, 0xD, 0, 0, 7, 6, 0xC, 0xB);
    Step(0xBD, 0x2F, 0xCB, 0x8D, 0x30, 0xB, 0xD, 9, 6, 8, 0xD, 3, 0);
    Step(0xBD, 0x5E, 0x8D, 1, 0xBC, 0xB, 0xD, 1, 0xA, 0, 1, 0xB, 0xC);
  }

  lemma TimesBCByBD()
    ensures Mul8(0xBC, 0xBD) == 1
  {
    hide Mul8, Plus, MulMod, Len, Add8, Xor;
    Digits();
    Mul8Units(0xBC);
    Step(0xBC, 1, 0xBC, 0x63, 0xDF, 0xB, 0xC, 7, 8, 6, 3, 0xD, 0xF);
    Step(0xBC, 2, 0x63, 0xC6, 0x7A, 0xB, 0xC, 0, 0, 0xC, 6, 7, 0xA);
    Step(0xBC, 5, 0x7A, 0xF4, 0x48, 0xB, 0xC, 0, 0, 0xF, 4, 4, 8);
    Step(0xBC, 0x0B, 0x48, 0x90, 0x2C, 0xB, 0xC, 0, 0, 9, 0, 2, 0xC);
    Step(0xBC, 0x17, 0x2C, 0x58, 0xE4, 0xB, 0xC, 0, 0, 5, 8, 0xE, 4);
    Step(0xBC, 0x2F, 0xE4, 0xD3, 0x6F, 0xB, 0xC, 0xC, 8, 0xD, 3, 6, 0xF);
    Step(0xBC, 0x5E, 0xD3, 0xBD, 1, 0xB, 0xC, 0xA, 6, 0xB, 0xD, 0, 1);
  }

  /** The powers of three whose exponents decide its order. */
  lemma KeyPowers()
    ensures Pow3(15) == 0x35 && Pow3(51) == 0x0C && Pow3(85) == 0xBD && Pow3(255) == 1
  {
    hide Mul8;
    Times03By03(); Times05By03(); Times0FBy03(); Times11By03(); Times33By33(); Times72By33(); Times35By03();
    Times5FBy03(); TimesE1ByE1(); TimesE1By5C(); Times5CBy0C(); TimesBDByBD(); TimesBCByBD();
    assert Pow3(1) == 3 by { assert Pow3(0) == 1; Mul8Units(3); }
    Pow3Next(1, 3, 5); Pow3Next(2, 5, 0x0F); Pow3Next(3, 0x0F, 0x11); Pow3Next(4, 0x11, 0x33);
    hide Pow3;
    Pow3Add(5, 5); Pow3Add(10, 5);
    Pow3Next(15, 0x35, 0x5F); Pow3Next(16, 0x5F, 0xE1);
    Pow3Add(17, 17); Pow3Add(17, 34); Pow3Add(34, 51); Pow3Add(85, 85); Pow3Add(170, 85);
  }

  lemma Pow3Next(i: nat, x: byte, y: byte)
    requires Pow3(i) == x && Mul8(x, 3) == y
    ensures Pow3(i + 1) == y
  {
    hide Mul8;
    Mul8Comm(3, x);
  }

  // ---------------------------------------------------------------- the order of the generator

  /** Exponents reduce modulo a period. */
  lemma {:induction false} Pow3Period(a: nat, n: nat)
    requires a > 0 && Pow3(a) == 1
    ensures Pow3(n) == Pow3(n % a)
  {
    hide Mul8;
    if n >= a {
      Pow3Period(a, n - a);
      Pow3Add(a, n - a);
      Mul8Units(Pow3(n - a));
      DivModUnique(n, a, (n - a) / a + 1, (n - a) % a);
    } else {
      DivModUnique(n, a, 0, n);
    }
  }

  /** Two periods have a common divisor that is a period. */
  lemma {:induction false} PeriodGcd(a: nat, b: nat) returns (g: nat)
    requires a > 0 && Pow3(a) == 1 && Pow3(b) == 1
    ensures 0 < g <= a && Pow3(g) == 1 && a % g == 0 && b % g == 0
    decreases a
  {
    Pow3Period(a, b);
    var r := b % a;
    if r == 0 {
      g := a;
    } else {
      g := PeriodGcd(r, a);
      Combine(a, b, g);
    }
  }

  lemma Combine(a: nat, b: nat, g: nat)
    requires a > 0 && g > 0 && a % g == 0 && (b % a) % g == 0
    ensures b % g == 0
  {
    var p, q, s := a / g, b / a, (b % a) / g;
    assert b == (g * p) * q + g * s;
    assert b == g * (p * q + s) by { assert (g * p) * q == g * (p * q); }
    DivModUnique(b, g, p * q + s, 0);
  }

  /** A proper divisor of 255 divides 15, 51 or 85. */
  lemma DivisorOf255(g: nat)
    requires 0 < g < 255 && 255 % g == 0
    ensures 15 % g == 0 || 51 % g == 0 || 85 % g == 0
  {
    var q := 255 / g;
    assert g * q == 255;
    if g < 16 {
      assert g == 1 || g == 2 || g == 3 || g == 4 || g == 5 || g == 6 || g == 7 || g == 8
          || g == 9 || g == 10 || g == 11 || g == 12 || g == 13 || g == 14 || g == 15;
    } else {
      BoundedFactor(g, q);
      assert q == 2 || q == 3 || q == 4 || q == 5 || q == 6 || q == 7 || q == 8
          || q == 9 || q == 10 || q == 11 || q == 12 || q == 13 || q == 14 || q == 15;
    }
  }

  lemma BoundedFactor(g: int, q: int)
    requires 16 <= g < 255 && g * q == 255
    ensures 2 <= q <= 15
  {
    MultipleOrder(g, q, 1);
    MultipleOrder(g, 16, q);
  }

  lemma MultipleOrder(g: int, a: int, b: int)
    requires g >= 0
    ensures a <= b ==> g * a <= g * b
  {
    if a <= b { assert (b - a) * g >= 0; }
  }

  lemma PeriodCases(g: nat)
    requires g > 0 && Pow3(g) == 1 && (15 % g == 0 || 51 % g == 0 || 85 % g == 0)
    ensures Pow3(15) == 1 || Pow3(51) == 1 || Pow3(85) == 1
  {
    hide Mul8, Pow3;
    ZeroPower();
    Pow3Period(g, 15);
    Pow3Period(g, 51);
    Pow3Period(g, 85);
  }

  lemma PeriodOf255(k: nat)
    requires 0 < k < 255 && Pow3(k) == 1 && Pow3(255) == 1
    ensures Pow3(15) == 1 || Pow3(51) == 1 || Pow3(85) == 1
  {
    hide Mul8, Pow3;
    var g := PeriodGcd(k, 255);
    DivisorOf255(g);
    PeriodCases(g);
  }

  /** Three has order 255. */
  lemma Pow3Order(k: nat)
    requires 0 < k < 255
    ensures Pow3(k) != 1
  {
    hide Mul8, Pow3;
    KeyPowers();
    if Pow3(k) == 1 { PeriodOf255(k); }
  }

  lemma Pow3Nonzero(i: nat)
    requires i <= 255
    ensures Pow3(i) != 0
  {
    hide Mul8, Pow3;
    KeyPowers();
    Pow3Add(i, 255 - i);
    Mul8Units(Pow3(255 - i));
  }

  lemma Pow3Distinct(i: nat, j: nat)
    requires i < j < 255
    ensures Pow3(i) != Pow3(j)
  {
    hide Mul8, Pow3;
    KeyPowers();
    Pow3Add(i, 255 - j);
    Pow3Add(j, 255 - j);
    Pow3Order(i + 255 - j);
  }

  function PowersBelow(n: nat): set<int> {
    set i | 0 <= i < n :: Pow3(i)
  }

  lemma {:induction false} PowersCount(n: nat)
    requires n <= 255
    ensures |PowersBelow(n)| == n
  {
    hide Pow3;
    if n > 0 {
      PowersCount(n - 1);
      var x := Pow3(n - 1);
      assert x !in PowersBelow(n - 1) by {
        forall i | 0 <= i < n - 1 ensures Pow3(i) != x { Pow3Distinct(i, n - 1); }
      }
      assert PowersBelow(n) == PowersBelow(n - 1) + {x};
    }
  }

  function Below(n: nat): (r: set<int>)
    ensures forall y :: y in r <==> 1 <= y < n
    ensures |r| == if n == 0 then 0 else n - 1
  {
    if n <= 1 then {} else Below(n - 1) + {n - 1}
  }

  lemma SubsetSame(a: set<int>, b: set<int>)
    requires a <= b && |a| == |b|
    ensures a == b
  {
    assert b == a + (b - a);
    assert |b| == |a| + |b - a|;
  }

  lemma PowersAreAll()
    ensures PowersBelow(255) == Below(256)
  {
    hide Pow3, Below;
    PowersCount(255);
    forall y | y in PowersBelow(255) ensures y in Below(256) {
      var k :| 0 <= k < 255 && y == Pow3(k);
      Pow3Nonzero(k);
    }
    SubsetSame(PowersBelow(255), Below(256));
  }

  /** Every non-zero byte is a power of three, with an exponent from 1 to 255. */
  lemma Logarithm(x: byte) returns (i: nat)
    requires x != 0
    ensures 1 <= i <= 255 && Pow3(i) == x
  {
    hide Pow3, Below;
    PowersAreAll();
    KeyPowers();
    ZeroPower();
    assert x in PowersBelow(255);
    var k :| 0 <= k < 255 && x == Pow3(k);
    i := if k == 0 then 255 else k;
  }

  lemma ZeroPower()
    ensures Pow3(0) == 1
  {
  }
}
