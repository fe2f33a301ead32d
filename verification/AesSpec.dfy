/** The byte substitution and the column mixing of AES, sections 4.2, 5.1 and 5.3 of FIPS 197. */
module AesSpec {
  import opened Bits
  import opened Gf2
  import opened Buffers
  import opened PackedBytes
  import opened Gf256
  import Word32

  // ---------------------------------------------------------------- inverses

  lemma LogExists(x: byte)
    requires x != 0
    ensures exists i :: 1 <= i <= 255 && Pow3(i) == x
  {
    var i := Logarithm(x);
  }

  /** The discrete logarithm, from 1 to 255. */
  ghost function Log(x: byte): (i: nat)
    requires x != 0
    ensures 1 <= i <= 255 && Pow3(i) == x
  {
    LogExists(x);
    var i :| 1 <= i <= 255 && Pow3(i) == x;
    i
  }

  /** The multiplicative inverse, with zero mapped to itself. */
  ghost function Inverse8(x: byte): (r: byte)
    ensures x == 0 <==> r == 0
    ensures x != 0 ==> Mul8(x, r) == 1
  {
    if x == 0 then 0
    else
      InverseFacts(x);
      Pow3(255 - Log(x))
  }

  lemma InverseFacts(x: byte)
    requires x != 0
    ensures Pow3(255 - Log(x)) != 0 && Mul8(x, Pow3(255 - Log(x))) == 1
  {
    hide Mul8, Pow3;
    Pow3Nonzero(255 - Log(x));
    Pow3Add(Log(x), 255 - Log(x));
    KeyPowers();
  }

  lemma InverseTwice(x: byte)
    ensures Inverse8(Inverse8(x)) == x
  {
    hide Mul8, Inverse8;
    var r := Inverse8(x);
    var s := Inverse8(r);
    if x != 0 {
      // s = (x r) s = x (r s) = x
      Mul8Assoc(x, r, s);
      Mul8Units(s);
      Mul8Units(x);
    }
  }

  // ---------------------------------------------------------------- the affine map

  /** `((y << 1) | (y >> 7)) & 0xFF`. */
  function Rotl8(y: byte): (r: byte)
    ensures r == if y < 128 then 2 * y else 2 * y - 255
  {
    RotlValue(y);
    And(Or(2 * y, y / 128), 0xFF)
  }

  lemma RotlValue(y: byte)
    ensures And(Or(2 * y, y / 128), 0xFF) == if y < 128 then 2 * y else 2 * y - 255
  {
    assert Pow2(1) == 2 && Pow2(8) == 256;
    OrDisjoint(2 * y, y / 128, 1);
    AndMask(2 * y + y / 128, 8);
    hide Or, And;
    DivModUnique(2 * y + y / 128, 256, y / 128, if y < 128 then 2 * y else 2 * y - 255);
  }

  /** Bit i of a rotated byte is the bit below it. */
  lemma RotlBit(y: byte, i: nat)
    requires i < 8
    ensures Bit(Rotl8(y), i) <==> Bit(y, if i == 0 then 7 else i - 1)
  {
    hide And, Or, Bit, Rotl8;
    var r := Rotl8(y);
    RotlForm(y);
    Bit7(y);
    Parity(y, r);
    if i == 0 {
    } else {
      BitUp(r, i);
      LowBits(y, i - 1);
    }
  }

  lemma RotlForm(y: byte)
    ensures Rotl8(y) == if y < 128 then 2 * y else 2 * y - 255
  {
  }

  lemma Parity(y: byte, r: byte)
    requires r == if y < 128 then 2 * y else 2 * y - 255
    ensures Bit(r, 0) <==> y >= 128
    ensures r / 2 == y % 128
  {
  }

  lemma BitUp(r: int, i: nat)
    requires i > 0
    ensures Bit(r, i) <==> Bit(r / 2, i - 1)
  {
  }

  lemma Bit7(y: byte)
    ensures Bit(y, 7) <==> y >= 128
  {
    hide Bit;
    BitUp(y, 7);
    BitUp(y / 2, 6);
    BitUp(y / 4, 5);
    BitUp(y / 8, 4);
    BitUp(y / 16, 3);
    BitUp(y / 32, 2);
    BitUp(y / 64, 1);
    BitZero(y / 128);
    Halvings(y);
  }

  lemma BitZero(b: int)
    ensures Bit(b, 0) <==> b % 2 == 1
  {
  }

  lemma Halvings(y: byte)
    ensures y / 2 / 2 == y / 4 && y / 4 / 2 == y / 8 && y / 8 / 2 == y / 16
    ensures y / 16 / 2 == y / 32 && y / 32 / 2 == y / 64 && y / 64 / 2 == y / 128
    ensures y / 128 % 2 == 1 <==> y >= 128
  {
  }

  lemma LowBits(y: byte, i: nat)
    requires i < 7
    ensures Bit(y % 128, i) <==> Bit(y, i)
  {
    SevenBits();
    hide Bit, Pow2;
    if y >= 128 { Word32.BitPeriod(y - 128, 7, i); }
  }

  lemma SevenBits()
    ensures Pow2(7) == 128
  {
  }

  /** Bytes are determined by their eight bits. */
  lemma ByteExt(x: byte, y: byte)
    requires forall i :: 0 <= i < 8 ==> (Bit(x, i) <==> Bit(y, i))
    ensures x == y
  {
    assert Pow2(8) == 256;
    hide Pow2;
    forall i: nat ensures Bit(x, i) <==> Bit(y, i) {
      if i >= 8 {
        Word32.BitHigh(x, 8, i);
        Word32.BitHigh(y, 8, i);
      }
    }
    BitExt(x, y);
  }

  /** The affine map of the S-box. */
  function Affine(y: byte): byte {
    var y1 := Rotl8(y);
    var y2 := Rotl8(y1);
    var y3 := Rotl8(y2);
    var y4 := Rotl8(y3);
    Add8(Add8(Add8(Add8(y, y1), y2), y3), Add8(y4, 0x63))
  }

  /** Its inverse, from section 5.3.2: rotations by one, three and six, after removing 0x63. */
  function InvAffine(z: byte): byte {
    var w := Add8(z, 0x63);
    var w1 := Rotl8(w);
    var w3 := Rotl8(Rotl8(w1));
    var w6 := Rotl8(Rotl8(Rotl8(w3)));
    Add8(Add8(w1, w3), w6)
  }

  lemma AddBit(a: byte, b: byte, i: nat)
    ensures Bit(Add8(a, b), i) <==> Bit(a, i) != Bit(b, i)
  {
    XorIsPlus(a, b);
    BitXor(a, b, i);
  }

  /** All eight bits of a sum, of a rotation, and of equal bytes. */
  ghost predicate IsSum(c: byte, a: byte, b: byte) {
    && (Bit(c, 0) <==> Bit(a, 0) != Bit(b, 0)) && (Bit(c, 1) <==> Bit(a, 1) != Bit(b, 1))
    && (Bit(c, 2) <==> Bit(a, 2) != Bit(b, 2)) && (Bit(c, 3) <==> Bit(a, 3) != Bit(b, 3))
    && (Bit(c, 4) <==> Bit(a, 4) != Bit(b, 4)) && (Bit(c, 5) <==> Bit(a, 5) != Bit(b, 5))
    && (Bit(c, 6) <==> Bit(a, 6) != Bit(b, 6)) && (Bit(c, 7) <==> Bit(a, 7) != Bit(b, 7))
  }

  ghost predicate IsRotation(r: byte, y: byte) {
    && (Bit(r, 0) <==> Bit(y, 7)) && (Bit(r, 1) <==> Bit(y, 0)) && (Bit(r, 2) <==> Bit(y, 1))
    && (Bit(r, 3) <==> Bit(y, 2))
    && (Bit(r, 4) <==> Bit(y, 3)) && (Bit(r, 5) <==> Bit(y, 4)) && (Bit(r, 6) <==> Bit(y, 5))
    && (Bit(r, 7) <==> Bit(y, 6))
  }

  ghost predicate SameBits(x: byte, y: byte) {
    && (Bit(x, 0) <==> Bit(y, 0)) && (Bit(x, 1) <==> Bit(y, 1)) && (Bit(x, 2) <==> Bit(y, 2))
    && (Bit(x, 3) <==> Bit(y, 3))
    && (Bit(x, 4) <==> Bit(y, 4)) && (Bit(x, 5) <==> Bit(y, 5)) && (Bit(x, 6) <==> Bit(y, 6))
    && (Bit(x, 7) <==> Bit(y, 7))
  }

  lemma SumBits(a: byte, b: byte)
    ensures IsSum(Add8(a, b), a, b)
  {
    hide Bit, Add8;
    AddBit(a, b, 0); AddBit(a, b, 1); AddBit(a, b, 2); AddBit(a, b, 3);
    AddBit(a, b, 4); AddBit(a, b, 5); AddBit(a, b, 6); AddBit(a, b, 7);
  }

  lemma RotationBits(y: byte)
    ensures IsRotation(Rotl8(y), y)
  {
    hide Bit, Rotl8;
    RotlBit(y, 0); RotlBit(y, 1); RotlBit(y, 2); RotlBit(y, 3);
    RotlBit(y, 4); RotlBit(y, 5); RotlBit(y, 6); RotlBit(y, 7);
  }

  lemma SameByte(x: byte, y: byte)
    requires SameBits(x, y)
    ensures x == y
  {
    hide Bit;
    ByteExt(x, y);
  }

  /** The bits of the affine map, and of its inverse, as sums of eight rotated bits. */
  ghost predicate IsAffine(z: byte, y: byte, c: byte) {
    && (Bit(z, 0) <==> Bit(y, 0) != (Bit(y, 7) != (Bit(y, 6) != (Bit(y, 5) != (Bit(y, 4) != Bit(c, 0))))))
    && (Bit(z, 1) <==> Bit(y, 1) != (Bit(y, 0) != (Bit(y, 7) != (Bit(y, 6) != (Bit(y, 5) != Bit(c, 1))))))
    && (Bit(z, 2) <==> Bit(y, 2) != (Bit(y, 1) != (Bit(y, 0) != (Bit(y, 7) != (Bit(y, 6) != Bit(c, 2))))))
    && (Bit(z, 3) <==> Bit(y, 3) != (Bit(y, 2) != (Bit(y, 1) != (Bit(y, 0) != (Bit(y, 7) != Bit(c, 3))))))
    && (Bit(z, 4) <==> Bit(y, 4) != (Bit(y, 3) != (Bit(y, 2) != (Bit(y, 1) != (Bit(y, 0) != Bit(c, 4))))))
    && (Bit(z, 5) <==> Bit(y, 5) != (Bit(y, 4) != (Bit(y, 3) != (Bit(y, 2) != (Bit(y, 1) != Bit(c, 5))))))
    && (Bit(z, 6) <==> Bit(y, 6) != (Bit(y, 5) != (Bit(y, 4) != (Bit(y, 3) != (Bit(y, 2) != Bit(c, 6))))))
    && (Bit(z, 7) <==> Bit(y, 7) != (Bit(y, 6) != (Bit(y, 5) != (Bit(y, 4) != (Bit(y, 3) != Bit(c, 7))))))
  }

  ghost predicate IsInvAffine(y: byte, w: byte) {
    && (Bit(y, 0) <==> Bit(w, 7) != (Bit(w, 5) != Bit(w, 2))) && (Bit(y, 1) <==> Bit(w, 0) != (Bit(w, 6) != Bit(w, 3)))
    && (Bit(y, 2) <==> Bit(w, 1) != (Bit(w, 7) != Bit(w, 4))) && (Bit(y, 3) <==> Bit(w, 2) != (Bit(w, 0) != Bit(w, 5)))
    && (Bit(y, 4) <==> Bit(w, 3) != (Bit(w, 1) != Bit(w, 6))) && (Bit(y, 5) <==> Bit(w, 4) != (Bit(w, 2) != Bit(w, 7)))
    && (Bit(y, 6) <==> Bit(w, 5) != (Bit(w, 3) != Bit(w, 0))) && (Bit(y, 7) <==> Bit(w, 6) != (Bit(w, 4) != Bit(w, 1)))
  }

  lemma AffineBits(y: byte)
    ensures IsAffine(Affine(y), y, 0x63)
  {
    hide Bit, Rotl8, Add8;
    var y1 := Rotl8(y);
    var y2 := Rotl8(y1);
    var y3 := Rotl8(y2);
    var y4 := Rotl8(y3);
    RotationBits(y);
    RotationBits(y1);
    RotationBits(y2);
    RotationBits(y3);
    SumBits(y, y1);
    SumBits(Add8(y, y1), y2);
    SumBits(Add8(Add8(y, y1), y2), y3);
    SumBits(y4, 0x63);
    SumBits(Add8(Add8(Add8(y, y1), y2), y3), Add8(y4, 0x63));
  }

  lemma InvAffineBits(z: byte)
    ensures IsInvAffine(InvAffine(z), Add8(z, 0x63))
  {
    hide Bit, Rotl8, Add8;
    var w := Add8(z, 0x63);
    var w1 := Rotl8(w);
    var w2 := Rotl8(w1);
    var w3 := Rotl8(w2);
    var w4 := Rotl8(w3);
    var w5 := Rotl8(w4);
    var w6 := Rotl8(w5);
    RotationBits(w);
    RotationBits(w1);
    RotationBits(w2);
    RotationBits(w3);
    RotationBits(w4);
    RotationBits(w5);
    SumBits(w1, w3);
    SumBits(Add8(w1, w3), w6);
  }

  /** Rotating by one, three and six undoes adding the four rotations. */
  lemma RotationsCancel(b0: bool, b1: bool, b2: bool, b3: bool, b4: bool, b5: bool, b6: bool, b7: bool)
    ensures
      var w0, w1 := b0 != (b7 != (b6 != (b5 != b4))), b1 != (b0 != (b7 != (b6 != b5)));
      var w2, w3 := b2 != (b1 != (b0 != (b7 != b6))), b3 != (b2 != (b1 != (b0 != b7)));
      var w4, w5 := b4 != (b3 != (b2 != (b1 != b0))), b5 != (b4 != (b3 != (b2 != b1)));
      var w6, w7 := b6 != (b5 != (b4 != (b3 != b2))), b7 != (b6 != (b5 != (b4 != b3)));
      && (w7 != (w5 != w2)) == b0 && (w0 != (w6 != w3)) == b1 && (w1 != (w7 != w4)) == b2 && (w2 != (w0 != w5)) == b3
      && (w3 != (w1 != w6)) == b4 && (w4 != (w2 != w7)) == b5 && (w5 != (w3 != w0)) == b6 && (w6 != (w4 != w1)) == b7
  {
  }

  lemma AffineInverse(y: byte)
    ensures InvAffine(Affine(y)) == y
  {
    hide Bit, Affine, InvAffine, Add8;
    var z := Affine(y);
    AffineBits(y);
    SumBits(z, 0x63);
    InvAffineBits(z);
    RotationsCancel(Bit(y, 0), Bit(y, 1), Bit(y, 2), Bit(y, 3), Bit(y, 4), Bit(y, 5), Bit(y, 6), Bit(y, 7));
    SameByte(InvAffine(z), y);
  }

  /** Adding the four rotations restores what one, three and six took apart. */
  lemma RotationsRestore(w0: bool, w1: bool, w2: bool, w3: bool, w4: bool, w5: bool, w6: bool, w7: bool)
    ensures
      var y0, y1, y2, y3 := w7 != (w5 != w2), w0 != (w6 != w3), w1 != (w7 != w4), w2 != (w0 != w5);
      var y4, y5, y6, y7 := w3 != (w1 != w6), w4 != (w2 != w7), w5 != (w3 != w0), w6 != (w4 != w1);
      && (y0 != (y7 != (y6 != (y5 != y4)))) == w0 && (y1 != (y0 != (y7 != (y6 != y5)))) == w1
      && (y2 != (y1 != (y0 != (y7 != y6)))) == w2 && (y3 != (y2 != (y1 != (y0 != y7)))) == w3
      && (y4 != (y3 != (y2 != (y1 != y0)))) == w4 && (y5 != (y4 != (y3 != (y2 != y1)))) == w5
      && (y6 != (y5 != (y4 != (y3 != y2)))) == w6 && (y7 != (y6 != (y5 != (y4 != y3)))) == w7
  {
  }

  lemma FiveAndOne(a: bool, b: bool, c: bool, d: bool, e: bool, f: bool)
    ensures (a != (b != (c != (d != (e != f))))) == ((a != (b != (c != (d != e)))) != f)
  {
  }

  /** The affine map of y has the bits of z when y comes from w = z + c. */
  lemma AffineRestores(r: byte, y: byte, w: byte, z: byte, c: byte)
    requires IsAffine(r, y, c) && IsInvAffine(y, w) && IsSum(w, z, c)
    ensures SameBits(r, z)
  {
    hide Bit;
    var y0, y1, y2, y3 := Bit(y, 0), Bit(y, 1), Bit(y, 2), Bit(y, 3);
    var y4, y5, y6, y7 := Bit(y, 4), Bit(y, 5), Bit(y, 6), Bit(y, 7);
    RotationsRestore(Bit(w, 0), Bit(w, 1), Bit(w, 2), Bit(w, 3), Bit(w, 4), Bit(w, 5), Bit(w, 6), Bit(w, 7));
    FiveAndOne(y0, y7, y6, y5, y4, Bit(c, 0));
    FiveAndOne(y1, y0, y7, y6, y5, Bit(c, 1));
    FiveAndOne(y2, y1, y0, y7, y6, Bit(c, 2));
    FiveAndOne(y3, y2, y1, y0, y7, Bit(c, 3));
    FiveAndOne(y4, y3, y2, y1, y0, Bit(c, 4));
    FiveAndOne(y5, y4, y3, y2, y1, Bit(c, 5));
    FiveAndOne(y6, y5, y4, y3, y2, Bit(c, 6));
    FiveAndOne(y7, y6, y5, y4, y3, Bit(c, 7));
  }

  lemma InverseAffine(z: byte)
    ensures Affine(InvAffine(z)) == z
  {
    hide Bit, Affine, InvAffine, Add8, IsAffine, IsInvAffine, IsSum, SameBits;
    var y := InvAffine(z);
    SumBits(z, 0x63);
    InvAffineBits(z);
    AffineBits(y);
    AffineRestores(Affine(y), y, Add8(z, 0x63), z, 0x63);
    SameByte(Affine(y), z);
  }

  // ---------------------------------------------------------------- the S-box

  ghost function Sbox(x: byte): byte { Affine(Inverse8(x)) }

  ghost function InvSbox(z: byte): byte { Inverse8(InvAffine(z)) }

  /** The two boxes undo each other. */
  lemma SboxInverse(x: byte)
    ensures InvSbox(Sbox(x)) == x && Sbox(InvSbox(x)) == x
  {
    hide Affine, InvAffine, Inverse8;
    AffineInverse(Inverse8(x));
    InverseTwice(x);
    InverseTwice(InvAffine(x));
    InverseAffine(x);
  }

  lemma SboxZero()
    ensures Sbox(0) == 0x63
  {
    hide Add8;
    assert Inverse8(0) == 0;
    assert Rotl8(0) == 0;
    ZeroSums();
  }

  lemma ZeroSums()
    ensures Add8(0, 0) == 0 && Add8(0, 0x63) == 0x63
  {
    PlusRules(0x63, 0);
    PlusRules(0, 0);
  }
}
