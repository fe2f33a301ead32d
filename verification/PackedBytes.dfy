/** Bytes added by exclusive-or, and 32-bit words as columns of four bytes. */
module PackedBytes {
  import opened Bits
  import opened Gf2
  import opened Buffers
  import opened Word32

  function Add8(a: byte, b: byte): (r: byte)
    ensures r == Plus(a, b)
  {
    XorByte(a, b);
    Plus(a, b)
  }

  lemma XorIsPlus(a: nat, b: nat)
    ensures Xor(a, b) == Plus(a, b)
  {
  }

  /** Exclusive-or by hexadecimal digits. */
  lemma XorHex(a: byte, b: byte, c: byte, ah: nat, al: nat, bh: nat, bl: nat, ch: nat, cl: nat)
    requires a == 16 * ah + al && b == 16 * bh + bl && c == 16 * ch + cl && al < 16 && bl < 16
    requires Xor(ah, bh) == ch && Xor(al, bl) == cl
    ensures Add8(a, b) == c
  {
    hide Plus, Xor, Pow2;
    Pow2Four();
    XorIsPlus(ah, bh);
    XorIsPlus(al, bl);
    PlusJoin(ah, al, bh, bl, 4);
    assert ah * 16 == 16 * ah && bh * 16 == 16 * bh;
  }

  lemma Pow2Four()
    ensures Pow2(4) == 16
  {
  }

  lemma XorUp(a: nat, b: nat, c: nat, i: nat, j: nat)
    requires Xor(a, b) == c && i < 2 && j < 2
    ensures Xor(2 * a + i, 2 * b + j) == 2 * c + if i == j then 0 else 1
  {
    HalfForms(a);
    HalfForms(b);
  }

  lemma XorTiny()
    ensures Xor(0, 0) == 0 && Xor(0, 1) == 1 && Xor(0, 2) == 2 && Xor(0, 3) == 3
    ensures Xor(1, 0) == 1 && Xor(1, 1) == 0 && Xor(1, 2) == 3 && Xor(1, 3) == 2
    ensures Xor(2, 0) == 2 && Xor(2, 1) == 3 && Xor(2, 2) == 0 && Xor(2, 3) == 1
    ensures Xor(3, 0) == 3 && Xor(3, 1) == 2 && Xor(3, 2) == 1 && Xor(3, 3) == 0
  {
  }

  lemma AddRules(a: byte, b: byte, c: byte)
    ensures Add8(a, b) == Add8(b, a) && Add8(a, 0) == a && Add8(0, a) == a && Add8(a, a) == 0
    ensures Add8(Add8(a, b), c) == Add8(a, Add8(b, c)) && Add8(a, Add8(a, b)) == b
  {
    PlusRules(a, b);
    PlusAssoc(a, b, c);
  }

  lemma AddExchange(a: byte, b: byte, c: byte, d: byte)
    ensures Add8(Add8(a, b), Add8(c, d)) == Add8(Add8(a, c), Add8(b, d))
  {
    PlusSwap(a, b, c, d);
  }

  lemma AddCancel(a: byte, b: byte)
    ensures Add8(a, Add8(a, b)) == b && Add8(Add8(a, b), b) == a
  {
    hide Add8;
    AddRules(a, b, b);
    AddRules(b, b, 0);
    AddRules(a, 0, 0);
  }

  datatype Col = Col(b0: byte, b1: byte, b2: byte, b3: byte)

  function AddCol(x: Col, y: Col): Col {
    Col(Add8(x.b0, y.b0), Add8(x.b1, y.b1), Add8(x.b2, y.b2), Add8(x.b3, y.b3))
  }

  lemma AddColCancel(x: Col, y: Col)
    ensures AddCol(x, AddCol(x, y)) == y && AddCol(AddCol(x, y), y) == x
  {
    hide Add8;
    AddCancel(x.b0, y.b0);
    AddCancel(x.b1, y.b1);
    AddCancel(x.b2, y.b2);
    AddCancel(x.b3, y.b3);
  }

  lemma AddColAssoc(x: Col, y: Col, z: Col)
    ensures AddCol(AddCol(x, y), z) == AddCol(x, AddCol(y, z)) && AddCol(x, y) == AddCol(y, x)
  {
    hide Add8;
    AddRules(x.b0, y.b0, z.b0);
    AddRules(x.b1, y.b1, z.b1);
    AddRules(x.b2, y.b2, z.b2);
    AddRules(x.b3, y.b3, z.b3);
  }

  // ---------------------------------------------------------------- packed columns

  /** The bytes of a word, least significant first. */
  function Unpack(w: word32): Col {
    Col(w % 256, w / 0x100 % 256, w / 0x1_0000 % 256, w / 0x100_0000)
  }

  lemma UnpackIs(w: word32, b0: byte, b1: byte, b2: byte, b3: byte)
    requires w == b0 + 0x100 * b1 + 0x1_0000 * b2 + 0x100_0000 * b3
    ensures Unpack(w) == Col(b0, b1, b2, b3)
  {
    assert w / 0x100 == b1 + 0x100 * b2 + 0x1_0000 * b3;
    assert w / 0x1_0000 == b2 + 0x100 * b3;
  }

  lemma Repack(w: word32)
    ensures var c := Unpack(w); w == ((c.b3 * 256 + c.b2) * 256 + c.b1) * 256 + c.b0
  {
    assert w / 0x1_0000 == w / 0x100 / 256 && w / 0x100_0000 == w / 0x100 / 256 / 256;
  }

  /** Exclusive-or of words is exclusive-or of their columns. */
  lemma UnpackXor(a: word32, b: word32)
    ensures Unpack(Xor32(a, b)) == AddCol(Unpack(a), Unpack(b))
  {
    hide Plus, Xor, Unpack, Pow2;
    Repack(a);
    Repack(b);
    var x, y := Unpack(a), Unpack(b);
    XorIsPlus(a, b);
    EightBits();
    PlusJoin(x.b3, x.b2, y.b3, y.b2, 8);
    PlusJoin(x.b3 * 256 + x.b2, x.b1, y.b3 * 256 + y.b2, y.b1, 8);
    PlusJoin((x.b3 * 256 + x.b2) * 256 + x.b1, x.b0, (y.b3 * 256 + y.b2) * 256 + y.b1, y.b0, 8);
    var c := AddCol(x, y);
    UnpackIs(Xor32(a, b), c.b0, c.b1, c.b2, c.b3);
  }

  lemma EightBits()
    ensures Pow2(8) == 256
  {
  }

  /** `(w) & 0xFF` and its shifted forms pick the bytes. */
  function Byte0(w: word32): (b: byte)
    ensures b == Unpack(w).b0
  {

    Masked(w);
    And32(w, 0xFF)
  }

  function Byte1(w: word32): (b: byte)
    ensures b == Unpack(w).b1
  {
    Shifts(w);
    Masked(Shr32(w, 8));
    And32(Shr32(w, 8), 0xFF)
  }

  function Byte2(w: word32): (b: byte)
    ensures b == Unpack(w).b2
  {
    Shifts(w);
    Masked(Shr32(w, 16));
    And32(Shr32(w, 16), 0xFF)
  }

  function Byte3(w: word32): (b: byte)
    ensures b == Unpack(w).b3
  {
    TopByte(w);
    Masked(Shr32(w, 24));
    And32(Shr32(w, 24), 0xFF)
  }

  lemma TopByte(w: word32)
    ensures Shr32(w, 24) % 256 == Unpack(w).b3
  {
    Shifts(w);
    hide Shr32;
  }

  lemma Masked(w: word32)
    ensures And32(w, 0xFF) == w % 256
  {
    EightBits();
    AndMask(w, 8);
  }

  lemma Shifts(w: word32)
    ensures Shr32(w, 8) == w / 0x100 && Shr32(w, 16) == w / 0x1_0000 && Shr32(w, 24) == w / 0x100_0000
  {
    Size();
    Pow2Add(16, 8);
  }

  /** `x << 8`, `x << 16` and `x << 24` of a byte. */
  lemma Placed(x: byte)
    ensures Unpack(x) == Col(x, 0, 0, 0) && Unpack(Shl32(x, 8)) == Col(0, x, 0, 0)
    ensures Unpack(Shl32(x, 16)) == Col(0, 0, x, 0) && Unpack(Shl32(x, 24)) == Col(0, 0, 0, x)
  {
    Size();
    Pow2Add(16, 8);
    hide Pow2;
    UnpackIs(x, x, 0, 0, 0);
    UnpackIs(Shl32(x, 8), 0, x, 0, 0);
    UnpackIs(Shl32(x, 16), 0, 0, x, 0);
    UnpackIs(Shl32(x, 24), 0, 0, 0, x);
  }

  /** Four bytes brought together by exclusive-or. */
  function Pack(a: byte, b: byte, c: byte, d: byte): (w: word32)
    ensures Unpack(w) == Col(a, b, c, d)
  {
    PackIs(a, b, c, d);
    Xor32(Xor32(Xor32(a, Shl32(b, 8)), Shl32(c, 16)), Shl32(d, 24))
  }

  lemma PackIs(a: byte, b: byte, c: byte, d: byte)
    ensures Unpack(Xor32(Xor32(Xor32(a, Shl32(b, 8)), Shl32(c, 16)), Shl32(d, 24))) == Col(a, b, c, d)
  {
    hide Unpack, Shl32, Xor, Add8;
    Placed(a);
    Placed(b);
    Placed(c);
    Placed(d);
    UnpackXor(a, Shl32(b, 8));
    UnpackXor(Xor32(a, Shl32(b, 8)), Shl32(c, 16));
    UnpackXor(Xor32(Xor32(a, Shl32(b, 8)), Shl32(c, 16)), Shl32(d, 24));
    AddRules(a, 0, 0);
    AddRules(b, 0, 0);
    AddRules(c, 0, 0);
    AddRules(d, 0, 0);
    AddRules(0, 0, 0);
  }

  /** ROTL8. */
  function RotlWord(x: word32): (r: word32)
    ensures Unpack(r) == Col(Unpack(x).b3, Unpack(x).b0, Unpack(x).b1, Unpack(x).b2)
  {
    RotlWordIs(x);
    Or32(And32(Shl32(x, 8), 0xFFFF_FFFF), Shr32(x, 24))
  }

  lemma RotlWordIs(x: word32)
    ensures Unpack(Or32(And32(Shl32(x, 8), 0xFFFF_FFFF), Shr32(x, 24))) ==
      Col(Unpack(x).b3, Unpack(x).b0, Unpack(x).b1, Unpack(x).b2)
  {
    hide Pow2, Unpack, Or, And, Shl32, Shr32;
    var c := Unpack(x);
    RotlParts(x);
    Size();
    AndMask(Shl32(x, 8), 32);
    SmallMod(Shl32(x, 8));
    Divisible(Shl32(x, 8), c.b0 + 0x100 * c.b1 + 0x1_0000 * c.b2);
    OrDisjoint(Shl32(x, 8), Shr32(x, 24), 8);
    UnpackIs(Shl32(x, 8) + Shr32(x, 24), c.b3, c.b0, c.b1, c.b2);
  }

  lemma SmallMod(x: word32)
    ensures x % 0x1_0000_0000 == x
  {
  }

  lemma Divisible(x: int, y: int)
    requires x == 256 * y
    ensures x % 256 == 0
  {
  }

  lemma RotlParts(x: word32)
    ensures var c := Unpack(x);
      Shl32(x, 8) == 256 * (c.b0 + 0x100 * c.b1 + 0x1_0000 * c.b2) && Shr32(x, 24) == c.b3
  {
    Size();
    Shifts(x);
    Repack(x);
    hide Pow2;
    var c := Unpack(x);
    DivModUnique(x * 256, 0x1_0000_0000, c.b3, 256 * (c.b0 + 0x100 * c.b1 + 0x1_0000 * c.b2));
  }
}
