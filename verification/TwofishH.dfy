/** The key-dependent function h of Twofish and its tables, section 4.3 of the Twofish paper. */
module TwofishH {
  import opened Bits
  import opened Gf2
  import opened Buffers
  import opened PackedBytes
  import opened Word32
  import opened GfByte

  // ---------------------------------------------------------------- the permutations q0 and q1

  type nibble = x: int | 0 <= x < 16

  function Ror4(x: nibble): nibble {
    var t: seq<nibble> := [0, 8, 1, 9, 2, 10, 3, 11, 4, 12, 5, 13, 6, 14, 7, 15];
    t[x]
  }

  function Ashx(x: nibble): nibble {
    var t: seq<nibble> := [0, 9, 2, 11, 4, 13, 6, 15, 8, 1, 10, 3, 12, 5, 14, 7];
    t[x]
  }

  function QT0(n: nat, x: nibble): nibble
    requires n < 2
  {
    var t: seq<nibble> := if n == 0 then [8, 1, 7, 13, 6, 15, 3, 2, 0, 11, 5, 9, 14, 12, 10, 4]
                          else [2, 8, 11, 13, 15, 7, 6, 14, 3, 1, 9, 4, 0, 10, 12, 5];
    t[x]
  }

  function QT1(n: nat, x: nibble): nibble
    requires n < 2
  {
    var t: seq<nibble> := if n == 0 then [14, 12, 11, 8, 1, 2, 3, 5, 15, 4, 10, 6, 7, 0, 9, 13]
                          else [1, 14, 2, 11, 4, 12, 3, 7, 6, 13, 10, 5, 15, 9, 0, 8];
    t[x]
  }

  function QT2(n: nat, x: nibble): nibble
    requires n < 2
  {
    var t: seq<nibble> := if n == 0 then [11, 10, 5, 14, 6, 13, 9, 0, 12, 8, 15, 3, 2, 4, 7, 1]
                          else [4, 12, 7, 5, 1, 6, 9, 10, 0, 14, 13, 8, 2, 11, 3, 15];
    t[x]
  }

  function QT3(n: nat, x: nibble): nibble
    requires n < 2
  {
    var t: seq<nibble> := if n == 0 then [13, 7, 15, 4, 1, 2, 6, 14, 9, 11, 3, 0, 8, 5, 12, 10]
                          else [11, 9, 5, 1, 12, 3, 13, 14, 6, 4, 7, 15, 2, 0, 8, 10];
    t[x]
  }

  function XorNibble(a: nibble, b: nibble): (r: nibble)
    ensures r == Xor(a, b)
  {
    assert Pow2(4) == 16;
    Word32.XorBelow(a, b, 4);
    Xor(a, b)
  }

  /** qp. */
  function Qp(n: nat, x: byte): byte
    requires n < 2
  {
    var a0: nibble, b0: nibble := x / 16, x % 16;
    var a1, b1 := XorNibble(a0, b0), XorNibble(Ror4(b0), Ashx(a0));
    var a2, b2 := QT0(n, a1), QT1(n, b1);
    var a3, b3 := XorNibble(a2, b2), XorNibble(Ror4(b2), Ashx(a2));
    16 * QT3(n, b3) + QT2(n, a3)
  }

  /** The tables are the paper's rotation and its 8 a0 mod 16 added to a0. */
  lemma NibbleTables(x: nibble)
    ensures Ror4(x) == x / 2 + 8 * (x % 2) && Ashx(x) == XorNibble(x, 8 * x % 16)
  {
    hide Ashx, Ror4, XorNibble;
    Ror4Table(x);
    AshxTable(x);
    hide Xor;
    XorNibbleIs(x, 8 * x % 16);
    AshxForm(x);
  }

  lemma XorNibbleIs(a: nibble, b: nibble)
    ensures XorNibble(a, b) == Xor(a, b)
  {
  }

  lemma Ror4Table(x: nibble)
    ensures Ror4(x) == x / 2 + 8 * (x % 2)
  {
  }

  lemma AshxTable(x: nibble)
    ensures Ashx(x) == if x % 2 == 0 then x else if x < 8 then x + 8 else x - 8
  {
  }

  lemma AshxForm(x: nibble)
    ensures Xor(x, 8 * x % 16) == if x % 2 == 0 then x else if x < 8 then x + 8 else x - 8
  {
    hide Xor, Plus, Pow2;
    ThreeBits();
    XorIsPlus(x, 8 * x % 16);
    PlusRules(x, 0);
    PlusRules(x % 8, 0);
    PlusRules(0, 1);
    PlusRules(1, 1);
    PlusJoin(x / 8, x % 8, 1, 0, 3);
    assert x / 8 == 0 || x / 8 == 1;
  }

  lemma ThreeBits()
    ensures Pow2(3) == 8
  {
  }

  // ---------------------------------------------------------------- the MDS matrix

  lemma IsModulus()
    ensures Modulus(0x169)
  {
    NineBits(0x169);
  }

  /** The product in GF(2^8) modulo x^8 + x^6 + x^5 + x^3 + 1. */
  function Mul(a: byte, b: byte): byte {
    IsModulus();
    MulB(a, b, 0x169)
  }

  function Tab5b(i: nat): byte
    requires i < 4
  {
    if i == 0 then 0 else if i == 1 then 0x5A else if i == 2 then 0xB4 else 0xEE
  }

  function TabEf(i: nat): byte
    requires i < 4
  {
    if i == 0 then 0 else if i == 1 then 0xEE else if i == 2 then 0xB4 else 0x5A
  }

  /** ffm_5b. */
  function Ffm5b(x: byte): (r: byte)
    ensures r == Mul(0x5B, x)
  {
    QuartersIs(x);
    Add8(Add8(x, x / 4), Tab5b(x % 4))
  }

  /** ffm_ef. */
  function FfmEf(x: byte): (r: byte)
    ensures r == Mul(0xEF, x)
  {
    ThreeQuartersIs(x);
    Add8(Add8(Add8(x, x / 2), x / 4), TabEf(x % 4))
  }

  function Halve(x: byte): byte {
    IsModulus();
    Half(x, 0x169)
  }

  lemma HalveForm(x: byte)
    ensures Halve(x) == if x % 2 == 1 then Add8(x / 2, 0xB4) else x / 2
    ensures Mul(0xB4, x) == Halve(x)
  {
    IsModulus();
    hide MulB;
    HalfIs(x, 0x169);
    assert Half(1, 0x169) == Plus(0, 0xB4);
    PlusRules(0xB4, 0);
  }

  /** Halving twice, by table. */
  lemma HalveTwice(x: byte)
    ensures Halve(Halve(x)) == Add8(x / 4, Tab5b(x % 4)) && Mul(0x5A, x) == Halve(Halve(x))
  {
    hide Mul, Halve, Add8;
    HalveForm(x);
    HalveForm(Halve(x));
    HalfSum(x / 2, 0xB4);
    AddRules(x / 4, 0, 0);
    AddRules(x / 4, 0x5A, 0xB4);
    Constants();
    Quarter(x);
    MulTwice(0xB4, 0xB4, x);
  }

  lemma HalfSum(a: byte, b: byte)
    ensures Add8(a, b) / 2 == Add8(a / 2, b / 2) && Add8(a, b) % 2 == if a % 2 == b % 2 then 0 else 1
  {
    PlusHalf(a, b);
  }

  lemma Quarter(x: byte)
    ensures x / 2 / 2 == x / 4 && x % 4 == x % 2 + 2 * (x / 2 % 2)
  {
  }

  lemma MulTwice(a: byte, b: byte, x: byte)
    ensures Mul(Mul(a, b), x) == Mul(a, Mul(b, x))
  {
    IsModulus();
    hide MulB;
    MulBAssoc(a, b, x, 0x169);
  }

  /** 1/x^2 = 0x5A, and the sums of the constants. */
  lemma Constants()
    ensures Mul(0xB4, 0xB4) == 0x5A && Add8(0x5A, 0xB4) == 0xEE && Add8(0xB4, 0x5A) == 0xEE
    ensures Add8(1, 0x5A) == 0x5B && Add8(0x5B, 0xB4) == 0xEF && Add8(0xEE, 0xB4) == 0x5A && Add8(0xB4, 0xEE) == 0x5A
  {
    hide Mul, Halve, Add8;
    HalveForm(0xB4);
    HexSums();
    XorHex(0x5A, 0xB4, 0xEE, 5, 0xA, 0xB, 4, 0xE, 0xE);
    XorHex(1, 0x5A, 0x5B, 0, 1, 5, 0xA, 5, 0xB);
    XorHex(0x5B, 0xB4, 0xEF, 5, 0xB, 0xB, 4, 0xE, 0xF);
    XorHex(0xEE, 0xB4, 0x5A, 0xE, 0xE, 0xB, 4, 5, 0xA);
    AddRules(0x5A, 0xB4, 0);
    AddRules(0xEE, 0xB4, 0);
  }

  lemma HexSums()
    ensures Xor(5, 0xB) == 0xE && Xor(0xA, 4) == 0xE && Xor(0, 5) == 5 && Xor(1, 0xA) == 0xB
    ensures Xor(0xB, 4) == 0xF && Xor(0xE, 0xB) == 5 && Xor(0xE, 4) == 0xA
  {
    XorTiny();
    assert Xor(0, 5) == 5;
    hide Xor;
    XorUp(1, 2, 3, 0, 1);
    XorUp(2, 5, 7, 1, 1);
    XorUp(2, 1, 3, 1, 0);
    XorUp(5, 2, 7, 0, 0);
    XorUp(0, 2, 2, 0, 1);
    XorUp(0, 5, 5, 1, 0);
    XorUp(5, 2, 7, 1, 0);
    XorUp(3, 2, 1, 1, 1);
    XorUp(7, 5, 2, 0, 1);
    XorUp(3, 1, 2, 1, 0);
    XorUp(7, 2, 5, 0, 0);
  }

  lemma QuartersIs(x: byte)
    ensures Add8(Add8(x, x / 4), Tab5b(x % 4)) == Mul(0x5B, x)
  {
    hide Mul, Halve, Add8;
    HalveTwice(x);
    Constants();
    MulSum(1, 0x5A, x);
    AddRules(x, x / 4, Tab5b(x % 4));
  }

  lemma MulSum(a: byte, b: byte, x: byte)
    ensures Mul(Add8(a, b), x) == Add8(Mul(a, x), Mul(b, x)) && Mul(1, x) == x
  {
    IsModulus();
    hide MulB, Add8;
    MulBAdd(x, a, b, 0x169);
    MulBUnits(x, 0x169);
  }

  lemma ThreeQuartersIs(x: byte)
    ensures Add8(Add8(Add8(x, x / 2), x / 4), TabEf(x % 4)) == Mul(0xEF, x)
  {
    hide Mul, Halve, Add8;
    HalveForm(x);
    HalveTwice(x);
    Constants();
    MulSum(1, 0x5A, x);
    MulSum(0x5B, 0xB4, x);
    Quarter(x);
    EfSums(x, x / 2, x / 4, Tab5b(x % 4), x % 2 == 1);
    AddRules(x / 2, 0, 0);
    AddRules(0xB4, 0, 0);
  }

  /** ((x + h) + q) + (t + c) = (x + (q + t)) + (h + c). */
  lemma EfSums(x: byte, h: byte, q: byte, t: byte, odd: bool)
    ensures var c := if odd then 0xB4 else 0;
      Add8(Add8(Add8(x, h), q), Add8(t, c)) == Add8(Add8(x, Add8(q, t)), Add8(h, c)) && Add8(t, 0) == t
  {
    hide Add8;
    var c := if odd then 0xB4 else 0;
    AddRules(t, 0, 0);
    AddRules(x, h, q);
    AddRules(h, q, 0);
    AddRules(x, q, h);
    AddExchange(Add8(x, q), h, t, c);
    AddRules(x, q, t);
  }

  /** Column j of the MDS matrix times y. */
  function Column(j: nat, y: byte): Col
    requires j < 4
  {
    if j == 0 then Col(y, Mul(0x5B, y), Mul(0xEF, y), Mul(0xEF, y))
    else if j == 1 then Col(Mul(0xEF, y), Mul(0xEF, y), Mul(0x5B, y), y)
    else if j == 2 then Col(Mul(0x5B, y), Mul(0xEF, y), y, Mul(0xEF, y))
    else Col(Mul(0x5B, y), y, Mul(0xEF, y), Mul(0x5B, y))
  }

  // ---------------------------------------------------------------- h

  /** Which permutation layer n applies to byte j. */
  function Layer(n: nat, j: nat): nat
    requires n < 4 && j < 4
  {
    if n == 3 then (if j == 0 || j == 3 then 1 else 0)
    else if n == 2 then (if j < 2 then 1 else 0)
    else if n == 1 then j % 2
    else (if j < 2 then 0 else 1)
  }

  function ColByte(c: Col, j: nat): byte
    requires j < 4
  {
    if j == 0 then c.b0 else if j == 1 then c.b1 else if j == 2 then c.b2 else c.b3
  }

  /** Byte j after the layers from |key| - 1 down to n. */
  function Keyed(key: seq<word32>, j: nat, x: byte, n: nat): byte
    requires j < 4 && n <= |key| <= 4
    decreases |key| - n
  {
    if n == |key| then x else Add8(Qp(Layer(n, j), Keyed(key, j, x, n + 1)), ColByte(Unpack(key[n]), j))
  }

  /** The share of byte j in the result: layers, one more permutation, MDS column. */
  function Share(key: seq<word32>, j: nat, x: byte): Col
    requires j < 4 && |key| <= 4
  {
    Column(j, Qp(1 - j % 2, Keyed(key, j, x, 0)))
  }

  /** h of a column under a key list. */
  function H(key: seq<word32>, x: Col): Col
    requires |key| <= 4
  {
    AddCol(AddCol(AddCol(Share(key, 0, x.b0), Share(key, 1, x.b1)), Share(key, 2, x.b2)), Share(key, 3, x.b3))
  }

  // ---------------------------------------------------------------- tables

  ghost predicate QTable(q0: seq<byte>, q1: seq<byte>) {
    && |q0| == 256 && |q1| == 256
    && (forall x :: 0 <= x < 256 ==> q0[x] == Qp(0, x)) && (forall x :: 0 <= x < 256 ==> q1[x] == Qp(1, x))
  }

  method GenQtab(q0: array<byte>, q1: array<byte>)
    requires q0.Length == 256 && q1.Length == 256 && q0 != q1
    modifies q0, q1
    ensures QTable(q0[..], q1[..])
  {
    hide Qp;
    for i := 0 to 256
      invariant forall x :: 0 <= x < i ==> q0[x] == Qp(0, x)
      invariant forall x :: 0 <= x < i ==> q1[x] == Qp(1, x)
    {
      q0[i] := Qp(0, i);
      q1[i] := Qp(1, i);
    }
  }

  /** Table j holds, for each byte, the MDS column of its permutation. */
  ghost predicate MTable(m: seq<word32>, j: nat)
    requires j < 4
  {
    |m| == 256 && forall x :: 0 <= x < 256 ==> Unpack(m[x]) == Column(j, Qp(1 - j % 2, x))
  }

  method GenMtab(q0: array<byte>, q1: array<byte>, m0: array<word32>, m1: array<word32>, m2: array<word32>,
    m3: array<word32>)
    requires QTable(q0[..], q1[..])
    requires m0.Length == 256 && m1.Length == 256 && m2.Length == 256 && m3.Length == 256
    requires m0 != m1 && m0 != m2 && m0 != m3 && m1 != m2 && m1 != m3 && m2 != m3
    modifies m0, m1, m2, m3
    ensures MTable(m0[..], 0) && MTable(m1[..], 1) && MTable(m2[..], 2) && MTable(m3[..], 3)
  {
    hide Qp, Unpack, Column, Mul, Ffm5b, FfmEf;
    ghost var s, u := q0[..], q1[..];
    for i := 0 to 256
      invariant q0[..] == s && q1[..] == u
      invariant forall x :: 0 <= x < i ==> Unpack(m0[x]) == Column(0, Qp(1, x))
      invariant forall x :: 0 <= x < i ==> Unpack(m1[x]) == Column(1, Qp(0, x))
      invariant forall x :: 0 <= x < i ==> Unpack(m2[x]) == Column(2, Qp(1, x))
      invariant forall x :: 0 <= x < i ==> Unpack(m3[x]) == Column(3, Qp(0, x))
    {
      assert s[i] == Qp(0, i) && u[i] == Qp(1, i);
      var w0, w2 := EvenEntries(q1[i]);
      m0[i] := w0;
      m2[i] := w2;
      var w1, w3 := OddEntries(q0[i]);
      m1[i] := w1;
      m3[i] := w3;
    }
  }

  /** Entries of tables 0 and 2 for one permuted byte. */
  method EvenEntries(f01: byte) returns (w0: word32, w2: word32)
    ensures Unpack(w0) == Column(0, f01) && Unpack(w2) == Column(2, f01)
  {
    hide Unpack, Mul, Ffm5b, FfmEf;
    var f5b, fef := Ffm5b(f01), FfmEf(f01);
    w0 := Joined(f01, f5b, fef, fef);
    w2 := Joined(f5b, fef, f01, fef);
  }

  method OddEntries(f01: byte) returns (w1: word32, w3: word32)
    ensures Unpack(w1) == Column(1, f01) && Unpack(w3) == Column(3, f01)
  {
    hide Unpack, Mul, Ffm5b, FfmEf;
    var f5b, fef := Ffm5b(f01), FfmEf(f01);
    w1 := Joined(fef, fef, f5b, f01);
    w3 := Joined(f5b, f01, fef, f5b);
  }

  /** `a + (b << 8) + (c << 16) + (d << 24)`. */
  function Joined(a: byte, b: byte, c: byte, d: byte): (w: word32)
    ensures Unpack(w) == Col(a, b, c, d)
  {
    hide Unpack;
    var w: word32 := WordOf(a, b, c, d);
    UnpackIs(w, a, b, c, d);
    w
  }

  function WordOf(a: int, b: int, c: int, d: int): (w: int)
    ensures 0 <= a < 256 && 0 <= b < 256 && 0 <= c < 256 && 0 <= d < 256 ==> 0 <= w < 0x1_0000_0000
  {
    a + 0x100 * b + 0x1_0000 * c + 0x100_0000 * d
  }
}
