/** Twofish told once more, after section 4 of the Twofish paper: the inverses of q0 and q1, h with its
    permutations and its matrix written out, the subkeys, and sixteen single rounds. */
module TwofishReference {
  import opened Bits
  import opened Gf2
  import opened Gf2Field
  import opened GfRing
  import opened Buffers
  import opened PackedBytes
  import opened Word32
  import opened GfByte
  import opened TwofishH
  import opened Twofish
  import Rs = TwofishRs

  // ---------------------------------------------------------------- the two fields

  /** The matrix multiplies modulo x^8 + x^6 + x^5 + x^3 + 1, the Reed-Solomon code modulo
      x^8 + x^6 + x^3 + x^2 + 1. */
  lemma FieldsAre(a: byte, b: byte)
    ensures IsProduct(Mul(a, b), a, b, Pow2(8) + Pow2(6) + Pow2(5) + Pow2(3) + 1)
    ensures IsProduct(Rs.Mul(a, b), a, b, Pow2(8) + Pow2(6) + Pow2(3) + Pow2(2) + 1)
  {
    hide MulMod;
    IsModulus();
    Rs.IsModulus();
    Short(a);
    Powers();
  }

  lemma Powers()
    ensures Pow2(8) == 256 && Pow2(6) == 64 && Pow2(5) == 32 && Pow2(3) == 8 && Pow2(2) == 4
  {
  }

  // ---------------------------------------------------------------- the permutations undone

  function InvQT0(n: nat, y: nibble): nibble
    requires n < 2
  {
    var t: seq<nibble> := if n == 0 then [8, 1, 7, 6, 15, 10, 4, 2, 0, 11, 14, 9, 13, 3, 12, 5]
                          else [12, 9, 0, 8, 11, 15, 6, 5, 1, 10, 13, 2, 14, 3, 7, 4];
    t[y]
  }

  function InvQT1(n: nat, y: nibble): nibble
    requires n < 2
  {
    var t: seq<nibble> := if n == 0 then [13, 4, 5, 6, 9, 7, 11, 12, 3, 14, 10, 2, 1, 15, 0, 8]
                          else [14, 0, 2, 6, 4, 11, 8, 7, 15, 13, 10, 3, 5, 9, 1, 12];
    t[y]
  }

  function InvQT2(n: nat, y: nibble): nibble
    requires n < 2
  {
    var t: seq<nibble> := if n == 0 then [7, 15, 12, 11, 13, 2, 4, 14, 9, 6, 1, 0, 8, 5, 3, 10]
                          else [8, 4, 12, 14, 0, 3, 5, 2, 11, 6, 7, 13, 1, 10, 9, 15];
    t[y]
  }

  function InvQT3(n: nat, y: nibble): nibble
    requires n < 2
  {
    var t: seq<nibble> := if n == 0 then [11, 4, 5, 10, 3, 13, 6, 1, 12, 8, 15, 9, 14, 0, 7, 2]
                          else [13, 3, 12, 5, 9, 2, 8, 10, 14, 1, 15, 0, 4, 6, 7, 11];
    t[y]
  }

  lemma Undone0(n: nat, x: nibble)
    requires n < 2
    ensures InvQT0(n, QT0(n, x)) == x
  {
    EachNibble(x);
  }

  lemma Undone1(n: nat, x: nibble)
    requires n < 2
    ensures InvQT1(n, QT1(n, x)) == x
  {
    EachNibble(x);
  }

  lemma Undone2(n: nat, x: nibble)
    requires n < 2
    ensures InvQT2(n, QT2(n, x)) == x
  {
    EachNibble(x);
  }

  lemma Undone3(n: nat, x: nibble)
    requires n < 2
    ensures InvQT3(n, QT3(n, x)) == x
  {
    EachNibble(x);
  }

  lemma EachNibble(x: nibble)
    ensures x == 0 || x == 1 || x == 2 || x == 3 || x == 4 || x == 5 || x == 6 || x == 7
      || x == 8 || x == 9 || x == 10 || x == 11 || x == 12 || x == 13 || x == 14 || x == 15
  {
  }

  /** The inverse of Ror4(b) + Ashx(b). */
  function InvMix(y: nibble): nibble {
    var t: seq<nibble> := [0, 1, 3, 2, 7, 6, 4, 5, 15, 14, 12, 13, 8, 9, 11, 10];
    t[y]
  }

  lemma MixedNibble(b: nibble)
    ensures InvMix(XorNibble(Ror4(b), Ashx(b))) == b
  {
    hide XorNibble;
    if b < 8 { LowMixed(b); } else { HighMixed(b); }
  }

  lemma LowMixed(b: nibble)
    requires b < 8
    ensures InvMix(XorNibble(Ror4(b), Ashx(b))) == b
  {
    LowXors();
    hide Xor;
    EachNibble(b);
  }

  lemma LowXors()
    ensures Xor(0, 0) == 0 && Xor(8, 9) == 1 && Xor(1, 2) == 3 && Xor(9, 11) == 2
    ensures Xor(2, 4) == 6 && Xor(10, 13) == 7 && Xor(3, 6) == 5 && Xor(11, 15) == 4
  {
    XorTiny();
    hide Xor;
    XorUp(2, 2, 0, 0, 0); XorUp(4, 4, 0, 0, 1);
    XorUp(2, 2, 0, 0, 1); XorUp(4, 5, 1, 1, 1);
    XorUp(1, 2, 3, 0, 0);
    XorUp(2, 3, 1, 1, 0); XorUp(5, 6, 3, 0, 1);
    XorUp(1, 3, 2, 1, 0);
    XorUp(2, 3, 1, 1, 1); XorUp(5, 7, 2, 1, 1);
  }

  lemma HighMixed(b: nibble)
    requires b >= 8
    ensures InvMix(XorNibble(Ror4(b), Ashx(b))) == b
  {
    HighXors();
    hide Xor;
    EachNibble(b);
  }

  lemma HighXors()
    ensures Xor(4, 8) == 12 && Xor(12, 1) == 13 && Xor(5, 10) == 15 && Xor(13, 3) == 14
    ensures Xor(6, 12) == 10 && Xor(14, 5) == 11 && Xor(7, 14) == 9 && Xor(15, 7) == 8
  {
    XorTiny();
    assert Xor(3, 0) == 3;
    hide Xor;
    XorUp(1, 2, 3, 0, 0); XorUp(2, 4, 6, 0, 0);
    XorUp(3, 0, 3, 0, 0); XorUp(6, 0, 6, 0, 1);
    XorUp(1, 2, 3, 0, 1); XorUp(2, 5, 7, 1, 0);
    XorUp(3, 0, 3, 0, 1); XorUp(6, 1, 7, 1, 1);
    XorUp(1, 3, 2, 1, 0); XorUp(3, 6, 5, 0, 0);
    XorUp(3, 1, 2, 1, 0); XorUp(7, 2, 5, 0, 1);
    XorUp(1, 3, 2, 1, 1); XorUp(3, 7, 4, 1, 0);
    XorUp(3, 1, 2, 1, 1); XorUp(7, 3, 4, 1, 1);
  }

  /** The mixing of two nibbles, and its inverse. */
  function Mix(a: nibble, b: nibble): (nibble, nibble) { (XorNibble(a, b), XorNibble(Ror4(b), Ashx(a))) }

  function UnMix(c: nibble, d: nibble): (nibble, nibble) {
    var b := InvMix(XorNibble(d, Ashx(c)));
    (XorNibble(c, b), b)
  }

  function InvQp(n: nat, y: byte): byte
    requires n < 2
  {
    var m := UnMix(InvQT2(n, y % 16), InvQT3(n, y / 16));
    var w := UnMix(InvQT0(n, m.0), InvQT1(n, m.1));
    16 * w.0 + w.1
  }

  /** q0 and q1 are permutations of the bytes: each is undone by the inverses of its nibble tables. */
  lemma QUndone(n: nat, x: byte)
    requires n < 2
    ensures InvQp(n, Qp(n, x)) == x
  {
    hide QT0, QT1, QT2, QT3, InvQT0, InvQT1, InvQT2, InvQT3, Mix, UnMix, Qp;
    var m := Mix(x / 16, x % 16);
    var w := Mix(QT0(n, m.0), QT1(n, m.1));
    QForm(n, x);
    Nibbles(QT3(n, w.1), QT2(n, w.0));
    Undone3(n, w.1);
    Undone2(n, w.0);
    MixUndone(QT0(n, m.0), QT1(n, m.1));
    Undone0(n, m.0);
    Undone1(n, m.1);
    MixUndone(x / 16, x % 16);
  }

  lemma QForm(n: nat, x: byte)
    requires n < 2
    ensures
      var m := Mix(x / 16, x % 16);
      var w := Mix(QT0(n, m.0), QT1(n, m.1));
      Qp(n, x) == 16 * QT3(n, w.1) + QT2(n, w.0)
  {
    hide QT0, QT1, QT2, QT3, XorNibble, Ror4, Ashx;
  }

  lemma Nibbles(h: nibble, l: nibble)
    ensures (16 * h + l) / 16 == h && (16 * h + l) % 16 == l
  {
  }

  lemma MixUndone(a: nibble, b: nibble)
    ensures UnMix(Mix(a, b).0, Mix(a, b).1) == (a, b)
  {
    hide Ror4, Ashx, InvMix, Xor;
    MixedNibble(b);
    AshxSum(a, b);
    // d + Ashx(c) = (Ror4(b) + Ashx(a)) + (Ashx(a) + Ashx(b))
    XorAssoc(Xor(Ror4(b), Ashx(a)), Ashx(a), Ashx(b));
    XorAssoc(Ror4(b), Ashx(a), Ashx(a));
    XorSelf(Ashx(a));
    XorNone(Ror4(b));
    XorAssoc(a, b, b);
    XorSelf(b);
    XorNone(a);
  }

  lemma XorNone(a: int)
    ensures Xor(a, 0) == a
  {
  }

  lemma AshxSum(a: nibble, b: nibble)
    ensures Ashx(XorNibble(a, b)) == XorNibble(Ashx(a), Ashx(b))
  {
    hide Ror4, Ashx, Xor, Top;
    AshxTop(a);
    AshxTop(b);
    AshxTop(XorNibble(a, b));
    TopSum(a, b);
    // (a + b) + (p + q) = (a + p) + (b + q)
    var p, q := Top(a), Top(b);
    XorAssoc(a, b, Xor(p, q));
    XorAssoc(b, p, q);
    XorComm(b, p);
    XorAssoc(p, b, q);
    XorAssoc(a, p, Xor(b, q));
  }

  /** 8 x modulo 16. */
  function Top(x: nibble): nibble { if x % 2 == 1 then 8 else 0 }

  lemma AshxTop(x: nibble)
    ensures Ashx(x) == Xor(x, Top(x))
  {
    hide Ashx, Ror4, XorNibble, Xor;
    NibbleTables(x);
    assert 8 * x % 16 == Top(x);
    XorNibbleIs(x, Top(x));
  }

  lemma TopSum(a: nibble, b: nibble)
    ensures Top(XorNibble(a, b)) == Xor(Top(a), Top(b))
  {
    XorParity(a, b);
    Eights();
    hide Xor;
    XorNibbleIs(a, b);
  }

  lemma Eights()
    ensures Xor(8, 8) == 0 && Xor(0, 8) == 8 && Xor(8, 0) == 8 && Xor(0, 0) == 0
  {
  }

  // ---------------------------------------------------------------- section 4.3.2

  /** Byte j of a word. */
  function ByteOf(w: word32, j: nat): byte { w / Pow2(8 * j) % 256 }

  /** A byte through the permutations a to e, with key bytes added between them; short keys use the
      last three, or all but the first. */
  function Path(key: seq<word32>, j: nat, x: byte, a: nat, b: nat, c: nat, d: nat, e: nat): byte
    requires 2 <= |key| <= 4 && a < 2 && b < 2 && c < 2 && d < 2 && e < 2
  {
    var u := if |key| == 4 then Add8(Qp(a, x), ByteOf(key[3], j)) else x;
    var v := if |key| >= 3 then Add8(Qp(b, u), ByteOf(key[2], j)) else x;
    Qp(e, Add8(Qp(d, Add8(Qp(c, v), ByteOf(key[1], j))), ByteOf(key[0], j)))
  }

  /** The permutations of each byte, and the matrix (01 EF 5B 5B, 5B EF EF 01, EF 5B 01 EF, EF 01 EF 5B). */
  lemma HIs(key: seq<word32>, x: Col)
    requires 2 <= |key| <= 4
    ensures
      var y0, y1 := Path(key, 0, x.b0, 1, 1, 0, 0, 1), Path(key, 1, x.b1, 0, 1, 1, 0, 0);
      var y2, y3 := Path(key, 2, x.b2, 0, 0, 0, 1, 1), Path(key, 3, x.b3, 1, 0, 1, 1, 0);
      H(key, x) == Col(
        Add8(Add8(Add8(y0, Mul(0xEF, y1)), Mul(0x5B, y2)), Mul(0x5B, y3)),
        Add8(Add8(Add8(Mul(0x5B, y0), Mul(0xEF, y1)), Mul(0xEF, y2)), y3),
        Add8(Add8(Add8(Mul(0xEF, y0), Mul(0x5B, y1)), y2), Mul(0xEF, y3)),
        Add8(Add8(Add8(Mul(0xEF, y0), y1), Mul(0xEF, y2)), Mul(0x5B, y3)))
  {
    hide Mul, Add8, Qp, TwofishH.Keyed, ByteOf, Path;
    PathIs(key, 0, x.b0);
    PathIs(key, 1, x.b1);
    PathIs(key, 2, x.b2);
    PathIs(key, 3, x.b3);
  }

  lemma PathIs(key: seq<word32>, j: nat, x: byte)
    requires 2 <= |key| <= 4 && j < 4
    ensures Qp(1 - j % 2, TwofishH.Keyed(key, j, x, 0)) ==
      Path(key, j, x, if j == 0 || j == 3 then 1 else 0, if j < 2 then 1 else 0, j % 2, if j < 2 then 0 else 1,
        1 - j % 2)
  {
    hide Add8, Qp, Unpack, ByteOf;
    ByteOfIs(key[0], j);
    ByteOfIs(key[1], j);
    KeyedAll(key, j, x);
    if |key| >= 3 {
      ByteOfIs(key[2], j);
      KeyedStep(key, j, x, 2);
    }
    if |key| == 4 {
      ByteOfIs(key[3], j);
      KeyedStep(key, j, x, 3);
    }
    KeyedStep(key, j, x, 1);
    KeyedStep(key, j, x, 0);
    hide TwofishH.Keyed;
  }

  lemma KeyedAll(key: seq<word32>, j: nat, x: byte)
    requires |key| <= 4 && j < 4
    ensures TwofishH.Keyed(key, j, x, |key|) == x
  {
  }

  lemma KeyedStep(key: seq<word32>, j: nat, x: byte, n: nat)
    requires n < |key| <= 4 && j < 4
    ensures TwofishH.Keyed(key, j, x, n) ==
      Add8(Qp(Layer(n, j), TwofishH.Keyed(key, j, x, n + 1)), ColByte(Unpack(key[n]), j))
  {
    hide Qp, Unpack, Add8;
  }

  lemma ByteOfIs(w: word32, j: nat)
    requires j < 4
    ensures ByteOf(w, j) == ColByte(Unpack(w), j)
  {
    BytePowers();
    hide Pow2;
    assert j == 0 || j == 1 || j == 2 || j == 3;
    assert w / 0x100_0000 < 256;
  }

  lemma BytePowers()
    ensures Pow2(0) == 1 && Pow2(8) == 0x100 && Pow2(16) == 0x1_0000 && Pow2(24) == 0x100_0000
  {
    Size();
    Pow2Add(16, 8);
  }

  // ---------------------------------------------------------------- section 4.3.3

  /** The two subkeys from a and g: with b = g rotated left by 8 places, a + b, and a + 2 b rotated left
      by 9 places. */
  predicate PairOf(a: word32, g: word32, k0: word32, k1: word32) {
    var b := g * 0x100 % 0x1_0000_0000 + g / 0x100_0000;
    var t := (a + 2 * b) % 0x1_0000_0000;
    k0 == (a + b) % 0x1_0000_0000 && k1 == t * 0x200 % 0x1_0000_0000 + t / 0x80_0000
  }

  /** h of one byte four times. */
  function Repeated(key: seq<word32>, n: byte): word32
    requires |key| <= 4
  {
    hide H;
    WordCol(H(key, Col(n, n, n, n)))
  }

  predicate PairIs(me: seq<word32>, mo: seq<word32>, i: nat)
    requires |me| <= 4 && |mo| <= 4 && i < 20
  {
    hide PairOf, Repeated, SubKey;
    PairOf(Repeated(me, 2 * i), Repeated(mo, 2 * i + 1), SubKey(me, mo, 2 * i), SubKey(me, mo, 2 * i + 1))
  }

  /** Subkeys 2 i and 2 i + 1 come from the bytes 2 i and 2 i + 1. */
  lemma SubKeysAre(me: seq<word32>, mo: seq<word32>, i: nat)
    requires |me| <= 4 && |mo| <= 4 && i < 20
    ensures PairIs(me, mo, i)
  {
    hide H, Unpack, Rotl, WordCol;
    RhoBytes(2 * i);
    RhoBytes(2 * i + 1);
    assert 2 * i / 2 == i && (2 * i + 1) / 2 == i;
    RotlParts8(Repeated(mo, 2 * i + 1));
    RotlParts9(Sum32(Repeated(me, 2 * i) + 2 * WordB(mo, i)));
  }

  lemma RhoBytes(n: nat)
    requires n <= 40
    ensures Unpack(Rho(n)) == Col(n, n, n, n)
  {
    hide Unpack;
    UnpackIs(Rho(n), n, n, n, n);
  }

  lemma RotlParts8(x: word32)
    ensures Rotl(x, 8) == x * 0x100 % 0x1_0000_0000 + x / 0x100_0000
  {
    RotlSum(x, 8);
    Size();
    Pow2Add(16, 8);
  }

  lemma RotlParts9(x: word32)
    ensures Rotl(x, 9) == x * 0x200 % 0x1_0000_0000 + x / 0x80_0000
  {
    RotlSum(x, 9);
    Size();
    Pow2Add(8, 1);
    Pow2Add(16, 7);
    assert Pow2(1) == 2 && Pow2(7) == 128;
  }

  lemma RotlSum(x: word32, n: nat)
    requires n <= 32
    ensures Rotl(x, n) == Shl32(x, n) + Shr32(x, 32 - n)
  {
    hide Or, Shl32, Shr32, Rotl, Pow2;
    RotlIs(x, n);
    RotrRange(x, 32 - n);
    RotrIs(x, 32 - n);
  }

  lemma RotrIs(x: word32, n: nat)
    requires n <= 32
    ensures Rotr(x, n) == Shr32(x, n) + x % Pow2(n) * Pow2(32 - n)
  {
  }

  // ---------------------------------------------------------------- sixteen rounds

  /** One round of section 4.1: F of the first two words masks the others, and the halves change places. */
  function Step(key: seq<word32>, l: seq<word32>, x: Blk, r: nat): Blk
    requires |key| <= 4 && |l| == 40 && r < 16
  {
    var t0: int, t1: int := G(key, x.w0), G(key, Rotr(x.w1, 24));
    var f0, f1 := Sum32(t0 + t1 + l[2 * r + 8]), Sum32(t0 + 2 * t1 + l[2 * r + 9]);
    Blk(Rotr(Xor32(x.w2, f0), 1), Xor32(Rotr(x.w3, 31), f1), x.w0, x.w1)
  }

  function Steps(key: seq<word32>, l: seq<word32>, x: Blk, n: nat): Blk
    requires |key| <= 4 && |l| == 40 && n <= 16
  {
    if n == 0 then x else Step(key, l, Steps(key, l, x, n - 1), n - 1)
  }

  lemma DoubleRound(key: seq<word32>, l: seq<word32>, x: Blk, i: nat)
    requires |key| <= 4 && |l| == 40 && i < 8
    ensures FRound(key, l, x, i) == Step(key, l, Step(key, l, x, 2 * i), 2 * i + 1)
  {
    hide G, Sum32, Xor32, Rotr, Rotl, RotrWord;
    var f := Forward(key, x.w0, x.w1, x.w2, x.w3, l[4 * i + 8], l[4 * i + 9]);
    HalfRotations(x.w1, x.w3);
    HalfRotations(f.1, x.w1);
    RotlIs(Xor32(x.w2, Mask0(key, x.w0, x.w1, l[4 * i + 8])), 1);
    RotlIs(Xor32(x.w0, Mask0(key, f.0, f.1, l[4 * i + 10])), 1);
  }

  lemma HalfRotations(b: word32, e: word32)
    ensures Rotl(b, 8) == Rotr(b, 24) && Rotl(e, 1) == Rotr(e, 31)
  {
    hide Rotl, RotrWord, Rotr;
    RotlIs(b, 8);
    RotlIs(e, 1);
  }

  lemma {:induction false} RoundsAre(key: seq<word32>, l: seq<word32>, x: Blk, n: nat)
    requires |key| <= 4 && |l| == 40 && n <= 8
    ensures FRounds(key, l, x, n) == Steps(key, l, x, 2 * n)
    decreases n
  {
    hide FRound, Step;
    if n > 0 {
      RoundsAre(key, l, x, n - 1);
      DoubleRound(key, l, Steps(key, l, x, 2 * n - 2), n - 1);
    }
  }

  /** Whitening, sixteen rounds, the last exchange undone, whitening. */
  lemma CipherIs(key: seq<word32>, l: seq<word32>, x: Blk, n: nat)
    requires |key| <= 4 && |l| == 40 && n == 16
    ensures
      var y := Steps(key, l, Blk(Xor32(x.w0, l[0]), Xor32(x.w1, l[1]), Xor32(x.w2, l[2]), Xor32(x.w3, l[3])), n);
      Encipher(key, l, x) == Blk(Xor32(y.w2, l[4]), Xor32(y.w3, l[5]), Xor32(y.w0, l[6]), Xor32(y.w1, l[7]))
  {
    hide FRounds, Steps, Xor32;
    RoundsAre(key, l, Whiten(x, l, 0), 8);
  }

  // ---------------------------------------------------------------- the Reed-Solomon code

  /** g(x) = x^4 + A4 x^3 + 2 x^2 + A4 x + 1, with A4 = 2 + 1/2. */
  lemma GeneratorIs(q: seq<byte>, j: int)
    ensures Rs.TimesG(q, j) ==
      Add8(Add8(Add8(Rs.At(q, j), Rs.Mul(0xA4, Rs.At(q, j - 1))), Rs.Mul(2, Rs.At(q, j - 2))),
           Add8(Rs.Mul(0xA4, Rs.At(q, j - 3)), Rs.At(q, j - 4)))
    ensures Rs.Mul(2, 0xA6) == 1 && Add8(2, 0xA6) == 0xA4
  {
    hide Rs.Mul, Add8;
    OmegaIs();
  }

  /** The message is the eight bytes of the two words, least significant first, above four zeros. */
  lemma MessageIs(p0: word32, p1: word32, j: nat)
    requires j < 4
    ensures Rs.Message(p0, p1)[j] == 0
    ensures Rs.Message(p0, p1)[4 + j] == ByteOf(p0, j) && Rs.Message(p0, p1)[8 + j] == ByteOf(p1, j)
  {
    hide Unpack, ByteOf;
    ByteOfIs(p0, j);
    ByteOfIs(p1, j);
  }

  lemma OmegaIs()
    ensures Rs.Omega() == 0xA4 && Rs.Mul(2, 0xA6) == 1 && Add8(2, 0xA6) == 0xA4
  {
    Rs.IsModulus();
    hide MulB, Add8, Xor;
    HalfDoubled(1, 0x14D);
    HalfOfOne();
    HexSums();
    XorHex(2, 0xA6, 0xA4, 0, 2, 0xA, 6, 0xA, 4);
  }

  lemma HalfOfOne()
    ensures Modulus(0x14D) && Half(1, 0x14D) == 0xA6 && Xor(0, 0xA) == 0xA && Xor(2, 6) == 4
  {
    Rs.IsModulus();
    PlusRules(0xA6, 0);
    assert 0x14D / 2 == 0xA6;
  }
}
