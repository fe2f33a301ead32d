/** Twofish.cpp: key set-up, encryption and decryption on a context of tables. */
module Twofish {
  import opened Bits
  import opened Buffers
  import opened PackedBytes
  import opened Word32
  import opened TwofishH
  import TwofishRs

  // ---------------------------------------------------------------- words

  /** A column as a word. */
  function WordCol(c: Col): (w: word32)
    ensures Unpack(w) == c
  {
    Joined(c.b0, c.b1, c.b2, c.b3)
  }

  lemma WordUnique(v: word32, w: word32)
    requires Unpack(v) == Unpack(w)
    ensures v == w
  {
    Repack(v);
    Repack(w);
  }

  /** rotl and rotr by shifts. */
  function Rotl(x: word32, n: nat): word32
    requires n <= 32
  {
    Or32(Shl32(x, n), Shr32(x, 32 - n))
  }

  function RotrWord(x: word32, n: nat): word32
    requires n <= 32
  {
    Or32(Shr32(x, n), Shl32(x, 32 - n))
  }

  lemma RotlIs(x: word32, n: nat)
    requires n <= 32
    ensures Rotl(x, n) == Rotr(x, 32 - n) && RotrWord(x, n) == Rotr(x, n)
  {
    hide Or, Shl32, Shr32, Rotr;
    OrComm(Shl32(x, n), Shr32(x, 32 - n));
    RotrShift(x, 32 - n);
    RotrShift(x, n);
  }

  /** The one-place rotations undo each other. */
  lemma RotateOne(x: word32)
    ensures RotrWord(Rotl(x, 1), 1) == x && Rotl(RotrWord(x, 1), 1) == x
  {
    hide Rotl, RotrWord, Rotr;
    RotlIs(x, 1);
    RotlIs(Rotl(x, 1), 1);
    RotlIs(RotrWord(x, 1), 1);
    RotrOne(x);
    RotrOne(Rotr(x, 31));
    RotrOne(Rotr(x, 1));
    OneUndone(x);
  }

  lemma RotrOne(x: word32)
    ensures Rotr(x, 1) == x / 2 + x % 2 * 0x8000_0000 && Rotr(x, 31) == x / 0x8000_0000 + x % 0x8000_0000 * 2
  {
    Size();
    Pow2Add(16, 15);
    assert Pow2(15) == 0x8000 by { Pow2Add(8, 7); assert Pow2(7) == 128; }
    assert Pow2(1) == 2;
  }

  lemma OneUndone(x: word32)
    ensures var l, r := x / 0x8000_0000 + x % 0x8000_0000 * 2, x / 2 + x % 2 * 0x8000_0000;
      && l / 2 + l % 2 * 0x8000_0000 == x && r / 0x8000_0000 + r % 0x8000_0000 * 2 == x
  {
    var h, t := x / 0x8000_0000, x % 0x8000_0000;
    assert h == 0 || h == 1;
    assert x % 2 == 0 || x % 2 == 1;
  }

  /** Rotation by eight places moves whole bytes. */
  lemma RotlEight(x: word32)
    ensures Unpack(Rotl(x, 8)) == Col(Unpack(x).b3, Unpack(x).b0, Unpack(x).b1, Unpack(x).b2)
  {
    hide Unpack, Or, Shl32, Shr32;
    var c := Unpack(x);
    RotlParts(x);
    EightBits();
    Divisible(Shl32(x, 8), c.b0 + 0x100 * c.b1 + 0x1_0000 * c.b2);
    OrDisjoint(Shl32(x, 8), Shr32(x, 24), 8);
    UnpackIs(Shl32(x, 8) + Shr32(x, 24), c.b3, c.b0, c.b1, c.b2);
  }

  // ---------------------------------------------------------------- the context

  class Data {
    var kLen: nat
    const lKey: array<word32>
    const sKey: array<word32>
    const q0: array<byte>
    const q1: array<byte>
    const m0: array<word32>
    const m1: array<word32>
    const m2: array<word32>
    const m3: array<word32>
    const mk0: array<word32>
    const mk1: array<word32>
    const mk2: array<word32>
    const mk3: array<word32>

    constructor ()
      ensures Shape()
      ensures fresh(lKey) && fresh(sKey) && fresh(mk0) && fresh(mk1) && fresh(mk2) && fresh(mk3)
      ensures fresh(q0) && fresh(q1) && fresh(m0) && fresh(m1) && fresh(m2) && fresh(m3)
    {
      kLen := 2;
      lKey := new word32[40];
      sKey := new word32[4];
      q0 := new byte[256];
      q1 := new byte[256];
      m0 := new word32[256];
      m1 := new word32[256];
      m2 := new word32[256];
      m3 := new word32[256];
      mk0 := new word32[256];
      mk1 := new word32[256];
      mk2 := new word32[256];
      mk3 := new word32[256];
    }

    /** The tables that do not depend on the key, generated by the first call of set_key. */
    method GenTables()
      requires Shape()
      modifies q0, q1, m0, m1, m2, m3
      ensures Fixed()
    {
      hide QTable, MTable;
      GenQtab(q0, q1);
      GenMtab(q0, q1, m0, m1, m2, m3);
    }

    ghost predicate Shape() {
      && lKey.Length == 40 && sKey.Length == 4 && q0.Length == 256 && q1.Length == 256
      && m0.Length == 256 && m1.Length == 256 && m2.Length == 256 && m3.Length == 256
      && mk0.Length == 256 && mk1.Length == 256 && mk2.Length == 256 && mk3.Length == 256
      && q0 != q1 && m0 != m1 && m0 != m2 && m0 != m3 && m1 != m2 && m1 != m3 && m2 != m3
      && mk0 != mk1 && mk0 != mk2 && mk0 != mk3 && mk1 != mk2 && mk1 != mk3 && mk2 != mk3
      && lKey !in {m0, m1, m2, m3, mk0, mk1, mk2, mk3, sKey} && sKey !in {m0, m1, m2, m3, mk0, mk1, mk2, mk3}
      && {mk0, mk1, mk2, mk3} !! {m0, m1, m2, m3}
    }

    /** The permutation and MDS tables are in place. */
    ghost predicate Fixed()
      reads q0, q1, m0, m1, m2, m3
    {
      QTable(q0[..], q1[..]) && MTable(m0[..], 0) && MTable(m1[..], 1) && MTable(m2[..], 2) && MTable(m3[..], 3)
    }

    /** The key-dependent tables of the S-box key. */
    ghost predicate Keyed()
      reads this, sKey, mk0, mk1, mk2, mk3
    {
      && sKey.Length == 4 && 2 <= kLen <= 4
      && MkTable(sKey[..kLen], mk0[..], 0) && MkTable(sKey[..kLen], mk1[..], 1)
      && MkTable(sKey[..kLen], mk2[..], 2) && MkTable(sKey[..kLen], mk3[..], 3)
    }
  }

  ghost predicate MkTable(key: seq<word32>, t: seq<word32>, j: nat)
    requires j < 4 && |key| <= 4
  {
    |t| == 256 && forall x :: 0 <= x < 256 ==> Unpack(t[x]) == Share(key, j, x)
  }

  /** A table lookup of q. */
  lemma QLookup(d: Data, x: byte)
    requires d.Fixed()
    ensures d.q0.Length == 256 && d.q1.Length == 256 && d.q0[x] == Qp(0, x) && d.q1[x] == Qp(1, x)
  {
    hide Qp, MTable;
    assert d.q0[..][x] == Qp(0, x) && d.q1[..][x] == Qp(1, x);
  }

  lemma MLookup(d: Data, a: byte, b: byte, c: byte, e: byte)
    requires d.Fixed()
    ensures d.m0.Length == 256 && d.m1.Length == 256 && d.m2.Length == 256 && d.m3.Length == 256
    ensures Unpack(d.m0[a]) == Column(0, Qp(1, a)) && Unpack(d.m1[b]) == Column(1, Qp(0, b))
    ensures Unpack(d.m2[c]) == Column(2, Qp(1, c)) && Unpack(d.m3[e]) == Column(3, Qp(0, e))
  {
    hide Qp, Unpack, Column, QTable;
    assert Unpack(d.m0[..][a]) == Column(0, Qp(1, a)) && Unpack(d.m1[..][b]) == Column(1, Qp(0, b));
    assert Unpack(d.m2[..][c]) == Column(2, Qp(1, c)) && Unpack(d.m3[..][e]) == Column(3, Qp(0, e));
  }

  /** `q(n, x)`: the permutation by table. */
  method Q(d: Data, n: nat, x: byte) returns (y: byte)
    requires d.Fixed() && n < 2
    ensures y == Qp(n, x)
  {
    hide Qp, Data.Fixed;
    QLookup(d, x);
    y := if n == 0 then d.q0[x] else d.q1[x];
  }

  // ---------------------------------------------------------------- h_fun

  /** The bytes after the layers from |key| - 1 down to n. */
  function After(key: seq<word32>, x: Col, n: nat): Col
    requires n <= |key| <= 4
  {
    Col(TwofishH.Keyed(key, 0, x.b0, n), TwofishH.Keyed(key, 1, x.b1, n), TwofishH.Keyed(key, 2, x.b2, n),
      TwofishH.Keyed(key, 3, x.b3, n))
  }

  /** One layer on all four bytes. */
  method LayerStep(d: Data, key: seq<word32>, n: nat, b0: byte, b1: byte, b2: byte, b3: byte, ghost x: Col)
    returns (c0: byte, c1: byte, c2: byte, c3: byte)
    requires d.Fixed() && n < |key| <= 4 && Col(b0, b1, b2, b3) == After(key, x, n + 1)
    ensures Col(c0, c1, c2, c3) == After(key, x, n)
  {
    hide Qp, Unpack, Add8, Data.Fixed;
    var k := key[n];
    c0 := Q(d, Layer(n, 0), b0);
    c1 := Q(d, Layer(n, 1), b1);
    c2 := Q(d, Layer(n, 2), b2);
    c3 := Q(d, Layer(n, 3), b3);
    c0, c1, c2, c3 := Add8(c0, Byte0(k)), Add8(c1, Byte1(k)), Add8(c2, Byte2(k)), Add8(c3, Byte3(k));
  }

  /** h_fun: the layers that the key length asks for, then the MDS tables. */
  method HFun(d: Data, x: word32, key: seq<word32>) returns (r: word32)
    requires d.Fixed() && 2 <= |key| <= 4
    ensures Unpack(r) == H(key, Unpack(x))
  {
    hide Qp, Unpack, Column, Add8, AddCol, Xor, Data.Fixed, After;
    ghost var c := Unpack(x);
    var b0, b1, b2, b3 := Byte0(x), Byte1(x), Byte2(x), Byte3(x);
    AfterAll(key, c);
    if |key| == 4 {
      b0, b1, b2, b3 := LayerStep(d, key, 3, b0, b1, b2, b3, c);
    }
    if |key| >= 3 {
      b0, b1, b2, b3 := LayerStep(d, key, 2, b0, b1, b2, b3, c);
    }
    b0, b1, b2, b3 := LayerStep(d, key, 1, b0, b1, b2, b3, c);
    b0, b1, b2, b3 := LayerStep(d, key, 0, b0, b1, b2, b3, c);
    MLookup(d, b0, b1, b2, b3);
    UnpackXor(d.m0[b0], d.m1[b1]);
    UnpackXor(Xor32(d.m0[b0], d.m1[b1]), d.m2[b2]);
    UnpackXor(Xor32(Xor32(d.m0[b0], d.m1[b1]), d.m2[b2]), d.m3[b3]);
    r := Xor32(Xor32(Xor32(d.m0[b0], d.m1[b1]), d.m2[b2]), d.m3[b3]);
    HIs(key, c, b0, b1, b2, b3);
  }

  lemma AfterAll(key: seq<word32>, x: Col)
    requires |key| <= 4
    ensures After(key, x, |key|) == x
  {
  }

  lemma HIs(key: seq<word32>, x: Col, b0: byte, b1: byte, b2: byte, b3: byte)
    requires |key| <= 4 && After(key, x, 0) == Col(b0, b1, b2, b3)
    ensures H(key, x) ==
      AddCol(AddCol(AddCol(Column(0, Qp(1, b0)), Column(1, Qp(0, b1))), Column(2, Qp(1, b2))), Column(3, Qp(0, b3)))
  {
    hide Qp, Column, AddCol, TwofishH.Keyed;
  }

  // ---------------------------------------------------------------- key-dependent tables

  /** gen_mk_tab: for each byte, its share of h under the S-box key. */
  method GenMkTab(d: Data)
    requires d.Shape() && d.Fixed() && 2 <= d.kLen <= 4
    modifies d.mk0, d.mk1, d.mk2, d.mk3
    ensures d.Fixed() && d.Keyed()
  {
    hide Data.Fixed, Share, Unpack;
    ghost var key := d.sKey[..d.kLen];
    for i := 0 to 256
      invariant d.Fixed() && d.sKey[..d.kLen] == key
      invariant forall x :: 0 <= x < i ==> Unpack(d.mk0[x]) == Share(key, 0, x)
      invariant forall x :: 0 <= x < i ==> Unpack(d.mk1[x]) == Share(key, 1, x)
      invariant forall x :: 0 <= x < i ==> Unpack(d.mk2[x]) == Share(key, 2, x)
      invariant forall x :: 0 <= x < i ==> Unpack(d.mk3[x]) == Share(key, 3, x)
    {
      var w0, w1, w2, w3 := MkEntries(d, d.sKey[..d.kLen], i);
      d.mk0[i] := w0;
      d.mk1[i] := w1;
      d.mk2[i] := w2;
      d.mk3[i] := w3;
    }
  }

  /** The four entries of one byte. */
  method MkEntries(d: Data, key: seq<word32>, i: byte) returns (w0: word32, w1: word32, w2: word32, w3: word32)
    requires d.Fixed() && 2 <= |key| <= 4
    ensures Unpack(w0) == Share(key, 0, i) && Unpack(w1) == Share(key, 1, i)
    ensures Unpack(w2) == Share(key, 2, i) && Unpack(w3) == Share(key, 3, i)
  {
    hide Qp, Unpack, Column, Add8, Data.Fixed, After;
    ghost var c := Col(i, i, i, i);
    var b0, b1, b2, b3 := i, i, i, i;
    AfterAll(key, c);
    if |key| == 4 {
      b0, b1, b2, b3 := LayerStep(d, key, 3, b0, b1, b2, b3, c);
    }
    if |key| >= 3 {
      b0, b1, b2, b3 := LayerStep(d, key, 2, b0, b1, b2, b3, c);
    }
    b0, b1, b2, b3 := LayerStep(d, key, 1, b0, b1, b2, b3, c);
    b0, b1, b2, b3 := LayerStep(d, key, 0, b0, b1, b2, b3, c);
    MLookup(d, b0, b1, b2, b3);
    SharesAre(key, i, b0, b1, b2, b3);
    w0, w1, w2, w3 := d.m0[b0], d.m1[b1], d.m2[b2], d.m3[b3];
  }

  lemma SharesAre(key: seq<word32>, i: byte, b0: byte, b1: byte, b2: byte, b3: byte)
    requires |key| <= 4 && After(key, Col(i, i, i, i), 0) == Col(b0, b1, b2, b3)
    ensures Share(key, 0, i) == Column(0, Qp(1, b0)) && Share(key, 1, i) == Column(1, Qp(0, b1))
    ensures Share(key, 2, i) == Column(2, Qp(1, b2)) && Share(key, 3, i) == Column(3, Qp(0, b3))
  {
    hide Qp, Column, TwofishH.Keyed;
  }

  lemma MkLookup(d: Data, a: byte, b: byte, c: byte, e: byte)
    requires d.Keyed()
    ensures d.mk0.Length == 256 && d.mk1.Length == 256 && d.mk2.Length == 256 && d.mk3.Length == 256
    ensures 2 <= d.kLen <= 4 && d.sKey.Length == 4
    ensures Unpack(d.mk0[a]) == Share(d.sKey[..d.kLen], 0, a) && Unpack(d.mk1[b]) == Share(d.sKey[..d.kLen], 1, b)
    ensures Unpack(d.mk2[c]) == Share(d.sKey[..d.kLen], 2, c) && Unpack(d.mk3[e]) == Share(d.sKey[..d.kLen], 3, e)
  {
    hide Unpack, Share;
    var key := d.sKey[..d.kLen];
    assert Unpack(d.mk0[..][a]) == Share(key, 0, a) && Unpack(d.mk1[..][b]) == Share(key, 1, b);
    assert Unpack(d.mk2[..][c]) == Share(key, 2, c) && Unpack(d.mk3[..][e]) == Share(key, 3, e);
  }

  /** g0_fun: four lookups equal h_fun under the S-box key. */
  method G0(d: Data, x: word32) returns (r: word32)
    requires d.Keyed()
    ensures d.sKey.Length == 4 && 2 <= d.kLen <= 4 && r == WordCol(H(d.sKey[..d.kLen], Unpack(x)))
  {
    hide Data.Keyed, Share, Unpack, AddCol, Xor;
    MkLookup(d, Byte0(x), Byte1(x), Byte2(x), Byte3(x));
    r := SumFour(d.mk0[Byte0(x)], d.mk1[Byte1(x)], d.mk2[Byte2(x)], d.mk3[Byte3(x)]);
    WordUnique(r, WordCol(H(d.sKey[..d.kLen], Unpack(x))));
  }

  /** g1_fun: the same lookups with the bytes moved round equal h_fun of the word rotated by eight. */
  method G1(d: Data, x: word32) returns (r: word32)
    requires d.Keyed()
    ensures d.sKey.Length == 4 && 2 <= d.kLen <= 4 && r == WordCol(H(d.sKey[..d.kLen], Unpack(Rotl(x, 8))))
  {
    hide Data.Keyed, Share, Unpack, AddCol, Xor, Rotl;
    RotlEight(x);
    MkLookup(d, Byte3(x), Byte0(x), Byte1(x), Byte2(x));
    r := SumFour(d.mk0[Byte3(x)], d.mk1[Byte0(x)], d.mk2[Byte1(x)], d.mk3[Byte2(x)]);
    WordUnique(r, WordCol(H(d.sKey[..d.kLen], Unpack(Rotl(x, 8)))));
  }

  method SumFour(a: word32, b: word32, c: word32, e: word32) returns (r: word32)
    ensures Unpack(r) == AddCol(AddCol(AddCol(Unpack(a), Unpack(b)), Unpack(c)), Unpack(e))
  {
    hide Unpack, AddCol, Xor;
    r := Xor32(Xor32(Xor32(a, b), c), e);
    UnpackXor(a, b);
    UnpackXor(Xor32(a, b), c);
    UnpackXor(Xor32(Xor32(a, b), c), e);
  }

  // ---------------------------------------------------------------- key schedule

  /** The words of a key at even or odd positions. */
  function Every2(key: seq<word32>, first: nat, n: nat): (r: seq<word32>)
    requires first < 2 && 2 * n <= |key|
    ensures |r| == n
  {
    seq(n, i requires 0 <= i < n => key[2 * i + first])
  }

  function Rho(i: nat): word32
    requires i <= 40
  {
    0x0101_0101 * i
  }

  /** A_i = h(2 i rho, Me) and B_i = ROL(h((2 i + 1) rho, Mo), 8). */
  function WordA(me: seq<word32>, i: nat): word32
    requires |me| <= 4 && i < 20
  {
    WordCol(H(me, Unpack(Rho(2 * i))))
  }

  function WordB(mo: seq<word32>, i: nat): word32
    requires |mo| <= 4 && i < 20
  {
    Rotl(WordCol(H(mo, Unpack(Rho(2 * i + 1)))), 8)
  }

  /** K_2i = A_i + B_i and K_2i+1 = ROL(A_i + 2 B_i, 9), cut to 32 bits. */
  function SubKey(me: seq<word32>, mo: seq<word32>, j: nat): word32
    requires |me| <= 4 && |mo| <= 4 && j < 40
  {
    var a: int, b: int := WordA(me, j / 2), WordB(mo, j / 2);
    if j % 2 == 0 then Sum32(a + b) else Rotl(Sum32(a + 2 * b), 9)
  }

  ghost predicate IsPair(me: seq<word32>, mo: seq<word32>, i: nat, k0: word32, k1: word32)
    requires |me| <= 4 && |mo| <= 4 && i < 20
  {
    hide SubKey;
    k0 == SubKey(me, mo, 2 * i) && k1 == SubKey(me, mo, 2 * i + 1)
  }

  /** One pair of subkeys. */
  method SubKeyPair(d: Data, me: seq<word32>, mo: seq<word32>, i: nat) returns (k0: word32, k1: word32)
    requires d.Fixed() && 2 <= |me| <= 4 && |mo| == |me| && i < 20
    ensures IsPair(me, mo, i, k0, k1)
  {
    hide Data.Fixed, H, Unpack, Rotl, WordCol, Sum32;
    var x := 0x0101_0101 * (2 * i);
    var y := x + 0x0101_0101;
    assert x == Rho(2 * i) && y == Rho(2 * i + 1);
    assert 2 * i / 2 == i && (2 * i + 1) / 2 == i;
    var a := HFun(d, x, me);
    var h := HFun(d, y, mo);
    WordUnique(a, WordCol(H(me, Unpack(x))));
    WordUnique(h, WordCol(H(mo, Unpack(y))));
    var b := Rotl(h, 8);
    var p: int, q: int := a, b;
    k0 := Sum32(p + q);
    k1 := Rotl(Sum32(p + 2 * q), 9);
  }

  /** The S-box key, in reverse order: each word a Reed-Solomon remainder of two key words. */
  ghost predicate SboxKey(key: seq<word32>, s: seq<word32>, n: nat)
    requires 2 * n <= |key| && n <= |s|
  {
    forall i :: 0 <= i < n ==>
      TwofishRs.IsRemainder(TwofishRs.Message(key[2 * i], key[2 * i + 1]), Unpack(s[n - 1 - i]))
  }

  /** Twofish_set_key for 128, 192 or 256 bits. */
  method SetKey(d: Data, inKey: array<word32>, keyLen: nat)
    requires d.Shape() && d.Fixed() && (keyLen == 128 || keyLen == 192 || keyLen == 256) && 32 * inKey.Length >= keyLen
    requires inKey != d.sKey && inKey != d.lKey && inKey !in {d.mk0, d.mk1, d.mk2, d.mk3}
    modifies d, d.sKey, d.lKey, d.mk0, d.mk1, d.mk2, d.mk3
    ensures d.Fixed() && d.Keyed() && d.kLen == keyLen / 64 && SboxKey(inKey[..], d.sKey[..], d.kLen)
    ensures var me, mo := Every2(inKey[..], 0, d.kLen), Every2(inKey[..], 1, d.kLen);
      forall j :: 0 <= j < 40 ==> d.lKey[j] == SubKey(me, mo, j)
  {
    hide Data.Fixed, Data.Keyed, TwofishRs.IsRemainder, Unpack, SubKey;
    d.kLen := keyLen / 64;
    var k := d.kLen;
    ghost var key := inKey[..];
    for i := 0 to k
      invariant d.Fixed() && d.kLen == k
      invariant forall n :: 0 <= n < i ==>
        TwofishRs.IsRemainder(TwofishRs.Message(key[2 * n], key[2 * n + 1]), Unpack(d.sKey[k - 1 - n]))
    {
      var s := TwofishRs.MdsRem(inKey[i + i], inKey[i + i + 1]);
      d.sKey[k - i - 1] := s;
    }
    var me := Every2(inKey[..], 0, k);
    var mo := Every2(inKey[..], 1, k);
    SubKeys(d, me, mo);
    GenMkTab(d);
  }

  method SubKeys(d: Data, me: seq<word32>, mo: seq<word32>)
    requires d.Shape() && d.Fixed() && 2 <= |me| <= 4 && |mo| == |me|
    modifies d.lKey
    ensures d.Fixed() && forall j :: 0 <= j < 40 ==> d.lKey[j] == SubKey(me, mo, j)
  {
    hide Data.Fixed, SubKey;
    var i := 0;
    while i < 40
      invariant i % 2 == 0 && i <= 40 && d.Fixed() && forall j :: 0 <= j < i ==> d.lKey[j] == SubKey(me, mo, j)
    {
      var k0, k1 := SubKeyPair(d, me, mo, i / 2);
      d.lKey[i] := k0;
      d.lKey[i + 1] := k1;
      i := i + 2;
    }
  }

  // ---------------------------------------------------------------- rounds

  datatype Blk = Blk(w0: word32, w1: word32, w2: word32, w3: word32)

  function G(key: seq<word32>, x: word32): word32
    requires |key| <= 4
  {
    WordCol(H(key, Unpack(x)))
  }

  /** t0 + t1 + k and t0 + 2 t1 + k for the two input words of a half round. */
  function Mask0(key: seq<word32>, a: word32, b: word32, k: word32): word32
    requires |key| <= 4
  {
    var t0: int, t1: int := G(key, a), G(key, Rotl(b, 8));
    Sum32(t0 + t1 + k)
  }

  function Mask1(key: seq<word32>, a: word32, b: word32, k: word32): word32
    requires |key| <= 4
  {
    var t0: int, t1: int := G(key, a), G(key, Rotl(b, 8));
    Sum32(t0 + 2 * t1 + k)
  }

  /** One half of f_rnd: the other two words masked and rotated. */
  function Forward(key: seq<word32>, a: word32, b: word32, c: word32, e: word32, k0: word32, k1: word32)
    : (word32, word32)
    requires |key| <= 4
  {
    (RotrWord(Xor32(c, Mask0(key, a, b, k0)), 1), Xor32(Rotl(e, 1), Mask1(key, a, b, k1)))
  }

  function Backward(key: seq<word32>, a: word32, b: word32, c: word32, e: word32, k0: word32, k1: word32)
    : (word32, word32)
    requires |key| <= 4
  {
    (Xor32(Rotl(c, 1), Mask0(key, a, b, k0)), RotrWord(Xor32(e, Mask1(key, a, b, k1)), 1))
  }

  lemma XorTwice(x: word32, m: word32)
    ensures Xor32(Xor32(x, m), m) == x
  {
    XorComm(Xor(x, m), m);
    XorComm(x, m);
    XorCancel(m, x);
  }

  lemma HalfUndone(key: seq<word32>, a: word32, b: word32, c: word32, e: word32, k0: word32, k1: word32)
    requires |key| <= 4
    ensures var f := Forward(key, a, b, c, e, k0, k1); Backward(key, a, b, f.0, f.1, k0, k1) == (c, e)
    ensures var f := Backward(key, a, b, c, e, k0, k1); Forward(key, a, b, f.0, f.1, k0, k1) == (c, e)
  {
    hide Mask0, Mask1, Rotl, RotrWord, Xor32;
    var m, n := Mask0(key, a, b, k0), Mask1(key, a, b, k1);
    RotateOne(Xor32(c, m));
    RotateOne(e);
    RotateOne(c);
    RotateOne(Xor32(e, n));
    XorTwice(c, m);
    XorTwice(e, n);
    XorTwice(Rotl(c, 1), m);
    XorTwice(Rotl(e, 1), n);
  }

  /** f_rnd(i). */
  function FRound(key: seq<word32>, l: seq<word32>, x: Blk, i: nat): Blk
    requires |key| <= 4 && |l| == 40 && i < 8
  {
    var f := Forward(key, x.w0, x.w1, x.w2, x.w3, l[4 * i + 8], l[4 * i + 9]);
    var g := Forward(key, f.0, f.1, x.w0, x.w1, l[4 * i + 10], l[4 * i + 11]);
    Blk(g.0, g.1, f.0, f.1)
  }

  /** i_rnd(i). */
  function IRound(key: seq<word32>, l: seq<word32>, x: Blk, i: nat): Blk
    requires |key| <= 4 && |l| == 40 && i < 8
  {
    var f := Backward(key, x.w0, x.w1, x.w2, x.w3, l[4 * i + 10], l[4 * i + 11]);
    var g := Backward(key, f.0, f.1, x.w0, x.w1, l[4 * i + 8], l[4 * i + 9]);
    Blk(g.0, g.1, f.0, f.1)
  }

  function Swap(x: Blk): Blk { Blk(x.w2, x.w3, x.w0, x.w1) }

  /** With the halves exchanged, an inverse round undoes a round. */
  lemma RoundUndone(key: seq<word32>, l: seq<word32>, x: Blk, i: nat)
    requires |key| <= 4 && |l| == 40 && i < 8
    ensures IRound(key, l, Swap(FRound(key, l, x, i)), i) == Swap(x)
    ensures FRound(key, l, Swap(IRound(key, l, x, i)), i) == Swap(x)
  {
    hide Forward, Backward;
    var f := Forward(key, x.w0, x.w1, x.w2, x.w3, l[4 * i + 8], l[4 * i + 9]);
    HalfUndone(key, f.0, f.1, x.w0, x.w1, l[4 * i + 10], l[4 * i + 11]);
    HalfUndone(key, x.w0, x.w1, x.w2, x.w3, l[4 * i + 8], l[4 * i + 9]);
    var b := Backward(key, x.w0, x.w1, x.w2, x.w3, l[4 * i + 10], l[4 * i + 11]);
    HalfUndone(key, b.0, b.1, x.w0, x.w1, l[4 * i + 8], l[4 * i + 9]);
    HalfUndone(key, x.w0, x.w1, x.w2, x.w3, l[4 * i + 10], l[4 * i + 11]);
  }

  function FRounds(key: seq<word32>, l: seq<word32>, x: Blk, n: nat): Blk
    requires |key| <= 4 && |l| == 40 && n <= 8
    decreases n
  {
    hide FRound;
    if n == 0 then x else FRound(key, l, FRounds(key, l, x, n - 1), n - 1)
  }

  /** The inverse rounds n - 1 down to 0. */
  function IRounds(key: seq<word32>, l: seq<word32>, x: Blk, n: nat): Blk
    requires |key| <= 4 && |l| == 40 && n <= 8
    decreases n
  {
    hide IRound;
    if n == 0 then x else IRounds(key, l, IRound(key, l, x, n - 1), n - 1)
  }

  lemma {:induction false} RoundsUndone(key: seq<word32>, l: seq<word32>, x: Blk, n: nat)
    requires |key| <= 4 && |l| == 40 && n <= 8
    ensures IRounds(key, l, Swap(FRounds(key, l, x, n)), n) == Swap(x)
    ensures FRounds(key, l, Swap(IRounds(key, l, x, n)), n) == Swap(x)
    decreases n
  {
    hide FRound, IRound;
    if n > 0 {
      RoundUndone(key, l, FRounds(key, l, x, n - 1), n - 1);
      RoundsUndone(key, l, x, n - 1);
      var y := IRound(key, l, x, n - 1);
      RoundsUndone(key, l, y, n - 1);
      RoundUndone(key, l, x, n - 1);
    }
  }

  function Whiten(x: Blk, l: seq<word32>, at: nat): Blk
    requires |l| == 40 && at <= 36
  {
    Blk(Xor32(x.w0, l[at]), Xor32(x.w1, l[at + 1]), Xor32(x.w2, l[at + 2]), Xor32(x.w3, l[at + 3]))
  }

  lemma WhitenTwice(x: Blk, l: seq<word32>, at: nat)
    requires |l| == 40 && at <= 36
    ensures Whiten(Whiten(x, l, at), l, at) == x
  {
    hide Xor32;
    XorTwice(x.w0, l[at]);
    XorTwice(x.w1, l[at + 1]);
    XorTwice(x.w2, l[at + 2]);
    XorTwice(x.w3, l[at + 3]);
  }

  function Encipher(key: seq<word32>, l: seq<word32>, x: Blk): Blk
    requires |key| <= 4 && |l| == 40
  {
    hide FRounds, Whiten;
    Whiten(Swap(FRounds(key, l, Whiten(x, l, 0), 8)), l, 4)
  }

  function Decipher(key: seq<word32>, l: seq<word32>, x: Blk): Blk
    requires |key| <= 4 && |l| == 40
  {
    hide IRounds, Whiten;
    Whiten(Swap(IRounds(key, l, Whiten(x, l, 4), 8)), l, 0)
  }

  /** Decryption and encryption undo each other, whatever the key. */
  lemma CipherInverse(key: seq<word32>, l: seq<word32>, x: Blk)
    requires |key| <= 4 && |l| == 40
    ensures Decipher(key, l, Encipher(key, l, x)) == x && Encipher(key, l, Decipher(key, l, x)) == x
  {
    hide FRounds, IRounds, Whiten;
    var y, z := Whiten(x, l, 0), Whiten(x, l, 4);
    WhitenTwice(Swap(FRounds(key, l, y, 8)), l, 4);
    RoundsUndone(key, l, y, 8);
    WhitenTwice(x, l, 0);
    WhitenTwice(Swap(IRounds(key, l, z, 8)), l, 0);
    RoundsUndone(key, l, z, 8);
    WhitenTwice(x, l, 4);
  }

  // ---------------------------------------------------------------- encryption and decryption

  /** The S-box key and the subkeys in use. */
  ghost predicate Uses(d: Data, key: seq<word32>, l: seq<word32>)
    reads d, d.sKey, d.lKey, d.mk0, d.mk1, d.mk2, d.mk3
  {
    d.Keyed() && key == d.sKey[..d.kLen] && |key| <= 4 && l == d.lKey[..] && |l| == 40
  }

  method ForwardHalf(d: Data, a: word32, b: word32, c: word32, e: word32, k: nat, ghost key: seq<word32>,
    ghost l: seq<word32>)
    returns (c': word32, e': word32)
    requires Uses(d, key, l) && k + 1 < 40
    ensures (c', e') == Forward(key, a, b, c, e, l[k], l[k + 1])
  {
    hide Data.Keyed, H, Unpack, Rotl, RotrWord, WordCol, Sum32, Xor32;
    assert d.lKey[k] == l[k] && d.lKey[k + 1] == l[k + 1];
    var t1: int := G1(d, b);
    var t0: int := G0(d, a);
    c' := RotrWord(Xor32(c, Sum32(t0 + t1 + d.lKey[k])), 1);
    e' := Xor32(Rotl(e, 1), Sum32(t0 + 2 * t1 + d.lKey[k + 1]));
  }

  method BackwardHalf(d: Data, a: word32, b: word32, c: word32, e: word32, k: nat, ghost key: seq<word32>,
    ghost l: seq<word32>)
    returns (c': word32, e': word32)
    requires Uses(d, key, l) && k + 1 < 40
    ensures (c', e') == Backward(key, a, b, c, e, l[k], l[k + 1])
  {
    hide Data.Keyed, H, Unpack, Rotl, RotrWord, WordCol, Sum32, Xor32;
    assert d.lKey[k] == l[k] && d.lKey[k + 1] == l[k + 1];
    var t1: int := G1(d, b);
    var t0: int := G0(d, a);
    c' := Xor32(Rotl(c, 1), Sum32(t0 + t1 + d.lKey[k]));
    e' := RotrWord(Xor32(e, Sum32(t0 + 2 * t1 + d.lKey[k + 1])), 1);
  }

  method FRnd(d: Data, blk: array<word32>, i: nat, ghost key: seq<word32>, ghost l: seq<word32>)
    requires Uses(d, key, l) && blk.Length == 4 && i < 8
    requires blk !in {d.sKey, d.lKey, d.mk0, d.mk1, d.mk2, d.mk3}
    modifies blk
    ensures Uses(d, key, l) && BlkOf(blk[..]) == FRound(key, l, old(BlkOf(blk[..])), i)
  {
    hide Forward, Data.Keyed;
    blk[2], blk[3] := ForwardHalf(d, blk[0], blk[1], blk[2], blk[3], 4 * i + 8, key, l);
    blk[0], blk[1] := ForwardHalf(d, blk[2], blk[3], blk[0], blk[1], 4 * i + 10, key, l);
  }

  method IRnd(d: Data, blk: array<word32>, i: nat, ghost key: seq<word32>, ghost l: seq<word32>)
    requires Uses(d, key, l) && blk.Length == 4 && i < 8
    requires blk !in {d.sKey, d.lKey, d.mk0, d.mk1, d.mk2, d.mk3}
    modifies blk
    ensures Uses(d, key, l) && BlkOf(blk[..]) == IRound(key, l, old(BlkOf(blk[..])), i)
  {
    hide Backward, Data.Keyed;
    blk[2], blk[3] := BackwardHalf(d, blk[0], blk[1], blk[2], blk[3], 4 * i + 10, key, l);
    blk[0], blk[1] := BackwardHalf(d, blk[2], blk[3], blk[0], blk[1], 4 * i + 8, key, l);
  }

  function BlkOf(s: seq<word32>): Blk
    requires |s| == 4
  {
    Blk(s[0], s[1], s[2], s[3])
  }

  method AddKey(d: Data, src: array<word32>, at: nat, dst: array<word32>, ghost key: seq<word32>, ghost l: seq<word32>)
    requires Uses(d, key, l) && src.Length == 4 && dst.Length == 4 && at <= 36
    requires dst !in {d.sKey, d.lKey, d.mk0, d.mk1, d.mk2, d.mk3}
    modifies dst
    ensures Uses(d, key, l) && BlkOf(dst[..]) == Whiten(old(BlkOf(src[..])), l, at)
  {
    hide Data.Keyed, Xor;
    var a, b, c, e := src[0], src[1], src[2], src[3];
    dst[0] := Xor32(a, d.lKey[at]);
    dst[1] := Xor32(b, d.lKey[at + 1]);
    dst[2] := Xor32(c, d.lKey[at + 2]);
    dst[3] := Xor32(e, d.lKey[at + 3]);
  }

  /** Twofish_encrypt; outBlk may be inBlk. */
  method Encrypt(d: Data, inBlk: array<word32>, outBlk: array<word32>, ghost key: seq<word32>, ghost l: seq<word32>)
    requires Uses(d, key, l) && inBlk.Length == 4 && outBlk.Length == 4
    requires outBlk !in {d.sKey, d.lKey, d.mk0, d.mk1, d.mk2, d.mk3}
    modifies outBlk
    ensures Uses(d, key, l) && BlkOf(outBlk[..]) == Encipher(key, l, old(BlkOf(inBlk[..])))
  {
    hide Uses, FRound, Whiten;
    ghost var x := BlkOf(inBlk[..]);
    KeySizes(d, key, l);
    var blk := new word32[4];
    AddKey(d, inBlk, 0, blk, key, l);
    for i := 0 to 8
      invariant Uses(d, key, l) && BlkOf(blk[..]) == FRounds(key, l, Whiten(x, l, 0), i)
    {
      FRnd(d, blk, i, key, l);
    }
    blk[0], blk[1], blk[2], blk[3] := blk[2], blk[3], blk[0], blk[1];
    AddKey(d, blk, 4, outBlk, key, l);
  }

  /** Twofish_decrypt; outBlk may be inBlk. */
  method Decrypt(d: Data, inBlk: array<word32>, outBlk: array<word32>, ghost key: seq<word32>, ghost l: seq<word32>)
    requires Uses(d, key, l) && inBlk.Length == 4 && outBlk.Length == 4
    requires outBlk !in {d.sKey, d.lKey, d.mk0, d.mk1, d.mk2, d.mk3}
    modifies outBlk
    ensures Uses(d, key, l) && BlkOf(outBlk[..]) == Decipher(key, l, old(BlkOf(inBlk[..])))
  {
    hide Uses, IRound, Whiten;
    ghost var x := BlkOf(inBlk[..]);
    KeySizes(d, key, l);
    var blk := new word32[4];
    AddKey(d, inBlk, 4, blk, key, l);
    ghost var y := BlkOf(blk[..]);
    var i := 8;
    while i > 0
      invariant 0 <= i <= 8 && Uses(d, key, l) && IRounds(key, l, BlkOf(blk[..]), i) == IRounds(key, l, y, 8)
    {
      i := i - 1;
      IRnd(d, blk, i, key, l);
    }
    blk[0], blk[1], blk[2], blk[3] := blk[2], blk[3], blk[0], blk[1];
    AddKey(d, blk, 0, outBlk, key, l);
  }

  lemma KeySizes(d: Data, key: seq<word32>, l: seq<word32>)
    requires Uses(d, key, l)
    ensures |key| <= 4 && |l| == 40
  {
  }
}
