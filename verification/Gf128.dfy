/** GF(2^128) of eccl.cpp, on 16-byte buffers updated in place. A buffer is read both as bytes and
    as two 64-bit words of a little-endian machine; the words stand most significant first, so the
    bytes of the number, counted from the top, are found at the index exclusive-or 7. */
module Gf128 {
  import opened Bits
  import opened Gf2
  import opened Gf2Field
  import opened Buffers
  import B = ByteOps
  import Words

  // ---------------------------------------------------------------- the layout

  /** lmask, one less than the size of a word. */
  const LMASK := 7

  /** Where byte i from the top is stored. */
  function Lane(i: nat): (j: nat)
    requires i < 16
    ensures j == 8 * (i / 8) + 7 - i % 8
  {
    LaneIs(i);
    Xor(i, LMASK)
  }

  lemma LaneIs(i: nat)
    requires i < 16
    ensures Xor(i, 7) == 8 * (i / 8) + 7 - i % 8
  {
    hide Xor;
    XorOdd(i, 3);
    XorOdd(i / 2, 1);
    XorOdd(i / 4, 0);
    XorOdd(i / 8, 0);
    assert i / 2 / 2 == i / 4 && i / 4 / 2 == i / 8;
  }

  lemma XorOdd(i: nat, m: nat)
    ensures Xor(i, 2 * m + 1) == 2 * Xor(i / 2, m) + 1 - i % 2
    ensures Xor(i, 0) == i
  {
    assert (2 * m + 1) / 2 == m && (2 * m + 1) % 2 == 1;
  }

  /** The bytes in order, most significant first. */
  ghost function Logical(s: seq<byte>): (t: seq<byte>)
    requires |s| == 16
    ensures |t| == 16
  {
    seq(16, i requires 0 <= i < 16 => s[Lane(i)])
  }

  /** The polynomial that a buffer holds. */
  ghost function Val(a: array<byte>): nat
    requires a.Length == 16
    reads a
  {
    BE(Logical(a[..]))
  }

  lemma StoreAt(s: seq<byte>, i: nat, b: byte)
    requires |s| == 16 && i < 16
    ensures Logical(s[Lane(i) := b]) == Logical(s)[i := b]
  {
    hide Lane;
    var u, v := Logical(s[Lane(i) := b]), Logical(s)[i := b];
    forall j | 0 <= j < 16 ensures u[j] == v[j] {
      LaneApart(i, j);
    }
  }

  lemma LaneApart(i: nat, j: nat)
    requires i < 16 && j < 16
    ensures Lane(i) == Lane(j) <==> i == j
  {
    hide Lane;
    assert i == 8 * (i / 8) + i % 8 && j == 8 * (j / 8) + j % 8;
  }

  /** `opnd[i ^ lmask] = b`. */
  method Put(a: array<byte>, i: nat, b: byte)
    requires a.Length == 16 && i < 16
    modifies a
    ensures Logical(a[..]) == Logical(old(a[..]))[i := b]
  {
    hide Logical;
    ghost var s := a[..];
    a[Lane(i)] := b;
    assert a[..] == s[Lane(i) := b];
    StoreAt(s, i, b);
  }

  /** The bytes of a word from its own most significant one. */
  function Eight(s: seq<byte>, w: nat): (t: seq<byte>)
    requires |s| == 16 && w < 2
    ensures |t| == 8
  {
    seq(8, j requires 0 <= j < 8 => s[8 * w + 7 - j])
  }

  /** `((ulong*)opnd)[w]`. */
  function Load(s: seq<byte>, w: nat): (x: Words.word)
    requires |s| == 16 && w < 2
    ensures x == BE(Eight(s, w))
  {
    BEBound(Eight(s, w));
    Words.WordSize();
    BE(Eight(s, w))
  }

  /** `((ulong*)opnd)[w] = x`. */
  method Store(a: array<byte>, w: nat, x: Words.word)
    requires a.Length == 16 && w < 2
    modifies a
    ensures Load(a[..], w) == x && Load(a[..], 1 - w) == Load(old(a[..]), 1 - w)
  {
    hide BE, BytesOf, Pow2;
    ghost var s := a[..];
    var b := BytesOf(x, 8);
    forall j | 0 <= j < 8 { a[8 * w + 7 - j] := b[j]; }
    Words.WordSize();
    BytesOfValue(x, 8);
    assert Eight(a[..], w) == b;
    assert Eight(a[..], 1 - w) == Eight(s, 1 - w);
  }

  lemma EightOf(s: seq<byte>)
    requires |s| == 16
    ensures Logical(s) == Eight(s, 0) + Eight(s, 1)
  {
  }

  /** The words denote the same number as the bytes. */
  lemma ValueOfWords(s: seq<byte>)
    requires |s| == 16
    ensures BE(Logical(s)) == Words.LE([Load(s, 1), Load(s, 0)])
  {
    EightOf(s);
    BEConcat(Eight(s, 0), Eight(s, 1));
    Words.WordSize();
    hide BE, Pow2, Logical, Eight;
    TwoWords(Load(s, 1), Load(s, 0));
  }

  lemma TwoWords(x: Words.word, y: Words.word)
    ensures Words.LE([x, y]) == y * Words.W + x
    ensures Words.LE([x, y]) == 0 <==> x == 0 && y == 0
    ensures Words.LE([x, y]) == 1 <==> x == 1 && y == 0
  {
    assert [x, y][1..] == [y] && [y][1..] == [];
    assert Words.LE([y]) == y + Words.W * Words.LE([]);
  }

  lemma LoadZero(s: seq<byte>, w: nat)
    requires |s| == 16 && w < 2
    ensures Load(s, w) == 0 <==> forall i :: 8 * w <= i < 8 * w + 8 ==> Logical(s)[i] == 0
  {
    BEZeroIff(Eight(s, w));
    EightOf(s);
    hide BE, Logical;
    assert forall i :: 8 * w <= i < 8 * w + 8 ==> Logical(s)[i] == Eight(s, w)[i - 8 * w];
    assert forall i :: 0 <= i < 8 ==> Eight(s, w)[i] == Logical(s)[8 * w + i];
  }

  // ---------------------------------------------------------------- whole-buffer operations

  method Zero(a: array<byte>)
    requires a.Length == 16
    modifies a
    ensures Val(a) == 0 && Logical(a[..]) == Zeros(16)
  {
    forall i | 0 <= i < 16 { a[i] := 0; }
    assert Logical(a[..]) == Zeros(16);
    BEZeros(16);
  }

  method One(a: array<byte>)
    requires a.Length == 16
    modifies a
    ensures Val(a) == 1
  {
    hide BE, Logical;
    Zero(a);
    Put(a, 15, 1);
    B.OneBytes(Logical(a[..]));
  }

  method IsOne(a: array<byte>) returns (b: bool)
    requires a.Length == 16
    ensures b <==> Val(a) == 1
  {
    hide BE, Logical, Words.LE, Eight;
    ValueOfWords(a[..]);
    TwoWords(Load(a[..], 1), Load(a[..], 0));
    if Load(a[..], 0) != 0 {
      return false;
    }
    return 1 == Load(a[..], 1);
  }

  /** gf128_add; dst may be either operand. */
  method AddTo(op1: array<byte>, op2: array<byte>, dst: array<byte>)
    requires op1.Length == 16 && op2.Length == 16 && dst.Length == 16
    modifies dst
    ensures Val(dst) == Plus(old(Val(op1)), old(Val(op2)))
  {
    hide BE, Logical, Words.LE, Eight, Load, Plus, Xor, Words.XorWords;
    ghost var r, s := op1[..], op2[..];
    Store(dst, 0, Words.XorWords(Load(op1[..], 0), Load(op2[..], 0)));
    Store(dst, 1, Words.XorWords(Load(op1[..], 1), Load(op2[..], 1)));
    AddWords(dst[..], r, s);
  }

  lemma AddWords(t: seq<byte>, r: seq<byte>, s: seq<byte>)
    requires |t| == 16 && |r| == 16 && |s| == 16
    requires Load(t, 0) == Words.XorWords(Load(r, 0), Load(s, 0))
      && Load(t, 1) == Words.XorWords(Load(r, 1), Load(s, 1))
    ensures BE(Logical(t)) == Plus(BE(Logical(r)), BE(Logical(s)))
  {
    hide BE, Logical, Words.LE, Eight, Load, Plus, Xor;
    ValueOfWords(t);
    ValueOfWords(r);
    ValueOfWords(s);
    Words.LEXor([Load(t, 1), Load(t, 0)], [Load(r, 1), Load(r, 0)], [Load(s, 1), Load(s, 0)]);
  }

  // ---------------------------------------------------------------- leading bit

  /** Index and mask of the leading bit; the index is -1 for zero. */
  method FirstBit(a: array<byte>) returns (ix: int, mask: int, ghost k: nat)
    requires a.Length == 16
    ensures ix >= -1 && (ix == -1 <==> Val(a) == 0)
    ensures ix >= 0 ==> ix < 16 && k < 8 && mask == Pow2(k) && mask <= Logical(a[..])[ix] < 2 * mask
    ensures ix >= 0 ==> forall i :: 0 <= i < ix ==> Logical(a[..])[i] == 0
  {
    hide BE, Logical, Load, Lane, And, Pow2;
    mask, k := 0, 0;
    ghost var s := Logical(a[..]);
    BEZeroIff(s);
    LoadZero(a[..], 0);
    LoadZero(a[..], 1);
    if Load(a[..], 0) != 0 {
      ix := 0;
    } else if Load(a[..], 1) != 0 {
      ix := 8;
    } else {
      ix := -1;
      return;
    }
    ByteAt(a[..]);
    while ix < 16 && a[Lane(ix)] == 0
      invariant 0 <= ix <= 16 && forall i :: 0 <= i < ix ==> s[i] == 0
    {
      ix := ix + 1;
    }
    assert ix < 16 && s[ix] == a[Lane(ix)];
    mask, k := B.MaskOf(a[Lane(ix)]);
  }

  lemma ByteAt(s: seq<byte>)
    requires |s| == 16
    ensures forall i {:trigger Logical(s)[i]} {:trigger Lane(i)} :: 0 <= i < 16 ==> Logical(s)[i] == s[Lane(i)]
  {
  }

  /** The number of bits, one more than the degree. */
  method IntegerLength(a: array<byte>) returns (len: int)
    requires a.Length == 16
    ensures len == Len(Val(a))
  {
    hide BE, Pow2, Logical;
    var ix, mask, k := FirstBit(a);
    if ix < 0 {
      assert Len(0) == 0;
      return 0;
    }
    LengthOf(Logical(a[..]), ix, k);
    hide Len;
    len := 8 * (16 - ix);
    mask := mask * 2 % 256;
    B.MaskUp(k);
    while mask != 0
      invariant 0 <= k <= 7 && mask == (if k == 7 then 0 else Pow2(k + 1))
      invariant len - (7 - k) == Len(Val(a))
      decreases 7 - k
    {
      mask, k := mask * 2 % 256, k + 1;
      B.MaskUp(k);
      len := len - 1;
    }
  }

  // ---------------------------------------------------------------- the field polynomial

  /** x^128 + x^7 + x^2 + x + 1. */
  function F(): nat { Pow2(128) + 0x87 }

  lemma FieldTerms()
    ensures F() == Pow2(128) + Pow2(7) + Pow2(2) + Pow2(1) + 1
  {
    SmallPowers();
    hide Pow2;
  }

  lemma SmallPowers()
    ensures Pow2(7) == 128 && Pow2(2) == 4 && Pow2(1) == 2
  {
  }

  lemma FieldPolynomial()
    ensures Len(F()) == 129
  {
    hide Pow2, Plus, Len;
    LowBelow();
    Pow2Succ(128);
    LenBound(F(), 128);
    LenBound(F(), 129);
  }

  lemma LowBelow()
    ensures 0x87 < Pow2(128)
  {
    Pow2Add(8, 120);
    assert Pow2(8) == 256;
  }

  /** Adding x^128 + c to a polynomial with or without its own x^128. */
  lemma TopPlus(r: nat, c: nat)
    requires r < Pow2(128) && c < Pow2(128)
    ensures Plus(Pow2(128) + r, c) == Pow2(128) + Plus(r, c)
    ensures Plus(Pow2(128) + r, Pow2(128) + c) == Plus(r, c)
  {
    hide Pow2;
    PlusRules(1, 0);
    PlusRules(r, 0);
    PlusRules(0, c);
    hide Plus;
    PlusJoin(1, r, 0, c, 128);
    PlusJoin(1, r, 1, c, 128);
    if r == 0 { PlusRules(Pow2(128), 0); }
  }

  // ---------------------------------------------------------------- shift

  /** `memmove` towards the top by whole words and `memset` of the rest; dst may be op. */
  method MoveWords(op: array<byte>, nw: nat, dst: array<byte>)
    requires op.Length == 16 && dst.Length == 16 && 1 <= nw <= 2
    modifies dst
    ensures Val(dst) == (old(Val(op)) * Pow2(64 * nw)) % Pow2(128)
  {
    hide BE, Pow2, Logical, Lane;
    ghost var s := op[..];
    var nb := 8 * nw;
    var nrem := 16 - nb;
    forall i | 0 <= i < nrem { dst[i] := op[i + nb]; }
    forall i | nrem <= i < 16 { dst[i] := 0; }
    WordsMoved(dst[..], s, nb);
    BEShiftBytes(Logical(s), nb);
  }

  lemma WordsMoved(t: seq<byte>, s: seq<byte>, nb: nat)
    requires |t| == 16 && |s| == 16 && (nb == 8 || nb == 16)
    requires forall i :: 0 <= i < 16 - nb ==> t[i] == s[i + nb]
    requires forall i :: 16 - nb <= i < 16 ==> t[i] == 0
    ensures Logical(t) == Logical(s)[nb..] + Zeros(nb)
  {
    hide Lane;
    forall i | 0 <= i < 16 ensures Logical(t)[i] == (Logical(s)[nb..] + Zeros(nb))[i] {
      LaneUp(i, nb);
      assert Logical(t)[i] == t[Lane(i)];
    }
  }

  /** Words move as wholes. */
  lemma LaneUp(i: nat, nb: nat)
    requires i < 16 && (nb == 8 || nb == 16)
    ensures i < 16 - nb ==> Lane(i) < 16 - nb && Lane(i + nb) == Lane(i) + nb
    ensures i >= 16 - nb ==> Lane(i) >= 16 - nb
  {
    hide Lane;
  }

  /** Whole bytes, moved up in place at the exchanged indices. */
  method MoveBytes(a: array<byte>, nb: nat)
    requires a.Length == 16 && nb <= 16
    modifies a
    ensures Val(a) == (old(Val(a)) * Pow2(8 * nb)) % Pow2(128)
  {
    hide BE, Pow2, Logical, Lane;
    ghost var s := Logical(a[..]);
    var ix, jx := 0, nb;
    while jx < 16
      invariant jx == ix + nb && 0 <= ix <= 16 - nb
      invariant forall i :: 0 <= i < ix ==> Logical(a[..])[i] == s[i + nb]
      invariant forall i :: ix <= i < 16 ==> Logical(a[..])[i] == s[i]
    {
      ByteAt(a[..]);
      Put(a, ix, a[Lane(jx)]);
      ix, jx := ix + 1, jx + 1;
    }
    while ix < 16
      invariant 16 - nb <= ix <= 16
      invariant forall i :: 0 <= i < 16 - nb ==> Logical(a[..])[i] == s[i + nb]
      invariant forall i :: 16 - nb <= i < ix ==> Logical(a[..])[i] == 0
    {
      Put(a, ix, 0);
      ix := ix + 1;
    }
    assert Logical(a[..]) == s[nb..] + Zeros(nb);
    BEShiftBytes(s, nb);
  }

  /** The two words shifted by less than 64 bits. */
  method ShiftBits(a: array<byte>, k: nat)
    requires a.Length == 16 && 0 < k < 64
    modifies a
    ensures Val(a) == (old(Val(a)) * Pow2(k)) % Pow2(128)
  {
    hide BE, Pow2, Logical, Eight, Load, Words.Shl, Words.Low, Words.High;
    ghost var s := a[..];
    Store(a, 0, Words.Shl(Load(a[..], 0), Load(a[..], 1), k));
    Store(a, 1, Words.Shl(Load(a[..], 1), 0, k));
    ShiftWords(a[..], s, k);
  }

  lemma ShiftWords(t: seq<byte>, s: seq<byte>, k: nat)
    requires |t| == 16 && |s| == 16 && 0 < k < 64
    requires Load(t, 0) == Words.Shl(Load(s, 0), Load(s, 1), k) && Load(t, 1) == Words.Shl(Load(s, 1), 0, k)
    ensures BE(Logical(t)) == (BE(Logical(s)) * Pow2(k)) % Pow2(128)
  {
    hide BE, Pow2, Logical, Eight, Load, Words.LE, Words.Low, Words.High, Or;
    ValueOfWords(t);
    ValueOfWords(s);
    Pow2Add(k, 64 - k);
    Words.WordSize();
    ZeroHigh(Pow2(64 - k));
    Words.LEShift([Load(t, 1), Load(t, 0)], [Load(s, 1), Load(s, 0)], Pow2(k), Pow2(64 - k), 0);
  }

  lemma ZeroHigh(r: int)
    requires r >= 1
    ensures Words.High(0, r) == 0
  {
  }

  /** gf128_shiftl: whole words, then whole bytes, then bits; dst may be op. */
  method ShiftL(op: array<byte>, nsh: nat, dst: array<byte>)
    requires op.Length == 16 && dst.Length == 16 && nsh < 192
    modifies dst
    ensures Val(dst) == (old(Val(op)) * Pow2(nsh)) % Pow2(128)
  {
    hide BE, Pow2, Logical;
    ghost var v := Val(op);
    var nw := nsh / 64;
    BufferBelow(op[..]);
    NoShift(v);
    if nw > 0 { MoveWords(op, nw, dst); } else { B.Copy(op, dst); }
    ShiftRest(dst, nsh - 64 * nw);
    ShiftCompose(v, 64 * nw, nsh - 64 * nw, 128);
  }

  method ShiftRest(dst: array<byte>, nsh: nat)
    requires dst.Length == 16 && nsh < 64
    modifies dst
    ensures Val(dst) == (old(Val(dst)) * Pow2(nsh)) % Pow2(128)
  {
    hide BE, Pow2, Logical;
    ghost var w := Val(dst);
    BufferBelow(dst[..]);
    NoShift(w);
    var nb := nsh / 8;
    var k := nsh - 8 * nb;
    if nb > 0 { MoveBytes(dst, nb); }
    if k > 0 { ShiftBits(dst, k); }
    ShiftCompose(w, 8 * nb, k, 128);
  }

  lemma BufferBelow(s: seq<byte>)
    requires |s| == 16
    ensures BE(Logical(s)) < Pow2(128)
  {
    hide BE, Pow2, Logical;
    BEBound(Logical(s));
  }

  lemma NoShift(v: nat)
    ensures v < Pow2(128) ==> (v * Pow2(0)) % Pow2(128) == v
  {
    ModSmallIf(v, Pow2(128));
  }

  lemma ModSmallIf(v: nat, m: int)
    requires m >= 1
    ensures v < m ==> v % m == v
  {
    if v < m { DivModUnique(v, m, 0, v); }
  }

  // ---------------------------------------------------------------- multiplication

  /** `opnd[15 ^ lmask] ^= 0x87`. */
  method FlipLow(a: array<byte>)
    requires a.Length == 16
    modifies a
    ensures Val(a) == Plus(old(Val(a)), 0x87)
  {
    hide BE, Xor, Plus, Logical, Lane;
    ghost var t := Logical(a[..]);
    ByteAt(a[..]);
    XorByte(a[Lane(15)], 0x87);
    Put(a, 15, Xor(a[Lane(15)], 0x87));
    XorLow(Logical(a[..]), t);
  }

  /** Multiply by x and reduce, in place. */
  method Step(a: array<byte>)
    requires a.Length == 16
    modifies a
    ensures Val(a) == XTime(old(Val(a)), F())
  {
    hide BE, Pow2, XTime, Plus, Xor, And, F, Logical, Lane;
    var hibit := And(a[Lane(0)], 0x80);
    ByteAt(a[..]);
    StepCarry(Logical(a[..]));
    ShiftBits(a, 1);
    if hibit != 0 { FlipLow(a); }
  }

  /** Doubling reduces exactly where the top bit is set. */
  lemma XTimeCarry(v: nat)
    requires v < Pow2(128)
    ensures
      var t := (v * Pow2(1)) % Pow2(128);
      t >= 0 && XTime(v, F()) == if v >= Pow2(127) then Plus(t, 0x87) else t
  {
    hide Pow2, XTime, Plus, F, Len;
    StepPowers();
    DoubleMod(v, Pow2(128), Pow2(127), Pow2(1));
    FieldPolynomial();
    LenBound(2 * v, 128);
    XTimeTest(v, F());
    if 2 * v >= Pow2(128) { TopReduced(2 * v - Pow2(128)); }
  }

  lemma TopReduced(r: nat)
    requires r < Pow2(128)
    ensures Plus(Pow2(128) + r, F()) == Plus(r, 0x87)
  {
    hide Pow2, Plus;
    LowBelow();
    TopPlus(r, 0x87);
  }

  /** The top bit before the shift says whether to subtract the field polynomial. */
  lemma StepCarry(s: seq<byte>)
    requires |s| == 16
    ensures
      var t := (BE(s) * Pow2(1)) % Pow2(128);
      t >= 0 && XTime(BE(s), F()) == if And(s[0], 0x80) != 0 then Plus(t, 0x87) else t
  {
    hide BE, Pow2, XTime, Plus, And, F;
    TopBit7(s[0]);
    TopByte(s);
    XTimeCarry(BE(s));
  }

  lemma XTimeTest(v: nat, f: nat)
    requires Len(f) == 129
    ensures XTime(v, f) == if Len(2 * v) <= 128 then 2 * v else Plus(2 * v, f)
  {
  }

  lemma StepPowers()
    ensures Pow2(1) == 2 && Pow2(128) == 2 * Pow2(127)
  {
    assert Pow2(1) == 2;
  }

  lemma DoubleMod(v: int, p: int, h: int, two: int)
    requires two == 2 && p == 2 * h && 0 <= v < p
    ensures (v * two) % p == if 2 * v >= p then 2 * v - p else 2 * v
    ensures 2 * v >= p <==> v >= h
  {
    if 2 * v >= p { DivModUnique(2 * v, p, 1, 2 * v - p); } else { DivModUnique(2 * v, p, 0, 2 * v); }
  }

  lemma TopBit7(b: int)
    requires 0 <= b < 256
    ensures And(b, 0x80) != 0 <==> b >= 128
  {
    assert Pow2(7) == 0x80;
    AndComm(b, 0x80);
    BitTest(7, b);
    hide And;
    TopBit(7, b, 0x80);
  }

  lemma TopByte(s: seq<byte>)
    requires |s| == 16
    ensures BE(s) < Pow2(128) && (s[0] >= 128 <==> BE(s) >= Pow2(127))
  {
    hide BE, Pow2;
    assert s == s[..1] + s[1..] && s[..1] == [s[0]];
    BEConcat(s[..1], s[1..]);
    OneByte(s[0]);
    BEBound(s[1..]);
    BEBound(s);
    Pow2Add(7, 120);
    assert Pow2(7) == 128 by { SevenBits(); }
    Compare(s[0], BE(s[1..]), Pow2(120), BE(s));
  }

  lemma OneByte(a: byte)
    ensures BE([a]) == a
  {
    assert [a][..0] == [];
    assert BE([]) == 0;
  }

  lemma SevenBits()
    ensures Pow2(7) == 128
  {
  }

  lemma Compare(b: int, l: int, p: int, v: int)
    requires 0 <= b && 0 <= l < p && v == b * p + l
    ensures b >= 128 <==> v >= 128 * p
  {
    if b >= 128 { ProductSign(b - 128, p); } else { ProductSign(127 - b, p); }
    Excess(b, p);
  }

  lemma Excess(b: int, p: int)
    ensures (b - 128) * p == b * p - 128 * p && (127 - b) * p == 127 * p - b * p
  {
  }

  lemma XorLow(t: seq<byte>, s: seq<byte>)
    requires |t| == 16 && |s| == 16 && t[15] == Xor(s[15], 0x87) && t[..15] == s[..15]
    ensures BE(t) == Plus(BE(s), 0x87)
  {
    var c: seq<byte> := Zeros(15) + [0x87];
    BEConcat(Zeros(15), [0x87]);
    BEZeros(15);
    OneByte(0x87);
    assert forall i :: 0 <= i < 15 ==> t[i] == t[..15][i] && s[i] == s[..15][i];
    hide BE, Xor;
    XorZero(s);
    BEXor(t, s, c);
  }

  lemma XorZero(s: seq<byte>)
    ensures forall i :: 0 <= i < |s| ==> Xor(s[i], 0) == s[i]
  {
  }

  lemma BufferShort(s: seq<byte>)
    requires |s| == 16
    ensures Len(BE(Logical(s))) <= 128 && Len(BE(Logical(s))) < Len(F())
  {
    BufferBelow(s);
    FieldPolynomial();
    hide BE, Pow2, F, Logical;
    LenBound(BE(Logical(s)), 128);
  }

  /** The bits of one byte of the multiplier, from mask = 2^(k-1) down. */
  method MulByte(ans: array<byte>, op1: array<byte>, op2: array<byte>, ix: int, mask0: int, ghost k0: nat)
    requires ans != op1 && ans != op2 && ans.Length == op1.Length == op2.Length == 16
    requires 0 <= ix < 16 && k0 <= 8 && mask0 == Pow2(k0) / 2
    requires IsProduct(Val(ans), Val(op1), B.Head(Logical(op2[..]), ix, k0), F())
    modifies ans
    ensures IsProduct(Val(ans), Val(op1), B.Head(Logical(op2[..]), ix, 0), F())
  {
    hide BE, Pow2, XTime, Len, Plus, F, B.Head, IsProduct, Times, And, Logical, Lane;
    ghost var a, s, k := Val(op1), Logical(op2[..]), k0;
    var mask := mask0;
    B.MaskHalf(k);
    BufferShort(op1[..]);
    while mask != 0
      invariant k <= 8 && mask == Pow2(k) / 2 && (mask != 0 <==> k > 0)
      invariant IsProduct(Val(ans), a, B.Head(s, ix, k), F())
      decreases k
    {
      B.MaskHalf(k);
      B.MulBit(Val(ans), a, s, ix, k - 1, F());
      Step(ans);
      ByteAt(op2[..]);
      if And(mask, op2[Lane(ix)]) != 0 { AddTo(ans, op1, ans); }
      B.MaskHalf(k - 1);
      mask, k := mask / 2, k - 1;
    }
  }

  /** gf128_mul: the reduced product; dst may be either operand. */
  method Multiply(op1: array<byte>, op2: array<byte>, dst: array<byte>)
    requires op1.Length == 16 && op2.Length == 16 && dst.Length == 16
    modifies dst
    ensures IsProduct(Val(dst), old(Val(op1)), old(Val(op2)), F())
  {
    hide BE, Pow2, XTime, Len, Plus, F, B.Head, IsProduct, Times, Logical;
    ghost var a, s := Val(op1), Logical(op2[..]);
    BufferShort(op1[..]);
    var ix, mask, k := FirstBit(op2);
    if ix < 0 {
      Zero(dst);
      ZeroProduct(a);
      return;
    }
    var ans := B.Clone(op1);
    ProductOne(a, F());
    B.HeadFirst(s, ix, k);
    B.MaskHalf(k);
    B.MaskHalf(8);
    assert Pow2(8) == 256 by { Pow2Small(); }
    mask := mask / 2;
    if mask == 0 {
      if ix < 15 { B.HeadNext(s, ix); }
      mask, k := 0x80, 8;
      ix := ix + 1;
    }
    B.HeadAll(s);
    while ix < 16
      invariant 0 <= ix <= 16 && k <= 8 && mask == Pow2(k) / 2
      invariant op1[..] == old(op1[..]) && Logical(op2[..]) == s
      invariant IsProduct(Val(ans), a, if ix < 16 then B.Head(s, ix, k) else B.Head(s, 15, 0), F())
    {
      MulByte(ans, op1, op2, ix, mask, k);
      if ix < 15 { B.HeadNext(s, ix); }
      ix, mask, k := ix + 1, 0x80, 8;
    }
    B.Copy(ans, dst);
  }

  lemma ZeroProduct(a: nat)
    ensures IsProduct(0, a, 0, F())
  {
    FieldPolynomial();
    hide F;
    CongRefl(0, F());
    assert Times(a, 0) == 0 && Len(0) == 0;
  }

  // ---------------------------------------------------------------- inversion

  /** tmp := src << j, then dst := dst + tmp. */
  method AddShifted(src: array<byte>, j: nat, tmp: array<byte>, dst: array<byte>)
    requires src.Length == 16 && tmp.Length == 16 && dst.Length == 16 && tmp != dst && tmp != src && src != dst
    requires j <= 128
    modifies tmp, dst
    ensures Val(dst) == Plus(old(Val(dst)), (Val(src) * Pow2(j)) % Pow2(128))
  {
    hide BE, Pow2, Plus, Logical;
    ShiftL(src, j, tmp);
    AddTo(dst, tmp, dst);
  }

  /** The first turn, done before the loop because x^128 does not fit the buffer:
      u = f + x^j op, with the leading terms cancelled, and g1 = x^j. */
  lemma FirstTurn(op: nat)
    requires 1 < op && Len(op) <= 128 && Coprime(op, F())
    ensures
      var j := 129 - Len(op);
      && op * Pow2(j) >= 0 && 1 <= j <= 127
      && EuclidInv(Plus((op * Pow2(j)) % Pow2(128), 0x87), op, Pow2(j) % Pow2(128), 1, op, F())
      && Len(Plus((op * Pow2(j)) % Pow2(128), 0x87)) <= 128
  {
    hide Times, Cong, Coprime, Divides, Plus, F, Pow2, Len, EuclidInv;
    var j := 129 - Len(op);
    FieldPolynomial();
    LenTwo(op);
    FieldAboveOne();
    EuclidStart(op, F());
    EuclidSwap(op, F(), 1, 0, op, F());
    EuclidStep(F(), op, 0, 1, op, F(), j);
    FirstRow(op * Pow2(j));
    OneTimes(Pow2(j));
    PlusRules(Pow2(j), 0);
    CofactorFits(j);
  }

  /** The leading terms of f and of a polynomial of the same length cancel. */
  lemma FirstRow(t: nat)
    requires Len(t) == 129
    ensures Plus(F(), t) == Plus(t % Pow2(128), 0x87)
  {
    hide Plus, Pow2, Len;
    LenBound(t, 128);
    LenBound(t, 129);
    Pow2Succ(128);
    DivModUnique(t, Pow2(128), 1, t - Pow2(128));
    LowBelow();
    TopPlus(t - Pow2(128), 0x87);
    PlusRules(F(), t);
  }

  lemma FieldAboveOne()
    ensures F() > 1
  {
  }

  lemma CofactorFits(j: nat)
    requires j <= 127
    ensures Pow2(j) % Pow2(128) == Pow2(j)
  {
    Pow2Add(j, 128 - j);
    Pow2Succ(127 - j);
    hide Pow2;
    FitsBelow(Pow2(j), Pow2(127 - j), Pow2(128));
  }

  lemma FitsBelow(p: int, q: int, m: int)
    requires p >= 1 && q >= 1 && m == p * (2 * q)
    ensures p % m == p
  {
    assert p * (2 * q) == 2 * (p * q) && p * (q - 1) >= 0;
    DivModUnique(p, m, 0, p);
  }

  /** The rows after the first turn, for an operand that may share a factor with f. */
  lemma FirstRun(op: nat) returns (d: nat)
    requires op != 1 && Len(op) <= 128
    ensures
      var j := 129 - Len(op);
      && op * Pow2(j) >= 0
      && Running(d, Plus((op * Pow2(j)) % Pow2(128), 0x87), op, Pow2(j) % Pow2(128), 1, op, F(), 0, 256)
      && Len(Plus((op * Pow2(j)) % Pow2(128), 0x87)) <= 128
  {
    hide Times, Cong, Coprime, Divides, Plus, F, Pow2, Len, EuclidInv;
    FieldAboveOne();
    var j := 129 - Len(op);
    d := 0;
    if op == 0 {
      ZeroShares(F());
      ZeroLength();
      FirstZero(j);
      d := 0x87;
    } else {
      ProductSign(op, Pow2(j));
      if Coprime(op, F()) {
        FirstTurn(op);
      } else {
        FieldPolynomial();
        LenShift(op, j);
        FirstRow(op * Pow2(j));
        d := SharedStart(op, j);
      }
      ShortRow(op * Pow2(j));
    }
  }

  lemma SharedStart(op: nat, j: nat) returns (d: nat)
    requires !Coprime(op, F())
    ensures op * Pow2(j) >= 0 && Shared(d, Plus(F(), op * Pow2(j)), op)
  {
    hide Divides, Plus, Pow2, F;
    d :| Divides(d, op) && Divides(d, F()) && d != 1;
    DividesShift(d, op, j);
    DividesPlus(d, F(), op * Pow2(j));
  }

  lemma ShortRow(t: nat)
    ensures Len(Plus(t % Pow2(128), 0x87)) <= 128
  {
    hide Plus, Pow2, Len;
    LowBelow();
    LenBound(t % Pow2(128), 128);
    LenBound(0x87, 128);
    LenPlus(t % Pow2(128), 0x87, 128);
  }

  /** The rows of 0: x^7 + x^2 + x + 1 divides both. */
  lemma FirstZero(j: nat)
    ensures 0 * Pow2(j) == 0 && Plus(0 % Pow2(128), 0x87) == 0x87 && Shared(0x87, 0x87, 0) && Len(0x87) <= 128
  {
    hide Plus, Times, Pow2, Len;
    PlusRules(0x87, 0);
    DividesSelf(0x87);
    TimesOneLeft(0x87);
    assert Times(0, 0x87) == 0;
    LowBelow();
    LenBound(0x87, 128);
  }

  /** The four rows and the scratch buffer, apart from each other, after t turns. */
  ghost predicate Rows(pu: array<byte>, pv: array<byte>, pg1: array<byte>, pg2: array<byte>, tmp: array<byte>,
    d: nat, a: nat, t: nat)
    requires pu.Length == 16 && pv.Length == 16 && pg1.Length == 16 && pg2.Length == 16
    reads pu, pv, pg1, pg2
  {
    && pu.Length == 16 && pv.Length == 16 && pg1.Length == 16 && pg2.Length == 16 && tmp.Length == 16
    && pu != pv && pu != pg1 && pu != pg2 && pv != pg1 && pv != pg2 && pg1 != pg2
    && tmp != pu && tmp != pv && tmp != pg1 && tmp != pg2
    && Running(d, Val(pu), Val(pv), Val(pg1), Val(pg2), a, F(), t, 256) && Len(Val(pu)) <= 128 && Len(Val(pv)) <= 128
  }

  /** One turn: the longer row first, then u + x^j v and g1 + x^j g2. */
  method Turn(pu: array<byte>, pv: array<byte>, pg1: array<byte>, pg2: array<byte>, tmp: array<byte>,
    ghost d: nat, ghost a: nat, ghost t: nat)
    returns (qu: array<byte>, qv: array<byte>, qg1: array<byte>, qg2: array<byte>)
    requires pu.Length == 16 && pv.Length == 16 && pg1.Length == 16 && pg2.Length == 16
    requires Rows(pu, pv, pg1, pg2, tmp, d, a, t) && Val(pu) != 1
    modifies pu, pv, pg1, pg2, tmp
    ensures qu in {pu, pv} && qv in {pu, pv} && qg1 in {pg1, pg2} && qg2 in {pg1, pg2}
    ensures Rows(qu, qv, qg1, qg2, tmp, d, a, t + 1)
  {
    hide BE, Pow2, Len, Plus, Coprime, EuclidInv, Running, Measured, F, Logical;
    var lu := IntegerLength(pu);
    var lv := IntegerLength(pv);
    MeasuredLength(Val(pu));
    MeasuredLength(Val(pv));
    RunSwap(d, Val(pu), Val(pv), Val(pg1), Val(pg2), a, F(), t, 256);
    var j := lu - lv;
    qu, qv, qg1, qg2 := pu, pv, pg1, pg2;
    if j < 0 {
      qu, qv := pv, pu;
      qg1, qg2 := pg2, pg1;
      j := -j;
    }
    Combine(qu, qv, qg1, qg2, tmp, j, d, a, t);
  }

  /** The row operations, with the rows in order. */
  method Combine(pu: array<byte>, pv: array<byte>, pg1: array<byte>, pg2: array<byte>, tmp: array<byte>, j: nat,
    ghost d: nat, ghost a: nat, ghost t: nat)
    requires pu.Length == 16 && pv.Length == 16 && pg1.Length == 16 && pg2.Length == 16
    requires Rows(pu, pv, pg1, pg2, tmp, d, a, t) && j == Measured(Val(pu), 0) - Measured(Val(pv), 0)
    modifies pu, pg1, tmp
    ensures Rows(pu, pv, pg1, pg2, tmp, d, a, t + 1)
  {
    hide BE, Pow2, Len, Plus, Coprime, EuclidInv, Running, Measured, F, Logical;
    ghost var u, v, g1, h2 := Val(pu), Val(pv), Val(pg1), Val(pg2);
    FieldPolynomial();
    TurnFits(u, v, j, 0, 128, 128);
    AddShifted(pv, j, tmp, pu);
    AddShifted(pg2, j, tmp, pg1);
    RunNext(d, u, v, g1, h2, Val(pg1), a, F(), t, 256, j, 0, 128);
    LenPlus(u, v * Pow2(j), 128);
  }

  /** The loop, cut off after so many turns; the cofactor of 1 is in q where it ends. */
  method Run(pu: array<byte>, pv: array<byte>, pg1: array<byte>, pg2: array<byte>, tmp: array<byte>, turns: nat,
    ghost d: nat, ghost a: nat)
    returns (ended: bool, q: array<byte>)
    requires pu.Length == 16 && pv.Length == 16 && pg1.Length == 16 && pg2.Length == 16
    requires Rows(pu, pv, pg1, pg2, tmp, d, a, 0)
    modifies pu, pv, pg1, pg2, tmp
    ensures q in {pg1, pg2} && q.Length == 16 && (Coprime(a, F()) && turns >= 256 ==> ended)
    ensures ended ==> Coprime(a, F()) && IsInverse(Val(q), a, F())
  {
    hide BE, Pow2, Len, Plus, Times, Cong, Coprime, EuclidInv, Running, IsInverse, F, Logical;
    var u, v, g1, g2 := pu, pv, pg1, pg2;
    var t := 0;
    ended := IsOne(u);
    while !ended && t < turns
      invariant u in {pu, pv} && v in {pu, pv} && g1 in {pg1, pg2} && g2 in {pg1, pg2} && t <= turns
      invariant u.Length == 16 && v.Length == 16 && g1.Length == 16 && g2.Length == 16
      invariant Rows(u, v, g1, g2, tmp, d, a, t) && (ended <==> Val(u) == 1)
    {
      u, v, g1, g2 := Turn(u, v, g1, g2, tmp, d, a, t);
      ended := IsOne(u);
      t := t + 1;
    }
    RunEnds(d, Val(u), Val(v), Val(g1), Val(g2), a, F(), t, 256);
    q := g1;
  }

  /** gf128_inv by the extended Euclidean algorithm, cut off after so many turns; dst may be op. It
      ends on the operands coprime to the field polynomial, within 256 turns, and on no others. */
  method Inv(op: array<byte>, dst: array<byte>, turns: nat) returns (ended: bool)
    requires op.Length == 16 && dst.Length == 16
    modifies dst
    ensures ended ==> Coprime(old(Val(op)), F()) && IsInverse(Val(dst), old(Val(op)), F())
    ensures Coprime(old(Val(op)), F()) && turns >= 256 ==> ended
    ensures !ended ==> dst[..] == old(dst[..])
  {
    hide BE, Pow2, Len, Plus, F, Times, Cong, Coprime, EuclidInv, Running, IsInverse, Logical;
    ghost var a := Val(op);
    BufferShort(op[..]);
    var isOne := IsOne(op);
    if isOne {
      One(dst);
      OneInverse();
      OneCoprime(F());
      return true;
    }
    var pu := new byte[16];
    var pv := B.Clone(op);
    var pg1 := new byte[16];
    var pg2 := new byte[16];
    var tmp := new byte[16];
    One(pg2);
    var len := IntegerLength(pv);
    ghost var d := FirstRun(a);
    ShiftL(pv, 129 - len, pu);
    FlipLow(pu);
    ShiftL(pg2, 129 - len, pg1);
    FieldPolynomial();
    OneTimes(Pow2(129 - len));
    var q;
    ended, q := Run(pu, pv, pg1, pg2, tmp, turns, d, a);
    if ended { B.Copy(q, dst); }
  }

  lemma OneTimes(p: int)
    ensures 1 * p == p
  {
  }

  lemma OneInverse()
    ensures IsInverse(1, 1, F())
  {
    FieldPolynomial();
    hide F;
    TimesOneLeft(1);
    CongRefl(1, F());
    assert Len(1) == 1;
  }
}
