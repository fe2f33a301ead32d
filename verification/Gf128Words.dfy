/** GF(2^128) of eccl_le.cpp, on two 64-bit words updated in place, least significant first. Its
    length function is 24 short, and its inverse starts with that length itself and not with a
    difference of lengths: it inverts modulo another polynomial. */
module Gf128Words {
  import opened Bits
  import opened Gf2
  import opened Gf2Field
  import opened Words
  import opened WordOps
  import Buffers
  import Gf128

  /** x^128 + x^7 + x^2 + x + 1. */
  function F(): nat { Gf128.F() }

  // ---------------------------------------------------------------- whole-buffer operations

  lemma TwoWords(s: seq<word>)
    requires |s| == 2
    ensures LE(s) == s[1] * W + s[0] && LE(s) < Pow2(128)
    ensures (LE(s) == 0 <==> s[0] == 0 && s[1] == 0) && (LE(s) == 1 <==> s[0] == 1 && s[1] == 0)
  {
    hide LE, Pow2;
    assert s == [s[0], s[1]];
    Gf128.TwoWords(s[0], s[1]);
    LEBound(s);
  }

  method Zero(a: array<word>)
    requires a.Length == 2
    modifies a
    ensures Val(a) == 0
  {
    hide LE, Pow2;
    a[0] := 0;
    a[1] := 0;
    TwoWords(a[..]);
  }

  method One(a: array<word>)
    requires a.Length == 2
    modifies a
    ensures Val(a) == 1
  {
    hide LE, Pow2;
    a[1] := 0;
    a[0] := 1;
    TwoWords(a[..]);
  }

  method IsOne(a: array<word>) returns (b: bool)
    requires a.Length == 2
    ensures b <==> Val(a) == 1
  {
    hide LE, Pow2;
    TwoWords(a[..]);
    b := 0 == a[1] && 1 == a[0];
  }

  method Copy(src: array<word>, dst: array<word>)
    requires src.Length == 2 && dst.Length == 2
    modifies dst
    ensures dst[..] == old(src[..])
  {
    if src != dst {
      dst[0] := src[0];
      dst[1] := src[1];
    }
  }

  method Clone(src: array<word>) returns (dst: array<word>)
    requires src.Length == 2
    ensures fresh(dst) && dst.Length == 2 && dst[..] == src[..]
  {
    dst := new word[2];
    Copy(src, dst);
  }

  /** gf128_add; dst may be either operand. */
  method AddTo(op1: array<word>, op2: array<word>, dst: array<word>)
    requires op1.Length == 2 && op2.Length == 2 && dst.Length == 2
    modifies dst
    ensures Val(dst) == Plus(old(Val(op1)), old(Val(op2)))
  {
    hide Xor, XorWords, LE, IsXor, Plus;
    ghost var r, s := op1[..], op2[..];
    dst[0] := XorWords(op1[0], op2[0]);
    dst[1] := XorWords(op1[1], op2[1]);
    XorPair(dst[..], r, s);
    LEXor(dst[..], r, s);
  }

  lemma XorPair(t: seq<word>, r: seq<word>, s: seq<word>)
    requires |t| == 2 && |r| == 2 && |s| == 2 && t[0] == XorWords(r[0], s[0]) && t[1] == XorWords(r[1], s[1])
    ensures IsXor(t, r, s)
  {
    hide Xor;
  }

  // ---------------------------------------------------------------- shift

  /** gf128_shiftl; dst may be op. From 128 places on it leaves the low word and writes a third one,
      which the operand does not have. */
  method ShiftL(op: array<word>, nsh: nat, dst: array<word>)
    requires op.Length >= 2 && dst.Length >= if nsh < 128 then 2 else 3
    modifies dst
    ensures nsh < 128 ==> LE(dst[..2]) == (LE(old(op[..2])) * Pow2(nsh)) % Pow2(128) && dst[2..] == old(dst[2..])
    ensures nsh >= 128 ==> dst[..] == old(dst[..])[1 := 0][2 := 0]
  {
    hide LE, Pow2, Shl, Low, High;
    ghost var s := op[..2];
    var nl := nsh % 64;
    NoShift(op[0], 0);
    NoShift(op[1], op[0]);
    if nsh / 64 == 1 {
      if nl != 0 {
        dst[1] := Shl(op[0], 0, nl);
        dst[0] := 0;
      } else {
        dst[1] := op[0];
        dst[0] := 0;
      }
    } else if nsh / 64 == 0 {
      if nl != 0 {
        dst[1] := Shl(op[1], op[0], nl);
        dst[0] := Shl(op[0], 0, nl);
      } else {
        dst[1] := op[1];
        dst[0] := op[0];
      }
    } else {
      dst[1] := 0;
      dst[2] := 0;
      return;
    }
    Shifted(dst[..2], s, nsh / 64, nl);
  }

  /** The same on operands of two words, as the inverse calls it. */
  method ShiftPair(op: array<word>, nsh: nat, dst: array<word>)
    requires op.Length == 2 && dst.Length == 2 && nsh < 128
    modifies dst
    ensures Val(dst) == (old(Val(op)) * Pow2(nsh)) % Pow2(128)
  {
    hide LE, Pow2;
    assert op[..2] == op[..];
    ShiftL(op, nsh, dst);
    assert dst[..2] == dst[..];
  }

  /** Which operands the first shift of the inverse takes there. */
  lemma FirstShiftOutside(op: nat)
    requires Len(op) <= 128
    ensures 129 - Measured(op, 24) >= 128 <==> Len(op) <= 25
  {
    ZeroLength();
  }

  lemma Shifted(t: seq<word>, s: seq<word>, c: nat, nl: nat)
    requires |t| == 2 && |s| == 2 && c <= 1 && nl < 64
    requires t == if c == 1 then [0, Shl(s[0], 0, nl)] else [Shl(s[0], 0, nl), Shl(s[1], s[0], nl)]
    ensures LE(t) == (LE(s) * Pow2(64 * c + nl)) % Pow2(128)
  {
    hide LE, Pow2, Shl;
    var u := [Shl(s[0], 0, nl), Shl(s[1], s[0], nl)];
    BitShifted(u, s, nl);
    if c == 1 {
      assert Zeros(1) + u[..1] == t;
      LEShiftWords(u, 1);
      Buffers.ShiftCompose(LE(s), nl, 64, 128);
    }
  }

  lemma BitShifted(t: seq<word>, s: seq<word>, nl: nat)
    requires |t| == 2 && |s| == 2 && nl < 64 && t[0] == Shl(s[0], 0, nl) && t[1] == Shl(s[1], s[0], nl)
    ensures LE(t) == (LE(s) * Pow2(nl)) % Pow2(128)
  {
    hide LE, Pow2, Low, High, Or;
    Pow2Add(nl, 64 - nl);
    WordSize();
    ZeroHigh(Pow2(64 - nl));
    LEShift(t, s, Pow2(nl), Pow2(64 - nl), 0);
  }

  // ---------------------------------------------------------------- multiplication

  /** Multiply by x and reduce, in place. */
  method Step(p: array<word>)
    requires p.Length == 2
    modifies p
    ensures Val(p) == XTime(old(Val(p)), F())
  {
    hide LE, Pow2, F, XTime, Plus, Shl, Byte, And, Or, Low, High;
    ghost var s := p[..];
    var hibit := And(Byte(p[..], 15), 0x80);
    StepCarry(s);
    TopByteIn(p[1], p[0], s);
    p[1] := Or(p[1] * 2 % W, Byte(p[..], 7) / 128);
    p[0] := Shl(p[0], 0, 1);
    BitShifted(p[..], s, 1);
    if hibit != 0 { FlipLow(p); }
  }

  /** `p[1] << 1 | opnd[7] >> 7` is the shift across the words. */
  lemma TopByteIn(x: word, y: word, s: seq<word>)
    requires |s| == 2 && s[0] == y
    ensures Or(x * 2 % W, Byte(s, 7) / 128) == Shl(x, y, 1)
  {
    WordSize();
    hide Pow2, Or;
    Pow2Add(56, 8);
    Pow2Add(56, 7);
    SmallPowers();
    DivTwice(y, Pow2(56), 128);
    Buffers.QuotientBound(y, 256, Pow2(56));
  }

  lemma SmallPowers()
    ensures Pow2(1) == 2 && Pow2(7) == 128
  {
  }

  /** The top bit before the shift says whether to subtract the field polynomial. */
  lemma StepCarry(s: seq<word>)
    requires |s| == 2
    ensures
      var t := (LE(s) * Pow2(1)) % Pow2(128);
      t >= 0 && XTime(LE(s), F()) == if And(Byte(s, 15), 0x80) != 0 then Plus(t, 0x87) else t
  {
    hide LE, Pow2, XTime, Plus, Byte, And, Gf128.F;
    TwoWords(s);
    ByteIs(s, 15);
    Gf128.TopBit7(Byte(s, 15));
    Gf128.XTimeCarry(LE(s));
    Pow2Add(120, 8);
    Pow2Add(120, 7);
    WordSize();
    SmallPowers();
    TopOfSixteen(LE(s), Pow2(120), Byte(s, 15));
  }

  lemma TopOfSixteen(v: int, p: int, b: int)
    requires p >= 1 && 0 <= v < p * 256 && b == v / p % 256
    ensures b >= 128 <==> v >= p * 128
  {
    QuotientSmall(v, p, b);
    var r := v % p;
    assert v == p * b + r;
    if b >= 128 { Monotone(p, 128, b); } else { Monotone(p, b + 1, 128); }
  }

  /** `opnd[0] ^= 0x87`, a byte of the low word. */
  method FlipLow(p: array<word>)
    requires p.Length == 2
    modifies p
    ensures Val(p) == Plus(old(Val(p)), 0x87)
  {
    hide LE, Xor, Plus;
    ghost var s := p[..];
    FlipByte(p[0]);
    p[0] := p[0] / 256 * 256 + Xor(p[0] % 256, 0x87);
    XorLow(p[..], s);
  }

  lemma FlipByte(x: word)
    ensures 0 <= x / 256 * 256 + Xor(x % 256, 0x87) < W
    ensures x / 256 * 256 + Xor(x % 256, 0x87) == Xor(x, 0x87)
  {
    hide Xor, Plus, Pow2;
    ByteBits();
    XorByteRange(x % 256);
    PlusRules(x / 256, 0);
    PlusIsXor(x, x % 256);
    Buffers.PlusJoin(x / 256, x % 256, 0, 0x87, 8);
  }

  lemma PlusIsXor(x: nat, y: nat)
    ensures Plus(x, 0x87) == Xor(x, 0x87) && Plus(y, 0x87) == Xor(y, 0x87)
  {
  }

  lemma XorByteRange(b: int)
    requires 0 <= b < 256
    ensures 0 <= Xor(b, 0x87) < 256
  {
    hide Xor;
    Buffers.XorByte(b, 0x87);
  }

  lemma XorLow(t: seq<word>, s: seq<word>)
    requires |t| == 2 && |s| == 2 && t[0] == Xor(s[0], 0x87) && t[1] == s[1]
    ensures LE(t) == Plus(LE(s), 0x87)
  {
    hide LE, Xor, Plus, Pow2;
    XorNothing(s[1]);
    LEXor(t, s, LowFlip());
    TwoWords(LowFlip());
  }

  function LowFlip(): seq<word> { [0x87, 0] }

  lemma XorNothing(x: word)
    ensures Xor(x, 0) == x
  {
  }

  /** Byte index ix and mask 2^k of the leading bit; ix is -1 for zero. */
  method FirstBit(a: array<word>) returns (ix: int, mask: int, ghost k: nat)
    requires a.Length == 2
    ensures -1 <= ix < 16 && (ix == -1 <==> Val(a) == 0)
    ensures ix >= 0 ==> k < 8 && mask == Pow2(k) && Val(a) / Pow2(8 * ix + k) == 1
  {
    hide LE, Pow2;
    mask, k := 0, 0;
    TwoWords(a[..]);
    if a[1] != 0 {
      ix, mask, k := FirstByteBit(a, 1);
    } else if a[0] != 0 {
      ix, mask, k := FirstByteBit(a, 0);
    } else {
      ix := -1;
    }
  }

  /** integer_length, 24 short of the number of bits. */
  method IntegerLength(a: array<word>) returns (len: int)
    requires a.Length == 2
    ensures len == if Val(a) == 0 then 0 else Len(Val(a)) - 24
  {
    hide LE, Pow2, Len;
    var ix, mask, k := FirstBit(a);
    if ix < 0 { return 0; }
    LengthIs(Val(a), 8 * ix + k);
    len := LengthFrom(ix, mask, k);
  }

  lemma BufferShort(s: seq<word>)
    requires |s| == 2
    ensures Len(LE(s)) <= 128 && Len(LE(s)) < Len(F())
  {
    hide LE, Pow2, Gf128.F;
    TwoWords(s);
    Gf128.FieldPolynomial();
    LenBound(LE(s), 128);
  }

  /** The bits of one byte of the multiplier below mask = 2^k. */
  method MulByte(ans: array<word>, op1: array<word>, op2: array<word>, ix: nat, mask0: int, ghost k0: nat)
    requires ans.Length == 2 && op1.Length == 2 && op2.Length == 2 && ans != op1 && ans != op2
    requires ix < 16 && k0 <= 8 && mask0 == Pow2(k0)
    requires Partial(Val(ans), Val(op1), Val(op2), 8 * ix + k0, F())
    modifies ans
    ensures Partial(Val(ans), Val(op1), Val(op2), 8 * ix, F())
  {
    hide LE, Pow2, XTime, Len, Plus, F, IsProduct, Byte, And, Partial;
    ghost var a, s, v, k := Val(op1), op2[..], Val(op2), k0;
    var b := Byte(op2[..], ix);
    HalfMask(k);
    BufferShort(op1[..]);
    var mask := mask0 / 2;
    while mask != 0
      invariant k <= 8 && mask == (if k == 0 then 0 else Pow2(k - 1)) && (mask == 0 <==> k == 0)
      invariant Partial(Val(ans), a, v, 8 * ix + k, F())
      decreases k
    {
      ByteBit(s, ix, k - 1);
      NextBit(v, 8 * ix + k - 1);
      MulBit(Val(ans), a, v, 8 * ix + k - 1, And(mask, b) != 0, F());
      Step(ans);
      if And(mask, b) != 0 { AddTo(ans, op1, ans); }
      HalfMask(k - 1);
      mask, k := mask / 2, k - 1;
    }
  }

  /** gf128_mul: the reduced product; dst may be either operand. */
  method Multiply(op1: array<word>, op2: array<word>, dst: array<word>)
    requires op1.Length == 2 && op2.Length == 2 && dst.Length == 2
    modifies dst
    ensures IsProduct(Val(dst), old(Val(op1)), old(Val(op2)), F())
  {
    hide LE, Pow2, XTime, Len, Plus, Gf128.F, IsProduct, Byte, And, Times;
    ghost var a, v := Val(op1), Val(op2);
    BufferShort(op1[..]);
    var ix, mask, k := FirstBit(op2);
    if ix < 0 {
      Zero(dst);
      Gf128.ZeroProduct(a);
      return;
    }
    var ans := Clone(op1);
    ProductOne(a, F());
    WordSize();
    while ix >= 0
      invariant -1 <= ix < 16 && k <= 8 && (ix >= 0 ==> mask == Pow2(k))
      invariant op1[..] == old(op1[..]) && op2[..] == old(op2[..])
      invariant Partial(Val(ans), a, v, if ix >= 0 then 8 * ix + k else 0, F())
    {
      MulByte(ans, op1, op2, ix, mask, k);
      ix, mask, k := ix - 1, 0x100, 8;
    }
    WholeValue(v);
    Copy(ans, dst);
  }

  // ---------------------------------------------------------------- inversion

  /** What the first turn shifts out, where 129 - length would shift out a single one. */
  function Excess(op: nat): nat
    requires Len(op) <= 153
  {
    Buffers.ProductSign(op, Pow2(153 - Len(op)));
    Buffers.DivNonNegative(op * Pow2(153 - Len(op)), Pow2(128));
    op * Pow2(153 - Len(op)) / Pow2(128)
  }

  /** The polynomial modulo which the loop works: Excess(op) x^128 + x^7 + x^2 + x + 1. */
  function Modulus(op: nat): nat
    requires Len(op) <= 153
  {
    Buffers.ProductSign(Excess(op), Pow2(128));
    Excess(op) * Pow2(128) + 0x87
  }

  lemma ModulusLength(op: nat)
    requires 0 < op && Len(op) <= 153
    ensures Len(Excess(op)) == 25 && Len(Modulus(op)) == 153
    ensures op * Pow2(153 - Len(op)) >= 0 && Len(op * Pow2(153 - Len(op))) == 153
  {
    hide Pow2, Len;
    LenShift(op, 153 - Len(op));
    var x: nat, t := op * Pow2(153 - Len(op)), Excess(op);
    LenBound(x, 152);
    LenBound(x, 153);
    Gf128.LowBelow();
    Pow2Add(24, 128);
    Pow2Add(25, 128);
    Between(x, t, Pow2(24), Pow2(25), Pow2(128));
    LenBound(t, 24);
    LenBound(t, 25);
    LenBound(Modulus(op), 152);
    LenBound(Modulus(op), 153);
  }

  lemma Between(x: int, t: int, a: int, b: int, p: int)
    requires p > 0x87 && t == x / p && a * p <= x < b * p
    ensures a <= t < b && a * p <= t * p + 0x87 < b * p
  {
    var r := x % p;
    assert x == p * t + r;
    if t < a { Monotone(p, t + 1, a); }
    if t >= b { Monotone(p, b, t); }
    Monotone(p, a, t);
    Monotone(p, t + 1, b);
  }

  /** The first turn: a turn of the Euclidean loop modulo the wrong polynomial. */
  lemma FirstTurn(op: nat)
    requires 1 < op && 26 <= Len(op) <= 128 && Coprime(op, Modulus(op))
    ensures
      var j := 153 - Len(op);
      && op * Pow2(j) >= 0 && 25 <= j <= 127 && Pow2(j) % Pow2(128) == Pow2(j)
      && EuclidInv(Plus((op * Pow2(j)) % Pow2(128), 0x87), op, Pow2(j), 1, op, Modulus(op))
      && Len(Plus((op * Pow2(j)) % Pow2(128), 0x87)) <= 128
  {
    hide Times, Cong, Coprime, Plus, Pow2, Len, EuclidInv, Modulus;
    var j := 153 - Len(op);
    var h := Modulus(op);
    ModulusLength(op);
    FirstRow(op);
    LenTwo(h) by { LenOfOne(h); }
    EuclidStart(op, h) by { LenOfOne(h); }
    EuclidSwap(op, h, 1, 0, op, h);
    EuclidStep(h, op, 0, 1, op, h, j);
    Gf128.OneTimes(Pow2(j));
    PlusRules(Pow2(j), 0);
    Gf128.CofactorFits(j);
  }

  lemma LenOfOne(h: nat)
    requires Len(h) > 1
    ensures h > 1
  {
  }

  lemma FirstRow(op: nat)
    requires 0 < op && Len(op) <= 128
    ensures
      var x := op * Pow2(153 - Len(op));
      && x >= 0 && Plus(Modulus(op), x) == Plus(x % Pow2(128), 0x87) && Len(Plus(x % Pow2(128), 0x87)) <= 128
  {
    hide Plus, Pow2, Len;
    ModulusLength(op);
    var x: nat, t := op * Pow2(153 - Len(op)), Excess(op);
    Gf128.LowBelow();
    var m: nat := x % Pow2(128);
    Buffers.PlusJoin(t, 0x87, t, m, 128);
    PlusRules(t, t);
    PlusRules(m, 0x87);
    QuotientForm(x, Pow2(128));
    LenBound(m, 128);
    LenBound(0x87, 128);
    LenPlus(m, 0x87, 128);
  }

  lemma QuotientForm(x: int, p: int)
    requires p > 0
    ensures x == x / p * p + x % p
  {
  }

  /** tmp := src << j, then dst := dst + tmp, on a row that fits. */
  method AddShifted(src: array<word>, j: nat, tmp: array<word>, dst: array<word>)
    requires src.Length == 2 && tmp.Length == 2 && dst.Length == 2 && tmp != dst && tmp != src && src != dst
    requires j < 128 && Val(src) * Pow2(j) >= 0 && Len(Val(src) * Pow2(j)) <= 128
    modifies tmp, dst
    ensures Val(src) * Pow2(j) >= 0 && Val(dst) == Plus(old(Val(dst)), Val(src) * Pow2(j))
  {
    hide LE, Pow2, Len, Plus;
    ShiftPair(src, j, tmp);
    LenBound(Val(src) * Pow2(j), 128);
    Gf128.ModSmallIf(Val(src) * Pow2(j), Pow2(128));
    AddTo(dst, tmp, dst);
  }

  /** The same on the low words of cofactors x and y of any length. */
  method AddCofactor(src: array<word>, j: nat, tmp: array<word>, dst: array<word>, ghost x: nat, ghost y: nat)
    requires src.Length == 2 && tmp.Length == 2 && dst.Length == 2 && tmp != dst && tmp != src && src != dst
    requires j < 128 && Val(dst) == x % Pow2(128) && Val(src) == y % Pow2(128)
    modifies tmp, dst
    ensures y * Pow2(j) >= 0 && Val(dst) == Plus(x, y * Pow2(j)) % Pow2(128)
  {
    hide LE, Pow2, Plus;
    ShiftPair(src, j, tmp);
    Buffers.ProductSign(y, Pow2(j));
    Buffers.ModScale(y, Pow2(j), Pow2(128));
    PlusLow(x, y * Pow2(j), 128);
    AddTo(dst, tmp, dst);
  }

  /** The low bits of a sum. */
  lemma PlusLow(x: nat, y: nat, k: nat)
    ensures Plus(x % Pow2(k), y % Pow2(k)) == Plus(x, y) % Pow2(k)
  {
    hide Plus, Pow2, Len;
    var p := Pow2(k);
    var a: nat, b: nat, c: nat, d: nat := x / p, x % p, y / p, y % p;
    QuotientForm(x, p);
    QuotientForm(y, p);
    Buffers.PlusJoin(a, b, c, d, k);
    LenBound(b, k);
    LenBound(d, k);
    LenPlus(b, d, k);
    LenBound(Plus(b, d), k);
    RestIs(Plus(x, y), Plus(a, c), Plus(b, d), p);
  }

  lemma RestIs(z: int, q: int, r: int, p: int)
    requires p > 0 && z == q * p + r && 0 <= r < p
    ensures z % p == r
  {
    DivModUnique(z, p, q, r);
  }

  lemma OneLow()
    ensures 1 % Pow2(128) == 1
  {
    hide Pow2;
    Gf128.LowBelow();
  }

  lemma LongOperand(a: nat)
    requires Len(a) >= 26
    ensures a > 1
  {
  }

  // ---------------------------------------------------------------- what the inverse is worth

  /** An odd factor leaves divisibility by x^n to the other one. */
  lemma {:induction false} OddFactor(a: nat, c: nat, n: nat)
    requires c % 2 == 1 && Times(c, a) % Pow2(n) == 0
    ensures a % Pow2(n) == 0
    decreases n
  {
    if n > 0 {
      HalfDivides(Times(c, a), Pow2(n - 1));
      TimesLow(c, a);
      hide Times, Pow2;
      TimesStep(c, a / 2);
      OddFactor(a / 2, c, n - 1);
      DoubleDivides(a, Pow2(n - 1));
      Buffers.Pow2Succ(n - 1);
    }
  }

  lemma TimesLow(c: nat, a: nat)
    requires c % 2 == 1
    ensures Times(c, a) % 2 == a % 2
  {
    if a % 2 == 1 {
      TimesStep(c, a / 2);
      PlusHalf(2 * Times(c, a / 2), c);
    } else {
      TimesStep(c, a / 2);
    }
  }

  lemma HalfDivides(x: int, p: int)
    requires p >= 1 && x % (2 * p) == 0
    ensures x % 2 == 0 && x / 2 % p == 0
  {
    var q := x / (2 * p);
    assert x == 2 * (p * q);
    DivModUnique(x / 2, p, q, 0);
  }

  lemma DoubleDivides(a: int, p: int)
    requires p >= 1 && a % 2 == 0 && a / 2 % p == 0
    ensures a % (2 * p) == 0
  {
    var q := a / 2 / p;
    assert a / 2 == p * q;
    assert a == (2 * p) * q;
    DivModUnique(a, 2 * p, q, 0);
  }

  lemma NumeratorLength(g: nat, op: nat)
    requires Len(op) >= 2
    ensures Len(Plus(Times(g, op), 1)) <= Len(g) + Len(op) - 1
  {
    hide Plus, Times, Len;
    Ones();
    LenZero(op);
    LenZero(g);
    if g > 0 {
      LenTimes(g, op);
      LenPlus(Times(g, op), 1, Len(g) + Len(op) - 1);
    } else {
      TimesOneLeft(op);
      PlusRules(1, 0);
    }
  }

  /** The quotient of g op + 1 by h is as short as the lengths say. */
  lemma QuotientShort(g: nat, op: nat, k: nat, h: nat, n: nat)
    requires Len(op) >= 2 && Len(h) >= 2 && Plus(Times(g, op), 1) == Times(k, h)
    requires Len(g) + Len(op) <= n + Len(h)
    ensures Len(k) <= n
  {
    hide Plus, Times, Len;
    NumeratorLength(g, op);
    LenZero(h);
    LenZero(k);
    LenZero(g);
    if k > 0 { LenTimes(k, h); }
  }

  lemma Ones()
    ensures Len(1) == 1 && Len(0) == 0
  {
  }

  /** h = t x^128 + c times k, with f = x^128 + c times k2: what the two have in common. */
  lemma TwoRows(k: nat, k2: nat, t: nat, c: nat, p: nat)
    ensures Plus(Times(k, Plus(Times(t, p), c)), Times(k2, Plus(p, c))) ==
      Plus(Times(Plus(Times(k, t), k2), p), Times(c, Plus(k, k2)))
  {
    hide Plus, Times;
    TimesPlusRight(k, Times(t, p), c);
    TimesPlusRight(k2, p, c);
    TimesAssoc(k, t, p);
    TimesPlusLeft(Times(k, t), k2, p);
    TimesComm(k, c);
    TimesComm(k2, c);
    TimesPlusRight(c, k, k2);
    PlusSwap(Times(Times(k, t), p), Times(k, c), Times(k2, p), Times(k2, c));
  }

  /** If the low part r of g inverts op modulo f as well, both quotients are one, and the excess
      cancels: e op = k (t + 1). */
  lemma SameQuotient(op: nat, g: nat, k: nat, k2: nat)
    requires 0 < op && Len(op) <= 128 && Len(k) <= 127 && Len(k2) <= 127
    requires Plus(Times(g, op), 1) == Times(k, Modulus(op)) && g / Pow2(128) >= 0
    requires Plus(Times(g % Pow2(128), op), 1) == Times(k2, F())
    ensures k == k2 && Times(g / Pow2(128), op) == Times(k, Plus(Excess(op), 1))
  {
    hide Plus, Times, Pow2, Len, Gf128.F, Modulus, Excess;
    var e: nat, r: nat, t: nat, p: nat := g / Pow2(128), g % Pow2(128), Excess(op), Pow2(128);
    Forms(op);
    Rejoined(g);
    var x := Plus(Times(k, t), k2);
    // the sum of the two equations
    PlusSwap(Times(g, op), 1, Times(r, op), 1);
    PlusRules(1, 1);
    TimesPlusLeft(g, r, op);
    PlusRules(Times(Plus(g, r), op), 0);
    TwoRows(k, k2, t, 0x87, p);
    TimesAssoc(e, p, op);
    TimesComm(p, op);
    TimesAssoc(e, op, p);
    assert Times(Times(e, op), p) == Plus(Times(x, p), Times(0x87, Plus(k, k2)));
    // the odd factor leaves x^128 to k + k2, which is too short for it
    TimesPlusLeft(Times(e, op), x, p);
    PlusRules(Times(x, p), Times(0x87, Plus(k, k2)));
    var y := Plus(Times(e, op), x);
    PlusRules(Times(e, op), x);
    assert Times(y, p) == Times(0x87, Plus(k, k2)) by {
      PlusRules(Times(Times(e, op), p), Times(x, p));
      PlusRules(Times(x, p), Times(Times(e, op), p));
    }
    TimesPow(y, 128);
    Buffers.MultipleZero(y, p);
    OddFactor(Plus(k, k2), 0x87, 128);
    LenPlus(k, k2, 127);
    ShortZero(Plus(k, k2));
    SameFromZero(k, k2);
    TimesComm(0x87, 0);
    TimesOneLeft(0x87);
    NothingTimes(y);
    SameFromZero(Times(e, op), x);
    TimesPlusRight(k, t, 1);
    TimesComm(k, 1);
    TimesOneLeft(k);
  }

  lemma Forms(op: nat)
    requires 0 < op && Len(op) <= 128
    ensures Modulus(op) == Plus(Times(Excess(op), Pow2(128)), 0x87) && F() == Plus(Pow2(128), 0x87)
  {
    hide Plus, Times, Pow2, Len, Excess;
    Gf128.LowBelow();
    var t := Excess(op);
    TimesPow(t, 128);
    PlusRules(t, 0);
    PlusRules(0x87, 0);
    PlusRules(1, 0);
    Buffers.PlusJoin(t, 0, 0, 0x87, 128);
    Buffers.PlusJoin(1, 0, 0, 0x87, 128);
    Gf128.OneTimes(Pow2(128));
  }

  /** g and its low part differ by the high part. */
  lemma Rejoined(g: nat)
    ensures g / Pow2(128) >= 0 && Plus(g, g % Pow2(128)) == Times(g / Pow2(128), Pow2(128))
  {
    hide Plus, Times, Pow2;
    var p := Pow2(128);
    Buffers.DivNonNegative(g, p);
    var e: nat, r: nat := g / p, g % p;
    QuotientForm(g, p);
    TimesPow(e, 128);
    PlusRules(e, 0);
    PlusRules(r, r);
    Buffers.PlusJoin(e, r, 0, r, 128);
  }

  lemma ShortZero(a: nat)
    requires Len(a) <= 127 && a % Pow2(128) == 0
    ensures a == 0
  {
    hide Pow2, Len;
    LenBound(a, 127);
    Buffers.Pow2Succ(127);
    Gf128.ModSmallIf(a, Pow2(128));
  }

  lemma SameFromZero(a: nat, b: nat)
    requires Plus(a, b) == 0
    ensures a == b
  {
    hide Plus;
    PlusRules(a, b);
    PlusRules(a, 0);
  }

  lemma NothingTimes(y: nat)
    requires Times(y, Pow2(128)) == 0
    ensures y == 0
  {
    hide Times, Pow2;
    if y > 0 { LenTimes(y, Pow2(128)); }
  }

  /** t + 1 would have to be a multiple of op. */
  lemma ExcessMultiple(op: nat, e: nat, r: nat, s: nat, k: nat, f: nat) returns (y: nat)
    requires Times(e, op) == Times(k, s) && Plus(Times(r, op), 1) == Times(k, f)
    ensures Times(y, op) == s
  {
    hide Plus, Times;
    var b := Times(Times(s, r), op);
    assert Times(Times(e, op), f) == Plus(b, s) by {
      TimesComm(k, s);
      TimesAssoc(s, k, f);
      TimesPlusRight(s, Times(r, op), 1);
      TimesAssoc(s, r, op);
      TimesComm(s, 1);
      TimesOneLeft(s);
    }
    assert Times(Times(e, op), f) == Times(Times(e, f), op) by {
      TimesAssoc(e, op, f);
      TimesComm(op, f);
      TimesAssoc(e, f, op);
    }
    y := Plus(Times(e, f), Times(s, r));
    TimesPlusLeft(Times(e, f), Times(s, r), op);
    Cancelled(b, s);
  }

  lemma Cancelled(b: nat, s: nat)
    ensures Plus(Plus(b, s), b) == s
  {
    hide Plus;
    PlusRules(b, s);
    PlusRules(b, Plus(b, s));
  }

  /** It is shorter, and not zero. */
  lemma ExcessDivides(op: nat, e: nat, r: nat, s: nat, k: nat, f: nat)
    requires Times(e, op) == Times(k, s) && Plus(Times(r, op), 1) == Times(k, f) && 0 < s && op > 0
    ensures Len(op) <= Len(s)
  {
    hide Plus, Times, Len;
    var y := ExcessMultiple(op, e, r, s, k, f);
    MultipleLong(y, op);
  }

  lemma MultipleLong(y: nat, op: nat)
    requires op > 0 && Times(y, op) > 0
    ensures Len(op) <= Len(Times(y, op))
  {
    hide Times, Len;
    LenZero(y);
    if y > 0 { LenTimes(y, op); } else { TimesOneLeft(op); }
  }

  /** The word that the inverse returns for an operand other than 1 is never its inverse. */
  lemma NeverInverse(op: nat, g: nat)
    requires 26 <= Len(op) <= 128 && IsInverse(g, op, Modulus(op))
    ensures !IsInverse(g % Pow2(128), op, F())
  {
    hide Plus, Times, Pow2, Len, Gf128.F, Modulus, Excess;
    LongOperand(op);
    ModulusLength(op);
    Gf128.FieldPolynomial();
    Buffers.DivNonNegative(g, Pow2(128));
    var r: nat := g % Pow2(128);
    if IsInverse(r, op, F()) {
      var k: nat :| Plus(Times(g, op), 1) == Times(k, Modulus(op));
      var k2: nat :| Plus(Times(r, op), 1) == Times(k2, F());
      LenBound(r, 128);
      LenZero(Modulus(op));
      LenZero(F());
      QuotientShort(g, op, k, Modulus(op), 127);
      QuotientShort(r, op, k2, F(), 127);
      SameQuotient(op, g, k, k2);
      ExcessPlusOne(op);
      ExcessDivides(op, g / Pow2(128), r, Plus(Excess(op), 1), k, F());
    }
  }

  lemma ExcessPlusOne(op: nat)
    requires 0 < op && Len(op) <= 128
    ensures Plus(Excess(op), 1) > 0 && Len(Plus(Excess(op), 1)) <= 25
  {
    hide Plus, Pow2, Len, Excess;
    ModulusLength(op);
    Ones();
    LenPlus(Excess(op), 1, 25);
    if Plus(Excess(op), 1) == 0 { SameFromZero(Excess(op), 1); }
  }

  // ---------------------------------------------------------------- an operand

  /** An operand of 128 bits whose inversion ends after one turn of the loop. */
  const SLIP: nat := 0xc000086000043000021800010c000086

  /** Its bits above 2^103, and below. */
  const SLIP_HIGH: nat := 0x1800010
  const SLIP_LOW: nat := 0x6000043000021800010c000086

  lemma SlipParts()
    ensures SLIP == SLIP_HIGH * Pow2(103) + SLIP_LOW && SLIP_LOW < Pow2(103)
    ensures SLIP == SLIP_LOW * Pow2(25) + 0x86 && 0x86 < Pow2(25)
    ensures Pow2(127) <= SLIP < Pow2(128)
  {
    Buffers.Pow2Small();
    SmallPowers();
    hide Pow2;
    Pow2Add(5, 5);
    Pow2Add(10, 10);
    Pow2Add(20, 5);
    Pow2Add(25, 25);
    Pow2Add(50, 50);
    Pow2Add(100, 3);
    Pow2Add(100, 25);
    Pow2Add(125, 2);
    Pow2Add(125, 3);
  }

  lemma SlipModulus()
    ensures Len(SLIP) == 128 && Excess(SLIP) == SLIP_HIGH && Modulus(SLIP) == SLIP_HIGH * Pow2(128) + 0x87
  {
    hide Pow2, Len;
    SlipParts();
    LenBound(SLIP, 127);
    LenBound(SLIP, 128);
    Pow2Add(103, 25);
    HighPart(SLIP, SLIP_HIGH, SLIP_LOW, Pow2(103), Pow2(25), Pow2(128));
  }

  lemma HighPart(x: int, t: int, q: int, p: int, s: int, m: int)
    requires x == t * p + q && 0 <= q < p && s >= 1 && m == p * s && m >= 1
    ensures x * s / m == t
  {
    assert (t * p + q) * s == m * t + q * s by { assert (t * p) * s == (p * s) * t; }
    Buffers.ProductSign(q, s);
    ProductBelow(q, p, s);
    DivModUnique(x * s, m, t, q * s);
  }

  lemma ProductBelow(q: int, p: int, s: int)
    requires 0 <= q < p && s >= 1
    ensures q * s < p * s
  {
    Monotone(s, q + 1, p);
  }

  /** (x^25 + 1) times the operand: everything between the two ends cancels. */
  lemma SlipProduct()
    ensures Pow2(25) + 1 >= 0 && SLIP_HIGH * Pow2(128) >= 0
    ensures Times(Pow2(25) + 1, SLIP) == SLIP_HIGH * Pow2(128) + 0x86
  {
    hide Plus, Times, Pow2;
    SlipParts();
    var p: nat := Pow2(25);
    PlusRules(1, 0);
    PlusRules(SLIP_HIGH, 0);
    PlusRules(SLIP_LOW, SLIP_LOW);
    PlusRules(0x86, 0);
    Buffers.PlusJoin(1, 0, 0, 1, 25);
    Gf128.OneTimes(p);
    TimesPlusLeft(p, 1, SLIP);
    TimesOneLeft(SLIP);
    TimesComm(p, SLIP);
    TimesPow(SLIP, 25);
    Buffers.PlusJoin(SLIP_HIGH, SLIP_LOW, 0, SLIP_LOW, 103);
    Buffers.PlusJoin(SLIP, 0, SLIP_LOW, 0x86, 25);
    Pow2Add(103, 25);
    Regrouped(SLIP_HIGH, Pow2(103), p);
  }

  lemma Regrouped(t: int, p: int, s: int)
    ensures (t * p) * s == t * (p * s)
  {
  }

  /** The operand meets the preconditions of Inv, which returns x^25 + 1 for it. */
  lemma InverseSlips()
    ensures Len(SLIP) == 128 && Coprime(SLIP, Modulus(SLIP)) && Pow2(25) + 1 >= 0
    ensures IsInverse(Pow2(25) + 1, SLIP, Modulus(SLIP)) && !IsInverse(Pow2(25) + 1, SLIP, F())
  {
    hide Plus, Times, Pow2, Len, Coprime, Gf128.F;
    SlipModulus();
    SlipProduct();
    ModulusLength(SLIP);
    var g: nat, h := Pow2(25) + 1, Modulus(SLIP);
    EvenPlusOne();
    PlusRules(SLIP_HIGH, 0);
    Gf128.LowBelow();
    hide Modulus;
    Buffers.PlusJoin(SLIP_HIGH, 0x86, 0, 1, 128);
    TimesOneLeft(h);
    CongIntro(Times(g, SLIP), 1, 1, h);
    ShortCofactor();
    InverseCoprime(SLIP, g, 1, h);
    NeverInverse(SLIP, g);
    Gf128.ModSmallIf(g, Pow2(128));
  }

  lemma EvenPlusOne()
    ensures Plus(0x86, 1) == 0x87
  {
    PlusDouble(0x43, 0);
    PlusRules(0x43, 0);
  }

  lemma ShortCofactor()
    ensures Len(Pow2(25) + 1) <= 26 && Pow2(25) + 1 < Pow2(128)
  {
    hide Pow2, Len;
    Buffers.Pow2Succ(24);
    Buffers.Pow2Succ(25);
    Pow2Add(25, 103);
    Buffers.Pow2Succ(102);
    Monotone(Pow2(25), 2, Pow2(103));
    LenBound(Pow2(25) + 1, 26);
  }

  /** An operand with an inverse is coprime to the modulus. */
  lemma InverseCoprime(op: nat, g: nat, k: nat, h: nat)
    requires Plus(Times(g, op), 1) == Times(k, h)
    ensures Coprime(op, h)
  {
    hide Plus, Times, Divides;
    forall d: nat | Divides(d, op) && Divides(d, h) ensures d == 1 {
      DividesTimes(d, op, g);
      DividesTimes(d, h, k);
      DividesPlus(d, Times(g, op), Times(k, h));
      PlusRules(Times(g, op), 1);
      DividesOne(d);
    }
  }

  lemma DividesTimes(d: nat, a: nat, c: nat)
    requires Divides(d, a)
    ensures Divides(d, Times(c, a))
  {
    hide Times;
    var q: nat :| Times(q, d) == a;
    TimesAssoc(c, q, d);
    assert Times(Times(c, q), d) == Times(c, a);
  }

  /** The rows after the first turn, for an operand that may share a factor with the modulus. */
  lemma FirstRun(op: nat) returns (d: nat)
    requires 26 <= Len(op) <= 128
    ensures
      var j := 153 - Len(op);
      && op * Pow2(j) >= 0 && 25 <= j <= 127 && Pow2(j) % Pow2(128) == Pow2(j)
      && Running(d, Plus((op * Pow2(j)) % Pow2(128), 0x87), op, Pow2(j), 1, op, Modulus(op), 0, 256)
      && Len(Plus((op * Pow2(j)) % Pow2(128), 0x87)) <= 128
  {
    hide Times, Cong, Coprime, Divides, Plus, Pow2, Len, EuclidInv, Modulus;
    LongOperand(op);
    FirstRow(op);
    Gf128.CofactorFits(153 - Len(op));
    d := 0;
    if Coprime(op, Modulus(op)) {
      FirstTurn(op);
    } else {
      d := SharedStart(op, 153 - Len(op));
    }
  }

  lemma SharedStart(op: nat, j: nat) returns (d: nat)
    requires Len(op) <= 128 && !Coprime(op, Modulus(op))
    ensures op * Pow2(j) >= 0 && Shared(d, Plus(Modulus(op), op * Pow2(j)), op)
  {
    hide Divides, Plus, Pow2, Modulus;
    d :| Divides(d, op) && Divides(d, Modulus(op)) && d != 1;
    DividesShift(d, op, j);
    DividesPlus(d, Modulus(op), op * Pow2(j));
  }

  /** The four rows and the scratch buffer, apart from each other, after t turns. */
  ghost predicate Rows(pu: array<word>, pv: array<word>, pg1: array<word>, pg2: array<word>, tmp: array<word>,
    d: nat, a: nat, t: nat, g: nat, g2: nat)
    requires Len(a) <= 153
    reads pu, pv, pg1, pg2
  {
    && pu.Length == 2 && pv.Length == 2 && pg1.Length == 2 && pg2.Length == 2 && tmp.Length == 2
    && pu != pv && pu != pg1 && pu != pg2 && pv != pg1 && pv != pg2 && pg1 != pg2
    && tmp != pu && tmp != pv && tmp != pg1 && tmp != pg2
    && Running(d, Val(pu), Val(pv), g, g2, a, Modulus(a), t, 256) && Len(Val(pu)) <= 128 && Len(Val(pv)) <= 128
    && Val(pg1) == g % Pow2(128) && Val(pg2) == g2 % Pow2(128)
  }

  /** One turn: the longer row first, then u + x^j v and g1 + x^j g2. */
  method Turn(pu: array<word>, pv: array<word>, pg1: array<word>, pg2: array<word>, tmp: array<word>,
    ghost d: nat, ghost a: nat, ghost t: nat, ghost g: nat, ghost g2: nat)
    returns (qu: array<word>, qv: array<word>, qg1: array<word>, qg2: array<word>, ghost h: nat, ghost h2: nat)
    requires Len(a) <= 153 && Rows(pu, pv, pg1, pg2, tmp, d, a, t, g, g2) && Val(pu) != 1
    modifies pu, pv, pg1, pg2, tmp
    ensures qu in {pu, pv} && qv in {pu, pv} && qg1 in {pg1, pg2} && qg2 in {pg1, pg2}
    ensures Rows(qu, qv, qg1, qg2, tmp, d, a, t + 1, h, h2)
  {
    hide LE, Pow2, Len, Plus, Coprime, EuclidInv, Running, Modulus;
    var lu := IntegerLength(pu);
    var lv := IntegerLength(pv);
    RunSwap(d, Val(pu), Val(pv), g, g2, a, Modulus(a), t, 256);
    var j := lu - lv;
    qu, qv, qg1, qg2 := pu, pv, pg1, pg2;
    h, h2 := g, g2;
    if j < 0 {
      qu, qv := pv, pu;
      qg1, qg2 := pg2, pg1;
      h, h2 := g2, g;
      j := -j;
    }
    Combine(qu, qv, qg1, qg2, tmp, j, d, a, t, h, h2);
    Buffers.ProductSign(h2, Pow2(j));
    h := Plus(h, h2 * Pow2(j));
  }

  /** The row operations, with the rows in order. */
  method Combine(pu: array<word>, pv: array<word>, pg1: array<word>, pg2: array<word>, tmp: array<word>, j: nat,
    ghost d: nat, ghost a: nat, ghost t: nat, ghost g: nat, ghost g2: nat)
    requires Len(a) <= 153 && Rows(pu, pv, pg1, pg2, tmp, d, a, t, g, g2)
    requires j == Measured(Val(pu), 24) - Measured(Val(pv), 24)
    modifies pu, pg1, tmp
    ensures g2 * Pow2(j) >= 0 && Rows(pu, pv, pg1, pg2, tmp, d, a, t + 1, Plus(g, g2 * Pow2(j)), g2)
  {
    hide LE, Pow2, Len, Plus, Coprime, EuclidInv, Running, Measured, Modulus;
    ghost var u, v := Val(pu), Val(pv);
    TurnFits(u, v, j, 24, 128, 128);
    AddShifted(pv, j, tmp, pu);
    AddCofactor(pg2, j, tmp, pg1, g, g2);
    RunStep(d, u, v, g, g2, Plus(g, g2 * Pow2(j)), a, Modulus(a), t, 256, j, 24);
    LenPlus(u, v * Pow2(j), 128);
  }

  /** The loop, cut off after so many turns; the cofactor of 1 is in q where it ends. */
  method Run(pu: array<word>, pv: array<word>, pg1: array<word>, pg2: array<word>, tmp: array<word>, turns: nat,
    ghost d: nat, ghost a: nat, ghost g: nat, ghost g2: nat)
    returns (ended: bool, q: array<word>, ghost h: nat)
    requires Len(a) <= 153 && Rows(pu, pv, pg1, pg2, tmp, d, a, 0, g, g2)
    modifies pu, pv, pg1, pg2, tmp
    ensures q in {pg1, pg2} && (Coprime(a, Modulus(a)) && turns >= 256 ==> ended)
    ensures ended ==> Coprime(a, Modulus(a)) && IsInverse(h, a, Modulus(a)) && Val(q) == h % Pow2(128)
  {
    hide LE, Pow2, Len, Plus, Times, Cong, Coprime, EuclidInv, Running, IsInverse, Modulus;
    var u, v, g1, g3 := pu, pv, pg1, pg2;
    h := g;
    ghost var h2: nat := g2;
    var t := 0;
    ended := IsOne(u);
    while !ended && t < turns
      invariant u in {pu, pv} && v in {pu, pv} && g1 in {pg1, pg2} && g3 in {pg1, pg2} && t <= turns
      invariant Rows(u, v, g1, g3, tmp, d, a, t, h, h2) && (ended <==> Val(u) == 1)
    {
      u, v, g1, g3, h, h2 := Turn(u, v, g1, g3, tmp, d, a, t, h, h2);
      ended := IsOne(u);
      t := t + 1;
    }
    RunEnds(d, Val(u), Val(v), h, h2, a, Modulus(a), t, 256);
    q := g1;
  }

  /** gf128_inv, cut off after so many turns; dst may be op. It ends on the operands coprime to
      Modulus(op), within 256 turns, and on no others but 1, which it returns at once. What it returns
      are the low 128 bits of the inverse g modulo Modulus(op): right for 1 and for no other operand. */
  method Inv(op: array<word>, dst: array<word>, turns: nat) returns (ended: bool, ghost g: nat)
    requires op.Length == 2 && dst.Length == 2 && (Val(op) == 1 || 26 <= Len(Val(op)) <= 128)
    modifies dst
    ensures ended ==> (IsInverse(Val(dst), old(Val(op)), F()) <==> old(Val(op)) == 1)
    ensures ended && old(Val(op)) != 1 ==> Coprime(old(Val(op)), Modulus(old(Val(op))))
    ensures ended && old(Val(op)) != 1 ==>
      IsInverse(g, old(Val(op)), Modulus(old(Val(op)))) && Val(dst) == g % Pow2(128)
    ensures old(Val(op)) == 1 || (Coprime(old(Val(op)), Modulus(old(Val(op)))) && turns >= 256) ==> ended
    ensures !ended ==> dst[..] == old(dst[..])
  {
    hide LE, Pow2, Len, Plus, Times, Cong, Coprime, EuclidInv, Running, IsInverse, Modulus, Gf128.F;
    ghost var a := Val(op);
    BufferShort(op[..]);
    g := 1;
    var isOne := IsOne(op);
    if isOne {
      One(dst);
      Gf128.OneInverse();
      return true, 1;
    }
    var pv := Clone(op);
    var pu := new word[2];
    var pg1 := new word[2];
    var pg2 := new word[2];
    var tmp := new word[2];
    One(pg2);
    OneLow();
    LongOperand(a);
    ghost var d := FirstRun(a);
    var len := IntegerLength(pv);
    var j := 129 - len;
    ShiftPair(pv, j, pu);
    FlipLow(pu);
    ShiftPair(pg2, j, pg1);
    Gf128.OneTimes(Pow2(j));
    g := Pow2(j);
    ghost var g2: nat := 1;
    var q;
    ended, q, g := Run(pu, pv, pg1, pg2, tmp, turns, d, a, g, g2);
    if ended {
      NeverInverse(a, g);
      Copy(q, dst);
    }
  }
}
