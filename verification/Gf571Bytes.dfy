/** GF(2^571) on 72-byte buffers updated in place. */
module Gf571Bytes {
  import opened Bits
  import opened Gf2
  import opened Gf2Field
  import opened Buffers
  import opened Gf571
  import opened ByteOps

  // ---------------------------------------------------------------- the field polynomial

  method Prim(a: array<byte>)
    requires a.Length == 72
    modifies a
    ensures Val(a) == F()
  {
    Zero(a);
    BEZeroIff(a[..]);
    a[0] := 8;
    a[70] := 4;
    a[71] := 0x25;
    assert a[..] == PrimBytes();
  }

  /** Multiply by x and reduce, in place. */
  method Step(a: array<byte>)
    requires a.Length == 72 && Len(Val(a)) <= 571
    modifies a
    ensures Val(a) == XTime(old(Val(a)), F())
  {
    hide BE, Pow2, XTime, Len, Plus, Xor;
    ghost var v := Val(a);
    ShiftBits(a, 1);
    StepShift(v, a[..]);
    if And(8, a[0]) != 0 {
      ghost var s := a[..];
      XorByte(a[0], 8);
      XorByte(a[70], 4);
      XorByte(a[71], 0x25);
      a[0] := Xor(a[0], 8);
      a[70] := Xor(a[70], 4);
      a[71] := Xor(a[71], 0x25);
      XorZeros(a[..], s);
      BEXor(a[..], s, PrimBytes());
    }
  }

  /** Bit 571 of the shifted buffer says whether to subtract the field polynomial. */
  lemma StepShift(v: nat, s: seq<byte>)
    requires |s| == 72 && Len(v) <= 571 && BE(s) == (v * Pow2(1)) % Pow2(8 * 72)
    ensures BE(s) == 2 * v
    ensures XTime(v, F()) == if And(8, s[0]) != 0 then Plus(2 * v, F()) else 2 * v
  {
    hide *;
    StepExact(v, s);
    FieldPolynomial();
    LenBound(2 * v, 571);
    LenBound(2 * v, 572);
    TopByte(s);
    TestBit3(s[0]);
    XTimeTest(v, F());
  }

  lemma XTimeTest(v: nat, f: nat)
    requires Len(f) == 572
    ensures XTime(v, f) == if Len(2 * v) <= 571 then 2 * v else Plus(2 * v, f)
  {
  }

  lemma StepExact(v: nat, s: seq<byte>)
    requires |s| == 72 && Len(v) <= 571 && BE(s) == (v * Pow2(1)) % Pow2(8 * 72)
    ensures BE(s) == 2 * v && 2 * v < Pow2(572)
  {
    LenBound(v, 571);
    Pow2Small1();
    Pow2Add(572, 4);
    Pow2Succ(571);
    hide Pow2, BE, Len;
    DoubleSmall(v, Pow2(1), Pow2(571), Pow2(576));
  }

  lemma DoubleSmall(v: int, two: int, p: int, q: int)
    requires 0 <= v < p && two == 2 && q == 2 * p * 16
    ensures (v * two) % q == 2 * v
  {
    SmallMod(2 * v, 2 * p, q);
  }

  lemma Pow2Small1()
    ensures Pow2(1) == 2 && Pow2(4) == 16 && Pow2(3) == 8
  {
  }

  lemma SmallMod(x: int, p: int, q: int)
    requires 0 <= x < p && q == p * 16
    ensures x % q == x
  {
    DivModUnique(x, q, 0, x);
  }

  lemma TestBit3(b: int)
    requires 0 <= b < 16
    ensures And(8, b) != 0 <==> b >= 8
  {
    BitTest(3, b);
    Pow2Small1();
  }

  /** The leading byte of 72 is the value divided by 2^568. */
  lemma TopByte(s: seq<byte>)
    requires |s| == 72 && BE(s) < Pow2(572)
    ensures s[0] < 16 && (s[0] >= 8 <==> BE(s) >= Pow2(571))
  {
    hide Pow2;
    assert s == s[..1] + s[1..];
    BEConcat(s[..1], s[1..]);
    assert s[..1] == [s[0]];
    BESingle(s[0]);
    BEBound(s[1..]);
    Pow2Add(3, 568);
    Pow2Add(4, 568);
    Pow2Small1();
    hide BE;
    TopCompare(s[0], BE(s[1..]), Pow2(568), BE(s));
  }

  lemma TopCompare(b: int, l: int, p: int, v: int)
    requires 0 <= b && 0 <= l < p && v == b * p + l && v < 16 * p
    ensures b < 16 && (b >= 8 <==> v >= 8 * p)
  {
    if b >= 8 { assert (b - 8) * p >= 0; } else { assert (7 - b) * p >= 0; }
    assert b < 16 || (b - 16) * p >= 0;
  }

  lemma XorZeros(t: seq<byte>, s: seq<byte>)
    requires |t| == 72 && |s| == 72
    requires forall i :: 0 < i < 70 ==> t[i] == s[i]
    requires t[0] == Xor(s[0], 8) && t[70] == Xor(s[70], 4) && t[71] == Xor(s[71], 0x25)
    ensures IsXor(t, s, PrimBytes())
  {
    forall i | 0 <= i < 72 ensures t[i] == Xor(s[i], PrimBytes()[i]) {
    }
  }

  // ---------------------------------------------------------------- multiplication
  /** The bits of one byte of the multiplier, from mask = 2^(k-1) down. */
  method MulByte(ans: array<byte>, op1: array<byte>, op2: array<byte>, ix: int, mask0: int, ghost k0: nat)
    requires ans != op1 && ans != op2 && ans.Length == op1.Length == op2.Length == 72
    requires 0 <= ix < 72 && k0 <= 8 && mask0 == Pow2(k0) / 2 && Len(Val(op1)) <= 571
    requires IsProduct(Val(ans), Val(op1), Head(op2[..], ix, k0), F())
    modifies ans
    ensures IsProduct(Val(ans), Val(op1), Head(op2[..], ix, 0), F())
  {
    hide BE, Pow2, XTime, Len, Plus, F, Head, IsProduct, Times;
    ghost var a, s, k := Val(op1), op2[..], k0;
    var mask := mask0;
    MaskHalf(k);
    while mask != 0
      invariant k <= 8 && mask == Pow2(k) / 2 && (mask != 0 <==> k > 0)
      invariant IsProduct(Val(ans), a, Head(s, ix, k), F())
      decreases k
    {
      ghost var r := Val(ans);
      ProductShort(r, a, Head(s, ix, k));
      MaskHalf(k);
      FieldPolynomial();
      MulBit(r, a, s, ix, k - 1, F());
      Step(ans);
      if And(mask, op2[ix]) != 0 { AddTo(ans, op1, ans); }
      MaskHalf(k - 1);
      mask, k := mask / 2, k - 1;
    }
  }

  /** gf_mul: the reduced product; dst may be either operand. */
  method Multiply(op1: array<byte>, op2: array<byte>, dst: array<byte>)
    requires op1.Length == 72 && op2.Length == 72 && dst.Length == 72
    requires Len(Val(op1)) <= 571 && Len(Val(op2)) <= 571
    modifies dst
    ensures IsProduct(Val(dst), old(Val(op1)), old(Val(op2)), F())
  {
    hide BE, Pow2, XTime, Len, Plus, F, Head, IsProduct, Times;
    ghost var a, s := Val(op1), op2[..];
    FieldPolynomial();
    var ix, mask, k := FirstBit(op2);
    if ix < 0 {
      Zero(dst);
      ZeroProduct(a);
      return;
    }
    var ans := Clone(op1);
    ProductOne(a, F());
    HeadFirst(s, ix, k);
    MaskHalf(k);
    MaskHalf(8);
    assert Pow2(8) == 256 by { Pow2Small(); }
    mask := mask / 2;
    if mask == 0 {
      if ix < 71 { HeadNext(s, ix); }
      mask, k := 0x80, 8;
      ix := ix + 1;
    }
    HeadAll(s);
    while ix < 72
      invariant 0 <= ix <= 72 && k <= 8 && mask == Pow2(k) / 2
      invariant op1[..] == old(op1[..]) && op2[..] == s
      invariant IsProduct(Val(ans), a, if ix < 72 then Head(s, ix, k) else Head(s, 71, 0), F())
    {
      MulByte(ans, op1, op2, ix, mask, k);
      if ix < 71 { HeadNext(s, ix); }
      ix, mask, k := ix + 1, 0x80, 8;
    }
    Copy(ans, dst);
  }

  // ---------------------------------------------------------------- inversion

  /** The four rows and the scratch buffer, apart from each other, after t turns. */
  ghost predicate Rows(pu: array<byte>, pv: array<byte>, pg1: array<byte>, pg2: array<byte>, tmp: array<byte>,
    d: nat, a: nat, t: nat)
    reads pu, pv, pg1, pg2
  {
    && pu.Length == 72 && pv.Length == 72 && pg1.Length == 72 && pg2.Length == 72 && tmp.Length == 72
    && pu != pv && pu != pg1 && pu != pg2 && pv != pg1 && pv != pg2 && pg1 != pg2
    && tmp != pu && tmp != pv && tmp != pg1 && tmp != pg2
    && Running(d, Val(pu), Val(pv), Val(pg1), Val(pg2), a, F(), t, 1143) && Len(Val(pu)) <= 572 && Len(Val(pv)) <= 572
  }

  /** One turn: the longer row first, then u + x^j v and g1 + x^j g2. */
  method Turn(pu: array<byte>, pv: array<byte>, pg1: array<byte>, pg2: array<byte>, tmp: array<byte>,
    ghost d: nat, ghost a: nat, ghost t: nat)
    returns (qu: array<byte>, qv: array<byte>, qg1: array<byte>, qg2: array<byte>)
    requires Rows(pu, pv, pg1, pg2, tmp, d, a, t) && Val(pu) != 1
    modifies pu, pv, pg1, pg2, tmp
    ensures qu in {pu, pv} && qv in {pu, pv} && qg1 in {pg1, pg2} && qg2 in {pg1, pg2}
    ensures Rows(qu, qv, qg1, qg2, tmp, d, a, t + 1)
  {
    hide BE, Pow2, Len, Plus, Coprime, EuclidInv, Running, Measured, F;
    var lu := IntegerLength(pu);
    var lv := IntegerLength(pv);
    MeasuredLength(Val(pu));
    MeasuredLength(Val(pv));
    RunSwap(d, Val(pu), Val(pv), Val(pg1), Val(pg2), a, F(), t, 1143);
    var j := lu - lv;
    qu, qv, qg1, qg2 := pu, pv, pg1, pg2;
    if j < 0 {
      qu, qv := pv, pu;
      qg1, qg2 := pg2, pg1;
      j := -j;
    }
    Combine(qu, qv, qg1, qg2, tmp, j, d, a, t);
  }

  /** The row operations, with the rows in order. */
  method Combine(pu: array<byte>, pv: array<byte>, pg1: array<byte>, pg2: array<byte>, tmp: array<byte>, j: nat,
    ghost d: nat, ghost a: nat, ghost t: nat)
    requires Rows(pu, pv, pg1, pg2, tmp, d, a, t) && j == Measured(Val(pu), 0) - Measured(Val(pv), 0)
    modifies pu, pg1, tmp
    ensures Rows(pu, pv, pg1, pg2, tmp, d, a, t + 1)
  {
    hide BE, Pow2, Len, Plus, Coprime, EuclidInv, Running, Measured, F;
    ghost var u, v, g1, h2 := Val(pu), Val(pv), Val(pg1), Val(pg2);
    FieldPolynomial();
    TurnFits(u, v, j, 0, 572, 576);
    AddShifted(pv, j, tmp, pu);
    AddShifted(pg2, j, tmp, pg1);
    RunNext(d, u, v, g1, h2, Val(pg1), a, F(), t, 1143, j, 0, 576);
    LenPlus(u, v * Pow2(j), 572);
  }

  /** The loop, cut off after so many turns; the cofactor of 1 is in q where it ends. */
  method Run(pu: array<byte>, pv: array<byte>, pg1: array<byte>, pg2: array<byte>, tmp: array<byte>, turns: nat,
    ghost d: nat, ghost a: nat)
    returns (ended: bool, q: array<byte>)
    requires Rows(pu, pv, pg1, pg2, tmp, d, a, 0)
    modifies pu, pv, pg1, pg2, tmp
    ensures q in {pg1, pg2} && (Coprime(a, F()) && turns >= 1143 ==> ended)
    ensures ended ==> Coprime(a, F()) && IsInverse(Val(q), a, F())
  {
    hide BE, Pow2, Len, Plus, Times, Cong, Coprime, EuclidInv, Running, IsInverse, F;
    var u, v, g1, g2 := pu, pv, pg1, pg2;
    var t := 0;
    ended := IsOne(u);
    while !ended && t < turns
      invariant u in {pu, pv} && v in {pu, pv} && g1 in {pg1, pg2} && g2 in {pg1, pg2} && t <= turns
      invariant Rows(u, v, g1, g2, tmp, d, a, t) && (ended <==> Val(u) == 1)
    {
      u, v, g1, g2 := Turn(u, v, g1, g2, tmp, d, a, t);
      ended := IsOne(u);
      t := t + 1;
    }
    RunEnds(d, Val(u), Val(v), Val(g1), Val(g2), a, F(), t, 1143);
    q := g1;
  }

  /** gf_inv by the extended Euclidean algorithm, cut off after so many turns; dst may be op. It ends
      on the operands coprime to the field polynomial, within 1143 turns, and on no others. */
  method Inv(op: array<byte>, dst: array<byte>, turns: nat) returns (ended: bool)
    requires op.Length == 72 && dst.Length == 72 && Len(Val(op)) <= 571
    modifies dst
    ensures ended ==> Coprime(old(Val(op)), F()) && IsInverse(Val(dst), old(Val(op)), F())
    ensures Coprime(old(Val(op)), F()) && turns >= 1143 ==> ended
    ensures !ended ==> dst[..] == old(dst[..])
  {
    hide BE, Pow2, Len, Plus, F, Times, Cong, Coprime, EuclidInv, Running, IsInverse;
    ghost var a := Val(op);
    var pu := Clone(op);
    var pv := new byte[72];
    var pg1 := new byte[72];
    var pg2 := new byte[72];
    var tmp := new byte[72];
    One(pg1);
    Prim(pv);
    Zero(pg2);
    FieldPolynomial();
    LenTwoConverse(F());
    ghost var d := RunStart(a, F(), 1143);
    var q;
    ended, q := Run(pu, pv, pg1, pg2, tmp, turns, d, a);
    if ended { Copy(q, dst); }
  }
}
