/** Operations on byte buffers updated in place, shared by the binary fields. */
module ByteOps {
  import opened Bits
  import opened Gf2
  import opened Gf2Field
  import opened Buffers

  /** The polynomial that a buffer holds. */
  ghost function Val(a: array<byte>): nat
    reads a
  {
    BE(a[..])
  }

  // ---------------------------------------------------------------- whole-buffer operations

  method Zero(a: array<byte>)
    modifies a
    ensures Val(a) == 0
  {
    for i := 0 to a.Length
      invariant forall k :: 0 <= k < i ==> a[k] == 0
    {
      a[i] := 0;
    }
    assert a[..] == Zeros(a.Length);
    BEZeros(a.Length);
  }

  method One(a: array<byte>)
    requires a.Length > 0
    modifies a
    ensures Val(a) == 1
  {
    Zero(a);
    a[a.Length - 1] := 1;
    BEZeroIff(a[..a.Length - 1]);
    BEZeroIff(old(a[..]));
    assert a[..][..a.Length - 1] == a[..a.Length - 1];
    LowByteOnly(a[..]);
  }

  lemma LowByteOnly(s: seq<byte>)
    requires s != [] && BE(s) % 256 == s[|s| - 1]
    ensures (forall i :: 0 <= i < |s| - 1 ==> s[i] == 0) ==> BE(s) == s[|s| - 1]
  {
    BEZeroIff(s[..|s| - 1]);
  }

  method Copy(src: array<byte>, dst: array<byte>)
    requires src.Length == dst.Length
    modifies dst
    ensures dst[..] == old(src[..])
  {
    for i := 0 to src.Length
      invariant forall k :: 0 <= k < i ==> dst[k] == old(src[k])
      invariant forall k :: i <= k < src.Length ==> src[k] == old(src[k])
    {
      dst[i] := src[i];
    }
  }

  method Clone(src: array<byte>) returns (dst: array<byte>)
    ensures fresh(dst) && dst.Length == src.Length && dst[..] == src[..]
  {
    dst := new byte[src.Length];
    Copy(src, dst);
  }

  /** gf_add; dst may be either operand. */
  method AddTo(op1: array<byte>, op2: array<byte>, dst: array<byte>)
    requires op1.Length == op2.Length == dst.Length
    modifies dst
    ensures Val(dst) == Plus(old(Val(op1)), old(Val(op2)))
  {
    hide Xor, BE;
    ghost var r, s := op1[..], op2[..];
    for i := 0 to dst.Length
      invariant forall k :: 0 <= k < i ==> dst[k] == Xor(r[k], s[k])
      invariant forall k :: i <= k < dst.Length ==> op1[k] == r[k] && op2[k] == s[k]
    {
      XorByte(op1[i], op2[i]);
      dst[i] := Xor(op1[i], op2[i]);
    }
    BEXor(dst[..], r, s);
  }

  method IsOne(a: array<byte>) returns (b: bool)
    requires a.Length > 0
    ensures b <==> Val(a) == 1
  {
    var n := a.Length - 1;
    b := a[n] == 1;
    for i := 0 to n
      invariant b <==> a[n] == 1 && forall k :: 0 <= k < i ==> a[k] == 0
    {
      if a[i] != 0 { b := false; }
    }
    OneBytes(a[..]);
  }

  lemma OneBytes(s: seq<byte>)
    requires s != []
    ensures BE(s) == 1 <==> s[|s| - 1] == 1 && forall i :: 0 <= i < |s| - 1 ==> s[i] == 0
  {
    BEZeroIff(s[..|s| - 1]);
  }

  // ---------------------------------------------------------------- leading bit

  /** The mask loop: the leading bit of a byte that is not zero. */
  method MaskOf(b: byte) returns (mask: int, ghost k: nat)
    requires b != 0
    ensures k < 8 && mask == Pow2(k) && mask <= b < 2 * mask
  {
    mask, k := 0x80, 7;
    assert Pow2(7) == 0x80;
    hide Pow2;
    while And(mask, b) == 0
      invariant k < 8 && mask == Pow2(k) && 0 < b < 2 * mask
      decreases k
    {
      BitTest(k, b);
      TopBit(k, b, mask);
      mask, k := mask / 2, k - 1;
    }
    BitTest(k, b);
    TopBit(k, b, mask);
  }

  /** Position ix and mask of the leading bit; ix is -1 for zero. */
  method FirstBit(a: array<byte>) returns (ix: int, mask: int, ghost k: nat)
    ensures ix >= -1 && (ix == -1 <==> Val(a) == 0)
    ensures ix >= 0 ==> ix < a.Length && k < 8 && mask == Pow2(k) && mask <= a[ix] < 2 * mask
    ensures ix >= 0 ==> forall i :: 0 <= i < ix ==> a[i] == 0
  {
    hide BE;
    mask, k := 0, 0;
    BEZeroIff(a[..]);
    ix := 0;
    while ix < a.Length && a[ix] == 0
      invariant 0 <= ix <= a.Length && forall i :: 0 <= i < ix ==> a[i] == 0
    {
      ix := ix + 1;
    }
    if ix >= a.Length {
      ix := -1;
      return;
    }
    mask, k := MaskOf(a[ix]);
  }

  /** The number of bits, one more than the degree. */
  method IntegerLength(a: array<byte>) returns (len: int)
    ensures len == Len(Val(a))
  {
    hide BE, Pow2;
    var ix, mask, k := FirstBit(a);
    if ix < 0 {
      assert Len(0) == 0;
      return 0;
    }
    LengthOf(a[..], ix, k);
    len := 8 * (a.Length - ix);
    mask := mask * 2 % 256;
    MaskUp(k);
    while mask != 0
      invariant 0 <= k <= 7 && mask == (if k == 7 then 0 else Pow2(k + 1))
      invariant len - (7 - k) == Len(Val(a))
      decreases 7 - k
    {
      mask, k := mask * 2 % 256, k + 1;
      MaskUp(k);
      len := len - 1;
    }
  }

  lemma MaskUp(k: nat)
    requires k <= 7
    ensures Pow2(k) * 2 % 256 == if k == 7 then 0 else Pow2(k + 1)
  {
    assert Pow2(0) == 1 && Pow2(1) == 2 && Pow2(2) == 4 && Pow2(3) == 8;
    assert Pow2(4) == 16 && Pow2(5) == 32 && Pow2(6) == 64 && Pow2(7) == 128;
  }

  // ---------------------------------------------------------------- shift

  /** gf_shiftl: multiplication by x^nsh in the ring of 8 n-bit buffers; dst may be op. */
  method ShiftL(op: array<byte>, nsh: int, dst: array<byte>)
    requires op.Length == dst.Length && 0 <= nsh <= 8 * op.Length
    modifies dst
    ensures Val(dst) == (old(Val(op)) * Pow2(nsh)) % Pow2(8 * dst.Length)
  {
    hide BE, Pow2, ShiftByte;
    ghost var s, n := op[..], op.Length;
    var nb := nsh / 8;
    var ans := ShiftBytes(op, nb);
    var k := nsh - 8 * nb;
    if k > 0 { ShiftBits(ans, k); }
    ShiftCompose(BE(s), 8 * nb, k, 8 * n);
    Copy(ans, dst);
  }

  method ShiftBytes(op: array<byte>, nb: nat) returns (ans: array<byte>)
    requires nb <= op.Length
    ensures fresh(ans) && ans.Length == op.Length
    ensures Val(ans) == (Val(op) * Pow2(8 * nb)) % Pow2(8 * op.Length)
  {
    hide BE, Pow2;
    var n := op.Length;
    ans := new byte[n];
    for i := 0 to n
      invariant forall j :: 0 <= j < i ==> ans[j] == if j < n - nb then op[nb + j] else 0
    {
      ans[i] := if i < n - nb then op[nb + i] else 0;
    }
    assert ans[..] == op[..][nb..] + Zeros(nb);
    BEShiftBytes(op[..], nb);
  }

  /** Shift in place by fewer than eight bits. */
  method ShiftBits(a: array<byte>, k: nat)
    requires 0 < k < 8 && a.Length > 0
    modifies a
    ensures Val(a) == (old(Val(a)) * Pow2(k)) % Pow2(8 * a.Length)
  {
    hide BE, Pow2, ShiftByte, LowPart, HighPart, ShiftedAt;
    ghost var s := a[..];
    var ix := 0;
    while ix < a.Length - 1
      invariant 0 <= ix <= a.Length - 1
      invariant forall i :: ix <= i < a.Length ==> a[i] == s[i]
      invariant forall i :: 0 <= i < ix ==> ShiftedAt(a[i], s, i, k)
    {
      ShiftByteParts(s, ix, k);
      a[ix] := ShiftByte(a[ix], a[ix + 1], k);
      ix := ix + 1;
    }
    ShiftByteParts(s, ix, k);
    a[ix] := a[ix] * Pow2(k) % 256;
    BitsShifted(a[..], s, k);
  }

  /** Byte i of s shifted by k, with the high bits of the byte after it. */
  ghost predicate ShiftedAt(b: int, s: seq<byte>, i: nat, k: nat)
    requires i < |s| && k <= 8
  {
    b == LowPart(s[i], Pow2(k)) + (if i + 1 < |s| then HighPart(s[i + 1], Pow2(8 - k)) else 0)
  }

  lemma BitsShifted(t: seq<byte>, s: seq<byte>, k: nat)
    requires |t| == |s| && k <= 8 && forall i :: 0 <= i < |s| ==> ShiftedAt(t[i], s, i, k)
    ensures BE(t) == (BE(s) * Pow2(k)) % Pow2(8 * |s|)
  {
    hide BE, Pow2, LowPart, HighPart;
    assert IsShift(t, s, Pow2(k), Pow2(8 - k), 0);
    PowersOf8(k);
    BEShift(t, s, Pow2(k), Pow2(8 - k), 0);
  }

  lemma PowersOf8(k: nat)
    requires k <= 8
    ensures Pow2(k) * Pow2(8 - k) == 256
  {
    Pow2Add(k, 8 - k);
    assert Pow2(8) == 256;
  }

  lemma ShiftByteParts(s: seq<byte>, i: nat, k: nat)
    requires k <= 8 && i < |s|
    ensures i + 1 < |s| ==> 0 <= ShiftByte(s[i], s[i + 1], k) < 256 && ShiftedAt(ShiftByte(s[i], s[i + 1], k), s, i, k)
    ensures 0 <= s[i] * Pow2(k) % 256 < 256
    ensures i + 1 == |s| ==> ShiftedAt(s[i] * Pow2(k) % 256, s, i, k)
  {
    hide ShiftByte, Pow2;
    if i + 1 < |s| { ShiftByteValue(s[i], s[i + 1], k); }
  }

  /** tmp := src << j, then dst := dst + tmp. */
  method AddShifted(src: array<byte>, j: nat, tmp: array<byte>, dst: array<byte>)
    requires src.Length == tmp.Length == dst.Length && tmp != dst && tmp != src && src != dst && j <= 8 * src.Length
    modifies tmp, dst
    ensures Val(dst) == Plus(old(Val(dst)), (Val(src) * Pow2(j)) % Pow2(8 * src.Length))
  {
    hide BE, Pow2, Plus;
    ShiftL(src, j, tmp);
    AddTo(dst, tmp, dst);
  }

  // ---------------------------------------------------------------- reading a multiplier

  /** The part of a multiplier down to and including byte ix, without its low r bits. */
  ghost function Head(s: seq<byte>, ix: int, r: nat): nat
    requires 0 <= ix < |s|
  {
    DivNonNegative(BE(s[..ix + 1]), Pow2(r));
    BE(s[..ix + 1]) / Pow2(r)
  }

  /** Taking one bit more. */
  lemma HeadStep(s: seq<byte>, ix: int, r: nat)
    requires 0 <= ix < |s| && 1 <= r <= 8
    ensures Head(s, ix, r - 1) == 2 * Head(s, ix, r) + s[ix] / Pow2(r - 1) % 2
  {
    hide BE, Pow2;
    var v, p := BE(s[..ix + 1]), Pow2(r - 1);
    BELast(s[..ix + 1]);
    assert s[..ix + 1][..ix] == s[..ix];
    Pow2Succ(r - 1);
    Pow2Add(r - 1, 9 - r);
    Pow2Succ(8 - r);
    Pow2Small();
    HeadBit(v, BE(s[..ix]), s[ix], p, Pow2(8 - r));
  }

  lemma HeadBit(v: int, h: int, b: int, p: int, q: int)
    requires v == 256 * h + b && 0 <= b && p >= 1 && q >= 1 && p * (2 * q) == 256
    ensures v / p == 2 * (v / (2 * p)) + b / p % 2
  {
    var k, r, z := b / p, b % p, q * h;
    HeadSplit(h, p, q, k);
    DivModUnique(v, p, 2 * z + k, r);
    DivDivRight(v, p);
    EvenPlus(z, k);
  }

  lemma HeadSplit(h: int, p: int, q: int, k: int)
    requires p * (2 * q) == 256
    ensures p * (2 * (q * h) + k) == 256 * h + p * k
  {
    assert p * (2 * q) * h == p * (2 * (q * h));
  }

  lemma EvenPlus(z: int, k: int)
    ensures (2 * z + k) % 2 == k % 2
  {
  }

  lemma DivDivRight(v: int, p: int)
    requires p >= 1
    ensures v / (2 * p) == v / p / 2
  {
    var q, r := v / p, v % p;
    assert v == (2 * p) * (q / 2) + (p * (q % 2) + r) by {
      assert q == 2 * (q / 2) + q % 2; assert p * q == (2 * p) * (q / 2) + p * (q % 2);
    }
    assert p * (q % 2) <= p;
    DivModUnique(v, 2 * p, q / 2, p * (q % 2) + r);
  }

  lemma HeadNext(s: seq<byte>, ix: int)
    requires 0 <= ix && ix + 1 < |s|
    ensures Head(s, ix + 1, 8) == Head(s, ix, 0)
  {
    BELast(s[..ix + 2]);
    assert s[..ix + 2][..ix + 1] == s[..ix + 1];
    assert Pow2(8) == 256 && Pow2(0) == 1;
  }

  /** The leading one alone. */
  lemma HeadFirst(s: seq<byte>, ix: int, k: nat)
    requires 0 <= ix < |s| && k < 8 && Pow2(k) <= s[ix] < 2 * Pow2(k)
    requires forall i :: 0 <= i < ix ==> s[i] == 0
    ensures Head(s, ix, k) == 1
  {
    hide Pow2;
    BELast(s[..ix + 1]);
    assert s[..ix + 1][..ix] == s[..ix];
    BEZeroIff(s[..ix]);
    DivModUnique(s[ix], Pow2(k), 1, s[ix] - Pow2(k));
  }

  lemma HeadAll(s: seq<byte>)
    requires s != []
    ensures Head(s, |s| - 1, 0) == BE(s)
  {
    assert s[..|s|] == s && Pow2(0) == 1;
  }

  lemma MaskHalf(k: nat)
    ensures Pow2(k) / 2 != 0 <==> k > 0
    ensures k > 0 ==> Pow2(k) / 2 == Pow2(k - 1)
  {
  }

  /** What one bit of the multiplier does to the partial product modulo f. */
  lemma MulBit(r: nat, a: nat, s: seq<byte>, ix: int, k: nat, f: nat)
    requires 0 <= ix < |s| && k < 8 && Len(a) < Len(f) && IsProduct(r, a, Head(s, ix, k + 1), f)
    ensures And(Pow2(k), s[ix]) != 0 <==> s[ix] / Pow2(k) % 2 == 1
    ensures IsProduct(if And(Pow2(k), s[ix]) != 0 then Plus(XTime(r, f), a) else XTime(r, f), a, Head(s, ix, k), f)
  {
    hide IsProduct, Head, Pow2, BE, Plus, XTime, And, Len, Times;
    BitTest(k, s[ix]);
    HeadStep(s, ix, k + 1);
    ProductStep(r, a, Head(s, ix, k + 1), s[ix] / Pow2(k) % 2 == 1, f);
  }
}
