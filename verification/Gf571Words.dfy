/** GF(2^571) on nine 64-bit words updated in place, least significant word first. */
module Gf571Words {
  import opened Bits
  import opened Gf2
  import opened Gf2Field
  import opened Gf571
  import opened Words
  import opened WordOps
  import Buffers

  // ---------------------------------------------------------------- whole-buffer operations

  method Zero(a: array<word>)
    requires a.Length == 9
    modifies a
    ensures Val(a) == 0
  {
    a[8], a[7], a[6], a[5], a[4], a[3], a[2], a[1], a[0] := 0, 0, 0, 0, 0, 0, 0, 0, 0;
    LEZeroIff(a[..]);
  }

  method One(a: array<word>)
    requires a.Length == 9
    modifies a
    ensures Val(a) == 1
  {
    Zero(a);
    LEZeroIff(a[..]);
    a[0] := 1;
    LowWord(a[..]);
  }

  method Copy(src: array<word>, dst: array<word>)
    requires src.Length == 9 && dst.Length == 9
    modifies dst
    ensures dst[..] == old(src[..])
  {
    if src != dst {
      dst[0], dst[1], dst[2] := src[0], src[1], src[2];
      dst[3], dst[4], dst[5] := src[3], src[4], src[5];
      dst[6], dst[7], dst[8] := src[6], src[7], src[8];
    }
  }

  method Clone(src: array<word>) returns (dst: array<word>)
    requires src.Length == 9
    ensures fresh(dst) && dst.Length == 9 && dst[..] == src[..]
  {
    dst := new word[9];
    Copy(src, dst);
  }

  /** gf571_add; dst may be either operand. */
  method AddTo(op1: array<word>, op2: array<word>, dst: array<word>)
    requires op1.Length == 9 && op2.Length == 9 && dst.Length == 9
    modifies dst
    ensures Val(dst) == Plus(old(Val(op1)), old(Val(op2)))
  {
    hide Xor, XorWords, LE, IsXor, Plus;
    ghost var r, s := op1[..], op2[..];
    dst[0] := XorWords(op1[0], op2[0]);
    dst[1] := XorWords(op1[1], op2[1]);
    dst[2] := XorWords(op1[2], op2[2]);
    dst[3] := XorWords(op1[3], op2[3]);
    dst[4] := XorWords(op1[4], op2[4]);
    dst[5] := XorWords(op1[5], op2[5]);
    dst[6] := XorWords(op1[6], op2[6]);
    dst[7] := XorWords(op1[7], op2[7]);
    dst[8] := XorWords(op1[8], op2[8]);
    NineWords(dst[..], r, s);
    LEXor(dst[..], r, s);
  }

  lemma NineWords(t: seq<word>, r: seq<word>, s: seq<word>)
    requires |t| == 9 && |r| == 9 && |s| == 9
    requires t[0] == XorWords(r[0], s[0]) && t[1] == XorWords(r[1], s[1]) && t[2] == XorWords(r[2], s[2])
    requires t[3] == XorWords(r[3], s[3]) && t[4] == XorWords(r[4], s[4]) && t[5] == XorWords(r[5], s[5])
    requires t[6] == XorWords(r[6], s[6]) && t[7] == XorWords(r[7], s[7]) && t[8] == XorWords(r[8], s[8])
    ensures IsXor(t, r, s)
  {
    hide Xor;
    forall i | 0 <= i < 9 ensures t[i] == Xor(r[i], s[i]) {
      assert t[i] == XorWords(r[i], s[i]);
    }
  }

  method IsOne(a: array<word>) returns (b: bool)
    requires a.Length == 9
    ensures b <==> Val(a) == 1
  {
    b := 0 == a[8] && 0 == a[7] && 0 == a[6] && 0 == a[5] && 0 == a[4] && 0 == a[3] && 0 == a[2] && 0 == a[1]
      && 1 == a[0];
    OneWords(a[..]);
  }

  method IsZero(a: array<word>) returns (b: bool)
    requires a.Length == 9
    ensures b <==> Val(a) == 0
  {
    b := !(a[8] != 0 || a[7] != 0 || a[6] != 0 || a[5] != 0 || a[4] != 0 || a[3] != 0 || a[2] != 0 || a[1] != 0
      || a[0] != 0);
    LEZeroIff(a[..]);
  }

  // ---------------------------------------------------------------- shift

  /** Word i of a buffer shifted by 64 c + nl places, as the source computes it. */
  function ShiftedWord(s: seq<word>, c: nat, nl: nat, i: nat): word
    requires |s| == 9 && c <= 8 && nl < 64 && i < 9
  {
    if i < c then 0
    else if nl == 0 then s[i - c]
    else Shl(s[i - c], if i > c then s[i - c - 1] else 0, nl)
  }

  function Shifted(s: seq<word>, c: nat, nl: nat): (t: seq<word>)
    requires |s| == 9 && c <= 8 && nl < 64
    ensures |t| == 9
  {
    seq(9, i requires 0 <= i < 9 => ShiftedWord(s, c, nl, i))
  }

  function BitShifted(s: seq<word>, nl: nat): (t: seq<word>)
    requires |s| == 9 && nl < 64
    ensures |t| == 9
  {
    seq(9, i requires 0 <= i < 9 => Shl(s[i], if i > 0 then s[i - 1] else 0, nl))
  }

  lemma BitShiftedValue(s: seq<word>, nl: nat)
    requires |s| == 9 && nl < 64
    ensures LE(BitShifted(s, nl)) == (LE(s) * Pow2(nl)) % Pow2(576)
  {
    hide Pow2, LE, Low, High, Or, BitShifted, IsShift;
    Pow2Add(nl, 64 - nl);
    WordSize();
    WordParts(0, Pow2(nl), Pow2(64 - nl));
    BitShiftedIs(s, nl);
    LEShift(BitShifted(s, nl), s, Pow2(nl), Pow2(64 - nl), 0);
  }

  lemma BitShiftedIs(s: seq<word>, nl: nat)
    requires |s| == 9 && nl < 64
    ensures IsShift(BitShifted(s, nl), s, Pow2(nl), Pow2(64 - nl), 0)
  {
    hide Pow2, Low, High, Or;
    ZeroHigh(Pow2(64 - nl));
  }

  lemma ShiftedParts(s: seq<word>, c: nat, nl: nat)
    requires |s| == 9 && c <= 8 && nl < 64
    ensures Shifted(s, c, nl) == Zeros(c) + BitShifted(s, nl)[..9 - c]
  {
    hide Shl;
    ShlZero(s);
  }

  lemma ShiftedIs(t: seq<word>, s: seq<word>, c: nat, nl: nat)
    requires |t| == 9 && |s| == 9 && c <= 8 && nl < 64
    requires t[0] == ShiftedWord(s, c, nl, 0) && t[1] == ShiftedWord(s, c, nl, 1) && t[2] == ShiftedWord(s, c, nl, 2)
    requires t[3] == ShiftedWord(s, c, nl, 3) && t[4] == ShiftedWord(s, c, nl, 4) && t[5] == ShiftedWord(s, c, nl, 5)
    requires t[6] == ShiftedWord(s, c, nl, 6) && t[7] == ShiftedWord(s, c, nl, 7) && t[8] == ShiftedWord(s, c, nl, 8)
    ensures t == Shifted(s, c, nl)
  {
    hide ShiftedWord;
  }

  /** A shift by no bits moves nothing. */
  lemma ShlZero(s: seq<word>)
    requires |s| == 9
    ensures BitShifted(s, 0) == s
  {
    forall i | 0 <= i < 9 ensures BitShifted(s, 0)[i] == s[i] {
      NoShift(s[i], if i > 0 then s[i - 1] else 0);
    }
  }

  lemma ShiftedValue(s: seq<word>, c: nat, nl: nat)
    requires |s| == 9 && c <= 8 && nl < 64
    ensures LE(Shifted(s, c, nl)) == (LE(s) * Pow2(64 * c + nl)) % Pow2(576)
  {
    hide Pow2, LE, BitShifted, Shifted;
    ShiftedParts(s, c, nl);
    var t := BitShifted(s, nl);
    BitShiftedValue(s, nl);
    LEShiftWords(t, c);
    Buffers.ShiftCompose(LE(s), nl, 64 * c, 576);
  }

  lemma ShiftedWords(s: seq<word>, c: nat, nl: nat)
    requires |s| == 9 && c <= 8 && nl < 64
    ensures forall i :: 0 <= i < c ==> ShiftedWord(s, c, nl, i) == 0
    ensures nl == 0 ==> forall i :: c <= i < 9 ==> ShiftedWord(s, c, nl, i) == s[i - c]
    ensures nl != 0 ==> forall i :: c < i < 9 ==> ShiftedWord(s, c, nl, i) == Shl(s[i - c], s[i - c - 1], nl)
    ensures nl != 0 ==> ShiftedWord(s, c, nl, c) == Shl(s[0], 0, nl)
  {
  }

  // The cases of the switch on nsh >> 6, each with and without bits to move between words.

  method Bits8(src: array<word>, nl: nat, dst: array<word>)
    requires src.Length == 9 && dst.Length == 9 && 0 < nl < 64
    modifies dst
    ensures dst[..] == Shifted(old(src[..]), 8, nl)
  {
    hide Shl, Shifted, Low, High, Pow2, ShiftedWord;
    ghost var s := src[..];
    ShiftedWords(s, 8, nl);
    dst[8], dst[7], dst[6] := Shl(src[0], 0, nl), 0, 0;
    dst[5], dst[4], dst[3] := 0, 0, 0;
    dst[2], dst[1], dst[0] := 0, 0, 0;
    ShiftedIs(dst[..], s, 8, nl);
  }

  method Moved8(src: array<word>, dst: array<word>)
    requires src.Length == 9 && dst.Length == 9
    modifies dst
    ensures dst[..] == Shifted(old(src[..]), 8, 0)
  {
    hide Shl, Shifted, Low, High, Pow2, ShiftedWord;
    ghost var s := src[..];
    ShiftedWords(s, 8, 0);
    dst[8], dst[7], dst[6] := src[0], 0, 0;
    dst[5], dst[4], dst[3] := 0, 0, 0;
    dst[2], dst[1], dst[0] := 0, 0, 0;
    ShiftedIs(dst[..], s, 8, 0);
  }

  method Shift8(src: array<word>, nl: nat, dst: array<word>)
    requires src.Length == 9 && dst.Length == 9 && nl < 64
    modifies dst
    ensures dst[..] == Shifted(old(src[..]), 8, nl)
  {
    hide Shifted;
    if nl != 0 { Bits8(src, nl, dst); } else { Moved8(src, dst); }
  }

  method Bits7(src: array<word>, nl: nat, dst: array<word>)
    requires src.Length == 9 && dst.Length == 9 && 0 < nl < 64
    modifies dst
    ensures dst[..] == Shifted(old(src[..]), 7, nl)
  {
    hide Shl, Shifted, Low, High, Pow2, ShiftedWord;
    ghost var s := src[..];
    ShiftedWords(s, 7, nl);
    dst[8], dst[7], dst[6] := Shl(src[1], src[0], nl), Shl(src[0], 0, nl), 0;
    dst[5], dst[4], dst[3] := 0, 0, 0;
    dst[2], dst[1], dst[0] := 0, 0, 0;
    ShiftedIs(dst[..], s, 7, nl);
  }

  method Moved7(src: array<word>, dst: array<word>)
    requires src.Length == 9 && dst.Length == 9
    modifies dst
    ensures dst[..] == Shifted(old(src[..]), 7, 0)
  {
    hide Shl, Shifted, Low, High, Pow2, ShiftedWord;
    ghost var s := src[..];
    ShiftedWords(s, 7, 0);
    dst[8], dst[7], dst[6] := src[1], src[0], 0;
    dst[5], dst[4], dst[3] := 0, 0, 0;
    dst[2], dst[1], dst[0] := 0, 0, 0;
    ShiftedIs(dst[..], s, 7, 0);
  }

  method Shift7(src: array<word>, nl: nat, dst: array<word>)
    requires src.Length == 9 && dst.Length == 9 && nl < 64
    modifies dst
    ensures dst[..] == Shifted(old(src[..]), 7, nl)
  {
    hide Shifted;
    if nl != 0 { Bits7(src, nl, dst); } else { Moved7(src, dst); }
  }

  method Bits6(src: array<word>, nl: nat, dst: array<word>)
    requires src.Length == 9 && dst.Length == 9 && 0 < nl < 64
    modifies dst
    ensures dst[..] == Shifted(old(src[..]), 6, nl)
  {
    hide Shl, Shifted, Low, High, Pow2, ShiftedWord;
    ghost var s := src[..];
    ShiftedWords(s, 6, nl);
    dst[8], dst[7], dst[6] := Shl(src[2], src[1], nl), Shl(src[1], src[0], nl), Shl(src[0], 0, nl);
    dst[5], dst[4], dst[3] := 0, 0, 0;
    dst[2], dst[1], dst[0] := 0, 0, 0;
    ShiftedIs(dst[..], s, 6, nl);
  }

  method Moved6(src: array<word>, dst: array<word>)
    requires src.Length == 9 && dst.Length == 9
    modifies dst
    ensures dst[..] == Shifted(old(src[..]), 6, 0)
  {
    hide Shl, Shifted, Low, High, Pow2, ShiftedWord;
    ghost var s := src[..];
    ShiftedWords(s, 6, 0);
    dst[8], dst[7], dst[6] := src[2], src[1], src[0];
    dst[5], dst[4], dst[3] := 0, 0, 0;
    dst[2], dst[1], dst[0] := 0, 0, 0;
    ShiftedIs(dst[..], s, 6, 0);
  }

  method Shift6(src: array<word>, nl: nat, dst: array<word>)
    requires src.Length == 9 && dst.Length == 9 && nl < 64
    modifies dst
    ensures dst[..] == Shifted(old(src[..]), 6, nl)
  {
    hide Shifted;
    if nl != 0 { Bits6(src, nl, dst); } else { Moved6(src, dst); }
  }

  method Bits5(src: array<word>, nl: nat, dst: array<word>)
    requires src.Length == 9 && dst.Length == 9 && 0 < nl < 64
    modifies dst
    ensures dst[..] == Shifted(old(src[..]), 5, nl)
  {
    hide Shl, Shifted, Low, High, Pow2, ShiftedWord;
    ghost var s := src[..];
    ShiftedWords(s, 5, nl);
    dst[8], dst[7], dst[6] := Shl(src[3], src[2], nl), Shl(src[2], src[1], nl), Shl(src[1], src[0], nl);
    dst[5], dst[4], dst[3] := Shl(src[0], 0, nl), 0, 0;
    dst[2], dst[1], dst[0] := 0, 0, 0;
    ShiftedIs(dst[..], s, 5, nl);
  }

  method Moved5(src: array<word>, dst: array<word>)
    requires src.Length == 9 && dst.Length == 9
    modifies dst
    ensures dst[..] == Shifted(old(src[..]), 5, 0)
  {
    hide Shl, Shifted, Low, High, Pow2, ShiftedWord;
    ghost var s := src[..];
    ShiftedWords(s, 5, 0);
    dst[8], dst[7], dst[6] := src[3], src[2], src[1];
    dst[5], dst[4], dst[3] := src[0], 0, 0;
    dst[2], dst[1], dst[0] := 0, 0, 0;
    ShiftedIs(dst[..], s, 5, 0);
  }

  method Shift5(src: array<word>, nl: nat, dst: array<word>)
    requires src.Length == 9 && dst.Length == 9 && nl < 64
    modifies dst
    ensures dst[..] == Shifted(old(src[..]), 5, nl)
  {
    hide Shifted;
    if nl != 0 { Bits5(src, nl, dst); } else { Moved5(src, dst); }
  }

  method Bits4(src: array<word>, nl: nat, dst: array<word>)
    requires src.Length == 9 && dst.Length == 9 && 0 < nl < 64
    modifies dst
    ensures dst[..] == Shifted(old(src[..]), 4, nl)
  {
    hide Shl, Shifted, Low, High, Pow2, ShiftedWord;
    ghost var s := src[..];
    ShiftedWords(s, 4, nl);
    dst[8], dst[7], dst[6] := Shl(src[4], src[3], nl), Shl(src[3], src[2], nl), Shl(src[2], src[1], nl);
    dst[5], dst[4], dst[3] := Shl(src[1], src[0], nl), Shl(src[0], 0, nl), 0;
    dst[2], dst[1], dst[0] := 0, 0, 0;
    ShiftedIs(dst[..], s, 4, nl);
  }

  method Moved4(src: array<word>, dst: array<word>)
    requires src.Length == 9 && dst.Length == 9
    modifies dst
    ensures dst[..] == Shifted(old(src[..]), 4, 0)
  {
    hide Shl, Shifted, Low, High, Pow2, ShiftedWord;
    ghost var s := src[..];
    ShiftedWords(s, 4, 0);
    dst[8], dst[7], dst[6] := src[4], src[3], src[2];
    dst[5], dst[4], dst[3] := src[1], src[0], 0;
    dst[2], dst[1], dst[0] := 0, 0, 0;
    ShiftedIs(dst[..], s, 4, 0);
  }

  method Shift4(src: array<word>, nl: nat, dst: array<word>)
    requires src.Length == 9 && dst.Length == 9 && nl < 64
    modifies dst
    ensures dst[..] == Shifted(old(src[..]), 4, nl)
  {
    hide Shifted;
    if nl != 0 { Bits4(src, nl, dst); } else { Moved4(src, dst); }
  }

  method Bits3(src: array<word>, nl: nat, dst: array<word>)
    requires src.Length == 9 && dst.Length == 9 && 0 < nl < 64
    modifies dst
    ensures dst[..] == Shifted(old(src[..]), 3, nl)
  {
    hide Shl, Shifted, Low, High, Pow2, ShiftedWord;
    ghost var s := src[..];
    ShiftedWords(s, 3, nl);
    dst[8], dst[7], dst[6] := Shl(src[5], src[4], nl), Shl(src[4], src[3], nl), Shl(src[3], src[2], nl);
    dst[5], dst[4], dst[3] := Shl(src[2], src[1], nl), Shl(src[1], src[0], nl), Shl(src[0], 0, nl);
    dst[2], dst[1], dst[0] := 0, 0, 0;
    ShiftedIs(dst[..], s, 3, nl);
  }

  method Moved3(src: array<word>, dst: array<word>)
    requires src.Length == 9 && dst.Length == 9
    modifies dst
    ensures dst[..] == Shifted(old(src[..]), 3, 0)
  {
    hide Shl, Shifted, Low, High, Pow2, ShiftedWord;
    ghost var s := src[..];
    ShiftedWords(s, 3, 0);
    dst[8], dst[7], dst[6] := src[5], src[4], src[3];
    dst[5], dst[4], dst[3] := src[2], src[1], src[0];
    dst[2], dst[1], dst[0] := 0, 0, 0;
    ShiftedIs(dst[..], s, 3, 0);
  }

  method Shift3(src: array<word>, nl: nat, dst: array<word>)
    requires src.Length == 9 && dst.Length == 9 && nl < 64
    modifies dst
    ensures dst[..] == Shifted(old(src[..]), 3, nl)
  {
    hide Shifted;
    if nl != 0 { Bits3(src, nl, dst); } else { Moved3(src, dst); }
  }

  method Bits2(src: array<word>, nl: nat, dst: array<word>)
    requires src.Length == 9 && dst.Length == 9 && 0 < nl < 64
    modifies dst
    ensures dst[..] == Shifted(old(src[..]), 2, nl)
  {
    hide Shl, Shifted, Low, High, Pow2, ShiftedWord;
    ghost var s := src[..];
    ShiftedWords(s, 2, nl);
    dst[8], dst[7], dst[6] := Shl(src[6], src[5], nl), Shl(src[5], src[4], nl), Shl(src[4], src[3], nl);
    dst[5], dst[4], dst[3] := Shl(src[3], src[2], nl), Shl(src[2], src[1], nl), Shl(src[1], src[0], nl);
    dst[2], dst[1], dst[0] := Shl(src[0], 0, nl), 0, 0;
    ShiftedIs(dst[..], s, 2, nl);
  }

  method Moved2(src: array<word>, dst: array<word>)
    requires src.Length == 9 && dst.Length == 9
    modifies dst
    ensures dst[..] == Shifted(old(src[..]), 2, 0)
  {
    hide Shl, Shifted, Low, High, Pow2, ShiftedWord;
    ghost var s := src[..];
    ShiftedWords(s, 2, 0);
    dst[8], dst[7], dst[6] := src[6], src[5], src[4];
    dst[5], dst[4], dst[3] := src[3], src[2], src[1];
    dst[2], dst[1], dst[0] := src[0], 0, 0;
    ShiftedIs(dst[..], s, 2, 0);
  }

  method Shift2(src: array<word>, nl: nat, dst: array<word>)
    requires src.Length == 9 && dst.Length == 9 && nl < 64
    modifies dst
    ensures dst[..] == Shifted(old(src[..]), 2, nl)
  {
    hide Shifted;
    if nl != 0 { Bits2(src, nl, dst); } else { Moved2(src, dst); }
  }

  method Bits1(src: array<word>, nl: nat, dst: array<word>)
    requires src.Length == 9 && dst.Length == 9 && 0 < nl < 64
    modifies dst
    ensures dst[..] == Shifted(old(src[..]), 1, nl)
  {
    hide Shl, Shifted, Low, High, Pow2, ShiftedWord;
    ghost var s := src[..];
    ShiftedWords(s, 1, nl);
    dst[8], dst[7], dst[6] := Shl(src[7], src[6], nl), Shl(src[6], src[5], nl), Shl(src[5], src[4], nl);
    dst[5], dst[4], dst[3] := Shl(src[4], src[3], nl), Shl(src[3], src[2], nl), Shl(src[2], src[1], nl);
    dst[2], dst[1], dst[0] := Shl(src[1], src[0], nl), Shl(src[0], 0, nl), 0;
    ShiftedIs(dst[..], s, 1, nl);
  }

  method Moved1(src: array<word>, dst: array<word>)
    requires src.Length == 9 && dst.Length == 9
    modifies dst
    ensures dst[..] == Shifted(old(src[..]), 1, 0)
  {
    hide Shl, Shifted, Low, High, Pow2, ShiftedWord;
    ghost var s := src[..];
    ShiftedWords(s, 1, 0);
    dst[8], dst[7], dst[6] := src[7], src[6], src[5];
    dst[5], dst[4], dst[3] := src[4], src[3], src[2];
    dst[2], dst[1], dst[0] := src[1], src[0], 0;
    ShiftedIs(dst[..], s, 1, 0);
  }

  method Shift1(src: array<word>, nl: nat, dst: array<word>)
    requires src.Length == 9 && dst.Length == 9 && nl < 64
    modifies dst
    ensures dst[..] == Shifted(old(src[..]), 1, nl)
  {
    hide Shifted;
    if nl != 0 { Bits1(src, nl, dst); } else { Moved1(src, dst); }
  }

  method Bits0(src: array<word>, nl: nat, dst: array<word>)
    requires src.Length == 9 && dst.Length == 9 && 0 < nl < 64
    modifies dst
    ensures dst[..] == Shifted(old(src[..]), 0, nl)
  {
    hide Shl, Shifted, Low, High, Pow2, ShiftedWord;
    ghost var s := src[..];
    ShiftedWords(s, 0, nl);
    dst[8], dst[7], dst[6] := Shl(src[8], src[7], nl), Shl(src[7], src[6], nl), Shl(src[6], src[5], nl);
    dst[5], dst[4], dst[3] := Shl(src[5], src[4], nl), Shl(src[4], src[3], nl), Shl(src[3], src[2], nl);
    dst[2], dst[1], dst[0] := Shl(src[2], src[1], nl), Shl(src[1], src[0], nl), Shl(src[0], 0, nl);
    ShiftedIs(dst[..], s, 0, nl);
  }

  method Moved0(src: array<word>, dst: array<word>)
    requires src.Length == 9 && dst.Length == 9
    modifies dst
    ensures dst[..] == Shifted(old(src[..]), 0, 0)
  {
    hide Shl, Shifted, Low, High, Pow2, ShiftedWord;
    ghost var s := src[..];
    ShiftedWords(s, 0, 0);
    Copy(src, dst);
    ShiftedIs(dst[..], s, 0, 0);
  }

  method Shift0(src: array<word>, nl: nat, dst: array<word>)
    requires src.Length == 9 && dst.Length == 9 && nl < 64
    modifies dst
    ensures dst[..] == Shifted(old(src[..]), 0, nl)
  {
    hide Shifted;
    if nl != 0 { Bits0(src, nl, dst); } else { Moved0(src, dst); }
  }

  /** gf571_shiftl: multiplication by x^nsh in the ring of 576-bit buffers; dst may be op. */
  method ShiftL(op: array<word>, nsh: nat, dst: array<word>)
    requires op.Length == 9 && dst.Length == 9
    modifies dst
    ensures Val(dst) == (old(Val(op)) * Pow2(nsh)) % Pow2(576)
  {
    hide Pow2, LE, Shifted;
    var c, nl := nsh / 64, nsh % 64;
    if nsh < 576 { ShiftedValue(op[..], c, nl); } else { AllLost(Val(op), nsh); }
    if c == 8 {
      Shift8(op, nl, dst);
    } else if c == 7 {
      Shift7(op, nl, dst);
    } else if c == 6 {
      Shift6(op, nl, dst);
    } else if c == 5 {
      Shift5(op, nl, dst);
    } else if c == 4 {
      Shift4(op, nl, dst);
    } else if c == 3 {
      Shift3(op, nl, dst);
    } else if c == 2 {
      Shift2(op, nl, dst);
    } else if c == 1 {
      Shift1(op, nl, dst);
    } else if c == 0 {
      Shift0(op, nl, dst);
    } else {
      Zero(dst);
    }
  }

  /** The default case: nothing is left. */
  lemma AllLost(v: int, n: nat)
    requires n >= 576
    ensures (v * Pow2(n)) % Pow2(576) == 0
  {
    hide Pow2;
    Pow2Add(n - 576, 576);
    FactorOut(v, Pow2(n - 576), Pow2(576));
  }

  lemma FactorOut(v: int, k: int, p: int)
    requires p >= 1
    ensures (v * (k * p)) % p == 0
  {
    assert v * (k * p) == (v * k) * p;
    Buffers.MultipleZero(v * k, p);
  }

  // ---------------------------------------------------------------- the field polynomial

  method Prim(a: array<word>)
    requires a.Length == 9
    modifies a
    ensures Val(a) == F()
  {
    Zero(a);
    LEZeroIff(a[..]);
    a[8] := 0x800_0000_0000_0000;
    a[0] := 0x425;
    PrimWords(a[..]);
  }

  lemma PrimWords(s: seq<word>)
    requires |s| == 9 && s[8] == 0x800_0000_0000_0000 && s[0] == 0x425 && forall i :: 0 < i < 8 ==> s[i] == 0
    ensures LE(s) == F()
  {
    hide Pow2, LE, F;
    TopWord(s);
    LowWord(s[..8]);
    FieldPolynomial();
    TopPower();
    Buffers.Pow2Small();
    Regrouped(Pow2(512));
  }

  lemma Regrouped(p: int)
    ensures p * 0x800_0000_0000_0000 == 0x800_0000_0000_0000 * p
  {
  }

  lemma TopPower()
    ensures Pow2(59) == 0x800_0000_0000_0000 && Pow2(571) == Pow2(59) * Pow2(512)
  {
    Buffers.Pow2Small();
    hide Pow2;
    WordSize();
    Pow2Add(59, 5);
    Pow2Add(59, 512);
  }

  lemma TopWord(s: seq<word>)
    requires |s| == 9
    ensures LE(s) == LE(s[..8]) + Pow2(512) * s[8] && LE(s[..8]) < Pow2(512)
  {
    assert s == s[..8] + [s[8]];
    LEConcat(s[..8], [s[8]]);
    LEBound(s[..8]);
    LowWord([s[8]]);
  }

  /** Multiply by x and reduce, in place. */
  method Step(p: array<word>)
    requires p.Length == 9 && Len(Val(p)) <= 571
    modifies p
    ensures Val(p) == XTime(old(Val(p)), F())
  {
    hide Pow2, LE, F, XTime, Plus, Len, Shl, Byte, And, Xor;
    ghost var s := p[..];
    var hibit := And(Byte(p[..], 71), 0xfc);
    ShiftOne(p);
    ghost var t := p[..];
    MaskTop(p[8]);
    p[8] := And(p[8], 0x7ff_ffff_ffff_ffff);
    TopCleared(t, p[..]);
    StepCarry(LE(s), LE(t), s);
    if hibit != 0 {
      ghost var u := p[..];
      XorWord(p[0], 0x425);
      p[0] := Xor(p[0], 0x425);
      XorLow(p[..], u);
    }
  }

  method ShiftOne(p: array<word>)
    requires p.Length == 9
    modifies p
    ensures Val(p) == (old(Val(p)) * Pow2(1)) % Pow2(576)
  {
    hide Pow2, LE, Shl, Low, High, Shifted;
    ghost var s := p[..];
    p[8] := Shl(p[8], p[7], 1);
    p[7] := Shl(p[7], p[6], 1);
    p[6] := Shl(p[6], p[5], 1);
    p[5] := Shl(p[5], p[4], 1);
    p[4] := Shl(p[4], p[3], 1);
    p[3] := Shl(p[3], p[2], 1);
    p[2] := Shl(p[2], p[1], 1);
    p[1] := Shl(p[1], p[0], 1);
    p[0] := Shl(p[0], 0, 1);
    ShiftedIs(p[..], s, 0, 1);
    ShiftedValue(s, 0, 1);
  }

  lemma MaskTop(x: word)
    ensures And(x, 0x7ff_ffff_ffff_ffff) == x % Pow2(59) && 0 <= And(x, 0x7ff_ffff_ffff_ffff) < W
  {
    TopPower();
    hide Pow2;
    AndMask(x, 59);
  }

  /** Clearing the bits of the top byte above the third reduces modulo 2^571. */
  lemma TopCleared(t: seq<word>, u: seq<word>)
    requires |t| == 9 && |u| == 9 && u[..8] == t[..8] && u[8] == t[8] % Pow2(59)
    ensures LE(u) == LE(t) % Pow2(571)
  {
    hide Pow2, LE;
    TopWord(t);
    TopWord(u);
    TopPower();
    ClearTop(LE(t[..8]), Pow2(512), t[8], Pow2(59), Pow2(571));
  }

  lemma ClearTop(l: int, p: int, x: int, m: int, n: int)
    requires 0 <= l < p && x >= 0 && m >= 1 && n == m * p
    ensures n >= 1 && (l + p * x) % n == l + p * (x % m)
  {
    AtLeastTimes(p, m);
    assert m * p == p * m;
    TwoLevels(l + p * x, p, m, x, l, x / m, x % m);
    DivModUnique(l + p * x, p * m, x / m, p * (x % m) + l);
  }

  /** What the top bits before the shift say about the shifted value. */
  lemma StepCarry(v: nat, t: nat, s: seq<word>)
    requires |s| == 9 && v == LE(s) && Len(v) <= 571 && t == (v * Pow2(1)) % Pow2(576)
    ensures XTime(v, F()) == if And(Byte(s, 71), 0xfc) != 0 then Plus(t % Pow2(571), 0x425) else t % Pow2(571)
  {
    hide Pow2, LE, F, XTime, Plus, Len, Byte, And;
    LenBound(v, 571);
    LenBound(2 * v, 571);
    FieldPolynomial();
    CarryPowers();
    ByteIs(s, 71);
    TopBits(Byte(s, 71));
    CarryTest(v, t, Pow2(568), Byte(s, 71));
    XTimeTest(v, F());
    if 2 * v >= Pow2(571) {
      CarryReduce(2 * v - Pow2(571));
    }
  }

  lemma XTimeTest(v: nat, f: nat)
    requires Len(f) == 572
    ensures XTime(v, f) == if Len(2 * v) <= 571 then 2 * v else Plus(2 * v, f)
  {
  }

  lemma CarryPowers()
    ensures Pow2(1) == 2 && Pow2(571) == 8 * Pow2(568) && Pow2(576) == 256 * Pow2(568)
    ensures Pow2(10) + Pow2(5) + Pow2(2) + 1 == 0x425
  {
    Pow2Add(3, 568);
    Pow2Add(8, 568);
    Buffers.Pow2Small();
    assert Pow2(1) == 2;
  }

  lemma TopBits(b: int)
    requires 0 <= b < 256
    ensures And(b, 0xfc) != 0 <==> b >= 4
  {
    AndMask(b / 4, 6);
    assert Pow2(6) == 64;
    AndShift(b, 126, 0xfc);
    AndShift(b / 2, 63, 126);
    hide Pow2, And;
    assert b / 2 / 2 == b / 4;
    assert And(b, 0xfc) == 4 * (b / 4 % 64);
  }

  lemma AndShift(b: int, m: int, n: int)
    requires b >= 0 && m > 0 && n == 2 * m
    ensures And(b, n) == 2 * And(b / 2, m)
  {
  }

  lemma CarryTest(v: int, t: int, p: int, b: int)
    requires 0 <= v < 8 * p && t == (v * 2) % (256 * p) && b == v / p % 256
    ensures t == 2 * v && (b >= 4 <==> 2 * v >= 8 * p)
    ensures t % (8 * p) == if 2 * v >= 8 * p then 2 * v - 8 * p else 2 * v
  {
    DivModUnique(v * 2, 256 * p, 0, v * 2);
    var q, r := v / p, v % p;
    Buffers.QuotientBound(v, 8, p);
    if q >= 4 { AtLeastMultiple(p, q, 4); } else { AtLeastMultiple(p, 3, q); }
    if 2 * v >= 8 * p { DivModUnique(2 * v, 8 * p, 1, 2 * v - 8 * p); } else { DivModUnique(2 * v, 8 * p, 0, 2 * v); }
  }

  lemma AtLeastMultiple(p: int, a: int, b: int)
    requires p >= 0 && a >= b
    ensures p * a >= p * b
  {
  }

  lemma CarryReduce(r: nat)
    requires r < Pow2(571)
    ensures Plus(r + Pow2(571), F()) == Plus(r, 0x425)
  {
    hide Pow2, Plus, F;
    FieldPolynomial();
    CarryPowers();
    PlusRules(1, 0);
    LowBelow();
    ZeroTimes(Pow2(571));
    Buffers.PlusJoin(1, r, 1, 0x425, 571);
  }

  lemma ZeroTimes(p: int)
    ensures 0 * p == 0 && 1 * p == p
  {
  }

  lemma LowBelow()
    ensures 0x425 < Pow2(571)
  {
    Pow2Add(11, 560);
    assert Pow2(11) == 2048 by { assert Pow2(10) == 1024; }
  }

  lemma XorLow(t: seq<word>, s: seq<word>)
    requires |t| == 9 && |s| == 9 && t[0] == Xor(s[0], 0x425) && t[1..] == s[1..]
    ensures LE(t) == Plus(LE(s), 0x425)
  {
    var c: seq<word> := [0x425] + Words.Zeros(8);
    LowWord(c);
    assert forall i :: 1 <= i < 9 ==> t[i] == t[1..][i - 1] && s[i] == s[1..][i - 1];
    hide LE;
    LEXor(t, s, c);
  }

  // ---------------------------------------------------------------- leading bit

  /** Byte index ix and mask 2^k of the leading bit; ix is -1 for zero. */
  method FirstBit(a: array<word>) returns (ix: int, mask: int, ghost k: nat)
    requires a.Length == 9
    ensures -1 <= ix < 72 && (ix == -1 <==> Val(a) == 0)
    ensures ix >= 0 ==> k < 8 && mask == Pow2(k) && Val(a) / Pow2(8 * ix + k) == 1
  {
    hide LE, Pow2;
    mask, k := 0, 0;
    ix := 9;
    LEZeroIff(a[..]);
    while true
      invariant 0 <= ix <= 9 && forall i :: ix <= i < 9 ==> a[i] == 0
      decreases ix
    {
      ix := ix - 1;
      if ix < 0 { return; }
      if a[ix] != 0 { break; }
    }
    ix, mask, k := FirstByteBit(a, ix);
  }

  /** integer_length, 24 short of the number of bits. */
  method IntegerLength(a: array<word>) returns (len: int)
    requires a.Length == 9
    ensures len == if Val(a) == 0 then 0 else Len(Val(a)) - 24
  {
    hide LE, Pow2, Len;
    var ix, mask, k := FirstBit(a);
    if ix < 0 { return 0; }
    LengthIs(Val(a), 8 * ix + k);
    len := LengthFrom(ix, mask, k);
  }

  // ---------------------------------------------------------------- multiplication

  /** The bits of one byte of the multiplier below mask = 2^k. */
  method MulByte(ans: array<word>, op1: array<word>, op2: array<word>, ix: nat, mask0: int, ghost k0: nat)
    requires ans.Length == 9 && op1.Length == 9 && op2.Length == 9 && ans != op1 && ans != op2
    requires ix < 72 && k0 <= 8 && mask0 == Pow2(k0) && Len(Val(op1)) <= 571
    requires Partial(Val(ans), Val(op1), Val(op2), 8 * ix + k0, F())
    modifies ans
    ensures Partial(Val(ans), Val(op1), Val(op2), 8 * ix, F())
  {
    hide LE, Pow2, XTime, Len, Plus, F, IsProduct, Byte, And;
    ghost var a, s, v, k := Val(op1), op2[..], Val(op2), k0;
    var b := Byte(op2[..], ix);
    HalfMask(k);
    var mask := mask0 / 2;
    while mask != 0
      invariant k <= 8 && mask == (if k == 0 then 0 else Pow2(k - 1)) && (mask == 0 <==> k == 0)
      invariant Partial(Val(ans), a, v, 8 * ix + k, F())
      decreases k
    {
      ghost var r := Val(ans);
      ProductShort(r, a, v / Pow2(8 * ix + k));
      ByteBit(s, ix, k - 1);
      NextBit(v, 8 * ix + k - 1);
      FieldPolynomial();
      MulBit(r, a, v, 8 * ix + k - 1, And(mask, b) != 0, F());
      Step(ans);
      if And(mask, b) != 0 { AddTo(ans, op1, ans); }
      HalfMask(k - 1);
      mask, k := mask / 2, k - 1;
    }
  }

  /** gf571_mul: the reduced product; dst may be either operand. */
  method Multiply(op1: array<word>, op2: array<word>, dst: array<word>)
    requires op1.Length == 9 && op2.Length == 9 && dst.Length == 9
    requires Len(Val(op1)) <= 571 && Len(Val(op2)) <= 571
    modifies dst
    ensures IsProduct(Val(dst), old(Val(op1)), old(Val(op2)), F())
  {
    hide LE, Pow2, XTime, Len, Plus, F, IsProduct, Byte, And, Times;
    ghost var a, v := Val(op1), Val(op2);
    var ix, mask, k := FirstBit(op2);
    if ix < 0 {
      Zero(dst);
      ZeroProduct(a);
      return;
    }
    var ans := Clone(op1);
    FieldPolynomial();
    ProductOne(a, F());
    WordSize();
    while ix >= 0
      invariant -1 <= ix < 72 && k <= 8 && (ix >= 0 ==> mask == Pow2(k))
      invariant op1[..] == old(op1[..]) && op2[..] == old(op2[..])
      invariant Partial(Val(ans), a, v, if ix >= 0 then 8 * ix + k else 0, F())
    {
      MulByte(ans, op1, op2, ix, mask, k);
      ix, mask, k := ix - 1, 0x100, 8;
    }
    WholeValue(v);
    Copy(ans, dst);
  }

  // ---------------------------------------------------------------- inversion

  /** tmp := src << j, then dst := dst + tmp. */
  method AddShifted(src: array<word>, j: nat, tmp: array<word>, dst: array<word>)
    requires src.Length == 9 && tmp.Length == 9 && dst.Length == 9 && tmp != dst && tmp != src && src != dst
    modifies tmp, dst
    ensures Val(dst) == Plus(old(Val(dst)), (Val(src) * Pow2(j)) % Pow2(576))
  {
    hide LE, Pow2, Plus;
    ShiftL(src, j, tmp);
    AddTo(dst, tmp, dst);
  }

  /** The four rows and the scratch buffer, apart from each other, after t turns. */
  ghost predicate Rows(pu: array<word>, pv: array<word>, pg1: array<word>, pg2: array<word>, tmp: array<word>,
    d: nat, a: nat, t: nat)
    reads pu, pv, pg1, pg2
  {
    && pu.Length == 9 && pv.Length == 9 && pg1.Length == 9 && pg2.Length == 9 && tmp.Length == 9
    && pu != pv && pu != pg1 && pu != pg2 && pv != pg1 && pv != pg2 && pg1 != pg2
    && tmp != pu && tmp != pv && tmp != pg1 && tmp != pg2
    && Running(d, Val(pu), Val(pv), Val(pg1), Val(pg2), a, F(), t, 1143) && Len(Val(pu)) <= 572 && Len(Val(pv)) <= 572
  }

  /** One turn: the longer row first, then u + x^j v and g1 + x^j g2. */
  method Turn(pu: array<word>, pv: array<word>, pg1: array<word>, pg2: array<word>, tmp: array<word>,
    ghost d: nat, ghost a: nat, ghost t: nat)
    returns (qu: array<word>, qv: array<word>, qg1: array<word>, qg2: array<word>)
    requires Rows(pu, pv, pg1, pg2, tmp, d, a, t) && Val(pu) != 1
    modifies pu, pv, pg1, pg2, tmp
    ensures qu in {pu, pv} && qv in {pu, pv} && qg1 in {pg1, pg2} && qg2 in {pg1, pg2}
    ensures Rows(qu, qv, qg1, qg2, tmp, d, a, t + 1)
  {
    hide LE, Pow2, Len, Plus, Coprime, EuclidInv, Running, F;
    var lu := IntegerLength(pu);
    var lv := IntegerLength(pv);
    RunSwap(d, Val(pu), Val(pv), Val(pg1), Val(pg2), a, F(), t, 1143);
    var j := lu - lv;
    qu, qv, qg1, qg2 := pu, pv, pg1, pg2;
    if j < 0 {
      qu, qv := pv, pu;
      qg1, qg2 := pg2, pg1;
      j := -j;
    }
    Combine(qu, qv, qg1, qg2, tmp, j, d, a, t);
  }

  /** The row operations, with the rows in order. */
  method Combine(pu: array<word>, pv: array<word>, pg1: array<word>, pg2: array<word>, tmp: array<word>, j: nat,
    ghost d: nat, ghost a: nat, ghost t: nat)
    requires Rows(pu, pv, pg1, pg2, tmp, d, a, t) && j == Measured(Val(pu), 24) - Measured(Val(pv), 24)
    modifies pu, pg1, tmp
    ensures Rows(pu, pv, pg1, pg2, tmp, d, a, t + 1)
  {
    hide LE, Pow2, Len, Plus, Coprime, EuclidInv, Running, Measured, F;
    ghost var u, v, g1, h2 := Val(pu), Val(pv), Val(pg1), Val(pg2);
    FieldPolynomial();
    TurnFits(u, v, j, 24, 572, 576);
    AddShifted(pv, j, tmp, pu);
    AddShifted(pg2, j, tmp, pg1);
    RunNext(d, u, v, g1, h2, Val(pg1), a, F(), t, 1143, j, 24, 576);
    LenPlus(u, v * Pow2(j), 572);
  }

  /** The loop, cut off after so many turns; the cofactor of 1 is in q where it ends. */
  method Run(pu: array<word>, pv: array<word>, pg1: array<word>, pg2: array<word>, tmp: array<word>, turns: nat,
    ghost d: nat, ghost a: nat)
    returns (ended: bool, q: array<word>)
    requires Rows(pu, pv, pg1, pg2, tmp, d, a, 0)
    modifies pu, pv, pg1, pg2, tmp
    ensures q in {pg1, pg2} && (Coprime(a, F()) && turns >= 1143 ==> ended)
    ensures ended ==> Coprime(a, F()) && IsInverse(Val(q), a, F())
  {
    hide LE, Pow2, Len, Plus, Times, Cong, Coprime, EuclidInv, Running, IsInverse, F;
    var u, v, g1, g2 := pu, pv, pg1, pg2;
    var t := 0;
    ended := IsOne(u);
    while !ended && t < turns
      invariant u in {pu, pv} && v in {pu, pv} && g1 in {pg1, pg2} && g2 in {pg1, pg2} && t <= turns
      invariant Rows(u, v, g1, g2, tmp, d, a, t) && (ended <==> Val(u) == 1)
    {
      u, v, g1, g2 := Turn(u, v, g1, g2, tmp, d, a, t);
      ended := IsOne(u);
      t := t + 1;
    }
    RunEnds(d, Val(u), Val(v), Val(g1), Val(g2), a, F(), t, 1143);
    q := g1;
  }

  /** gf571_inv by the extended Euclidean algorithm, cut off after so many turns; dst may be op. It
      ends on the operands coprime to the field polynomial, within 1143 turns, and on no others. */
  method Inv(op: array<word>, dst: array<word>, turns: nat) returns (ended: bool)
    requires op.Length == 9 && dst.Length == 9 && Len(Val(op)) <= 571
    modifies dst
    ensures ended ==> Coprime(old(Val(op)), F()) && IsInverse(Val(dst), old(Val(op)), F())
    ensures Coprime(old(Val(op)), F()) && turns >= 1143 ==> ended
    ensures !ended ==> dst[..] == old(dst[..])
  {
    hide LE, Pow2, Len, Plus, F, Times, Cong, Coprime, EuclidInv, Running, IsInverse;
    ghost var a := Val(op);
    var u := Clone(op);
    var v := new word[9];
    var g1 := new word[9];
    var g2 := new word[9];
    var tmp := new word[9];
    Prim(v);
    One(g1);
    Zero(g2);
    FieldPolynomial();
    LenTwoConverse(F());
    ghost var d := RunStart(a, F(), 1143);
    var q;
    ended, q := Run(u, v, g1, g2, tmp, turns, d, a);
    if ended { Copy(q, dst); }
  }
}
