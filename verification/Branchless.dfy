/** The branch-free comparison and selection of the two curve engines. */
module Branchless {
  import opened Bits

  /** `b >> 31` and `(x >> 31) & 1` on 32-bit ints. */
  function Asr31(b: int): int { b / 0x80000000 }

  /** 1 if b == c, else 0, for small non-negative operands. */
  function Equal(b: int, c: int): int { Asr31(Xor(b, c) - 1) % 2 }

  lemma AbsBySign(b: int)
    requires -8 <= b <= 8
    ensures var m := Asr31(b); (m == if b < 0 then -1 else 0) && Xor(b, m) - m == Abs(b)
  {
    XorMinusOne(b);
  }

  lemma XorMinusOne(b: int)
    ensures Xor(b, -1) == -1 - b && Xor(b, 0) == b
  {
  }

  /** On 32-bit operands the comparison answers 1 for equal ones and, besides, for those of
      opposite signs, unless they differ in the sign alone. */
  lemma EqualWord(b: int, c: int)
    requires -0x80000000 <= b < 0x80000000 && -0x80000000 <= c < 0x80000000
    ensures Equal(b, c) == if b == c || -0x80000000 < Xor(b, c) < 0 then 1 else 0
    ensures Xor(b, c) < 0 <==> b < 0 <==> c >= 0
  {
    ThirtyOneBits();
    XorSigned(b, c, 31);
  }

  lemma ThirtyOneBits()
    ensures Pow2(31) == 0x80000000
  {
    assert Pow2(7) == 128;
    hide Pow2;
    ByteBits();
    Pow2Add(8, 8);
    Pow2Add(16, 8);
    Pow2Add(24, 7);
  }

  /** It is exact where the look-up uses it, and on all operands that are not negative. */
  lemma EqualCorrect(b: int)
    requires 0 <= b < 0x80000000
    ensures forall c :: 0 <= c < 0x80000000 ==> Equal(b, c) == if b == c then 1 else 0
  {
    forall c | 0 <= c < 0x80000000 ensures Equal(b, c) == if b == c then 1 else 0 {
      hide Equal, Xor;
      EqualWord(b, c);
    }
  }

  /** The exclusive-or of two k-bit signed numbers is one, has the sign of their difference in
      sign, and vanishes only on equal ones. */
  lemma {:induction false} XorSigned(b: int, c: int, k: nat)
    requires -Pow2(k) <= b < Pow2(k) && -Pow2(k) <= c < Pow2(k)
    ensures -Pow2(k) <= Xor(b, c) < Pow2(k) && (Xor(b, c) == 0 <==> b == c)
    ensures Xor(b, c) < 0 <==> b < 0 <==> c >= 0
    decreases k
  {
    if k > 0 { XorSigned(b / 2, c / 2, k - 1); }
  }

  /** `f ^ ((f ^ g) & b)` with b all ones or all zeros. */
  lemma Blend(f: int, g: int, b: int)
    requires b == 0 || b == -1
    ensures Xor(f, And(Xor(f, g), b)) == if b == -1 then g else f
  {
    if b == -1 { XorCancel(f, g); }
  }
}
