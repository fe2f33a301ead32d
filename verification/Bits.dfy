/** Two's-complement bit operations on mathematical integers.

    A C operand of any signed width is the integer it denotes; sign extension makes the
    bitwise operators independent of the width, so one recursive definition serves
    `int`, `int64_t` and `__int128` alike. Unsigned operands are the non-negative integers. */
module Bits {

  function Pow2(k: nat): (p: int)
    ensures p >= 1
  {
    if k == 0 then 1 else 2 * Pow2(k - 1)
  }

  lemma {:induction false} Pow2Add(m: nat, n: nat)
    ensures Pow2(m + n) == Pow2(m) * Pow2(n)
  {
    if m > 0 {
      Pow2Add(m - 1, n);
      assert 2 * (Pow2(m - 1) * Pow2(n)) == 2 * Pow2(m - 1) * Pow2(n);
    }
  }

  lemma ByteBits()
    ensures Pow2(8) == 256
  {
  }

  function Abs(x: int): nat { if x < 0 then -x else x }

  /** C `a & b`. */
  function And(a: int, b: int): int
    decreases Abs(a) + Abs(b)
  {
    if a == 0 || b == 0 then 0
    else if a == -1 then b
    else if b == -1 then a
    else 2 * And(a / 2, b / 2) + (a % 2) * (b % 2)
  }

  /** C `a ^ b`. */
  function Xor(a: int, b: int): int
    decreases Abs(a) + Abs(b)
  {
    if a == 0 then b
    else if b == 0 then a
    else if a == -1 then -1 - b
    else if b == -1 then -1 - a
    else 2 * Xor(a / 2, b / 2) + (if a % 2 == b % 2 then 0 else 1)
  }

  /** C `a | b`. */
  function Or(a: int, b: int): int { -1 - And(-1 - a, -1 - b) }

  /** Bit `i` of the two's-complement expansion. */
  predicate Bit(a: int, i: nat)
    decreases i
  {
    if i == 0 then a % 2 == 1 else Bit(a / 2, i - 1)
  }

  lemma {:induction false} BitAnd(a: int, b: int, i: nat)
    ensures Bit(And(a, b), i) <==> Bit(a, i) && Bit(b, i)
    decreases i
  {
    BitConst(i);
    if i == 0 {
      AndParity(a, b);
    } else if a != 0 && b != 0 && a != -1 && b != -1 {
      var r := And(a / 2, b / 2);
      assert And(a, b) / 2 == r by { hide Bit; AndHalf(a % 2, b % 2); }
      BitAnd(a / 2, b / 2, i - 1);
    }
  }

  lemma AndHalf(a: int, b: int)
    requires 0 <= a <= 1 && 0 <= b <= 1
    ensures 0 <= a * b <= 1
  {
  }

  lemma AndParity(a: int, b: int)
    ensures And(a, b) % 2 == 1 <==> a % 2 == 1 && b % 2 == 1
  {
  }

  lemma {:induction false} BitConst(i: nat)
    ensures !Bit(0, i) && Bit(-1, i)
  {
    if i > 0 { BitConst(i - 1); }
  }

  lemma {:induction false} BitNot(a: int, i: nat)
    ensures Bit(-1 - a, i) <==> !Bit(a, i)
    decreases i
  {
    if i > 0 {
      assert (-1 - a) / 2 == -1 - a / 2;
      BitNot(a / 2, i - 1);
    }
  }

  lemma XorParity(a: int, b: int)
    ensures Xor(a, b) % 2 == 1 <==> a % 2 != b % 2
  {
    if a == 0 || b == 0 {
    } else if a == -1 {
      NotParity(b);
    } else if b == -1 {
      NotParity(a);
    } else {
      XorUnfold(a, b);
      hide Xor;
      DoubledParity(Xor(a / 2, b / 2), a % 2, b % 2);
    }
  }

  lemma XorUnfold(a: int, b: int)
    requires a != 0 && b != 0 && a != -1 && b != -1
    ensures Xor(a, b) == 2 * Xor(a / 2, b / 2) + (if a % 2 == b % 2 then 0 else 1)
  {
  }

  lemma NotParity(b: int)
    ensures (-1 - b) % 2 == 1 - b % 2
  {
  }

  lemma DoubledParity(r: int, s: int, t: int)
    ensures (2 * r + (if s == t then 0 else 1)) % 2 == 1 <==> s != t
  {
  }

  lemma {:induction false} BitXor(a: int, b: int, i: nat)
    ensures Bit(Xor(a, b), i) <==> Bit(a, i) != Bit(b, i)
    decreases i
  {
    BitConst(i);
    BitNot(a, i);
    BitNot(b, i);
    if i == 0 {
      XorParity(a, b);
    } else if a != 0 && b != 0 && a != -1 && b != -1 {
      var r := Xor(a / 2, b / 2);
      assert Xor(a, b) / 2 == r by { hide Bit; }
      BitXor(a / 2, b / 2, i - 1);
    }
  }

  lemma BitOr(a: int, b: int, i: nat)
    ensures Bit(Or(a, b), i) <==> Bit(a, i) || Bit(b, i)
  {
    BitAnd(-1 - a, -1 - b, i);
    BitNot(a, i);
    BitNot(b, i);
    BitNot(Or(a, b), i);
  }

  /** Integers are determined by their bits. */
  lemma {:induction false} BitExt(a: int, b: int)
    requires forall i: nat :: Bit(a, i) <==> Bit(b, i)
    ensures a == b
    decreases Abs(a) + Abs(b)
  {
    assert Bit(a, 0) <==> Bit(b, 0);
    forall i: nat ensures Bit(a / 2, i) <==> Bit(b / 2, i) {
      assert Bit(a, i + 1) <==> Bit(b, i + 1);
    }
    if (a == 0 || a == -1) && (b == 0 || b == -1) {
    } else {
      BitExt(a / 2, b / 2);
    }
  }

  lemma AndComm(a: int, b: int)
    ensures And(a, b) == And(b, a)
  {
    forall i: nat ensures Bit(And(a, b), i) <==> Bit(And(b, a), i) {
      BitAnd(a, b, i);
      BitAnd(b, a, i);
    }
    BitExt(And(a, b), And(b, a));
  }

  lemma OrComm(a: int, b: int)
    ensures Or(a, b) == Or(b, a)
  {
    forall i: nat ensures Bit(Or(a, b), i) <==> Bit(Or(b, a), i) {
      BitOr(a, b, i);
      BitOr(b, a, i);
    }
    BitExt(Or(a, b), Or(b, a));
  }

  lemma XorComm(a: int, b: int)
    ensures Xor(a, b) == Xor(b, a)
  {
    forall i: nat ensures Bit(Xor(a, b), i) <==> Bit(Xor(b, a), i) {
      BitXor(a, b, i);
      BitXor(b, a, i);
    }
    BitExt(Xor(a, b), Xor(b, a));
  }

  lemma XorAssoc(a: int, b: int, c: int)
    ensures Xor(Xor(a, b), c) == Xor(a, Xor(b, c))
  {
    var l, r := Xor(Xor(a, b), c), Xor(a, Xor(b, c));
    forall i: nat ensures Bit(l, i) <==> Bit(r, i) {
      BitXor(Xor(a, b), c, i);
      BitXor(a, b, i);
      BitXor(a, Xor(b, c), i);
      BitXor(b, c, i);
    }
    BitExt(l, r);
  }

  lemma {:induction false} XorSelf(a: int)
    ensures Xor(a, a) == 0
    decreases Abs(a)
  {
    if a != 0 && a != -1 { XorSelf(a / 2); }
  }

  /** Exclusive-or with the same operand twice cancels. */
  lemma XorCancel(a: int, b: int)
    ensures Xor(a, Xor(a, b)) == b
  {
    XorAssoc(a, a, b);
    XorSelf(a);
  }

  /** Masking with 2^k - 1 keeps the residue modulo 2^k, for either sign. */
  lemma {:induction false} AndMask(a: int, k: nat)
    ensures And(a, Pow2(k) - 1) == a % Pow2(k)
    decreases k
  {
    if k > 0 {
      var m := Pow2(k - 1);
      AndMask(a / 2, k - 1);
      ModHalf(a, m);
      assert (2 * m - 1) / 2 == m - 1;
      if a == 0 || a == -1 {
      }
    }
  }

  lemma ModHalf(a: int, m: int)
    requires m >= 1
    ensures a % (2 * m) == 2 * (a / 2 % m) + a % 2
  {
    var q, r := a / 2 / m, a / 2 % m;
    assert a == 2 * m * q + (2 * r + a % 2);
    DivModUnique(a, 2 * m, q, 2 * r + a % 2);
  }

  lemma SmallMultiple(m: int, d: int)
    requires m > 0 && -m < m * d < m
    ensures d == 0
  {
  }

  lemma DivModUnique(a: int, m: int, q: int, r: int)
    requires m > 0 && a == m * q + r && 0 <= r < m
    ensures a / m == q && a % m == r
  {
    var d := a / m - q;
    assert m * d == r - a % m;
    SmallMultiple(m, d);
  }

  /** `|` of operands with disjoint bits is addition. */
  lemma {:induction false} OrDisjoint(hi: int, lo: int, k: nat)
    requires 0 <= lo < Pow2(k) && hi % Pow2(k) == 0
    ensures Or(hi, lo) == hi + lo
    decreases k
  {
    if k == 0 {
      OrZero(hi);
    } else {
      var m := Pow2(k - 1);
      assert Pow2(k) == 2 * m;
      hide Pow2, Or;
      ModHalf(hi, m);
      OrDisjoint(hi / 2, lo / 2, k - 1);
      OrEven(hi / 2, lo / 2, lo % 2);
    }
  }

  lemma OrZero(a: int)
    ensures Or(a, 0) == a
  {
    AndComm(-1 - a, -1);
  }

  /** The last bit of `|` when one operand is even. */
  lemma OrEven(a: int, b: int, c: int)
    requires 0 <= c <= 1
    ensures Or(2 * a, 2 * b + c) == 2 * Or(a, b) + c
  {
    AndOdd(-1 - a, -1 - b, 1 - c);
  }

  lemma AndOdd(x: int, y: int, d: int)
    requires 0 <= d <= 1
    ensures And(2 * x + 1, 2 * y + d) == 2 * And(x, y) + d
  {
    assert (2 * x + 1) / 2 == x && (2 * y + d) / 2 == y;
    assert And(x, 0) == 0 && And(0, y) == 0;
    assert And(-1, y) == y;
    AndComm(x, -1);
  }
}
