/** Arithmetic modulo a field polynomial over GF(2), and the extended Euclidean algorithm. */
module Gf2Field {
  import opened Bits
  import opened Gf2

  /** a and b differ by a multiple of f. */
  ghost predicate Cong(a: nat, b: nat, f: nat) {
    exists k: nat :: Plus(a, b) == Times(k, f)
  }

  lemma CongIntro(a: nat, b: nat, k: nat, f: nat)
    requires Plus(a, b) == Times(k, f)
    ensures Cong(a, b, f)
  {
  }

  lemma CongRefl(a: nat, f: nat)
    ensures Cong(a, a, f)
  {
    PlusRules(a, a);
    TimesOneLeft(f);
    CongIntro(a, a, 0, f);
  }

  lemma CongSym(a: nat, b: nat, f: nat)
    requires Cong(a, b, f)
    ensures Cong(b, a, f)
  {
    hide Plus;
    PlusRules(a, b);
  }

  lemma CongTrans(a: nat, b: nat, c: nat, f: nat)
    requires Cong(a, b, f) && Cong(b, c, f)
    ensures Cong(a, c, f)
  {
    hide Plus, Times;
    var k: nat :| Plus(a, b) == Times(k, f);
    var l: nat :| Plus(b, c) == Times(l, f);
    PlusSwap(a, b, b, c);
    PlusRules(b, b);
    PlusAssoc(a, b, Plus(b, c));
    PlusRules(b, c);
    TimesPlusLeft(k, l, f);
    CongIntro(a, c, Plus(k, l), f);
  }

  lemma CongPlus(a: nat, b: nat, c: nat, d: nat, f: nat)
    requires Cong(a, b, f) && Cong(c, d, f)
    ensures Cong(Plus(a, c), Plus(b, d), f)
  {
    hide Plus, Times;
    var k: nat :| Plus(a, b) == Times(k, f);
    var l: nat :| Plus(c, d) == Times(l, f);
    PlusSwap(a, c, b, d);
    TimesPlusLeft(k, l, f);
    CongIntro(Plus(a, c), Plus(b, d), Plus(k, l), f);
  }

  lemma CongScale(c: nat, a: nat, b: nat, f: nat)
    requires Cong(a, b, f)
    ensures Cong(Times(c, a), Times(c, b), f)
  {
    hide Plus, Times;
    var k: nat :| Plus(a, b) == Times(k, f);
    TimesPlusRight(c, a, b);
    TimesAssoc(c, k, f);
    CongIntro(Times(c, a), Times(c, b), Times(c, k), f);
  }

  lemma CongDouble(a: nat, b: nat, f: nat)
    requires Cong(a, b, f)
    ensures Cong(2 * a, 2 * b, f)
  {
    hide Plus, Times;
    CongScale(2, a, b, f);
    TimesTwo(a);
    TimesTwo(b);
  }

  lemma TimesTwo(a: nat)
    ensures Times(2, a) == 2 * a
  {
    TimesDoubleLeft(1, a);
    TimesOneLeft(a);
  }

  /** Two residues, of degree below that of f, are congruent only when equal. */
  lemma ReducedUnique(a: nat, b: nat, f: nat)
    requires Cong(a, b, f) && Len(a) < Len(f) && Len(b) < Len(f)
    ensures a == b
  {
    hide Plus, Times, Len;
    var k: nat :| Plus(a, b) == Times(k, f);
    LenPlus(a, b, Len(f) - 1);
    if k > 0 {
      LenTimes(k, f) by { assert f > 0 by { LenZero(f); } }
      LenZero(k);
    }
    TimesOneLeft(f);
    PlusRules(a, b);
    PlusRules(a, 0);
  }

  lemma LenZero(a: nat)
    ensures Len(a) == 0 <==> a == 0
  {
  }

  // ---------------------------------------------------------------- one doubling

  /** Multiplication by x, reduced: the source's step(). */
  function XTime(a: nat, f: nat): nat {
    if Len(2 * a) < Len(f) then 2 * a else Plus(2 * a, f)
  }

  lemma XTimeCorrect(a: nat, f: nat)
    requires Len(a) < Len(f)
    ensures Len(XTime(a, f)) < Len(f) && Cong(XTime(a, f), 2 * a, f)
  {
    if Len(2 * a) < Len(f) {
      CongRefl(2 * a, f);
    } else {
      assert Len(2 * a) == Len(f);
      LenCancel(2 * a, f);
      TimesOneLeft(f);
      PlusRules(2 * a, f);
      PlusRules(Plus(2 * a, f), 2 * a);
      CongIntro(Plus(2 * a, f), 2 * a, 1, f);
    }
  }

  /** r is the reduced product of a and b. */
  ghost predicate IsProduct(r: nat, a: nat, b: nat, f: nat) {
    Len(r) < Len(f) && Cong(r, Times(a, b), f)
  }

  lemma ProductUnique(r: nat, s: nat, a: nat, b: nat, f: nat)
    requires IsProduct(r, a, b, f) && IsProduct(s, a, b, f)
    ensures r == s
  {
    CongSym(s, Times(a, b), f);
    CongTrans(r, Times(a, b), s, f);
    ReducedUnique(r, s, f);
  }

  /** One more bit of the multiplier: double, and add a when the bit is set. */
  lemma ProductStep(r: nat, a: nat, c: nat, bit: bool, f: nat)
    requires IsProduct(r, a, c, f) && Len(a) < Len(f)
    ensures IsProduct(if bit then Plus(XTime(r, f), a) else XTime(r, f), a, if bit then 2 * c + 1 else 2 * c, f)
  {
    hide Plus, XTime, Times, Cong;
    var d := XTime(r, f);
    XTimeCorrect(r, f);
    CongDouble(r, Times(a, c), f);
    CongTrans(d, 2 * r, 2 * Times(a, c), f);
    TimesStep(a, c);
    if bit {
      CongRefl(a, f);
      CongPlus(d, 2 * Times(a, c), a, a, f);
      LenPlus(d, a, Len(f) - 1);
    }
  }

  lemma ProductOne(a: nat, f: nat)
    requires Len(a) < Len(f)
    ensures IsProduct(a, a, 1, f)
  {
    TimesComm(a, 1);
    TimesOneLeft(a);
    CongRefl(a, f);
  }

  // ---------------------------------------------------------------- divisibility

  ghost predicate Divides(d: nat, a: nat) { exists q: nat :: Times(q, d) == a }

  /** No common divisor but 1. */
  ghost predicate Coprime(a: nat, b: nat) {
    forall d: nat :: Divides(d, a) && Divides(d, b) ==> d == 1
  }

  lemma DividesSelf(a: nat)
    ensures Divides(a, a)
  {
    TimesOneLeft(a);
    assert Times(1, a) == a;
  }

  lemma DividesPlus(d: nat, a: nat, b: nat)
    requires Divides(d, a) && Divides(d, b)
    ensures Divides(d, Plus(a, b))
  {
    hide Plus, Times;
    var p: nat :| Times(p, d) == a;
    var q: nat :| Times(q, d) == b;
    TimesPlusLeft(p, q, d);
    assert Times(Plus(p, q), d) == Plus(a, b);
  }

  lemma DividesShift(d: nat, a: nat, k: nat)
    requires Divides(d, a)
    ensures a * Pow2(k) >= 0 && Divides(d, a * Pow2(k))
  {
    hide Times;
    var q: nat :| Times(q, d) == a;
    var p: nat := Pow2(k);
    TimesPow(a, k);
    TimesComm(a, p);
    TimesAssoc(p, q, d);
    assert Times(Times(p, q), d) == a * Pow2(k);
  }

  /** Subtracting a shifted multiple keeps the common divisors. */
  lemma CoprimeStep(u: nat, v: nat, j: nat)
    requires Coprime(u, v)
    ensures v * Pow2(j) >= 0 && Coprime(Plus(u, v * Pow2(j)), v)
  {
    hide Plus, Times, Divides, Pow2;
    assert v * Pow2(j) >= 0;
    var t: nat := v * Pow2(j);
    forall d: nat | Divides(d, Plus(u, t)) && Divides(d, v) ensures d == 1 {
      DividesShift(d, v, j);
      DividesPlus(d, Plus(u, t), t);
      PlusAssoc(u, t, t);
      PlusRules(t, t);
      PlusRules(u, 0);
    }
  }

  // ---------------------------------------------------------------- the Euclidean loop

  /** What every turn of the inversion loop keeps, for the field polynomial f of length m + 1:
      u and v are coprime, g1 and g2 are their cofactors modulo f, v is not 1, and no shift can
      lose a bit because the cofactors stay short. */
  ghost predicate EuclidInv(u: nat, v: nat, g1: nat, g2: nat, op: nat, f: nat) {
    && u > 0 && v > 1 && Coprime(u, v)
    && Cong(Times(g1, op), u, f) && Cong(Times(g2, op), v, f)
    && Len(g1) + Len(v) <= Len(f) + 1 && Len(g2) + Len(u) <= Len(f) + 1
  }

  /** One turn without the swap: u becomes u + x^j v and g1 becomes g1 + x^j g2. */
  lemma EuclidStep(u: nat, v: nat, g1: nat, g2: nat, op: nat, f: nat, j: nat)
    requires EuclidInv(u, v, g1, g2, op, f) && Len(u) == Len(v) + j
    ensures v * Pow2(j) >= 0 && g2 * Pow2(j) >= 0
    ensures Len(v * Pow2(j)) == Len(u) && Len(g2 * Pow2(j)) <= Len(f) + 1 - Len(v)
    ensures EuclidInv(Plus(u, v * Pow2(j)), v, Plus(g1, g2 * Pow2(j)), g2, op, f)
    ensures Len(Plus(u, v * Pow2(j))) < Len(u)
  {
    hide Plus, Times, Cong, Divides, Pow2, Coprime;
    LenShift(v, j);
    LenZero(u);
    var t: nat := v * Pow2(j);
    LenCancel(u, t);
    CoprimeStep(u, v, j);
    EuclidNonzero(u, v, j);
    EuclidCofactor(u, v, g1, g2, op, f, j);
    EuclidLength(g1, g2, j, Len(f) + 1 - Len(v));
  }

  lemma EuclidNonzero(u: nat, v: nat, j: nat)
    requires v > 1 && Coprime(u, v) && v * Pow2(j) >= 0
    ensures Plus(u, v * Pow2(j)) > 0
  {
    hide Plus, Times, Pow2;
    var t: nat := v * Pow2(j);
    if Plus(u, t) == 0 {
      PlusAssoc(u, t, t);
      PlusRules(t, t);
      PlusRules(u, 0);
      DividesSelf(v);
      DividesShift(v, v, j);
    }
  }

  lemma EuclidCofactor(u: nat, v: nat, g1: nat, g2: nat, op: nat, f: nat, j: nat)
    requires Cong(Times(g1, op), u, f) && Cong(Times(g2, op), v, f)
    ensures v * Pow2(j) >= 0 && g2 * Pow2(j) >= 0
    ensures Cong(Times(Plus(g1, g2 * Pow2(j)), op), Plus(u, v * Pow2(j)), f)
  {
    hide Plus, Times, Cong, Pow2;
    var p: nat := Pow2(j);
    CongScale(p, Times(g2, op), v, f);
    TimesAssoc(p, g2, op);
    TimesComm(p, g2);
    TimesComm(p, v);
    TimesPow(g2, j);
    TimesPow(v, j);
    CongPlus(Times(g1, op), u, Times(g2 * Pow2(j), op), v * Pow2(j), f);
    TimesPlusLeft(g1, g2 * Pow2(j), op);
  }

  lemma EuclidLength(g1: nat, g2: nat, j: nat, n: int)
    requires Len(g1) <= n && Len(g2) + j <= n
    ensures g2 * Pow2(j) >= 0 && Len(g2 * Pow2(j)) <= n && Len(Plus(g1, g2 * Pow2(j))) <= n
  {
    hide Plus, Len, Pow2;
    LenZero(g2);
    if g2 > 0 { LenShift(g2, j); }
    LenPlus(g1, g2 * Pow2(j), n);
  }

  /** Swapping the two rows; u is not 1, since the loop goes on. */
  lemma EuclidSwap(u: nat, v: nat, g1: nat, g2: nat, op: nat, f: nat)
    requires EuclidInv(u, v, g1, g2, op, f) && u != 1
    ensures EuclidInv(v, u, g2, g1, op, f)
  {
  }

  lemma EuclidStart(op: nat, f: nat)
    requires op > 0 && f > 1 && Coprime(op, f) && Len(op) < Len(f)
    ensures EuclidInv(op, f, 1, 0, op, f)
  {
    hide Plus, Times;
    TimesOneLeft(op);
    CongRefl(op, f);
    TimesOneLeft(f);
    PlusRules(f, 0);
    assert Plus(0, f) == Times(1, f);
    CongIntro(Times(0, op), f, 1, f);
    assert Len(1) == 1 && Len(0) == 0;
  }

  /** When u is 1, g1 is the inverse, already reduced. */
  lemma EuclidEnd(v: nat, g1: nat, g2: nat, op: nat, f: nat)
    requires EuclidInv(1, v, g1, g2, op, f)
    ensures IsInverse(g1, op, f)
  {
    LenTwo(v);
  }

  lemma LenTwo(v: nat)
    requires v > 1
    ensures Len(v) >= 2
  {
  }

  ghost predicate IsInverse(r: nat, op: nat, f: nat) {
    Len(r) < Len(f) && Cong(Times(r, op), 1, f)
  }

  /** There is only one reduced inverse. */
  lemma InverseUnique(r: nat, s: nat, op: nat, f: nat)
    requires IsInverse(r, op, f) && IsInverse(s, op, f)
    ensures r == s
  {
    hide Plus, Times, Cong;
    // r = r (op s) = (r op) s = s
    CongScale(s, Times(r, op), 1, f);
    CongScale(r, Times(s, op), 1, f);
    TimesComm(r, 1);
    TimesComm(s, 1);
    TimesOneLeft(r);
    TimesOneLeft(s);
    TimesAssoc(r, s, op);
    TimesAssoc(s, r, op);
    TimesComm(r, s);
    CongSym(Times(r, Times(s, op)), r, f);
    CongTrans(r, Times(r, Times(s, op)), s, f);
    ReducedUnique(r, s, f);
  }

  // ---------------------------------------------------------------- when the loop ends

  /** A common divisor of u and v other than 1. */
  ghost predicate Shared(d: nat, u: nat, v: nat) {
    d != 1 && Divides(d, u) && Divides(d, v)
  }

  lemma UnitLength()
    ensures Len(1) == 1
  {
  }

  lemma DividesOne(d: nat)
    requires Divides(d, 1)
    ensures d == 1
  {
    hide Times, Len;
    var q: nat :| Times(q, d) == 1;
    TimesOneLeft(d);
    TimesComm(q, 0);
    TimesOneLeft(q);
    LenTimes(q, d);
    LenZero(q);
    LenZero(d);
    assert Len(1) == 1 by { UnitLength(); }
    if d > 1 { LenTwo(d); }
  }

  /** What shares a factor is not 1. */
  lemma SharedNotOne(d: nat, u: nat, v: nat)
    requires Shared(d, u, v)
    ensures u != 1 && v != 1
  {
    hide Divides;
    if u == 1 || v == 1 { DividesOne(d); }
  }

  lemma OneCoprime(f: nat)
    ensures Coprime(1, f)
  {
    hide Divides;
    forall d: nat | Divides(d, 1) && Divides(d, f) ensures d == 1 { DividesOne(d); }
  }

  /** The length that a turn measures, s short of the number of bits but 0 for 0. */
  function Measured(u: nat, s: nat): int { if u == 0 then 0 else Len(u) - s }

  /** The shift of a turn loses no bit: where neither row is 0 it aligns the leading ones, and where
      one is it moves the other to s bits at most, or nothing. */
  lemma TurnFits(u: nat, v: nat, j: nat, s: nat, w: nat, n: nat)
    requires j == Measured(u, s) - Measured(v, s) && Len(u) <= w && Len(v) <= w && s <= w <= n
    ensures v * Pow2(j) >= 0 && Len(v * Pow2(j)) <= w && (v * Pow2(j)) % Pow2(n) == v * Pow2(j)
    ensures j <= w && (s > 0 ==> j < w)
  {
    ZeroLength();
    hide Pow2, Len;
    LenZero(u);
    LenZero(v);
    if v > 0 { LenShift(v, j); }
    var t := v * Pow2(j);
    LenBound(t, n);
    BelowSelf(t, Pow2(n));
  }

  lemma ZeroLength()
    ensures Len(0) == 0
  {
  }

  lemma MeasuredLength(u: nat)
    ensures Measured(u, 0) == Len(u)
  {
    ZeroLength();
  }

  lemma BelowSelf(x: int, m: int)
    requires 0 <= x < m
    ensures x % m == x
  {
  }

  /** What every turn keeps: for coprime rows the invariant of the loop, with the turns t made so
      far; for others the common divisor. */
  ghost predicate Running(d: nat, u: nat, v: nat, g1: nat, g2: nat, op: nat, f: nat, t: nat, b: nat) {
    if Coprime(op, f) then EuclidInv(u, v, g1, g2, op, f) && Len(u) + Len(v) + t <= b else Shared(d, u, v)
  }

  lemma RunStart(op: nat, f: nat, b: nat) returns (d: nat)
    requires f > 1 && Len(op) < Len(f) && Len(op) + Len(f) <= b
    ensures Running(d, op, f, 1, 0, op, f, 0, b)
  {
    hide Len, EuclidInv;
    d := 0;
    if Coprime(op, f) {
      if op == 0 { ZeroShares(f); }
      EuclidStart(op, f);
    } else {
      d :| Divides(d, op) && Divides(d, f) && d != 1;
    }
  }

  /** 0 shares f with f. */
  lemma ZeroShares(f: nat)
    requires f > 1
    ensures !Coprime(0, f)
  {
    hide Times;
    TimesOneLeft(f);
    assert Times(0, f) == 0 && Times(1, f) == f;
    assert Divides(f, 0) && Divides(f, f);
  }

  lemma RunSwap(d: nat, u: nat, v: nat, g1: nat, g2: nat, op: nat, f: nat, t: nat, b: nat)
    requires Running(d, u, v, g1, g2, op, f, t, b) && u != 1
    ensures Running(d, v, u, g2, g1, op, f, t, b)
  {
    hide Coprime, Divides;
    if Coprime(op, f) { EuclidSwap(u, v, g1, g2, op, f); }
  }

  /** One turn, its rows in order. */
  lemma RunStep(d: nat, u: nat, v: nat, g1: nat, g2: nat, h: nat, op: nat, f: nat, t: nat, b: nat, j: nat, s: nat)
    requires Running(d, u, v, g1, g2, op, f, t, b) && j == Measured(u, s) - Measured(v, s)
    requires g2 * Pow2(j) >= 0 && (Coprime(op, f) ==> h == Plus(g1, g2 * Pow2(j)))
    ensures v * Pow2(j) >= 0 && Running(d, Plus(u, v * Pow2(j)), v, h, g2, op, f, t + 1, b)
  {
    hide Coprime, Divides, Plus, Pow2, Len, EuclidInv;
    if Coprime(op, f) {
      PositiveRows(u, v, g1, g2, op, f);
      EuclidStep(u, v, g1, g2, op, f, j);
    } else {
      DividesShift(d, v, j);
      DividesPlus(d, u, v * Pow2(j));
    }
  }

  lemma PositiveRows(u: nat, v: nat, g1: nat, g2: nat, op: nat, f: nat)
    requires EuclidInv(u, v, g1, g2, op, f)
    ensures u > 0 && v > 0 && Len(u) >= 1 && Len(v) >= 2
    ensures Len(g1) + Len(v) <= Len(f) + 1 && Len(g2) + Len(u) <= Len(f) + 1
  {
    LenTwo(v);
  }

  /** In a run of coprime rows the cofactors stay short. */
  lemma ShiftedCofactor(u: nat, v: nat, g1: nat, g2: nat, op: nat, f: nat, j: nat, s: nat, n: nat)
    requires EuclidInv(u, v, g1, g2, op, f) && j == Measured(u, s) - Measured(v, s) && Len(f) <= n + 1
    ensures g2 * Pow2(j) >= 0 && (g2 * Pow2(j)) % Pow2(n) == g2 * Pow2(j)
  {
    hide Plus, Pow2, Len, EuclidInv;
    PositiveRows(u, v, g1, g2, op, f);
    EuclidStep(u, v, g1, g2, op, f, j);
    LenBound(g2 * Pow2(j), n);
    BelowSelf(g2 * Pow2(j), Pow2(n));
  }

  /** One turn on buffers of n bits. */
  lemma RunNext(d: nat, u: nat, v: nat, g1: nat, g2: nat, h: nat, op: nat, f: nat, t: nat, b: nat,
    j: nat, s: nat, n: nat)
    requires Running(d, u, v, g1, g2, op, f, t, b) && j == Measured(u, s) - Measured(v, s) && Len(f) <= n + 1
    requires (g2 * Pow2(j)) % Pow2(n) >= 0 && h == Plus(g1, (g2 * Pow2(j)) % Pow2(n))
    ensures v * Pow2(j) >= 0 && Running(d, Plus(u, v * Pow2(j)), v, h, g2, op, f, t + 1, b)
  {
    hide Pow2, Len, Plus, Coprime, EuclidInv;
    if Coprime(op, f) { ShiftedCofactor(u, v, g1, g2, op, f, j, s, n); }
    ProductNat(g2, Pow2(j));
    RunStep(d, u, v, g1, g2, h, op, f, t, b, j, s);
  }

  lemma ProductNat(a: nat, p: int)
    requires p >= 1
    ensures a * p >= 0
  {
  }

  /** The loop never ends on rows that share a factor, and ends within b turns on others. */
  lemma RunEnds(d: nat, u: nat, v: nat, g1: nat, g2: nat, op: nat, f: nat, t: nat, b: nat)
    requires Running(d, u, v, g1, g2, op, f, t, b)
    ensures u == 1 ==> Coprime(op, f) && IsInverse(g1, op, f)
    ensures Coprime(op, f) ==> t < b
  {
    hide Coprime, Len, EuclidInv, IsInverse;
    if Coprime(op, f) {
      PositiveRows(u, v, g1, g2, op, f);
      if u == 1 { EuclidEnd(v, g1, g2, op, f); }
    } else {
      SharedNotOne(d, u, v);
    }
  }
}
