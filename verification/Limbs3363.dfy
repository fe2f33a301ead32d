/** Six-limb arithmetic modulo p = 2^336 - 3, with 56-bit limbs.

    The conventions are those of Limbs1174: signed 64-bit limbs, 128-bit accumulators, sums
    that leave limbs loose and products that tighten them. All limbs have one width here, so
    the top carry folds back as three times itself with no separate split. */
module Limbs3363 {
  import opened Bits
  import opened Branchless
  import opened PrimeField
  import opened Limbs1174

  /** The modulus 2^336 - 3. */
  const Q: int := 0xfffffffffffffffffffffffffffffffffffffffffffffffffffffffffffffffffffffffffffffffffffd

  /** 2^336. */
  const TOP: int := 0x1000000000000000000000000000000000000000000000000000000000000000000000000000000000000

  datatype Fe6 = Fe6(a0: int, a1: int, a2: int, a3: int, a4: int, a5: int)

  /** The integer that limbs denote: the sum of a_i 2^(56 i). */
  function V6(f: Fe6): int {
    f.a0 + f.a1 * 0x100000000000000 + f.a2 * 0x10000000000000000000000000000
      + f.a3 * 0x1000000000000000000000000000000000000000000
      + f.a4 * 0x100000000000000000000000000000000000000000000000000000000
      + f.a5 * 0x10000000000000000000000000000000000000000000000000000000000000000000000
  }

  predicate Within6(f: Fe6, n: int) {
    && -n <= f.a0 <= n && -n <= f.a1 <= n && -n <= f.a2 <= n && -n <= f.a3 <= n && -n <= f.a4 <= n && -n <= f.a5 <= n
  }

  /** Eight reduced elements of at most 2^56 + 2^20: what a multiplication accepts. */
  predicate Loose6(f: Fe6) { Within6(f, 0x800000000800000) }

  /** What a reduction leaves: proper digits, except that limb 0 still holds the last fold. */
  predicate Tight6(f: Fe6) {
    && -0x100000 <= f.a0 < 0x100000000100000
    && 0 <= f.a1 < 0x100000000000000 && 0 <= f.a2 < 0x100000000000000 && 0 <= f.a3 < 0x100000000000000
    && 0 <= f.a4 < 0x100000000000000 && 0 <= f.a5 < 0x100000000000000
  }

  /** Digits of a number below 2^336. */
  predicate Digits6(f: Fe6) { Tight6(f) && 0 <= f.a0 < 0x100000000000000 }

  function L6(a: array<int64>): Fe6
    requires a.Length == 6
    reads a
  {
    Fe6(a[0], a[1], a[2], a[3], a[4], a[5])
  }

  /** `x & bot56bits` and `x >> 56`. */
  function Low56(x: int): (r: int) ensures 0 <= r < 0x100000000000000 { x % 0x100000000000000 }
  function Asr56(x: int): (r: int) ensures x == r * 0x100000000000000 + Low56(x) { x / 0x100000000000000 }

  /** The residue above is the source's mask, for operands of either sign. */
  lemma MaskIsAnd(x: int)
    ensures Low56(x) == And(x, 0xffffffffffffff)
  {
    Pow2Of56();
    hide Pow2, And;
    AndMask(x, 56);
  }

  lemma Pow2Of56()
    ensures Pow2(56) == 0x100000000000000
  {
    assert Pow2(7) == 128;
    hide Pow2;
    Pow2Add(7, 7);
    Pow2Add(14, 14);
    Pow2Add(28, 28);
  }

  // ---------------------------------------------------------------- sums and differences

  function AddFe6(x: Fe6, y: Fe6): Fe6 {
    Fe6(x.a0 + y.a0, x.a1 + y.a1, x.a2 + y.a2, x.a3 + y.a3, x.a4 + y.a4, x.a5 + y.a5)
  }
  function SubFe6(x: Fe6, y: Fe6): Fe6 {
    Fe6(x.a0 - y.a0, x.a1 - y.a1, x.a2 - y.a2, x.a3 - y.a3, x.a4 - y.a4, x.a5 - y.a5)
  }
  function NegFe6(x: Fe6): Fe6 { Fe6(-x.a0, -x.a1, -x.a2, -x.a3, -x.a4, -x.a5) }

  lemma SumValues6(x: Fe6, y: Fe6)
    ensures V6(AddFe6(x, y)) == V6(x) + V6(y) && V6(SubFe6(x, y)) == V6(x) - V6(y) && V6(NegFe6(x)) == -V6(x)
  {
  }

  method GSub6(x: array<int64>, y: array<int64>, w: array<int64>)
    requires x.Length == 6 && y.Length == 6 && w.Length == 6
    requires Within6(SubFe6(L6(x), L6(y)), 0x7fff_ffff_ffff_ffff)
    modifies w
    ensures L6(w) == old(SubFe6(L6(x), L6(y)))
  {
    w[0] := x[0] - y[0];
    w[1] := x[1] - y[1];
    w[2] := x[2] - y[2];
    w[3] := x[3] - y[3];
    w[4] := x[4] - y[4];
    w[5] := x[5] - y[5];
  }

  method GNeg6(x: array<int64>, y: array<int64>)
    requires x.Length == 6 && y.Length == 6 && Within6(L6(x), 0x7fff_ffff_ffff_ffff)
    modifies y
    ensures L6(y) == old(NegFe6(L6(x)))
  {
    y[0] := -x[0];
    y[1] := -x[1];
    y[2] := -x[2];
    y[3] := -x[3];
    y[4] := -x[4];
    y[5] := -x[5];
  }

  // ---------------------------------------------------------------- short coefficient reduction

  /** One carry pass; the carry out of the top limb folds back as 3 times itself. */
  function ScrFe6(w: Fe6): Fe6 {
    var t1 := w.a1 + Asr56(w.a0);
    var t2 := w.a2 + Asr56(t1);
    var t3 := w.a3 + Asr56(t2);
    var t4 := w.a4 + Asr56(t3);
    var t5 := w.a5 + Asr56(t4);
    Fe6(Low56(w.a0) + 3 * Asr56(t5), Low56(t1), Low56(t2), Low56(t3), Low56(t4), Low56(t5))
  }

  lemma ScrSteps6(w: Fe6, t1: int, t2: int, t3: int, t4: int, t5: int)
    requires t1 == w.a1 + Asr56(w.a0) && t2 == w.a2 + Asr56(t1) && t3 == w.a3 + Asr56(t2)
    requires t4 == w.a4 + Asr56(t3) && t5 == w.a5 + Asr56(t4)
    ensures ScrFe6(w) == Fe6(Low56(w.a0) + 3 * Asr56(t5), Low56(t1), Low56(t2), Low56(t3), Low56(t4), Low56(t5))
  {
    hide Low56, Asr56;
  }

  /** The carry pass subtracts the quotient by 2^336, times p. */
  lemma ScrValue6(w: Fe6) returns (k: int)
    ensures k == V6(w) / TOP
    ensures V6(ScrFe6(w)) ==
      V6(w) - k * 0xfffffffffffffffffffffffffffffffffffffffffffffffffffffffffffffffffffffffffffffffffffd
    ensures Digits6(ScrFe6(w).(a0 := ScrFe6(w).a0 - 3 * k))
    ensures V6(ScrFe6(w)) == V6(w) % TOP + 3 * k
  {
    hide Low56, Asr56, ScrFe6, V6;
    var t1 := w.a1 + Asr56(w.a0);
    var t2 := w.a2 + Asr56(t1);
    var t3 := w.a3 + Asr56(t2);
    var t4 := w.a4 + Asr56(t3);
    var t5 := w.a5 + Asr56(t4);
    ScrSteps6(w, t1, t2, t3, t4, t5);
    k := Asr56(t5);
    var r := Fe6(Low56(w.a0), Low56(t1), Low56(t2), Low56(t3), Low56(t4), Low56(t5));
    ScrIdentity6(w, Asr56(w.a0), Asr56(t1), Asr56(t2), Asr56(t3), Asr56(t4), k, r);
    DigitsRange6(r);
    DivModUnique(V6(w), TOP, k, V6(r));
  }

  lemma ScrIdentity6(w: Fe6, q0: int, q1: int, q2: int, q3: int, q4: int, q: int, r: Fe6)
    requires w.a0 == q0 * 0x100000000000000 + r.a0
    requires w.a1 + q0 == q1 * 0x100000000000000 + r.a1
    requires w.a2 + q1 == q2 * 0x100000000000000 + r.a2
    requires w.a3 + q2 == q3 * 0x100000000000000 + r.a3
    requires w.a4 + q3 == q4 * 0x100000000000000 + r.a4
    requires w.a5 + q4 == q * 0x100000000000000 + r.a5
    ensures V6(w) == q * 0x1000000000000000000000000000000000000000000000000000000000000000000000000000000000000 + V6(r)
    ensures V6(r.(a0 := r.a0 + 3 * q)) ==
      V6(w) - q * 0xfffffffffffffffffffffffffffffffffffffffffffffffffffffffffffffffffffffffffffffffffffd
  {
  }

  lemma DigitsRange6(f: Fe6)
    requires Digits6(f)
    ensures 0 <= V6(f) < TOP
  {
  }

  lemma EqQ(a: int, b: int, k: int)
    requires a == b + k * 0xfffffffffffffffffffffffffffffffffffffffffffffffffffffffffffffffffffffffffffffffffffd
    ensures Eq(a, b, Q)
  {
    EqIntro(a, b, k, Q);
  }

  /** A carry pass over accumulators, whose top limb is the narrowest, gives a tight element. */
  lemma WideScr6(w: Fe6)
    requires Within6(w.(a5 := 0), 0x20000000000000000000000000000000)
      && -0x4000000000000000000 <= w.a5 <= 0x4000000000000000000
    ensures Tight6(ScrFe6(w)) && Eq(V6(ScrFe6(w)), V6(w), Q)
  {
    hide ScrFe6, V6;
    var k := ScrValue6(w);
    WideCarry6(w, k);
    EqQ(V6(ScrFe6(w)), V6(w), -k);
  }

  lemma WideCarry6(w: Fe6, k: int)
    requires Within6(w.(a5 := 0), 0x20000000000000000000000000000000)
      && -0x4000000000000000000 <= w.a5 <= 0x4000000000000000000
    requires k == V6(w) / TOP
    ensures -0x50000 <= k <= 0x50000
  {
  }

  lemma WideScrWithin6(w: Fe6)
    requires Within6(w, 0x4000_0000_0000_0000)
    ensures Tight6(ScrFe6(w)) && Eq(V6(ScrFe6(w)), V6(w), Q)
  {
    hide ScrFe6, V6;
    WideScr6(w);
  }

  predicate FitsInt64(t: int) { -0x7fff_ffff_ffff_ffff <= t <= 0x7fff_ffff_ffff_ffff }

  /** The carries of a pass over 64-bit limbs. */
  lemma ScrBounds6(w: Fe6)
    requires Within6(w, 0x4000_0000_0000_0000)
    ensures var t1 := w.a1 + Asr56(w.a0);
      var t2 := w.a2 + Asr56(t1);
      var t3 := w.a3 + Asr56(t2);
      var t4 := w.a4 + Asr56(t3);
      var t5 := w.a5 + Asr56(t4);
      && FitsInt64(t1) && FitsInt64(t2) && FitsInt64(t3) && FitsInt64(t4) && FitsInt64(t5)
      && -0x80 <= Asr56(w.a0) <= 0x80 && -0x80 <= Asr56(t1) <= 0x80 && -0x80 <= Asr56(t2) <= 0x80
      && -0x80 <= Asr56(t3) <= 0x80 && -0x80 <= Asr56(t4) <= 0x80 && -0x80 <= Asr56(t5) <= 0x80
  {
    hide Low56, Asr56;
  }

  method Scr6(w: array<int64>)
    requires w.Length == 6 && Within6(L6(w), 0x4000_0000_0000_0000)
    modifies w
    ensures L6(w) == old(ScrFe6(L6(w)))
    ensures Tight6(L6(w)) && Eq(V6(L6(w)), old(V6(L6(w))), Q)
  {
    hide Low56, V6, Eq, ScrFe6, Tight6, Asr56, Within6;
    ghost var f := L6(w);
    WideScrWithin6(f);
    ScrBounds6(f);
    var t0: int64, t1: int64, t2: int64;
    t0 := Low56(w[0]);
    t1 := w[1] + Asr56(w[0]);
    ghost var s1 := t1;
    w[1] := Low56(t1);
    t2 := w[2] + Asr56(t1);
    ghost var s2 := t2;
    w[2] := Low56(t2);
    t1 := w[3] + Asr56(t2);
    ghost var s3 := t1;
    w[3] := Low56(t1);
    t2 := w[4] + Asr56(t1);
    w[4] := Low56(t2);
    t1 := w[5] + Asr56(t2);
    w[5] := Low56(t1);
    w[0] := t0 + 3 * Asr56(t1);
    ScrSteps6(f, s1, s2, s3, t2, t1);
  }

  // ---------------------------------------------------------------- multiplication by a small constant

  function ScaleFe6(w: Fe6, i: int): Fe6 {
    Fe6(Mul(w.a0, i), Mul(w.a1, i), Mul(w.a2, i), Mul(w.a3, i), Mul(w.a4, i), Mul(w.a5, i))
  }

  lemma ScaleValue6(w: Fe6, i: int)
    ensures V6(ScaleFe6(w, i)) == V6(w) * i
  {
  }

  lemma ScaleBound6(a: int, i: int)
    requires -0x800000000800000 <= a <= 0x800000000800000 && -0x4000 <= i <= 0x4000
    ensures -0x4000000000000000000 <= Mul(a, i) <= 0x4000000000000000000
  {
    ProductBound(a, i, 0x800000000800000, 0x4000);
  }

  lemma ScaleBounds6(w: Fe6, i: int)
    requires Loose6(w) && -0x4000 <= i <= 0x4000
    ensures Within6(ScaleFe6(w, i), 0x4000000000000000000)
  {
    hide Mul;
    ScaleBound6(w.a0, i);
    ScaleBound6(w.a1, i);
    ScaleBound6(w.a2, i);
    ScaleBound6(w.a3, i);
    ScaleBound6(w.a4, i);
    ScaleBound6(w.a5, i);
  }

  lemma ScaleCorrect6(w: Fe6, i: int)
    requires Loose6(w) && -0x4000 <= i <= 0x4000
    ensures Tight6(ScrFe6(ScaleFe6(w, i))) && Eq(V6(ScrFe6(ScaleFe6(w, i))), V6(w) * i, Q)
  {
    ScaleBounds6(w, i);
    ScaleValue6(w, i);
    hide ScrFe6, V6, Eq, Mul;
    WideScr6(ScaleFe6(w, i));
  }

  /** The curve constant 11111 is within the factors allowed. */
  method GMuli6(w: array<int64>, i: int)
    requires w.Length == 6 && Loose6(L6(w)) && -0x4000 <= i <= 0x4000
    modifies w
    ensures L6(w) == old(ScrFe6(ScaleFe6(L6(w), i)))
    ensures Tight6(L6(w)) && Eq(V6(L6(w)), old(V6(L6(w))) * i, Q)
  {
    hide Low56, Asr56, V6, Eq, ScrFe6, Mul;
    ghost var f := ScaleFe6(L6(w), i);
    ScaleBounds6(L6(w), i);
    ScaleCorrect6(L6(w), i);
    var t: int128;
    t := Mul(w[0], i);
    w[0] := Low56(t);
    t := Mul(w[1], i) + Asr56(t);
    ghost var s1 := t;
    w[1] := Low56(t);
    t := Mul(w[2], i) + Asr56(t);
    ghost var s2 := t;
    w[2] := Low56(t);
    t := Mul(w[3], i) + Asr56(t);
    ghost var s3 := t;
    w[3] := Low56(t);
    t := Mul(w[4], i) + Asr56(t);
    ghost var s4 := t;
    w[4] := Low56(t);
    t := Mul(w[5], i) + Asr56(t);
    w[5] := Low56(t);
    w[0] := w[0] + 3 * Asr56(t);
    ScrSteps6(f, s1, s2, s3, s4, t);
  }

  // ---------------------------------------------------------------- multiplication

  /** The eleven column sums of the product of two six-limb numbers. */
  datatype Cols6 = Cols6(c0: int, c1: int, c2: int, c3: int, c4: int, c5: int, c6: int, c7: int, c8: int, c9: int,
    c10: int)

  function Columns6(x: Fe6, y: Fe6): Cols6 {
    Cols6(Mul(x.a0, y.a0),
          Mul(x.a0, y.a1) + Mul(x.a1, y.a0),
          Mul(x.a0, y.a2) + Mul(x.a1, y.a1) + Mul(x.a2, y.a0),
          Mul(x.a0, y.a3) + Mul(x.a1, y.a2) + Mul(x.a2, y.a1) + Mul(x.a3, y.a0),
          Mul(x.a0, y.a4) + Mul(x.a1, y.a3) + Mul(x.a2, y.a2) + Mul(x.a3, y.a1) + Mul(x.a4, y.a0),
          Mul(x.a0, y.a5) + Mul(x.a1, y.a4) + Mul(x.a2, y.a3) + Mul(x.a3, y.a2) + Mul(x.a4, y.a1) + Mul(x.a5, y.a0),
          Mul(x.a1, y.a5) + Mul(x.a2, y.a4) + Mul(x.a3, y.a3) + Mul(x.a4, y.a2) + Mul(x.a5, y.a1),
          Mul(x.a2, y.a5) + Mul(x.a3, y.a4) + Mul(x.a4, y.a3) + Mul(x.a5, y.a2),
          Mul(x.a3, y.a5) + Mul(x.a4, y.a4) + Mul(x.a5, y.a3),
          Mul(x.a4, y.a5) + Mul(x.a5, y.a4),
          Mul(x.a5, y.a5))
  }

  /** The integer that columns denote: the sum of c_i 2^(56 i). */
  function CV6(c: Cols6): int {
    c.c0
      + c.c1 * 0x100000000000000
      + c.c2 * 0x10000000000000000000000000000
      + c.c3 * 0x1000000000000000000000000000000000000000000
      + c.c4 * 0x100000000000000000000000000000000000000000000000000000000
      + c.c5 * 0x10000000000000000000000000000000000000000000000000000000000000000000000
      + 0x1000000000000000000000000000000000000000000000000000000000000000000000000000000000000
        * (c.c6 + c.c7 * 0x100000000000000 + c.c8 * 0x10000000000000000000000000000
          + c.c9 * 0x1000000000000000000000000000000000000000000
          + c.c10 * 0x100000000000000000000000000000000000000000000000000000000)
  }

  /** Columns 6 to 10 stand 2^336 = 3 above columns 0 to 4; so does the part of column 5 above
      2^56, which the source carries first. */
  function FoldFe6(c: Cols6): Fe6 {
    Fe6(c.c0 + 3 * (c.c6 + Asr56(c.c5)), c.c1 + 3 * c.c7, c.c2 + 3 * c.c8, c.c3 + 3 * c.c9, c.c4 + 3 * c.c10,
      Low56(c.c5))
  }

  /** The limbs of a product. */
  function MulFe6(x: Fe6, y: Fe6): Fe6 { ScrFe6(FoldFe6(Columns6(x, y))) }

  lemma ColumnsValue6(x: Fe6, y: Fe6)
    ensures CV6(Columns6(x, y)) == V6(x) * V6(y)
  {
  }

  lemma FoldValue6(c: Cols6)
    ensures Eq(V6(FoldFe6(c)), CV6(c), Q)
  {
    hide Low56, Asr56, Eq;
    EqQ(V6(FoldFe6(c)), CV6(c),
      -(c.c6 + Asr56(c.c5)) - c.c7 * 0x100000000000000 - c.c8 * 0x10000000000000000000000000000
        - c.c9 * 0x1000000000000000000000000000000000000000000
        - c.c10 * 0x100000000000000000000000000000000000000000000000000000000);
  }

  lemma LimbProduct6(a: int, b: int)
    requires -0x800000000800000 <= a <= 0x800000000800000 && -0x800000000800000 <= b <= 0x800000000800000
    ensures -0x400010000000000000000000000000 <= Mul(a, b) <= 0x400010000000000000000000000000
  {
    ProductBound(a, b, 0x800000000800000, 0x800000000800000);
  }

  lemma LimbProducts6(x: Fe6, y: Fe6)
    requires Loose6(x) && Loose6(y)
    ensures var m := 0x400010000000000000000000000000;
      && (-m <= Mul(x.a0, y.a0) <= m && -m <= Mul(x.a0, y.a1) <= m && -m <= Mul(x.a0, y.a2) <= m
          && -m <= Mul(x.a0, y.a3) <= m && -m <= Mul(x.a0, y.a4) <= m && -m <= Mul(x.a0, y.a5) <= m)
      && (-m <= Mul(x.a1, y.a0) <= m && -m <= Mul(x.a1, y.a1) <= m && -m <= Mul(x.a1, y.a2) <= m
          && -m <= Mul(x.a1, y.a3) <= m && -m <= Mul(x.a1, y.a4) <= m && -m <= Mul(x.a1, y.a5) <= m)
      && (-m <= Mul(x.a2, y.a0) <= m && -m <= Mul(x.a2, y.a1) <= m && -m <= Mul(x.a2, y.a2) <= m
          && -m <= Mul(x.a2, y.a3) <= m && -m <= Mul(x.a2, y.a4) <= m && -m <= Mul(x.a2, y.a5) <= m)
      && (-m <= Mul(x.a3, y.a0) <= m && -m <= Mul(x.a3, y.a1) <= m && -m <= Mul(x.a3, y.a2) <= m
          && -m <= Mul(x.a3, y.a3) <= m && -m <= Mul(x.a3, y.a4) <= m && -m <= Mul(x.a3, y.a5) <= m)
      && (-m <= Mul(x.a4, y.a0) <= m && -m <= Mul(x.a4, y.a1) <= m && -m <= Mul(x.a4, y.a2) <= m
          && -m <= Mul(x.a4, y.a3) <= m && -m <= Mul(x.a4, y.a4) <= m && -m <= Mul(x.a4, y.a5) <= m)
      && (-m <= Mul(x.a5, y.a0) <= m && -m <= Mul(x.a5, y.a1) <= m && -m <= Mul(x.a5, y.a2) <= m
          && -m <= Mul(x.a5, y.a3) <= m && -m <= Mul(x.a5, y.a4) <= m && -m <= Mul(x.a5, y.a5) <= m)
  {
    hide Mul;
    LimbProduct6(x.a0, y.a0); LimbProduct6(x.a0, y.a1); LimbProduct6(x.a0, y.a2); LimbProduct6(x.a0, y.a3);
    LimbProduct6(x.a0, y.a4); LimbProduct6(x.a0, y.a5);
    LimbProduct6(x.a1, y.a0); LimbProduct6(x.a1, y.a1); LimbProduct6(x.a1, y.a2); LimbProduct6(x.a1, y.a3);
    LimbProduct6(x.a1, y.a4); LimbProduct6(x.a1, y.a5);
    LimbProduct6(x.a2, y.a0); LimbProduct6(x.a2, y.a1); LimbProduct6(x.a2, y.a2); LimbProduct6(x.a2, y.a3);
    LimbProduct6(x.a2, y.a4); LimbProduct6(x.a2, y.a5);
    LimbProduct6(x.a3, y.a0); LimbProduct6(x.a3, y.a1); LimbProduct6(x.a3, y.a2); LimbProduct6(x.a3, y.a3);
    LimbProduct6(x.a3, y.a4); LimbProduct6(x.a3, y.a5);
    LimbProduct6(x.a4, y.a0); LimbProduct6(x.a4, y.a1); LimbProduct6(x.a4, y.a2); LimbProduct6(x.a4, y.a3);
    LimbProduct6(x.a4, y.a4); LimbProduct6(x.a4, y.a5);
    LimbProduct6(x.a5, y.a0); LimbProduct6(x.a5, y.a1); LimbProduct6(x.a5, y.a2); LimbProduct6(x.a5, y.a3);
    LimbProduct6(x.a5, y.a4); LimbProduct6(x.a5, y.a5);
  }

  lemma MulFeCorrect6(x: Fe6, y: Fe6)
    requires Loose6(x) && Loose6(y)
    ensures Tight6(MulFe6(x, y)) && Eq(V6(MulFe6(x, y)), V6(x) * V6(y), Q)
  {
    hide Mul, ScrFe6, V6, CV6, Eq, Low56, Asr56;
    var c := Columns6(x, y);
    LimbProducts6(x, y);
    WideScr6(FoldFe6(c));
    FoldValue6(c);
    ColumnsValue6(x, y);
    EqTrans(V6(MulFe6(x, y)), V6(FoldFe6(c)), CV6(c), Q);
  }

  /** The accumulators of a product stay inside 128 bits. */
  lemma MulBounds6(x: Fe6, y: Fe6)
    requires Loose6(x) && Loose6(y)
    ensures var c, f, m := Columns6(x, y), FoldFe6(Columns6(x, y)), 0x20000000000000000000000000000000;
      var s1 := f.a1 + Asr56(f.a0);
      var s2 := f.a2 + Asr56(s1);
      var s3 := f.a3 + Asr56(s2);
      && -m <= c.c5 <= m && Within6(f, m) && -m <= Asr56(c.c5) <= m
      && -m <= Asr56(f.a0) <= m && -m <= Asr56(s1) <= m && -m <= Asr56(s2) <= m && -m <= Asr56(s3) <= m
  {
    hide Mul, Asr56, Low56;
    LimbProducts6(x, y);
  }

  /** The squaring shortcuts of a product by itself: equal cross terms are taken twice, and
      small factors are moved into a 64-bit operand. */
  lemma SquareColumns6(x: Fe6)
    ensures var c, f := Columns6(x, x), FoldFe6(Columns6(x, x));
      && c.c5 == 2 * (Mul(x.a0, x.a5) + Mul(x.a1, x.a4) + Mul(x.a2, x.a3)) && f.a5 == Low56(c.c5)
      && f.a0 == Mul(x.a0, x.a0) + 3 * (2 * (Mul(x.a1, x.a5) + Mul(x.a2, x.a4)) + Mul(x.a3, x.a3) + Asr56(c.c5))
      && f.a1 == 2 * (Mul(x.a0, x.a1) + 3 * (Mul(x.a2, x.a5) + Mul(x.a3, x.a4)))
      && f.a2 == Mul(x.a0, 2 * x.a2) + Mul(x.a1, x.a1) + 3 * (Mul(x.a3, 2 * x.a5) + Mul(x.a4, x.a4))
      && f.a3 == 2 * (Mul(x.a0, x.a3) + Mul(x.a1, x.a2) + Mul(x.a4, 3 * x.a5))
      && f.a4 == 2 * (Mul(x.a0, x.a4) + Mul(x.a1, x.a3)) + Mul(x.a2, x.a2) + Mul(x.a5, 3 * x.a5)
  {
    hide Low56, Asr56;
  }

  /** Twice and three times a loose limb still fit 64 bits. */
  lemma SmallFactors6(x: Fe6)
    requires Loose6(x)
    ensures FitsInt64(2 * x.a2) && FitsInt64(2 * x.a5) && FitsInt64(3 * x.a5)
  {
  }

  method GSqr6(x: array<int64>, z: array<int64>)
    requires x.Length == 6 && z.Length == 6 && z != x && Loose6(L6(x))
    modifies z
    ensures L6(z) == MulFe6(L6(x), L6(x))
    ensures Tight6(L6(z)) && Eq(V6(L6(z)), V6(L6(x)) * V6(L6(x)), Q)
  {
    hide Mul, Low56, Asr56, ScrFe6, V6, Eq, Columns6, FoldFe6, Tight6, MulFe6;
    ghost var f := FoldFe6(Columns6(L6(x), L6(x)));
    MulBounds6(L6(x), L6(x));
    MulFeCorrect6(L6(x), L6(x));
    ProductUnfold6(L6(x), L6(x));
    var t0: int128, t1: int128;
    t0 := SquareLow6(x, z);
    ghost var s1 := t0;
    ghost var s2, s3;
    t1, s2, s3 := SquareUpper6(x, z, t0);
    t0 := z[5] + Asr56(t1);
    z[5] := Low56(t0);
    z[0] := z[0] + 3 * Asr56(t0);
    ScrSteps6(f, s1, s2, s3, t1, t0);
  }

  /** Its second part: limbs 2, 3 and 4. */
  method SquareUpper6(x: array<int64>, z: array<int64>, s1: int128)
    returns (t1: int128, ghost s2: int, ghost s3: int)
    requires x.Length == 6 && z.Length == 6 && z != x && Loose6(L6(x))
    requires var f := FoldFe6(Columns6(L6(x), L6(x))); s1 == f.a1 + Asr56(f.a0)
    modifies z
    ensures z[0] == old(z[0]) && z[1] == old(z[1]) && z[5] == old(z[5])
    ensures var f := FoldFe6(Columns6(L6(x), L6(x)));
      && s2 == f.a2 + Asr56(s1) && s3 == f.a3 + Asr56(s2) && t1 == f.a4 + Asr56(s3)
    ensures z[2] == Low56(s2) && z[3] == Low56(s3) && z[4] == Low56(t1)
  {
    hide Mul, Low56, Asr56, Columns6, FoldFe6;
    ghost var f := FoldFe6(Columns6(L6(x), L6(x)));
    MulBounds6(L6(x), L6(x));
    SmallFactors6(L6(x));
    SquareColumns6(L6(x));
    hide Loose6;
    var t0: int128 := s1;
    t1 := Mul(x[0], 2 * x[2]) + Mul(x[1], x[1]) + 3 * (Mul(x[3], 2 * x[5]) + Mul(x[4], x[4])) + Asr56(t0);
    s2 := t1;
    assert t1 == f.a2 + Asr56(s1);
    z[2] := Low56(t1);
    t0 := 2 * (Mul(x[0], x[3]) + Mul(x[1], x[2]) + Mul(x[4], 3 * x[5])) + Asr56(t1);
    s3 := t0;
    assert t0 == f.a3 + Asr56(s2);
    z[3] := Low56(t0);
    t1 := 2 * (Mul(x[0], x[4]) + Mul(x[1], x[3])) + Mul(x[2], x[2]) + Mul(x[5], 3 * x[5]) + Asr56(t0);
    assert t1 == f.a4 + Asr56(s3);
    z[4] := Low56(t1);
  }

  /** Its first part: limbs 5, 0 and 1. */
  method SquareLow6(x: array<int64>, z: array<int64>) returns (t0: int128)
    requires x.Length == 6 && z.Length == 6 && z != x && Loose6(L6(x))
    modifies z
    ensures var f := FoldFe6(Columns6(L6(x), L6(x)));
      z[5] == f.a5 && z[0] == Low56(f.a0) && t0 == f.a1 + Asr56(f.a0) && z[1] == Low56(t0)
  {
    hide Mul, Low56, Asr56, Columns6, FoldFe6;
    ghost var c, f := Columns6(L6(x), L6(x)), FoldFe6(Columns6(L6(x), L6(x)));
    MulBounds6(L6(x), L6(x));
    SquareColumns6(L6(x));
    hide Loose6;
    var t1: int128;
    t0 := 2 * (Mul(x[0], x[5]) + Mul(x[1], x[4]) + Mul(x[2], x[3]));
    assert t0 == c.c5;
    z[5] := Low56(t0);
    t1 := Mul(x[0], x[0]) + 3 * (2 * (Mul(x[1], x[5]) + Mul(x[2], x[4])) + Mul(x[3], x[3]) + Asr56(t0));
    assert t1 == f.a0;
    z[0] := Low56(t1);
    t0 := 2 * (Mul(x[0], x[1]) + 3 * (Mul(x[2], x[5]) + Mul(x[3], x[4]))) + Asr56(t1);
    assert t0 == f.a1 + Asr56(f.a0);
    z[1] := Low56(t0);
  }

  lemma ProductUnfold6(x: Fe6, y: Fe6)
    ensures MulFe6(x, y) == ScrFe6(FoldFe6(Columns6(x, y)))
  {
  }

  /** Granger's trick, for every pair of limbs. */
  lemma GrangerPairs6(x: Fe6, y: Fe6)
    ensures Mul(x.a0, y.a1) + Mul(x.a1, y.a0) == Mul(x.a0, y.a0) + Mul(x.a1, y.a1) - Mul(x.a0 - x.a1, y.a0 - y.a1)
    ensures Mul(x.a0, y.a2) + Mul(x.a2, y.a0) == Mul(x.a0, y.a0) + Mul(x.a2, y.a2) - Mul(x.a0 - x.a2, y.a0 - y.a2)
    ensures Mul(x.a0, y.a3) + Mul(x.a3, y.a0) == Mul(x.a0, y.a0) + Mul(x.a3, y.a3) - Mul(x.a0 - x.a3, y.a0 - y.a3)
    ensures Mul(x.a0, y.a4) + Mul(x.a4, y.a0) == Mul(x.a0, y.a0) + Mul(x.a4, y.a4) - Mul(x.a0 - x.a4, y.a0 - y.a4)
    ensures Mul(x.a0, y.a5) + Mul(x.a5, y.a0) == Mul(x.a0, y.a0) + Mul(x.a5, y.a5) - Mul(x.a0 - x.a5, y.a0 - y.a5)
    ensures Mul(x.a1, y.a2) + Mul(x.a2, y.a1) == Mul(x.a1, y.a1) + Mul(x.a2, y.a2) - Mul(x.a1 - x.a2, y.a1 - y.a2)
    ensures Mul(x.a1, y.a3) + Mul(x.a3, y.a1) == Mul(x.a1, y.a1) + Mul(x.a3, y.a3) - Mul(x.a1 - x.a3, y.a1 - y.a3)
    ensures Mul(x.a1, y.a4) + Mul(x.a4, y.a1) == Mul(x.a1, y.a1) + Mul(x.a4, y.a4) - Mul(x.a1 - x.a4, y.a1 - y.a4)
    ensures Mul(x.a1, y.a5) + Mul(x.a5, y.a1) == Mul(x.a1, y.a1) + Mul(x.a5, y.a5) - Mul(x.a1 - x.a5, y.a1 - y.a5)
    ensures Mul(x.a2, y.a3) + Mul(x.a3, y.a2) == Mul(x.a2, y.a2) + Mul(x.a3, y.a3) - Mul(x.a2 - x.a3, y.a2 - y.a3)
    ensures Mul(x.a2, y.a4) + Mul(x.a4, y.a2) == Mul(x.a2, y.a2) + Mul(x.a4, y.a4) - Mul(x.a2 - x.a4, y.a2 - y.a4)
    ensures Mul(x.a2, y.a5) + Mul(x.a5, y.a2) == Mul(x.a2, y.a2) + Mul(x.a5, y.a5) - Mul(x.a2 - x.a5, y.a2 - y.a5)
    ensures Mul(x.a3, y.a4) + Mul(x.a4, y.a3) == Mul(x.a3, y.a3) + Mul(x.a4, y.a4) - Mul(x.a3 - x.a4, y.a3 - y.a4)
    ensures Mul(x.a3, y.a5) + Mul(x.a5, y.a3) == Mul(x.a3, y.a3) + Mul(x.a5, y.a5) - Mul(x.a3 - x.a5, y.a3 - y.a5)
    ensures Mul(x.a4, y.a5) + Mul(x.a5, y.a4) == Mul(x.a4, y.a4) + Mul(x.a5, y.a5) - Mul(x.a4 - x.a5, y.a4 - y.a5)
  {
    hide Mul;
    GrangerPair(x.a0, x.a1, y.a0, y.a1);
    GrangerPair(x.a0, x.a2, y.a0, y.a2);
    GrangerPair(x.a0, x.a3, y.a0, y.a3);
    GrangerPair(x.a0, x.a4, y.a0, y.a4);
    GrangerPair(x.a0, x.a5, y.a0, y.a5);
    GrangerPair(x.a1, x.a2, y.a1, y.a2);
    GrangerPair(x.a1, x.a3, y.a1, y.a3);
    GrangerPair(x.a1, x.a4, y.a1, y.a4);
    GrangerPair(x.a1, x.a5, y.a1, y.a5);
    GrangerPair(x.a2, x.a3, y.a2, y.a3);
    GrangerPair(x.a2, x.a4, y.a2, y.a4);
    GrangerPair(x.a2, x.a5, y.a2, y.a5);
    GrangerPair(x.a3, x.a4, y.a3, y.a4);
    GrangerPair(x.a3, x.a5, y.a3, y.a5);
    GrangerPair(x.a4, x.a5, y.a4, y.a5);
  }

  /** The columns by differences, and the bounds of the diagonal's partial sums. */
  lemma GrangerColumns6(x: Fe6, y: Fe6)
    ensures var c, f := Columns6(x, y), FoldFe6(Columns6(x, y));
      var d0, d1, d2, d3, d4, d5 :=
        Mul(x.a0, y.a0), Mul(x.a1, y.a1), Mul(x.a2, y.a2), Mul(x.a3, y.a3), Mul(x.a4, y.a4), Mul(x.a5, y.a5);
      && c.c5 == d5 + d4 + d3 + d2 + d1 + d0 - Mul(x.a0 - x.a5, y.a0 - y.a5) - Mul(x.a1 - x.a4, y.a1 - y.a4)
        - Mul(x.a2 - x.a3, y.a2 - y.a3) && f.a5 == Low56(c.c5)
      && f.a0 == d0 + 3
        * (d5 + d4 + d3 + d2 + d1 - Mul(x.a1 - x.a5, y.a1 - y.a5) - Mul(x.a2 - x.a4, y.a2 - y.a4) + Asr56(c.c5))
      && f.a1 == d0 + d1 - Mul(x.a0 - x.a1, y.a0 - y.a1)
        + 3 * (d5 + d4 + d3 + d2 - Mul(x.a2 - x.a5, y.a2 - y.a5) - Mul(x.a3 - x.a4, y.a3 - y.a4))
      && f.a2 == d0 + d1 + d2 - Mul(x.a0 - x.a2, y.a0 - y.a2) + 3 * (d5 + d4 + d3 - Mul(x.a3 - x.a5, y.a3 - y.a5))
      && f.a3 == d0 + d1 + d2 + d3 - Mul(x.a0 - x.a3, y.a0 - y.a3) - Mul(x.a1 - x.a2, y.a1 - y.a2)
        + 3 * (d5 + d4 - Mul(x.a4 - x.a5, y.a4 - y.a5))
      && f.a4 == d0 + d1 + d2 + d3 + d4 - Mul(x.a0 - x.a4, y.a0 - y.a4) - Mul(x.a1 - x.a3, y.a1 - y.a3) + 3 * d5
  {
    hide Mul, Low56, Asr56;
    GrangerPairs6(x, y);
  }

  /** The three upper limbs by differences. */
  lemma GrangerHigh6(x: Fe6, y: Fe6)
    ensures var f := FoldFe6(Columns6(x, y));
      var d0, d1, d2, d3, d4, d5 :=
        Mul(x.a0, y.a0), Mul(x.a1, y.a1), Mul(x.a2, y.a2), Mul(x.a3, y.a3), Mul(x.a4, y.a4), Mul(x.a5, y.a5);
      && f.a2 == d0 + d1 + d2 - Mul(x.a0 - x.a2, y.a0 - y.a2) + 3 * (d5 + d4 + d3 - Mul(x.a3 - x.a5, y.a3 - y.a5))
      && f.a3 == d0 + d1 + d2 + d3 - Mul(x.a0 - x.a3, y.a0 - y.a3) - Mul(x.a1 - x.a2, y.a1 - y.a2)
        + 3 * (d5 + d4 - Mul(x.a4 - x.a5, y.a4 - y.a5))
      && f.a4 == d0 + d1 + d2 + d3 + d4 - Mul(x.a0 - x.a4, y.a0 - y.a4) - Mul(x.a1 - x.a3, y.a1 - y.a3) + 3 * d5
  {
    hide Mul, Low56, Asr56, Columns6, FoldFe6;
    GrangerColumns6(x, y);
  }

  lemma Diagonal6(x: Fe6, y: Fe6)
    requires Loose6(x) && Loose6(y)
    ensures var m := 0x400010000000000000000000000000;
      && -m <= Mul(x.a0, y.a0) <= m && -m <= Mul(x.a1, y.a1) <= m && -m <= Mul(x.a2, y.a2) <= m
      && -m <= Mul(x.a3, y.a3) <= m && -m <= Mul(x.a4, y.a4) <= m && -m <= Mul(x.a5, y.a5) <= m
  {
    hide Mul;
    LimbProducts6(x, y);
  }

  /** Granger's multiplication gives the limbs of the schoolbook columns folded by 3. */
  method GMul6(x: array<int64>, y: array<int64>, z: array<int64>)
    requires x.Length == 6 && y.Length == 6 && z.Length == 6 && z != x && z != y
    requires Loose6(L6(x)) && Loose6(L6(y))
    modifies z
    ensures L6(z) == MulFe6(L6(x), L6(y))
    ensures Tight6(L6(z)) && Eq(V6(L6(z)), V6(L6(x)) * V6(L6(y)), Q)
  {
    hide Mul, Low56, Asr56, ScrFe6, V6, Eq, Columns6, FoldFe6, Tight6, MulFe6;
    ghost var f := FoldFe6(Columns6(L6(x), L6(y)));
    MulBounds6(L6(x), L6(y));
    MulFeCorrect6(L6(x), L6(y));
    ProductUnfold6(L6(x), L6(y));
    var a0: int128, a2: int128, a3: int128, a4: int128, a5: int128, b3: int128, b4: int128, t0: int128, t1: int128;
    a0, a2, a3, a4, a5, b3, b4, t0 := GrangerLow6(x, y, z);
    ghost var s1 := t0;
    ghost var s2, s3;
    t1, s2, s3 := GrangerUpper6(x, y, z, a0, a2, a3, a4, a5, b3, b4, t0);
    t0 := z[5] + Asr56(t1);
    z[5] := Low56(t0);
    z[0] := z[0] + 3 * Asr56(t0);
    ScrSteps6(f, s1, s2, s3, t1, t0);
  }

  /** Its second part: limbs 2, 3 and 4. */
  method GrangerUpper6(x: array<int64>, y: array<int64>, z: array<int64>, a: int128, a2: int128, a3: int128,
    a4: int128, a5: int128, b3: int128, b4: int128, s1: int128) returns (t1: int128, ghost s2: int, ghost s3: int)
    requires x.Length == 6 && y.Length == 6 && z.Length == 6 && z != x && z != y
    requires Loose6(L6(x)) && Loose6(L6(y))
    requires a == Mul(x[0], y[0]) + Mul(x[1], y[1]) && a2 == Mul(x[2], y[2]) && a3 == Mul(x[3], y[3])
    requires a4 == Mul(x[4], y[4]) && a5 == Mul(x[5], y[5]) && b4 == a5 + a4 && b3 == b4 + a3
    requires var f := FoldFe6(Columns6(L6(x), L6(y))); s1 == f.a1 + Asr56(f.a0)
    modifies z
    ensures z[0] == old(z[0]) && z[1] == old(z[1]) && z[5] == old(z[5])
    ensures var f := FoldFe6(Columns6(L6(x), L6(y)));
      && s2 == f.a2 + Asr56(s1) && s3 == f.a3 + Asr56(s2) && t1 == f.a4 + Asr56(s3)
    ensures z[2] == Low56(s2) && z[3] == Low56(s3) && z[4] == Low56(t1)
  {
    hide Mul, Low56, Asr56, Columns6, FoldFe6;
    ghost var f := FoldFe6(Columns6(L6(x), L6(y)));
    MulBounds6(L6(x), L6(y));
    GrangerHigh6(L6(x), L6(y));
    Diagonal6(L6(x), L6(y));
    var a0, t0: int128 := a, s1;
    a0 := a0 + a2;
    t1 := a0 - Mul(x[0] - x[2], y[0] - y[2]) + 3 * (b3 - Mul(x[3] - x[5], y[3] - y[5])) + Asr56(t0);
    s2 := t1;
    assert t1 == f.a2 + Asr56(s1);
    z[2] := Low56(t1);
    a0 := a0 + a3;
    t0 := a0 - Mul(x[0] - x[3], y[0] - y[3]) - Mul(x[1] - x[2], y[1] - y[2]) + 3 * (b4 - Mul(x[4] - x[5], y[4] - y[5]))
      + Asr56(t1);
    s3 := t0;
    assert t0 == f.a3 + Asr56(s2);
    z[3] := Low56(t0);
    a0 := a0 + a4;
    t1 := a0 - Mul(x[0] - x[4], y[0] - y[4]) - Mul(x[1] - x[3], y[1] - y[3]) + 3 * a5 + Asr56(t0);
    z[4] := Low56(t1);
  }

  /** Its first half: limbs 5, 0 and 1, and the partial sums the second half goes on with. */
  method GrangerLow6(x: array<int64>, y: array<int64>, z: array<int64>)
    returns (a0: int128, a2: int128, a3: int128, a4: int128, a5: int128, b3: int128, b4: int128, t0: int128)
    requires x.Length == 6 && y.Length == 6 && z.Length == 6 && z != x && z != y
    requires Loose6(L6(x)) && Loose6(L6(y))
    modifies z
    ensures a0 == Mul(x[0], y[0]) + Mul(x[1], y[1]) && a2 == Mul(x[2], y[2]) && a3 == Mul(x[3], y[3])
    ensures a4 == Mul(x[4], y[4]) && a5 == Mul(x[5], y[5]) && b4 == a5 + a4 && b3 == b4 + a3
    ensures var f := FoldFe6(Columns6(L6(x), L6(y)));
      z[5] == f.a5 && z[0] == Low56(f.a0) && t0 == f.a1 + Asr56(f.a0) && z[1] == Low56(t0)
  {
    hide Mul, Low56, Asr56, Columns6, FoldFe6;
    ghost var c, f := Columns6(L6(x), L6(y)), FoldFe6(Columns6(L6(x), L6(y)));
    MulBounds6(L6(x), L6(y));
    GrangerColumns6(L6(x), L6(y));
    Diagonal6(L6(x), L6(y));
    var t1: int128, a1: int128, b0: int128, b1: int128, b2: int128;
    a0 := Mul(x[0], y[0]);
    a1 := Mul(x[1], y[1]);
    a2 := Mul(x[2], y[2]);
    a3 := Mul(x[3], y[3]);
    a4 := Mul(x[4], y[4]);
    a5 := Mul(x[5], y[5]);
    b4 := a5 + a4;
    b3 := b4 + a3;
    b2 := b3 + a2;
    b1 := b2 + a1;
    b0 := b1 + a0;
    t0 := b0 - Mul(x[0] - x[5], y[0] - y[5]) - Mul(x[1] - x[4], y[1] - y[4]) - Mul(x[2] - x[3], y[2] - y[3]);
    assert t0 == c.c5;
    z[5] := Low56(t0);
    t1 := a0 + 3 * (b1 - Mul(x[1] - x[5], y[1] - y[5]) - Mul(x[2] - x[4], y[2] - y[4]) + Asr56(t0));
    assert t1 == f.a0;
    z[0] := Low56(t1);
    a0 := a0 + a1;
    t0 := a0 - Mul(x[0] - x[1], y[0] - y[1]) + 3 * (b2 - Mul(x[2] - x[5], y[2] - y[5]) - Mul(x[3] - x[4], y[3] - y[4]))
      + Asr56(t1);
    z[1] := Low56(t0);
  }

  // ---------------------------------------------------------------- normal form

  /** Negate, carry, negate, carry, carry. */
  function NormFe6(x: Fe6): Fe6 { ScrFe6(ScrFe6(NegFe6(ScrFe6(NegFe6(x))))) }

  /** The digit form of the residue, as in Limbs1174. */
  lemma NormCorrect6(x: Fe6)
    requires Within6(x, 0x4000_0000_0000_0000)
    ensures Digits6(NormFe6(x)) && V6(NormFe6(x)) == V6(x) % Q
  {
    hide ScrFe6, V6, NegFe6;
    var n := NegFe6(x);
    SumValues6(x, x);
    var c := ScrValue6(n);
    assert Within6(n, 0x4000_0000_0000_0000) by { NegWithin6(x); }
    WideCarry6(n, c);
    var m := NegFe6(ScrFe6(n));
    SumValues6(ScrFe6(n), x);
    var c1 := ScrValue6(m);
    var y := ScrFe6(m);
    var c2 := ScrValue6(y);
    NormDigits6(V6(n), c, V6(m), c1, V6(y), c2);
    var z := ScrFe6(y);
    NormLimb6(z, c2, V6(y) % TOP);
    NormResidue6(V6(x), V6(n), c, V6(m), c1, V6(y), c2, V6(z));
  }

  lemma NegWithin6(x: Fe6)
    requires Within6(x, 0x4000_0000_0000_0000)
    ensures Within6(NegFe6(x), 0x4000_0000_0000_0000)
  {
  }

  lemma NormDigits6(n: int, c: int, m: int, c1: int, y: int, c2: int)
    requires -0x50000 <= c <= 0x50000 && m == -(n % TOP + 3 * c)
    requires c1 == m / TOP && y == m % TOP + 3 * c1 && c2 == y / TOP
    ensures -2 <= c1 <= 0 && -1 <= c2 <= 0
    ensures 0 <= y - c2 * 0xfffffffffffffffffffffffffffffffffffffffffffffffffffffffffffffffffffffffffffffffffffd < Q
    ensures c2 == -1 ==>
      y % TOP >= 0xfffffffffffffffffffffffffffffffffffffffffffffffffffffffffffffffffffffffffffffffffffa
  {
  }

  lemma NormLimb6(z: Fe6, c2: int, r: int)
    requires -1 <= c2 <= 0 && Digits6(z.(a0 := z.a0 - 3 * c2))
    requires V6(z) == r + 3 * c2
      && (c2 == -1 ==> r >= 0xfffffffffffffffffffffffffffffffffffffffffffffffffffffffffffffffffffffffffffffffffffa)
    ensures Digits6(z)
  {
  }

  lemma NormResidue6(x: int, n: int, c: int, m: int, c1: int, y: int, c2: int, z: int)
    requires n == -x
      && m == -(n - c * 0xfffffffffffffffffffffffffffffffffffffffffffffffffffffffffffffffffffffffffffffffffffd)
    requires y == m - c1 * 0xfffffffffffffffffffffffffffffffffffffffffffffffffffffffffffffffffffffffffffffffffffd
    requires z == y - c2 * 0xfffffffffffffffffffffffffffffffffffffffffffffffffffffffffffffffffffffffffffffffffffd
    requires 0 <= z < Q
    ensures z == x % Q
  {
    DivModUnique(x, Q, c1 + c2 - c, z);
  }

  /** Digits determine the limbs. */
  lemma DigitsUnique6(f: Fe6, g: Fe6)
    requires Digits6(f) && Digits6(g) && V6(f) == V6(g)
    ensures f == g
  {
    var m := 0x100000000000000;
    var f4, g4 := f.a4 + m * f.a5, g.a4 + m * g.a5;
    var f3, g3 := f.a3 + m * f4, g.a3 + m * g4;
    var f2, g2 := f.a2 + m * f3, g.a2 + m * g3;
    var f1, g1 := f.a1 + m * f2, g.a1 + m * g2;
    PeelDigit6(f.a0, f1, g.a0, g1);
    PeelDigit6(f.a1, f2, g.a1, g2);
    PeelDigit6(f.a2, f3, g.a2, g3);
    PeelDigit6(f.a3, f4, g.a3, g4);
    PeelDigit6(f.a4, f.a5, g.a4, g.a5);
  }

  lemma PeelDigit6(a: int, r: int, b: int, s: int)
    requires 0 <= a < 0x100000000000000 && 0 <= b < 0x100000000000000
      && a + 0x100000000000000 * r == b + 0x100000000000000 * s
    ensures a == b && r == s
  {
  }

  method GNorm6(x: array<int64>, y: array<int64>)
    requires x.Length == 6 && y.Length == 6 && Within6(L6(x), 0x4000_0000_0000_0000)
    modifies y
    ensures L6(y) == old(NormFe6(L6(x)))
    ensures Digits6(L6(y)) && V6(L6(y)) == old(V6(L6(x))) % Q
  {
    hide ScrFe6, V6, Eq;
    NormCorrect6(L6(x));
    var tmp := new int64[6];
    GNeg6(x, tmp);
    Scr6(tmp);
    GNeg6(tmp, y);
    Scr6(y);
    Scr6(y);
  }

  /** True exactly when the two elements are congruent. */
  method GEq6(x: array<int64>, y: array<int64>) returns (b: bool)
    requires x.Length == 6 && y.Length == 6
    requires Within6(SubFe6(L6(x), L6(y)), 0x4000_0000_0000_0000)
    ensures b <==> Eq(V6(L6(x)), V6(L6(y)), Q)
  {
    hide ScrFe6, V6, NormFe6, Eq;
    var z1, z2 := new int64[6], new int64[6];
    SumValues6(L6(x), L6(y));
    GSub6(x, y, z1);
    GNorm6(z1, z2);
    ZeroDigits6(L6(z2));
    EqZero6(V6(L6(x)), V6(L6(y)));
    b := z2[0] == 0 && z2[1] == 0 && z2[2] == 0 && z2[3] == 0 && z2[4] == 0 && z2[5] == 0;
  }

  lemma ZeroDigits6(f: Fe6)
    requires Digits6(f)
    ensures V6(f) == 0 <==> f == Fe6(0, 0, 0, 0, 0, 0)
  {
  }

  lemma EqZero6(a: int, b: int)
    ensures Eq(a, b, Q) <==> (a - b) % Q == 0
  {
  }

  // ---------------------------------------------------------------- conditional move

  method FeCmov6(f: array<int64>, g: array<int64>, ib: int)
    requires f.Length == 6 && g.Length == 6 && (ib == 0 || ib == 1)
    modifies f
    ensures L6(f) == old(if ib == 1 then L6(g) else L6(f))
  {
    hide Xor, And;
    var b := -ib;
    Blend(f[0], g[0], b);
    Blend(f[1], g[1], b);
    Blend(f[2], g[2], b);
    Blend(f[3], g[3], b);
    Blend(f[4], g[4], b);
    Blend(f[5], g[5], b);
    f[0] := Xor(f[0], And(Xor(f[0], g[0]), b));
    f[1] := Xor(f[1], And(Xor(f[1], g[1]), b));
    f[2] := Xor(f[2], And(Xor(f[2], g[2]), b));
    f[3] := Xor(f[3], And(Xor(f[3], g[3]), b));
    f[4] := Xor(f[4], And(Xor(f[4], g[4]), b));
    f[5] := Xor(f[5], And(Xor(f[5], g[5]), b));
  }
}
