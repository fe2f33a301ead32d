/** Five-limb arithmetic modulo p = 2^251 - 9.

    A field element is an array of five signed 64-bit limbs of 51/51/51/51/47 bits. Sums and
    differences leave limbs loose; products and reductions give tight ones. Every store goes
    into an `array<int64>` and every accumulator is an `int128`, so these proofs contain the
    absence of signed overflow. Each method is proved against a function on limb values. */
module Limbs1174 {
  import opened Bits
  import opened Branchless
  import opened PrimeField

  type int64 = x: int | -0x8000_0000_0000_0000 <= x < 0x8000_0000_0000_0000
  type int128 = x: int | -0x8000_0000_0000_0000_0000_0000_0000_0000 <= x < 0x8000_0000_0000_0000_0000_0000_0000_0000

  /** The modulus 2^251 - 9. */
  const P: int := 0x7fffffffffffffffffffffffffffffffffffffffffffffffffffffffffffff7

  /** The limbs of one element, least significant first. */
  datatype Fe = Fe(a0: int, a1: int, a2: int, a3: int, a4: int)

  /** The integer that limbs denote: the sum of a_i 2^(51 i). */
  function V(f: Fe): int {
    f.a0 + f.a1 * 0x8000000000000 + f.a2 * 0x40000000000000000000000000
      + f.a3 * 0x200000000000000000000000000000000000000
      + f.a4 * 0x1000000000000000000000000000000000000000000000000000
  }

  /** Every limb is at most n in magnitude. */
  predicate Within(f: Fe, n: int) {
    && -n <= f.a0 <= n && -n <= f.a1 <= n && -n <= f.a2 <= n && -n <= f.a3 <= n && -n <= f.a4 <= n
  }

  /** What a multiplication accepts: eight reduced elements of at most 2^51 + 2^24. */
  predicate Loose(f: Fe) { Within(f, 0x40000008000000) }

  /** What a reduction leaves: proper digits, except that limb 0 still holds the last fold. */
  predicate Tight(f: Fe) {
    && -0x1000000 <= f.a0 < 0x8000001000000
    && 0 <= f.a1 < 0x8000000000000 && 0 <= f.a2 < 0x8000000000000 && 0 <= f.a3 < 0x8000000000000
    && 0 <= f.a4 < 0x800000000000
  }

  /** Digits of a number below 2^251. */
  predicate Digits(f: Fe) { Tight(f) && 0 <= f.a0 < 0x8000000000000 }

  function L(a: array<int64>): Fe
    requires a.Length == 5
    reads a
  {
    Fe(a[0], a[1], a[2], a[3], a[4])
  }

  // ---------------------------------------------------------------- masks and shifts

  /** `x & bot51bits` and `x >> 51`, `x & bot47bits` and `x >> 47`. */
  function Low51(x: int): (r: int) ensures 0 <= r < 0x8000000000000 { x % 0x8000000000000 }
  function Low47(x: int): (r: int) ensures 0 <= r < 0x800000000000 { x % 0x800000000000 }
  function Asr51(x: int): (r: int) ensures x == r * 0x8000000000000 + Low51(x) { x / 0x8000000000000 }
  function Asr47(x: int): (r: int) ensures x == r * 0x800000000000 + Low47(x) { x / 0x800000000000 }

  /** The residues above are the source's masks, for operands of either sign. */
  lemma MasksAreAnd(x: int)
    ensures Low51(x) == And(x, 0x7ffffffffffff) && Low47(x) == And(x, 0x7fffffffffff)
  {
    Pow2Values();
    AndMask(x, 51);
    AndMask(x, 47);
  }

  lemma Pow2Values()
    ensures Pow2(47) == 0x800000000000 && Pow2(51) == 0x8000000000000
  {
    assert Pow2(10) == 1024 && Pow2(7) == 128 && Pow2(1) == 2;
    hide Pow2;
    Pow2Add(10, 10);
    Pow2Add(20, 20);
    Pow2Add(40, 7);
    Pow2Add(40, 10);
    Pow2Add(50, 1);
  }

  // ---------------------------------------------------------------- sums and differences

  function AddFe(x: Fe, y: Fe): Fe { Fe(x.a0 + y.a0, x.a1 + y.a1, x.a2 + y.a2, x.a3 + y.a3, x.a4 + y.a4) }
  function SubFe(x: Fe, y: Fe): Fe { Fe(x.a0 - y.a0, x.a1 - y.a1, x.a2 - y.a2, x.a3 - y.a3, x.a4 - y.a4) }
  function NegFe(x: Fe): Fe { Fe(-x.a0, -x.a1, -x.a2, -x.a3, -x.a4) }

  lemma SumValues(x: Fe, y: Fe)
    ensures V(AddFe(x, y)) == V(x) + V(y) && V(SubFe(x, y)) == V(x) - V(y) && V(NegFe(x)) == -V(x)
  {
  }

  method GAdd(x: array<int64>, y: array<int64>, w: array<int64>)
    requires x.Length == 5 && y.Length == 5 && w.Length == 5
    requires Within(AddFe(L(x), L(y)), 0x7fff_ffff_ffff_ffff)
    modifies w
    ensures L(w) == old(AddFe(L(x), L(y)))
  {
    w[0] := x[0] + y[0];
    w[1] := x[1] + y[1];
    w[2] := x[2] + y[2];
    w[3] := x[3] + y[3];
    w[4] := x[4] + y[4];
  }

  method GSub(x: array<int64>, y: array<int64>, w: array<int64>)
    requires x.Length == 5 && y.Length == 5 && w.Length == 5
    requires Within(SubFe(L(x), L(y)), 0x7fff_ffff_ffff_ffff)
    modifies w
    ensures L(w) == old(SubFe(L(x), L(y)))
  {
    w[0] := x[0] - y[0];
    w[1] := x[1] - y[1];
    w[2] := x[2] - y[2];
    w[3] := x[3] - y[3];
    w[4] := x[4] - y[4];
  }

  method GNeg(x: array<int64>, y: array<int64>)
    requires x.Length == 5 && y.Length == 5 && Within(L(x), 0x7fff_ffff_ffff_ffff)
    modifies y
    ensures L(y) == old(NegFe(L(x)))
  {
    y[0] := -x[0];
    y[1] := -x[1];
    y[2] := -x[2];
    y[3] := -x[3];
    y[4] := -x[4];
  }

  // ---------------------------------------------------------------- short coefficient reduction

  /** One carry pass; the carry out of the top limb folds back as 9 times itself. */
  function ScrFe(w: Fe): Fe {
    var t1 := w.a1 + Asr51(w.a0);
    var t2 := w.a2 + Asr51(t1);
    var t3 := w.a3 + Asr51(t2);
    var t4 := w.a4 + Asr51(t3);
    Fe(Low51(w.a0) + 9 * Asr47(t4), Low51(t1), Low51(t2), Low51(t3), Low47(t4))
  }

  /** The carry pass subtracts a multiple of p, and that multiple is the quotient by 2^251. */
  lemma ScrValue(w: Fe) returns (k: int)
    ensures k == V(w) / 0x800000000000000000000000000000000000000000000000000000000000000
    ensures V(ScrFe(w)) == V(w) - k * 0x7fffffffffffffffffffffffffffffffffffffffffffffffffffffffffffff7
    ensures Digits(Fe(ScrFe(w).a0 - 9 * k, ScrFe(w).a1, ScrFe(w).a2, ScrFe(w).a3, ScrFe(w).a4))
    ensures V(ScrFe(w)) == V(w) % 0x800000000000000000000000000000000000000000000000000000000000000 + 9 * k
  {
    hide Low51, Low47, Asr51, Asr47, ScrFe, V;
    var t1 := w.a1 + Asr51(w.a0);
    var t2 := w.a2 + Asr51(t1);
    var t3 := w.a3 + Asr51(t2);
    var t4 := w.a4 + Asr51(t3);
    ScrSteps(w, t1, t2, t3, t4);
    k := Asr47(t4);
    var r := Fe(Low51(w.a0), Low51(t1), Low51(t2), Low51(t3), Low47(t4));
    ScrIdentity(w, Asr51(w.a0), Asr51(t1), Asr51(t2), Asr51(t3), k, r);
    DigitsRange(r);
    DivModUnique(V(w), 0x800000000000000000000000000000000000000000000000000000000000000, k, V(r));
  }

  lemma ScrIdentity(w: Fe, q0: int, q1: int, q2: int, q3: int, q: int, r: Fe)
    requires w.a0 == q0 * 0x8000000000000 + r.a0
    requires w.a1 + q0 == q1 * 0x8000000000000 + r.a1
    requires w.a2 + q1 == q2 * 0x8000000000000 + r.a2
    requires w.a3 + q2 == q3 * 0x8000000000000 + r.a3
    requires w.a4 + q3 == q * 0x800000000000 + r.a4
    ensures V(w) == q * 0x800000000000000000000000000000000000000000000000000000000000000 + V(r)
    ensures V(r.(a0 := r.a0 + 9 * q)) == V(w) - q * 0x7fffffffffffffffffffffffffffffffffffffffffffffffffffffffffffff7
  {
  }

  lemma DigitsRange(f: Fe)
    requires Digits(f)
    ensures 0 <= V(f) < 0x800000000000000000000000000000000000000000000000000000000000000
  {
  }

  lemma EqP(a: int, b: int, k: int)
    requires a == b + k * 0x7fffffffffffffffffffffffffffffffffffffffffffffffffffffffffffff7
    ensures Eq(a, b, P)
  {
    EqIntro(a, b, k, P);
  }

  lemma ScrTight(w: Fe)
    requires Within(w, 0x4000_0000_0000_0000)
    ensures Tight(ScrFe(w)) && Eq(V(ScrFe(w)), V(w), P)
  {
    hide ScrFe, V;
    var k := ScrValue(w);
    ScrCarry(w, k);
    EqP(V(ScrFe(w)), V(w), -k);
  }

  lemma ScrCarry(w: Fe, k: int)
    requires Within(w, 0x4000_0000_0000_0000)
      && k == V(w) / 0x800000000000000000000000000000000000000000000000000000000000000
    ensures -0x10000 <= k <= 0x10000
  {
  }

  method Scr(w: array<int64>)
    requires w.Length == 5 && Within(L(w), 0x4000_0000_0000_0000)
    modifies w
    ensures L(w) == old(ScrFe(L(w)))
    ensures Tight(L(w)) && Eq(V(L(w)), old(V(L(w))), P)
  {
    hide Low51, Low47, Asr51, Asr47, V, Eq, ScrFe;
    ghost var f := L(w);
    ScrTight(f);
    var t0: int64, t1: int64, t2: int64;
    t0 := Low51(w[0]);
    t1 := w[1] + Asr51(w[0]);
    ghost var s1 := t1;
    w[1] := Low51(t1);
    t2 := w[2] + Asr51(t1);
    ghost var s2 := t2;
    w[2] := Low51(t2);
    t1 := w[3] + Asr51(t2);
    w[3] := Low51(t1);
    t2 := w[4] + Asr51(t1);
    w[4] := Low47(t2);
    w[0] := t0 + 9 * Asr47(t2);
    ScrSteps(f, s1, s2, t1, t2);
  }

  lemma ScrSteps(w: Fe, t1: int, t2: int, t3: int, t4: int)
    requires t1 == w.a1 + Asr51(w.a0) && t2 == w.a2 + Asr51(t1) && t3 == w.a3 + Asr51(t2) && t4 == w.a4 + Asr51(t3)
    ensures ScrFe(w) == Fe(Low51(w.a0) + 9 * Asr47(t4), Low51(t1), Low51(t2), Low51(t3), Low47(t4))
  {
    hide Low51, Low47, Asr51, Asr47;
  }

  // ---------------------------------------------------------------- multiplication by a small constant

  function ScaleFe(w: Fe, i: int): Fe { Fe(w.a0 * i, w.a1 * i, w.a2 * i, w.a3 * i, w.a4 * i) }

  lemma ScaleValue(w: Fe, i: int)
    ensures V(ScaleFe(w, i)) == V(w) * i
  {
  }

  /** Multiply every limb by i, then carry. */
  function MulIFe(w: Fe, i: int): Fe { ScrFe(ScaleFe(w, i)) }

  lemma MulICarry(w: Fe, i: int)
    requires Loose(w) && -0x800 <= i <= 0x800
    ensures Tight(MulIFe(w, i)) && Eq(V(MulIFe(w, i)), V(w) * i, P)
  {
    ScaleBound(w.a0, i);
    ScaleBound(w.a1, i);
    ScaleBound(w.a2, i);
    ScaleBound(w.a3, i);
    ScaleBound(w.a4, i);
    ScaleValue(w, i);
    hide ScrFe, V, Eq;
    WideScr(ScaleFe(w, i));
  }

  lemma ScaleBound(a: int, i: int)
    requires -0x40000008000000 <= a <= 0x40000008000000 && -0x800 <= i <= 0x800
    ensures -0x40000000000000000 <= a * i <= 0x40000000000000000
  {
    ProductBound(a, i, 0x40000008000000, 0x800);
  }

  lemma ProductBound(a: int, b: int, m: int, n: int)
    requires -m <= a <= m && -n <= b <= n
    ensures -(m * n) <= a * b <= m * n
  {
    assert (m - a) * (n + b) >= 0 && (m + a) * (n - b) >= 0;
    assert (m - a) * (n - b) >= 0 && (m + a) * (n + b) >= 0;
  }

  /** A carry pass over accumulators, whose top limb is the narrowest, gives a tight element. */
  lemma WideScr(w: Fe)
    requires Within(w.(a4 := 0), 0x400000000000000000000000000000)
      && -0x40000000000000000 <= w.a4 <= 0x40000000000000000
    ensures Tight(ScrFe(w)) && Eq(V(ScrFe(w)), V(w), P)
  {
    hide ScrFe, V;
    var k := ScrValue(w);
    WideCarry(w, k);
    EqP(V(ScrFe(w)), V(w), -k);
  }

  lemma WideCarry(w: Fe, k: int)
    requires Within(w.(a4 := 0), 0x400000000000000000000000000000)
      && -0x40000000000000000 <= w.a4 <= 0x40000000000000000
    requires k == V(w) / 0x800000000000000000000000000000000000000000000000000000000000000
    ensures -0x1c0000 <= k <= 0x1c0000
  {
  }

  method GMuli(w: array<int64>, i: int)
    requires w.Length == 5 && Loose(L(w)) && -0x800 <= i <= 0x800
    modifies w
    ensures L(w) == old(MulIFe(L(w), i))
    ensures Tight(L(w)) && Eq(V(L(w)), old(V(L(w))) * i, P)
  {
    hide Low51, Low47, Asr51, Asr47, V, Eq, ScrFe;
    ghost var f := ScaleFe(L(w), i);
    MulICarry(L(w), i);
    ScaleBound(w[0], i);
    ScaleBound(w[1], i);
    ScaleBound(w[2], i);
    ScaleBound(w[3], i);
    ScaleBound(w[4], i);
    var t: int128;
    t := w[0] * i;
    w[0] := Low51(t);
    t := w[1] * i + Asr51(t);
    ghost var s1 := t;
    w[1] := Low51(t);
    t := w[2] * i + Asr51(t);
    ghost var s2 := t;
    w[2] := Low51(t);
    t := w[3] * i + Asr51(t);
    ghost var s3 := t;
    w[3] := Low51(t);
    t := w[4] * i + Asr51(t);
    w[4] := Low47(t);
    w[0] := w[0] + 9 * Asr47(t);
    ScrSteps(f, s1, s2, s3, t);
  }

  // ---------------------------------------------------------------- multiplication

  /** `(type128) a * b`. */
  function Mul(a: int, b: int): int { a * b }

  /** The nine column sums of the product of two five-limb numbers. */
  datatype Cols = Cols(c0: int, c1: int, c2: int, c3: int, c4: int, c5: int, c6: int, c7: int, c8: int)

  function Columns(x: Fe, y: Fe): Cols {
    Cols(Mul(x.a0, y.a0),
         Mul(x.a0, y.a1) + Mul(x.a1, y.a0),
         Mul(x.a0, y.a2) + Mul(x.a1, y.a1) + Mul(x.a2, y.a0),
         Mul(x.a0, y.a3) + Mul(x.a1, y.a2) + Mul(x.a2, y.a1) + Mul(x.a3, y.a0),
         Mul(x.a0, y.a4) + Mul(x.a1, y.a3) + Mul(x.a2, y.a2) + Mul(x.a3, y.a1) + Mul(x.a4, y.a0),
         Mul(x.a1, y.a4) + Mul(x.a2, y.a3) + Mul(x.a3, y.a2) + Mul(x.a4, y.a1),
         Mul(x.a2, y.a4) + Mul(x.a3, y.a3) + Mul(x.a4, y.a2),
         Mul(x.a3, y.a4) + Mul(x.a4, y.a3),
         Mul(x.a4, y.a4))
  }

  /** The integer that columns denote: the sum of c_i 2^(51 i). */
  function CV(c: Cols): int {
    c.c0 + c.c1 * 0x8000000000000 + c.c2 * 0x40000000000000000000000000
      + c.c3 * 0x200000000000000000000000000000000000000
      + c.c4 * 0x1000000000000000000000000000000000000000000000000000
      + c.c5 * 0x8000000000000000000000000000000000000000000000000000000000000000
      + c.c6 * 0x40000000000000000000000000000000000000000000000000000000000000000000000000000
      + c.c7 * 0x200000000000000000000000000000000000000000000000000000000000000000000000000000000000000000
      + c.c8 * 0x1000000000000000000000000000000000000000000000000000000000000000000000000000000000000000000000000000000
  }

  /** Columns 5 to 8 stand 2^255 above columns 0 to 3, and 2^255 = 16 * 9 modulo p; the part
      of column 4 above 2^47 stands at 2^251 = 9. */
  function FoldFe(c: Cols): Fe {
    Fe(c.c0 + 144 * c.c5 + 9 * Asr47(c.c4), c.c1 + 144 * c.c6, c.c2 + 144 * c.c7, c.c3 + 144 * c.c8, Low47(c.c4))
  }

  /** The limbs of a product. */
  function MulFe(x: Fe, y: Fe): Fe { ScrFe(FoldFe(Columns(x, y))) }

  lemma ColumnsValue(x: Fe, y: Fe)
    ensures CV(Columns(x, y)) == V(x) * V(y)
  {
  }

  lemma FoldValue(c: Cols)
    ensures Eq(V(FoldFe(c)), CV(c), P)
  {
    hide Low47, Asr47, Eq;
    var q := Asr47(c.c4);
    EqP(V(FoldFe(c)), CV(c),
      -q - 16 * (c.c5 + c.c6 * 0x8000000000000 + c.c7 * 0x40000000000000000000000000
      + c.c8 * 0x200000000000000000000000000000000000000));
  }

  /** One loose limb times another: within 2^108 or so. */
  lemma LimbProduct(a: int, b: int)
    requires -0x40000008000000 <= a <= 0x40000008000000 && -0x40000008000000 <= b <= 0x40000008000000
    ensures -0x1000000800000000000000000000 <= Mul(a, b) <= 0x1000000800000000000000000000
  {
    ProductBound(a, b, 0x40000008000000, 0x40000008000000);
  }

  lemma LimbProducts(x: Fe, y: Fe)
    requires Loose(x) && Loose(y)
    ensures var m := 0x1000000800000000000000000000;
      && (-m <= Mul(x.a0, y.a0) <= m && -m <= Mul(x.a0, y.a1) <= m && -m <= Mul(x.a0, y.a2) <= m
          && -m <= Mul(x.a0, y.a3) <= m && -m <= Mul(x.a0, y.a4) <= m)
      && (-m <= Mul(x.a1, y.a0) <= m && -m <= Mul(x.a1, y.a1) <= m && -m <= Mul(x.a1, y.a2) <= m
          && -m <= Mul(x.a1, y.a3) <= m && -m <= Mul(x.a1, y.a4) <= m)
      && (-m <= Mul(x.a2, y.a0) <= m && -m <= Mul(x.a2, y.a1) <= m && -m <= Mul(x.a2, y.a2) <= m
          && -m <= Mul(x.a2, y.a3) <= m && -m <= Mul(x.a2, y.a4) <= m)
      && (-m <= Mul(x.a3, y.a0) <= m && -m <= Mul(x.a3, y.a1) <= m && -m <= Mul(x.a3, y.a2) <= m
          && -m <= Mul(x.a3, y.a3) <= m && -m <= Mul(x.a3, y.a4) <= m)
      && (-m <= Mul(x.a4, y.a0) <= m && -m <= Mul(x.a4, y.a1) <= m && -m <= Mul(x.a4, y.a2) <= m
          && -m <= Mul(x.a4, y.a3) <= m && -m <= Mul(x.a4, y.a4) <= m)
  {
    hide Mul;
    LimbProduct(x.a0, y.a0); LimbProduct(x.a0, y.a1); LimbProduct(x.a0, y.a2); LimbProduct(x.a0, y.a3);
    LimbProduct(x.a0, y.a4);
    LimbProduct(x.a1, y.a0); LimbProduct(x.a1, y.a1); LimbProduct(x.a1, y.a2); LimbProduct(x.a1, y.a3);
    LimbProduct(x.a1, y.a4);
    LimbProduct(x.a2, y.a0); LimbProduct(x.a2, y.a1); LimbProduct(x.a2, y.a2); LimbProduct(x.a2, y.a3);
    LimbProduct(x.a2, y.a4);
    LimbProduct(x.a3, y.a0); LimbProduct(x.a3, y.a1); LimbProduct(x.a3, y.a2); LimbProduct(x.a3, y.a3);
    LimbProduct(x.a3, y.a4);
    LimbProduct(x.a4, y.a0); LimbProduct(x.a4, y.a1); LimbProduct(x.a4, y.a2); LimbProduct(x.a4, y.a3);
    LimbProduct(x.a4, y.a4);
  }

  lemma MulFeCorrect(x: Fe, y: Fe)
    requires Loose(x) && Loose(y)
    ensures MulFe(x, y) == ScrFe(FoldFe(Columns(x, y)))
    ensures Tight(MulFe(x, y)) && Eq(V(MulFe(x, y)), V(x) * V(y), P)
  {
    hide Mul, ScrFe, V, CV, Eq, Low47, Asr47;
    var c := Columns(x, y);
    LimbProducts(x, y);
    WideScr(FoldFe(c));
    FoldValue(c);
    ColumnsValue(x, y);
    EqTrans(V(MulFe(x, y)), V(FoldFe(c)), CV(c), P);
  }

  /** The columns in the order of the source's sums. */
  lemma SchoolColumns(x: Fe, y: Fe)
    ensures var c, f := Columns(x, y), FoldFe(Columns(x, y));
      && c.c4 == Mul(x.a0, y.a4) + Mul(x.a4, y.a0) + Mul(x.a1, y.a3) + Mul(x.a3, y.a1) + Mul(x.a2, y.a2)
      && f.a4 == Low47(c.c4)
      && f.a0 == Mul(x.a0, y.a0) + 144 * (Mul(x.a1, y.a4) + Mul(x.a4, y.a1) + Mul(x.a2, y.a3) + Mul(x.a3, y.a2))
        + 9 * Asr47(c.c4)
      && f.a1 == Mul(x.a0, y.a1) + Mul(x.a1, y.a0)
        + 144 * (Mul(x.a3, y.a3) + Mul(x.a2, y.a4) + Mul(x.a4, y.a2))
      && f.a2 == Mul(x.a1, y.a1) + Mul(x.a0, y.a2) + Mul(x.a2, y.a0) + 144 * (Mul(x.a3, y.a4) + Mul(x.a4, y.a3))
      && f.a3 == 144 * Mul(x.a4, y.a4) + Mul(x.a0, y.a3) + Mul(x.a3, y.a0) + Mul(x.a1, y.a2) + Mul(x.a2, y.a1)
  {
    hide Mul, Low47, Asr47;
  }

  method GMul(x: array<int64>, y: array<int64>, z: array<int64>)
    requires x.Length == 5 && y.Length == 5 && z.Length == 5 && z != x && z != y
    requires Loose(L(x)) && Loose(L(y))
    modifies z
    ensures L(z) == MulFe(L(x), L(y))
    ensures Tight(L(z)) && Eq(V(L(z)), V(L(x)) * V(L(y)), P)
  {
    hide Mul, Low51, Low47, Asr51, Asr47, ScrFe, V, Eq, Tight, MulFe, Columns, FoldFe;
    ghost var f := FoldFe(Columns(L(x), L(y)));
    MulBounds(L(x), L(y));
    MulFeCorrect(L(x), L(y));
    SchoolColumns(L(x), L(y));
    var t0: int128, t1: int128;
    t0 := SchoolLow(x, y, z);
    hide Loose;
    ghost var s1 := t0;
    t1 := Mul(x[1], y[1]) + Mul(x[0], y[2]) + Mul(x[2], y[0])
      + 144 * (Mul(x[3], y[4]) + Mul(x[4], y[3])) + Asr51(t0);
    ghost var s2 := t1;
    assert s2 == f.a2 + Asr51(s1);
    z[2] := Low51(t1);
    t0 := 144 * Mul(x[4], y[4]) + Mul(x[0], y[3]) + Mul(x[3], y[0])
      + Mul(x[1], y[2]) + Mul(x[2], y[1]) + Asr51(t1);
    assert t0 == f.a3 + Asr51(s2);
    z[3] := Low51(t0);
    t1 := z[4] + Asr51(t0);
    z[4] := Low47(t1);
    z[0] := z[0] + 9 * Asr47(t1);
    ScrSteps(f, s1, s2, t0, t1);
  }

  /** Its first half: limbs 4, 0 and 1, and the accumulator that limb 1 came from. */
  method SchoolLow(x: array<int64>, y: array<int64>, z: array<int64>) returns (t0: int128)
    requires x.Length == 5 && y.Length == 5 && z.Length == 5 && z != x && z != y
    requires Loose(L(x)) && Loose(L(y))
    modifies z
    ensures var f := FoldFe(Columns(L(x), L(y)));
      z[4] == f.a4 && z[0] == Low51(f.a0) && t0 == f.a1 + Asr51(f.a0) && z[1] == Low51(t0)
  {
    hide Mul, Low51, Low47, Asr51, Asr47, Columns, FoldFe;
    ghost var c, f := Columns(L(x), L(y)), FoldFe(Columns(L(x), L(y)));
    MulBounds(L(x), L(y));
    SchoolColumns(L(x), L(y));
    hide Loose;
    var t1: int128;
    t0 := Mul(x[0], y[4]) + Mul(x[4], y[0]) + Mul(x[1], y[3]) + Mul(x[3], y[1]) + Mul(x[2], y[2]);
    assert t0 == c.c4;
    z[4] := Low47(t0);
    t1 := Mul(x[0], y[0]) + 144 * (Mul(x[1], y[4]) + Mul(x[4], y[1]) + Mul(x[2], y[3]) + Mul(x[3], y[2]))
      + 9 * Asr47(t0);
    assert t1 == f.a0;
    z[0] := Low51(t1);
    t0 := Mul(x[0], y[1]) + Mul(x[1], y[0]) + 144 * (Mul(x[3], y[3]) + Mul(x[2], y[4]) + Mul(x[4], y[2])) + Asr51(t1);
    assert t0 == f.a1 + Asr51(f.a0);
    z[1] := Low51(t0);
  }

  /** The accumulators of a product stay far inside 128 bits. */
  lemma MulBounds(x: Fe, y: Fe)
    requires Loose(x) && Loose(y)
    ensures var c, f, m := Columns(x, y), FoldFe(Columns(x, y)), 0x400000000000000000000000000000;
      && -m <= c.c4 <= m && Within(f, m)
      && -m <= Asr51(f.a0) <= m && -m <= Asr51(f.a1 + Asr51(f.a0)) <= m
      && -m <= Asr51(f.a2 + Asr51(f.a1 + Asr51(f.a0))) <= m
  {
    hide Mul, Asr51, Asr47, Low51, Low47;
    LimbProducts(x, y);
  }

  /** The squaring shortcuts of a product by itself: equal cross terms are taken twice. */
  lemma SquareColumns(x: Fe)
    ensures var c, f := Columns(x, x), FoldFe(Columns(x, x));
      && c.c4 == 2 * (Mul(x.a0, x.a4) + Mul(x.a1, x.a3)) + Mul(x.a2, x.a2) && f.a4 == Low47(c.c4)
      && f.a0 == Mul(x.a0, x.a0) + 288 * (Mul(x.a1, x.a4) + Mul(x.a2, x.a3)) + 9 * Asr47(c.c4)
      && f.a1 == 2 * Mul(x.a0, x.a1) + 288 * Mul(x.a2, x.a4) + 144 * Mul(x.a3, x.a3)
      && f.a2 == Mul(x.a1, x.a1) + 2 * Mul(x.a0, x.a2) + 288 * Mul(x.a3, x.a4)
      && f.a3 == 144 * Mul(x.a4, x.a4) + 2 * (Mul(x.a0, x.a3) + Mul(x.a1, x.a2))
  {
    hide Low47, Asr47;
  }

  method GSqr(x: array<int64>, z: array<int64>)
    requires x.Length == 5 && z.Length == 5 && z != x && Loose(L(x))
    modifies z
    ensures L(z) == MulFe(L(x), L(x))
    ensures Tight(L(z)) && Eq(V(L(z)), V(L(x)) * V(L(x)), P)
  {
    hide Mul, Low51, Low47, Asr51, Asr47, ScrFe, V, Eq, Columns, FoldFe, Tight, MulFe;
    ghost var f := FoldFe(Columns(L(x), L(x)));
    MulBounds(L(x), L(x));
    MulFeCorrect(L(x), L(x));
    SquareColumns(L(x));
    var t0: int128, t1: int128;
    t0 := SquareLow(x, z);
    hide Loose;
    ghost var s1 := t0;
    t1 := Mul(x[1], x[1]) + 2 * Mul(x[0], x[2]) + 288 * Mul(x[3], x[4]) + Asr51(t0);
    assert t1 == f.a2 + Asr51(s1);
    ghost var s2 := t1;
    z[2] := Low51(t1);
    t0 := 144 * Mul(x[4], x[4]) + 2 * (Mul(x[0], x[3]) + Mul(x[1], x[2])) + Asr51(t1);
    assert t0 == f.a3 + Asr51(s2);
    z[3] := Low51(t0);
    t1 := z[4] + Asr51(t0);
    z[4] := Low47(t1);
    z[0] := z[0] + 9 * Asr47(t1);
    ScrSteps(f, s1, s2, t0, t1);
  }

  /** Its first half: limbs 4, 0 and 1. */
  method SquareLow(x: array<int64>, z: array<int64>) returns (t0: int128)
    requires x.Length == 5 && z.Length == 5 && z != x && Loose(L(x))
    modifies z
    ensures var f := FoldFe(Columns(L(x), L(x)));
      z[4] == f.a4 && z[0] == Low51(f.a0) && t0 == f.a1 + Asr51(f.a0) && z[1] == Low51(t0)
  {
    hide Mul, Low51, Low47, Asr51, Asr47, Columns, FoldFe;
    ghost var c, f := Columns(L(x), L(x)), FoldFe(Columns(L(x), L(x)));
    MulBounds(L(x), L(x));
    SquareColumns(L(x));
    hide Loose;
    var t1: int128;
    t0 := 2 * (Mul(x[0], x[4]) + Mul(x[1], x[3])) + Mul(x[2], x[2]);
    assert t0 == c.c4;
    z[4] := Low47(t0);
    t1 := Mul(x[0], x[0]) + 288 * (Mul(x[1], x[4]) + Mul(x[2], x[3])) + 9 * Asr47(t0);
    assert t1 == f.a0;
    z[0] := Low51(t1);
    t0 := 2 * Mul(x[0], x[1]) + 288 * Mul(x[2], x[4]) + 144 * Mul(x[3], x[3]) + Asr51(t1);
    assert t0 == f.a1 + Asr51(f.a0);
    z[1] := Low51(t0);
  }

  /** Granger's trick: x_i y_j + x_j y_i = x_i y_i + x_j y_j - (x_i - x_j)(y_i - y_j). */
  lemma GrangerPair(xi: int, xj: int, yi: int, yj: int)
    ensures Mul(xi, yj) + Mul(xj, yi) == Mul(xi, yi) + Mul(xj, yj) - Mul(xi - xj, yi - yj)
  {
  }

  lemma GrangerPairs(x: Fe, y: Fe)
    ensures Mul(x.a0, y.a1) + Mul(x.a1, y.a0) == Mul(x.a0, y.a0) + Mul(x.a1, y.a1) - Mul(x.a0 - x.a1, y.a0 - y.a1)
    ensures Mul(x.a0, y.a2) + Mul(x.a2, y.a0) == Mul(x.a0, y.a0) + Mul(x.a2, y.a2) - Mul(x.a0 - x.a2, y.a0 - y.a2)
    ensures Mul(x.a0, y.a3) + Mul(x.a3, y.a0) == Mul(x.a0, y.a0) + Mul(x.a3, y.a3) - Mul(x.a0 - x.a3, y.a0 - y.a3)
    ensures Mul(x.a0, y.a4) + Mul(x.a4, y.a0) == Mul(x.a0, y.a0) + Mul(x.a4, y.a4) - Mul(x.a0 - x.a4, y.a0 - y.a4)
    ensures Mul(x.a1, y.a2) + Mul(x.a2, y.a1) == Mul(x.a1, y.a1) + Mul(x.a2, y.a2) - Mul(x.a1 - x.a2, y.a1 - y.a2)
    ensures Mul(x.a1, y.a3) + Mul(x.a3, y.a1) == Mul(x.a1, y.a1) + Mul(x.a3, y.a3) - Mul(x.a1 - x.a3, y.a1 - y.a3)
    ensures Mul(x.a1, y.a4) + Mul(x.a4, y.a1) == Mul(x.a1, y.a1) + Mul(x.a4, y.a4) - Mul(x.a1 - x.a4, y.a1 - y.a4)
    ensures Mul(x.a2, y.a3) + Mul(x.a3, y.a2) == Mul(x.a2, y.a2) + Mul(x.a3, y.a3) - Mul(x.a2 - x.a3, y.a2 - y.a3)
    ensures Mul(x.a2, y.a4) + Mul(x.a4, y.a2) == Mul(x.a2, y.a2) + Mul(x.a4, y.a4) - Mul(x.a2 - x.a4, y.a2 - y.a4)
    ensures Mul(x.a3, y.a4) + Mul(x.a4, y.a3) == Mul(x.a3, y.a3) + Mul(x.a4, y.a4) - Mul(x.a3 - x.a4, y.a3 - y.a4)
  {
    hide Mul;
    GrangerPair(x.a0, x.a1, y.a0, y.a1);
    GrangerPair(x.a0, x.a2, y.a0, y.a2);
    GrangerPair(x.a0, x.a3, y.a0, y.a3);
    GrangerPair(x.a0, x.a4, y.a0, y.a4);
    GrangerPair(x.a1, x.a2, y.a1, y.a2);
    GrangerPair(x.a1, x.a3, y.a1, y.a3);
    GrangerPair(x.a1, x.a4, y.a1, y.a4);
    GrangerPair(x.a2, x.a3, y.a2, y.a3);
    GrangerPair(x.a2, x.a4, y.a2, y.a4);
    GrangerPair(x.a3, x.a4, y.a3, y.a4);
  }

  lemma GrangerColumns(x: Fe, y: Fe)
    requires Loose(x) && Loose(y)
    ensures var c, f, m := Columns(x, y), FoldFe(Columns(x, y)), 0x10000000000000000000000000000;
      var d0, d1, d2, d3, d4 := Mul(x.a0, y.a0), Mul(x.a1, y.a1), Mul(x.a2, y.a2), Mul(x.a3, y.a3), Mul(x.a4, y.a4);
      && -m <= d0 <= m && -m <= d1 <= m && -m <= d2 <= m && -m <= d3 <= m && -m <= d4 <= m
      && -m <= d4 + d3 <= m && -m <= d4 + d3 + d2 <= m && -m <= d4 + d3 + d2 + d1 <= m
      && -m <= d4 + d3 + d2 + d1 + d0 <= m
      && -m <= d0 + d1 <= m && -m <= d0 + d1 + d2 <= m && -m <= d0 + d1 + d2 + d3 <= m
      && c.c4 == d0 + d1 + d2 + d3 + d4 - Mul(x.a0 - x.a4, y.a0 - y.a4) - Mul(x.a1 - x.a3, y.a1 - y.a3)
      && f.a4 == Low47(c.c4)
      && f.a0 == d0 + 144 * (d1 + d2 + d3 + d4 - Mul(x.a1 - x.a4, y.a1 - y.a4) - Mul(x.a2 - x.a3, y.a2 - y.a3))
        + 9 * Asr47(c.c4)
      && f.a1 == d0 + d1 - Mul(x.a0 - x.a1, y.a0 - y.a1) + 144 * (d2 + d3 + d4 - Mul(x.a2 - x.a4, y.a2 - y.a4))
      && f.a2 == d0 + d1 + d2 - Mul(x.a0 - x.a2, y.a0 - y.a2) + 144 * (d3 + d4 - Mul(x.a3 - x.a4, y.a3 - y.a4))
      && f.a3 == 144 * d4 + (d0 + d1 + d2 + d3) - Mul(x.a0 - x.a3, y.a0 - y.a3) - Mul(x.a1 - x.a2, y.a1 - y.a2)
  {
    hide Mul, Low47, Asr47;
    GrangerPairs(x, y);
    LimbProducts(x, y);
  }

  /** The two upper limbs by differences. */
  lemma GrangerHigh(x: Fe, y: Fe)
    requires Loose(x) && Loose(y)
    ensures var f, m := FoldFe(Columns(x, y)), 0x10000000000000000000000000000;
      var d0, d1, d2, d3, d4 := Mul(x.a0, y.a0), Mul(x.a1, y.a1), Mul(x.a2, y.a2), Mul(x.a3, y.a3), Mul(x.a4, y.a4);
      && -m <= d0 + d1 + d2 <= m && -m <= d0 + d1 + d2 + d3 <= m
      && f.a2 == d0 + d1 + d2 - Mul(x.a0 - x.a2, y.a0 - y.a2) + 144 * (d3 + d4 - Mul(x.a3 - x.a4, y.a3 - y.a4))
      && f.a3 == 144 * d4 + (d0 + d1 + d2 + d3) - Mul(x.a0 - x.a3, y.a0 - y.a3) - Mul(x.a1 - x.a2, y.a1 - y.a2)
  {
    hide Mul, Low47, Asr47, Columns, FoldFe;
    GrangerColumns(x, y);
  }

  /** The disabled alternative of the source: same contract, limb for limb. */
  method GMulGranger(x: array<int64>, y: array<int64>, z: array<int64>)
    requires x.Length == 5 && y.Length == 5 && z.Length == 5 && z != x && z != y
    requires Loose(L(x)) && Loose(L(y))
    modifies z
    ensures L(z) == MulFe(L(x), L(y))
    ensures Tight(L(z)) && Eq(V(L(z)), V(L(x)) * V(L(y)), P)
  {
    hide Mul, Low51, Low47, Asr51, Asr47, ScrFe, V, Eq, Columns, FoldFe, Tight, MulFe;
    ghost var f := FoldFe(Columns(L(x), L(y)));
    MulBounds(L(x), L(y));
    MulFeCorrect(L(x), L(y));
    var a0: int128, a2: int128, a3: int128, a4: int128, b3: int128, t0: int128, t1: int128;
    a0, a2, a3, a4, b3, t0 := GrangerLow(x, y, z);
    ghost var s1 := t0;
    ghost var s2;
    t0, s2 := GrangerUpper(x, y, z, a0, a2, a3, a4, b3, t0);
    t1 := z[4] + Asr51(t0);
    z[4] := Low47(t1);
    z[0] := z[0] + 9 * Asr47(t1);
    ScrSteps(f, s1, s2, t0, t1);
  }

  /** Its second part: limbs 2 and 3. */
  method GrangerUpper(x: array<int64>, y: array<int64>, z: array<int64>, a: int128, a2: int128, a3: int128,
    a4: int128, b3: int128, s1: int128) returns (t0: int128, ghost s2: int)
    requires x.Length == 5 && y.Length == 5 && z.Length == 5 && z != x && z != y
    requires Loose(L(x)) && Loose(L(y))
    requires a == Mul(x[0], y[0]) + Mul(x[1], y[1]) && a2 == Mul(x[2], y[2]) && a3 == Mul(x[3], y[3])
    requires a4 == Mul(x[4], y[4]) && b3 == a4 + a3
    requires var f := FoldFe(Columns(L(x), L(y))); s1 == f.a1 + Asr51(f.a0)
    modifies z
    ensures z[0] == old(z[0]) && z[1] == old(z[1]) && z[4] == old(z[4])
    ensures var f := FoldFe(Columns(L(x), L(y))); s2 == f.a2 + Asr51(s1) && t0 == f.a3 + Asr51(s2)
    ensures z[2] == Low51(s2) && z[3] == Low51(t0)
  {
    hide Mul, Low51, Asr51, Columns, FoldFe;
    ghost var f := FoldFe(Columns(L(x), L(y)));
    MulBounds(L(x), L(y));
    GrangerHigh(L(x), L(y));
    hide Loose;
    var t1: int128;
    var a0: int128 := a;
    a0 := a0 + a2;
    t1 := a0 - Mul(x[0] - x[2], y[0] - y[2]) + 144 * (b3 - Mul(x[3] - x[4], y[3] - y[4])) + Asr51(s1);
    assert t1 == f.a2 + Asr51(s1);
    s2 := t1;
    z[2] := Low51(t1);
    a0 := a0 + a3;
    t0 := 144 * a4 + a0 - Mul(x[0] - x[3], y[0] - y[3]) - Mul(x[1] - x[2], y[1] - y[2]) + Asr51(t1);
    assert t0 == f.a3 + Asr51(s2);
    z[3] := Low51(t0);
  }

  /** Its first half: limbs 4, 0 and 1, and the partial sums the second half goes on with. */
  method GrangerLow(x: array<int64>, y: array<int64>, z: array<int64>)
    returns (a0: int128, a2: int128, a3: int128, a4: int128, b3: int128, t0: int128)
    requires x.Length == 5 && y.Length == 5 && z.Length == 5 && z != x && z != y
    requires Loose(L(x)) && Loose(L(y))
    modifies z
    ensures a0 == Mul(x[0], y[0]) + Mul(x[1], y[1]) && a2 == Mul(x[2], y[2]) && a3 == Mul(x[3], y[3])
      && a4 == Mul(x[4], y[4])
    ensures b3 == a4 + a3
    ensures var f := FoldFe(Columns(L(x), L(y)));
      z[4] == f.a4 && z[0] == Low51(f.a0) && t0 == f.a1 + Asr51(f.a0) && z[1] == Low51(t0)
  {
    hide Mul, Low51, Low47, Asr51, Asr47, Columns, FoldFe;
    ghost var c, f := Columns(L(x), L(y)), FoldFe(Columns(L(x), L(y)));
    MulBounds(L(x), L(y));
    GrangerColumns(L(x), L(y));
    var t1: int128, a1: int128, b0: int128, b1: int128, b2: int128;
    a0 := Mul(x[0], y[0]);
    a1 := Mul(x[1], y[1]);
    a2 := Mul(x[2], y[2]);
    a3 := Mul(x[3], y[3]);
    a4 := Mul(x[4], y[4]);
    b3 := a4 + a3;
    b2 := b3 + a2;
    b1 := b2 + a1;
    b0 := b1 + a0;
    t0 := b0 - Mul(x[0] - x[4], y[0] - y[4]) - Mul(x[1] - x[3], y[1] - y[3]);
    assert t0 == c.c4;
    z[4] := Low47(t0);
    t1 := a0 + 144 * (b1 - Mul(x[1] - x[4], y[1] - y[4]) - Mul(x[2] - x[3], y[2] - y[3])) + 9 * Asr47(t0);
    assert t1 == f.a0;
    z[0] := Low51(t1);
    a0 := a0 + a1;
    t0 := a0 - Mul(x[0] - x[1], y[0] - y[1]) + 144 * (b2 - Mul(x[2] - x[4], y[2] - y[4])) + Asr51(t1);
    z[1] := Low51(t0);
  }

  // ---------------------------------------------------------------- normal form

  /** Negate, carry, negate, carry, carry. */
  function NormFe(x: Fe): Fe { ScrFe(ScrFe(NegFe(ScrFe(NegFe(x))))) }

  /** The only digit form of the residue: this is what makes the double negation work. The
      first pass leaves D + 9 c with 0 <= D < 2^251; negating it, the second pass carries out
      0, -1 or -2 and never a positive amount, so the third can only add p once. */
  lemma NormCorrect(x: Fe)
    requires Within(x, 0x4000_0000_0000_0000)
    ensures Digits(NormFe(x))
      && V(NormFe(x)) == V(x) % 0x7fffffffffffffffffffffffffffffffffffffffffffffffffffffffffffff7
  {
    hide ScrFe, V, NegFe;
    var n := NegFe(x);
    SumValues(x, x);
    var c := ScrValue(n);
    assert Within(n, 0x4000_0000_0000_0000) by { NegWithin(x); }
    ScrCarry(n, c);
    var m := NegFe(ScrFe(n));
    SumValues(ScrFe(n), x);
    var c1 := ScrValue(m);
    var y := ScrFe(m);
    var c2 := ScrValue(y);
    NormDigits(V(n), c, V(m), c1, V(y), c2);
    var z := ScrFe(y);
    NormLimb0(z, c2, V(y) % 0x800000000000000000000000000000000000000000000000000000000000000);
    NormResidue(V(x), V(n), c, V(m), c1, V(y), c2, V(z));
  }

  lemma NegWithin(x: Fe)
    requires Within(x, 0x4000_0000_0000_0000)
    ensures Within(NegFe(x), 0x4000_0000_0000_0000)
  {
  }

  lemma NormDigits(n: int, c: int, m: int, c1: int, y: int, c2: int)
    requires -0x10000 <= c <= 0x10000
      && m == -(n % 0x800000000000000000000000000000000000000000000000000000000000000 + 9 * c)
    requires c1 == m / 0x800000000000000000000000000000000000000000000000000000000000000
      && y == m % 0x800000000000000000000000000000000000000000000000000000000000000 + 9 * c1
      && c2 == y / 0x800000000000000000000000000000000000000000000000000000000000000
    ensures -2 <= c1 <= 0 && -1 <= c2 <= 0
    ensures 0 <= y - c2 * 0x7fffffffffffffffffffffffffffffffffffffffffffffffffffffffffffff7 < P
    ensures c2 == -1 ==>
      y % 0x800000000000000000000000000000000000000000000000000000000000000 >=
      0x7ffffffffffffffffffffffffffffffffffffffffffffffffffffffffffffee
  {
  }

  /** A folded carry of -1 does not make limb 0 negative when the number is 2^251 - 18 or more. */
  lemma NormLimb0(z: Fe, c2: int, r: int)
    requires -1 <= c2 <= 0 && Digits(Fe(z.a0 - 9 * c2, z.a1, z.a2, z.a3, z.a4))
    requires V(z) == r + 9 * c2 && (c2 == -1 ==> r >= 0x7ffffffffffffffffffffffffffffffffffffffffffffffffffffffffffffee)
    ensures Digits(z)
  {
  }

  lemma NormResidue(x: int, n: int, c: int, m: int, c1: int, y: int, c2: int, z: int)
    requires n == -x && m == -(n - c * 0x7fffffffffffffffffffffffffffffffffffffffffffffffffffffffffffff7)
      && y == m - c1 * 0x7fffffffffffffffffffffffffffffffffffffffffffffffffffffffffffff7
      && z == y - c2 * 0x7fffffffffffffffffffffffffffffffffffffffffffffffffffffffffffff7
    requires 0 <= z < 0x7fffffffffffffffffffffffffffffffffffffffffffffffffffffffffffff7
    ensures z == x % 0x7fffffffffffffffffffffffffffffffffffffffffffffffffffffffffffff7
  {
    DivModUnique(x, 0x7fffffffffffffffffffffffffffffffffffffffffffffffffffffffffffff7, c1 + c2 - c, z);
  }

  /** Digits determine the limbs. */
  lemma DigitsUnique(f: Fe, g: Fe)
    requires Digits(f) && Digits(g) && V(f) == V(g)
    ensures f == g
  {
    var m := 0x8000000000000;
    var f3, g3 := f.a3 + m * f.a4, g.a3 + m * g.a4;
    var f2, g2 := f.a2 + m * f3, g.a2 + m * g3;
    var f1, g1 := f.a1 + m * f2, g.a1 + m * g2;
    PeelDigit(f.a0, f1, g.a0, g1);
    PeelDigit(f.a1, f2, g.a1, g2);
    PeelDigit(f.a2, f3, g.a2, g3);
    PeelDigit(f.a3, f.a4, g.a3, g.a4);
  }

  lemma PeelDigit(a: int, r: int, b: int, s: int)
    requires 0 <= a < 0x8000000000000 && 0 <= b < 0x8000000000000 && a + 0x8000000000000 * r == b + 0x8000000000000 * s
    ensures a == b && r == s
  {
  }

  method GNorm(x: array<int64>, y: array<int64>)
    requires x.Length == 5 && y.Length == 5 && Within(L(x), 0x4000_0000_0000_0000)
    modifies y
    ensures L(y) == old(NormFe(L(x)))
    ensures Digits(L(y)) && V(L(y)) == old(V(L(x))) % 0x7fffffffffffffffffffffffffffffffffffffffffffffffffffffffffffff7
  {
    hide ScrFe, V, Eq;
    NormCorrect(L(x));
    var tmp := new int64[5];
    GNeg(x, tmp);
    Scr(tmp);
    GNeg(tmp, y);
    Scr(y);
    Scr(y);
  }

  /** True exactly when the two elements are congruent. */
  method GEq(x: array<int64>, y: array<int64>) returns (b: bool)
    requires x.Length == 5 && y.Length == 5
    requires Within(SubFe(L(x), L(y)), 0x4000_0000_0000_0000)
    ensures b <==> Eq(V(L(x)), V(L(y)), P)
  {
    hide ScrFe, V, NormFe, Eq;
    var z1, z2 := new int64[5], new int64[5];
    SumValues(L(x), L(y));
    GSub(x, y, z1);
    GNorm(z1, z2);
    ZeroDigits(L(z2));
    EqZero(V(L(x)), V(L(y)));
    b := z2[0] == 0 && z2[1] == 0 && z2[2] == 0 && z2[3] == 0 && z2[4] == 0;
  }

  lemma ZeroDigits(f: Fe)
    requires Digits(f)
    ensures V(f) == 0 <==> f == Fe(0, 0, 0, 0, 0)
  {
  }

  lemma EqZero(a: int, b: int)
    ensures Eq(a, b, P) <==> (a - b) % 0x7fffffffffffffffffffffffffffffffffffffffffffffffffffffffffffff7 == 0
  {
  }

  // ---------------------------------------------------------------- conditional move

  method FeCmov(f: array<int64>, g: array<int64>, ib: int)
    requires f.Length == 5 && g.Length == 5 && (ib == 0 || ib == 1)
    modifies f
    ensures L(f) == old(if ib == 1 then L(g) else L(f))
  {
    hide Xor, And;
    var b := -ib;
    Blend(f[0], g[0], b);
    Blend(f[1], g[1], b);
    Blend(f[2], g[2], b);
    Blend(f[3], g[3], b);
    Blend(f[4], g[4], b);
    f[0] := Xor(f[0], And(Xor(f[0], g[0]), b));
    f[1] := Xor(f[1], And(Xor(f[1], g[1]), b));
    f[2] := Xor(f[2], And(Xor(f[2], g[2]), b));
    f[3] := Xor(f[3], And(Xor(f[3], g[3]), b));
    f[4] := Xor(f[4], And(Xor(f[4], g[4]), b));
  }
}
