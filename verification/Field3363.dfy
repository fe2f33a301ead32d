/** The field operations of the Ed3363 engine on limb values, and its long exponentiation: the
    inverse as x^(p-2), p = 2^336 - 3. */
module Field3363 {
  import opened Bits
  import opened PrimeField
  import opened Limbs3363
  import F = Field1174

  // ---------------------------------------------------------------- values and magnitudes

  /** The largest limb, in magnitude. */
  function Mag6(f: Fe6): int {
    F.Max(Abs(f.a0), F.Max(Abs(f.a1), F.Max(Abs(f.a2), F.Max(Abs(f.a3), F.Max(Abs(f.a4), Abs(f.a5))))))
  }

  lemma TightMag6(f: Fe6)
    requires Tight6(f)
    ensures 0 <= Mag6(f) <= 0x100000000100000
  {
  }

  lemma LooseMag6(f: Fe6)
    requires Mag6(f) <= 0x800000000800000
    ensures Loose6(f)
  {
  }

  function Product6(x: Fe6, y: Fe6): (z: Fe6)
    requires Mag6(x) <= 0x800000000800000 && Mag6(y) <= 0x800000000800000
    ensures Tight6(z) && 0 <= Mag6(z) <= 0x100000000100000 && Eq(V6(z), V6(x) * V6(y), Q)
  {
    LooseMag6(x);
    LooseMag6(y);
    MulFeCorrect6(x, y);
    TightMag6(MulFe6(x, y));
    MulFe6(x, y)
  }

  /** Magnitudes add up under sums and differences. */
  lemma SumCorrect6(x: Fe6, y: Fe6)
    ensures V6(AddFe6(x, y)) == V6(x) + V6(y) && 0 <= Mag6(AddFe6(x, y)) <= Mag6(x) + Mag6(y)
    ensures V6(SubFe6(x, y)) == V6(x) - V6(y) && 0 <= Mag6(SubFe6(x, y)) <= Mag6(x) + Mag6(y)
    ensures V6(NegFe6(x)) == -V6(x) && 0 <= Mag6(NegFe6(x)) <= Mag6(x)
  {
    SumValues6(x, y);
    hide V6;
    MagSum6(x, y);
  }

  lemma MagSum6(x: Fe6, y: Fe6)
    ensures 0 <= Mag6(AddFe6(x, y)) <= Mag6(x) + Mag6(y) && 0 <= Mag6(SubFe6(x, y)) <= Mag6(x) + Mag6(y)
    ensures 0 <= Mag6(NegFe6(x)) <= Mag6(x)
  {
    hide Mag6;
    var m, n := Mag6(x), Mag6(y);
    MagWithin6(x);
    MagWithin6(y);
    WithinMag6(AddFe6(x, y), m + n);
    WithinMag6(SubFe6(x, y), m + n);
    WithinMag6(NegFe6(x), m);
  }

  lemma MagWithin6(f: Fe6)
    ensures Within6(f, Mag6(f))
  {
  }

  lemma WithinMag6(f: Fe6, n: int)
    requires Within6(f, n)
    ensures 0 <= Mag6(f) <= n
  {
  }

  function Sum6(x: Fe6, y: Fe6): (z: Fe6)
    requires Mag6(x) + Mag6(y) <= 0x800000000800000
    ensures V6(z) == V6(x) + V6(y) && 0 <= Mag6(z) <= Mag6(x) + Mag6(y)
  {
    SumCorrect6(x, y);
    AddFe6(x, y)
  }

  function Difference6(x: Fe6, y: Fe6): (z: Fe6)
    requires Mag6(x) + Mag6(y) <= 0x800000000800000
    ensures V6(z) == V6(x) - V6(y) && 0 <= Mag6(z) <= Mag6(x) + Mag6(y)
  {
    SumCorrect6(x, y);
    SubFe6(x, y)
  }

  function Reduced6(x: Fe6): (z: Fe6)
    requires Mag6(x) <= 0x800000000800000
    ensures Tight6(z) && 0 <= Mag6(z) <= 0x100000000100000 && Eq(V6(z), V6(x), Q)
  {
    LooseMag6(x);
    WideScrWithin6(x);
    TightMag6(ScrFe6(x));
    ScrFe6(x)
  }

  function Scaled6(x: Fe6, i: int): (z: Fe6)
    requires Mag6(x) <= 0x800000000800000 && -0x4000 <= i <= 0x4000
    ensures Tight6(z) && 0 <= Mag6(z) <= 0x100000000100000 && Eq(V6(z), V6(x) * i, Q)
  {
    LooseMag6(x);
    ScaleCorrect6(x, i);
    TightMag6(ScrFe6(ScaleFe6(x, i)));
    ScrFe6(ScaleFe6(x, i))
  }

  lemma NegCorrect6(x: Fe6)
    ensures V6(NegFe6(x)) == -V6(x) && 0 <= Mag6(NegFe6(x)) <= Mag6(x)
  {
    hide V6, Mag6;
    SumCorrect6(x, x);
  }

  function Negated6(x: Fe6): (z: Fe6)
    ensures V6(z) == -V6(x) && 0 <= Mag6(z) <= Mag6(x)
  {
    NegCorrect6(x);
    NegFe6(x)
  }

  // ---------------------------------------------------------------- powers

  /** Limbs that denote b^e modulo p and that a multiplication accepts. */
  ghost predicate Power(w: Fe6, b: int, e: nat) { Loose6(w) && Eq(V6(w), PrimeField.Pow(b, e), Q) }

  lemma ProductPower(v: Fe6, w: Fe6, b: int, d: nat, e: nat)
    requires Power(v, b, d) && Power(w, b, e)
    ensures Power(MulFe6(v, w), b, d + e) && Tight6(MulFe6(v, w))
  {
    MulFeCorrect6(v, w);
    TightLoose6(MulFe6(v, w));
    hide V6, MulFe6, Eq, PrimeField.Pow, Tight6, Loose6;
    var x, y := PrimeField.Pow(b, d), PrimeField.Pow(b, e);
    EqMul(V6(v), x, V6(w), y, Q);
    EqTrans(V6(MulFe6(v, w)), V6(v) * V6(w), x * y, Q);
    PowAdd(b, d, e);
  }

  lemma TightLoose6(f: Fe6)
    ensures Tight6(f) ==> Loose6(f)
  {
  }

  /** gsqr, doubling the exponent. */
  method Square6(w: Fe6, ghost b: int, ghost e: nat) returns (z: Fe6)
    requires Power(w, b, e)
    ensures z == MulFe6(w, w) && Power(z, b, 2 * e) && Tight6(z)
  {
    hide MulFe6, Power, Tight6;
    ProductPower(w, w, b, e, e);
    z := MulFe6(w, w);
  }

  /** gmul, adding the exponents. */
  method Multiply6(v: Fe6, w: Fe6, ghost b: int, ghost d: nat, ghost e: nat) returns (z: Fe6)
    requires Power(v, b, d) && Power(w, b, e)
    ensures z == MulFe6(v, w) && Power(z, b, d + e) && Tight6(z)
  {
    hide MulFe6, Power, Tight6;
    ProductPower(v, w, b, d, e);
    z := MulFe6(v, w);
  }

  /** The source's loop of k double squarings. */
  method SquareRun6(t: Fe6, k: nat, ghost b: int, ghost e: nat) returns (r: Fe6)
    requires Power(t, b, e)
    ensures Power(r, b, F.Raised(e, k))
  {
    hide Power, F.Raised;
    r := t;
    var i := 0;
    F.RaisedStep(e, 0);
    while i < k
      invariant i <= k && Power(r, b, F.Raised(e, i))
    {
      var w := Square6(r, b, F.Raised(e, i));
      r := Square6(w, b, 2 * F.Raised(e, i));
      F.RaisedStep(e, i);
      i := i + 1;
    }
  }

  lemma SmallOnes()
    ensures F.Ones(5) == 31
  {
  }

  /** The start of the chain: x^3, x^11 and x^(2^10-1). */
  method Start(x: Fe6, ghost b: int) returns (xc: Fe6, x11: Fe6, r: Fe6)
    requires Power(x, b, 1)
    ensures Power(xc, b, 3) && Power(x11, b, 11) && Power(r, b, F.Ones(10))
  {
    hide Power, MulFe6, Tight6, F.Ones, Pow2;
    SmallOnes();
    var w := Square6(x, b, 1);
    xc := Multiply6(w, x, b, 2, 1);
    var t1 := Square6(w, b, 2);
    x11 := Square6(t1, b, 4);
    var t2 := Multiply6(x11, x, b, 8, 1);
    x11 := Multiply6(t2, w, b, 9, 2);
    w := Square6(x11, b, 11);
    t1 := Multiply6(w, t2, b, 22, 9);
    w := t1;
    t2 := Square6(w, b, 31);
    w := Square6(t2, b, 62);
    t2 := Square6(w, b, 124);
    w := Square6(t2, b, 248);
    t2 := Square6(w, b, 496);
    r := Multiply6(t2, t1, b, 992, 31);
    TenOnes();
  }

  lemma TenOnes()
    ensures F.Ones(10) == 1023
  {
  }

  /** From 10 to 20 ones, picking up 12 ones on the way. */
  method Twenty(x: Fe6, x3: Fe6, ghost b: int) returns (xc: Fe6, t1: Fe6)
    requires Power(x, b, F.Ones(10)) && Power(x3, b, 3)
    ensures Power(xc, b, F.Ones(12)) && Power(t1, b, F.Ones(20))
  {
    hide Power, MulFe6, Tight6, F.Ones, Pow2;
    F.SmallOnes();
    var t2 := x;
    var w := Square6(t2, b, F.Ones(10));
    t2 := Square6(w, b, 2 * F.Ones(10));
    w := Multiply6(t2, x3, b, 4 * F.Ones(10), 3);
    F.Run(10, 2);
    xc := w;
    t2 := SquareRun6(t2, 4, b, 4 * F.Ones(10));
    TenSquarings();
    t1 := Multiply6(t2, x, b, F.Ones(10) * Pow2(10), F.Ones(10));
    F.Run(10, 10);
  }

  lemma TenSquarings()
    ensures (4 * F.Ones(10)) * Pow2(8) == F.Ones(10) * Pow2(10)
  {
  }

  /** x^(p-2): for p prime, the inverse of every x that is not 0 modulo p. */
  method GInv6(x0: Fe6) returns (x: Fe6)
    requires Loose6(x0)
    ensures Tight6(x) && Eq(V6(x), PrimeField.Pow(V6(x0), Q - 2), Q)
    ensures IsPrime(Q) && !Eq(V6(x0), 0, Q) ==> Eq(V6(x0) * V6(x), 1, Q)
  {
    hide V6, Eq, PrimeField.Pow, MulFe6, F.Ones, Pow2, Tight6, IsPrime, Power, Loose6;
    ghost var b := V6(x0);
    FirstPower6(x0, b);
    var xc, x11, t1, t2;
    xc, x11, x := Start(x0, b);
    xc, t1 := Twenty(x, xc, b);
    x := t1;
    t1 := SquareRun6(t1, 10, b, F.Ones(20));
    t2 := Multiply6(t1, x, b, F.Ones(20) * Pow2(20), F.Ones(20));
    F.Run(20, 20);
    x := t2;
    t2 := SquareRun6(t2, 20, b, F.Ones(40));
    t1 := Multiply6(t2, x, b, F.Ones(40) * Pow2(40), F.Ones(40));
    F.Run(40, 40);
    x := t1;
    t1 := SquareRun6(t1, 40, b, F.Ones(80));
    t2 := Multiply6(t1, x, b, F.Ones(80) * Pow2(80), F.Ones(80));
    F.Run(80, 80);
    x := t2;
    t2 := SquareRun6(t2, 80, b, F.Ones(160));
    t1 := Multiply6(t2, x, b, F.Ones(160) * Pow2(160), F.Ones(160));
    F.Run(160, 160);
    t1 := SquareRun6(t1, 6, b, F.Ones(320));
    t2 := Multiply6(t1, xc, b, F.Ones(320) * Pow2(12), F.Ones(12));
    F.Run(320, 12);
    t2 := SquareRun6(t2, 2, b, F.Ones(332));
    x := Multiply6(t2, x11, b, F.Ones(332) * Pow2(4), 11);
    InverseExponent6();
    InverseResult6(x, b);
  }

  lemma FirstPower6(x: Fe6, b: int)
    requires Loose6(x) && V6(x) == b
    ensures Power(x, b, 1)
  {
    hide V6, Eq, Loose6;
    EqRefl(b, Q);
    assert PrimeField.Pow(b, 1) == b;
  }

  lemma InverseExponent6()
    ensures F.Ones(332) * Pow2(4) + 11 == Q - 2
  {
    Pow2Of336();
    hide Pow2;
    Pow2Add(332, 4);
    assert (Pow2(332) - 1) * Pow2(4) == Pow2(332) * Pow2(4) - Pow2(4);
  }

  lemma Pow2Of336()
    ensures Pow2(336) == Q + 3 && Pow2(4) == 16
  {
    assert Pow2(4) == 16 && Pow2(6) == 64;
    F.Pow2To50();
    F.Modulus();
    hide Pow2;
    Pow2Add(6, 50);
    Pow2Add(56, 56);
    assert Pow2(112) == 0x10000000000000000000000000000;
    Pow2Add(112, 112);
    assert Pow2(224) == 0x100000000000000000000000000000000000000000000000000000000;
    Pow2Add(224, 112);
  }

  lemma InverseResult6(x: Fe6, b: int)
    requires Power(x, b, Q - 2)
    ensures Eq(V6(x), PrimeField.Pow(b, Q - 2), Q)
    ensures IsPrime(Q) && !Eq(b, 0, Q) ==> Eq(b * V6(x), 1, Q)
  {
    hide PrimeField.Pow, Eq, IsPrime, V6;
    var r := V6(x);
    if IsPrime(Q) && !Eq(b, 0, Q) {
      InverseByPower(b, Q);
      EqScale(b, r, PrimeField.Pow(b, Q - 2), Q);
      EqTrans(b * r, b * PrimeField.Pow(b, Q - 2), 1, Q);
    }
  }
}
