/** The field operations of the Curve1174 engine on limb values, and the two long
    exponentiations: inverse and square root. Operands and results are those of the array
    methods of Limbs1174; the contracts speak of values modulo p and of magnitudes only. */
module Field1174 {
  import opened Bits
  import opened PrimeField
  import opened Limbs1174

  function Max(a: int, b: int): int { if a < b then b else a }

  /** The largest limb, in magnitude. */
  function Mag(f: Fe): int {
    Max(Abs(f.a0), Max(Abs(f.a1), Max(Abs(f.a2), Max(Abs(f.a3), Abs(f.a4)))))
  }

  lemma TightMag(f: Fe)
    requires Tight(f)
    ensures 0 <= Mag(f) <= 0x8000001000000
  {
  }

  lemma LooseMag(f: Fe)
    requires Mag(f) <= 0x40000008000000
    ensures Loose(f)
  {
  }

  function Product(x: Fe, y: Fe): (z: Fe)
    requires Mag(x) <= 0x40000008000000 && Mag(y) <= 0x40000008000000
    ensures Tight(z) && 0 <= Mag(z) <= 0x8000001000000 && Eq(V(z), V(x) * V(y), P)
  {
    LooseMag(x);
    LooseMag(y);
    MulFeCorrect(x, y);
    TightMag(MulFe(x, y));
    MulFe(x, y)
  }

  /** Magnitudes add up under sums and differences. */
  lemma SumCorrect(x: Fe, y: Fe)
    ensures V(AddFe(x, y)) == V(x) + V(y) && 0 <= Mag(AddFe(x, y)) <= Mag(x) + Mag(y)
    ensures V(SubFe(x, y)) == V(x) - V(y) && 0 <= Mag(SubFe(x, y)) <= Mag(x) + Mag(y)
    ensures V(NegFe(x)) == -V(x) && 0 <= Mag(NegFe(x)) <= Mag(x)
  {
    SumValues(x, y);
    hide V;
    MagSum(x, y);
  }

  lemma MagSum(x: Fe, y: Fe)
    ensures 0 <= Mag(AddFe(x, y)) <= Mag(x) + Mag(y) && 0 <= Mag(SubFe(x, y)) <= Mag(x) + Mag(y)
    ensures 0 <= Mag(NegFe(x)) <= Mag(x)
  {
    hide Mag;
    var m, n := Mag(x), Mag(y);
    MagWithin(x);
    MagWithin(y);
    WithinMag(AddFe(x, y), m + n);
    WithinMag(SubFe(x, y), m + n);
    WithinMag(NegFe(x), m);
  }

  lemma MagWithin(f: Fe)
    ensures Within(f, Mag(f))
  {
  }

  lemma WithinMag(f: Fe, n: int)
    requires Within(f, n)
    ensures 0 <= Mag(f) <= n
  {
  }

  function Sum(x: Fe, y: Fe): (z: Fe)
    requires Mag(x) + Mag(y) <= 0x40000008000000
    ensures V(z) == V(x) + V(y) && 0 <= Mag(z) <= Mag(x) + Mag(y)
  {
    SumCorrect(x, y);
    AddFe(x, y)
  }

  function Difference(x: Fe, y: Fe): (z: Fe)
    requires Mag(x) + Mag(y) <= 0x40000008000000
    ensures V(z) == V(x) - V(y) && 0 <= Mag(z) <= Mag(x) + Mag(y)
  {
    SumCorrect(x, y);
    SubFe(x, y)
  }

  function Reduced(x: Fe): (z: Fe)
    requires Mag(x) <= 0x40000008000000
    ensures Tight(z) && 0 <= Mag(z) <= 0x8000001000000 && Eq(V(z), V(x), P)
  {
    LooseMag(x);
    ScrTight(x);
    TightMag(ScrFe(x));
    ScrFe(x)
  }

  function Scaled(x: Fe, i: int): (z: Fe)
    requires Mag(x) <= 0x40000008000000 && -0x800 <= i <= 0x800
    ensures Tight(z) && 0 <= Mag(z) <= 0x8000001000000 && Eq(V(z), V(x) * i, P)
  {
    LooseMag(x);
    MulICarry(x, i);
    TightMag(MulIFe(x, i));
    MulIFe(x, i)
  }

  lemma NegCorrect(x: Fe)
    ensures V(NegFe(x)) == -V(x) && 0 <= Mag(NegFe(x)) <= Mag(x)
  {
    hide V, Mag;
    SumCorrect(x, x);
  }

  function Negated(x: Fe): (z: Fe)
    ensures V(z) == -V(x) && 0 <= Mag(z) <= Mag(x)
  {
    NegCorrect(x);
    NegFe(x)
  }

  predicate Same(x: Fe, y: Fe)
    requires Mag(x) + Mag(y) <= 0x40000008000000
    ensures Same(x, y) <==> Eq(V(x), V(y), P)
  {
    SameCorrect(x, y);
    NormFe(SubFe(x, y)) == Fe(0, 0, 0, 0, 0)
  }

  lemma SameCorrect(x: Fe, y: Fe)
    requires Mag(x) + Mag(y) <= 0x40000008000000
    ensures NormFe(SubFe(x, y)) == Fe(0, 0, 0, 0, 0) <==> Eq(V(x), V(y), P)
  {
    hide NormFe, V, Eq;
    SumValues(x, y);
    MagSum(x, y);
    MagWithin(SubFe(x, y));
    hide Mag;
    NormCorrect(SubFe(x, y));
    ZeroDigits(NormFe(SubFe(x, y)));
    EqZero(V(x), V(y));
  }

  // ---------------------------------------------------------------- powers

  /** w holds b^e, in limbs that a multiplication accepts. */
  ghost predicate Holds(w: Fe, b: int, e: nat) { Loose(w) && Eq(V(w), Pow(b, e), P) }

  /** A product of powers is the power of the sum. */
  lemma HoldsProduct(v: Fe, w: Fe, b: int, d: nat, e: nat)
    requires Holds(v, b, d) && Holds(w, b, e)
    ensures Holds(MulFe(v, w), b, d + e) && Tight(MulFe(v, w))
  {
    MulFeCorrect(v, w);
    TightLoose(MulFe(v, w));
    hide V, MulFe, Eq, Pow, Tight, Loose;
    var x, y := Pow(b, d), Pow(b, e);
    EqMul(V(v), x, V(w), y, P);
    EqTrans(V(MulFe(v, w)), V(v) * V(w), x * y, P);
    PowAdd(b, d, e);
  }

  lemma TightLoose(f: Fe)
    ensures Tight(f) ==> Loose(f)
  {
  }

  /** gsqr, doubling the exponent. */
  method Square(w: Fe, ghost b: int, ghost e: nat) returns (z: Fe)
    requires Holds(w, b, e)
    ensures z == MulFe(w, w) && Holds(z, b, 2 * e) && Tight(z)
  {
    hide MulFe, Holds, Tight;
    HoldsProduct(w, w, b, e, e);
    z := MulFe(w, w);
  }

  /** gmul, adding the exponents. */
  method Multiply(v: Fe, w: Fe, ghost b: int, ghost d: nat, ghost e: nat) returns (z: Fe)
    requires Holds(v, b, d) && Holds(w, b, e)
    ensures z == MulFe(v, w) && Holds(z, b, d + e) && Tight(z)
  {
    hide MulFe, Holds, Tight;
    HoldsProduct(v, w, b, d, e);
    z := MulFe(v, w);
  }

  /** An exponent after k double squarings. */
  function Raised(e: nat, k: nat): (r: nat)
    ensures r == e * Pow2(2 * k)
  {
    hide Pow2;
    NaturalProduct(e, Pow2(2 * k));
    e * Pow2(2 * k)
  }

  lemma NaturalProduct(a: int, b: int)
    requires a >= 0 && b >= 0
    ensures a * b >= 0
  {
  }

  /** The source's loop of k double squarings. */
  method SquareRun(t: Fe, k: nat, ghost b: int, ghost e: nat) returns (r: Fe)
    requires Holds(t, b, e)
    ensures Holds(r, b, Raised(e, k))
  {
    hide Holds, Raised;
    r := t;
    var i := 0;
    RaisedStep(e, 0);
    while i < k
      invariant i <= k && Holds(r, b, Raised(e, i))
    {
      var w := Square(r, b, Raised(e, i));
      r := Square(w, b, 2 * Raised(e, i));
      RaisedStep(e, i);
      i := i + 1;
    }
  }

  lemma RaisedStep(e: nat, i: nat)
    ensures Raised(e, 0) == e && Raised(e, i + 1) == 2 * (2 * Raised(e, i))
  {
    hide Raised;
    assert Pow2(0) == 1 && Pow2(2 * (i + 1)) == 2 * (2 * Pow2(2 * i));
    hide Pow2;
    FourTimes(e, Pow2(2 * i));
  }

  lemma FourTimes(e: int, p: int)
    ensures e * (2 * (2 * p)) == 2 * (2 * (e * p))
  {
  }

  /** A run of n ones. */
  function Ones(n: nat): nat { Pow2(n) - 1 }

  /** n ones, shifted up by k, with k ones below. */
  lemma Run(n: nat, k: nat)
    ensures Ones(n) * Pow2(k) + Ones(k) == Ones(n + k)
  {
    Pow2Add(n, k);
    assert (Pow2(n) - 1) * Pow2(k) == Pow2(n) * Pow2(k) - Pow2(k);
  }

  lemma SmallOnes()
    ensures Ones(1) == 1 && Ones(2) == 3 && Ones(4) == 15 && Pow2(1) == 2 && Pow2(2) == 4
  {
  }

  lemma Modulus()
    ensures Pow2(251) == P + 9
  {
    Pow2To50();
    hide Pow2;
    Pow2Add(50, 50);
    assert Pow2(100) == 0x10000000000000000000000000;
    Pow2Add(100, 100);
    assert Pow2(200) == 0x100000000000000000000000000000000000000000000000000;
    Pow2Add(200, 50);
    assert Pow2(250) == 0x400000000000000000000000000000000000000000000000000000000000000;
    Pow2Add(250, 1);
  }

  lemma Pow2To50()
    ensures Pow2(50) == 0x4000000000000 && Pow2(1) == 2
  {
    assert Pow2(10) == 1024;
    Pow2Add(10, 10);
    Pow2Add(20, 20);
    Pow2Add(40, 10);
  }

  /** The chain up to x^(2^60-1), with x^3 and x^5. */
  method ShortChain(x: Fe, ghost b: int) returns (x3: Fe, x5: Fe, w: Fe)
    requires Holds(x, b, 1)
    ensures Holds(x3, b, 3) && Holds(x5, b, 5) && Holds(w, b, Ones(60))
  {
    hide Mag, V, Eq, Pow, MulFe, Ones, Pow2, Tight, Holds;
    SmallOnes();
    w := Square(x, b, 1);
    x3 := Multiply(x, w, b, 1, 2);
    x5 := Multiply(w, x3, b, 2, 3);
    w := Square(x3, b, 3);
    var t1 := Square(w, b, 6);
    w := Multiply(x3, t1, b, 3, 12);
    t1 := Square(w, b, Ones(4));
    w := Square(t1, b, 2 * Ones(4));
    t1 := Multiply(x3, w, b, 3, 4 * Ones(4));
    Run(4, 2);
    var t2 := t1;
    t1 := SquareRun(t1, 3, b, Ones(6));
    w := Multiply(t1, t2, b, Ones(6) * Pow2(6), Ones(6));
    Run(6, 6);
    t1 := Square(w, b, Ones(12));
    w := Square(t1, b, 2 * Ones(12));
    t1 := Multiply(x3, w, b, 3, 4 * Ones(12));
    Run(12, 2);
    t2 := t1;
    t1 := SquareRun(t1, 7, b, Ones(14));
    w := Multiply(t1, t2, b, Ones(14) * Pow2(14), Ones(14));
    Run(14, 14);
    t1 := Square(w, b, Ones(28));
    w := Square(t1, b, 2 * Ones(28));
    t1 := Multiply(x3, w, b, 3, 4 * Ones(28));
    Run(28, 2);
    t2 := t1;
    t1 := SquareRun(t1, 15, b, Ones(30));
    w := Multiply(t1, t2, b, Ones(30) * Pow2(30), Ones(30));
    Run(30, 30);
  }

  /** x^(p-2): for p prime, the inverse of every x that is not 0 modulo p. */
  method GInv(x0: Fe) returns (x: Fe)
    requires 0 <= Mag(x0) <= 0x40000008000000
    ensures Tight(x) && Eq(V(x), Pow(V(x0), P - 2), P)
    ensures IsPrime(P) && !Eq(V(x0), 0, P) ==> Eq(V(x0) * V(x), 1, P)
  {
    hide Mag, V, Eq, Pow, MulFe, Ones, Pow2, Tight, IsPrime, Holds;
    ghost var b := V(x0);
    SmallOnes();
    x := x0;
    FirstPower(x, b);
    var x3, x5, w := ShortChain(x, b);
    var t2 := w;
    w := SquareRun(w, 30, b, Ones(60));
    var t1 := Multiply(w, t2, b, Ones(60) * Pow2(60), Ones(60));
    Run(60, 60);
    w := Square(t1, b, Ones(120));
    t1 := Square(w, b, 2 * Ones(120));
    w := Multiply(x3, t1, b, 3, 4 * Ones(120));
    Run(120, 2);
    t2 := w;
    w := SquareRun(w, 61, b, Ones(122));
    t1 := Multiply(w, t2, b, Ones(122) * Pow2(122), Ones(122));
    Run(122, 122);
    w := Square(t1, b, Ones(244));
    t1 := Multiply(x, w, b, 1, 2 * Ones(244));
    Run(244, 1);
    w := Square(t1, b, Ones(245));
    t1 := Square(w, b, 2 * Ones(245));
    w := Multiply(x3, t1, b, 3, 4 * Ones(245));
    Run(245, 2);
    t1 := Square(w, b, Ones(247));
    w := Square(t1, b, 2 * Ones(247));
    t1 := Square(w, b, 4 * Ones(247));
    w := Square(t1, b, 8 * Ones(247));
    x := Multiply(x5, w, b, 5, 16 * Ones(247));
    InverseExponent();
    HoldsElim(x, b, P - 2);
    InverseResult(V(x), b);
  }

  lemma FirstPower(x: Fe, b: int)
    requires 0 <= Mag(x) <= 0x40000008000000 && V(x) == b
    ensures Holds(x, b, 1)
  {
    LooseMag(x);
    hide Mag, V, Eq, Loose;
    EqRefl(b, P);
    assert Pow(b, 1) == b;
  }

  lemma InverseExponent()
    ensures 5 + 16 * Ones(247) == P - 2
  {
    Pow2Add(247, 4);
    assert Pow2(4) == 16;
    Modulus();
  }

  lemma InverseResult(r: int, b: int)
    requires Eq(r, Pow(b, P - 2), P)
    ensures IsPrime(P) && !Eq(b, 0, P) ==> Eq(b * r, 1, P)
  {
    hide Pow, Eq, IsPrime;
    if IsPrime(P) && !Eq(b, 0, P) {
      InverseByPower(b, P);
      EqScale(b, r, Pow(b, P - 2), P);
      EqTrans(b * r, b * Pow(b, P - 2), 1, P);
    }
  }

  ghost predicate IsSquare(x: int) { exists r :: Eq(r * r, x, P) }

  /** Runs of 2, 4, 8, 16 and 32 ones in the exponent. */
  method ShortRuns(x: Fe, ghost b: int) returns (bits8: Fe, bits16: Fe, bits32: Fe)
    requires Holds(x, b, 1)
    ensures Holds(bits8, b, Ones(8)) && Holds(bits16, b, Ones(16)) && Holds(bits32, b, Ones(32))
  {
    hide Mag, V, Eq, Pow, MulFe, Ones, Pow2, Tight, Holds;
    SmallOnes();
    var tmp1, tmp2;
    tmp1 := Square(x, b, 1);
    var bits2 := Multiply(x, tmp1, b, 1, 2);
    tmp1 := bits2;
    tmp2 := Square(tmp1, b, Ones(2));
    tmp1 := Square(tmp2, b, 2 * Ones(2));
    var bits4 := Multiply(bits2, tmp1, b, Ones(2), 4 * Ones(2));
    Run(2, 2);
    tmp1 := SquareRun(bits4, 2, b, Ones(4));
    bits8 := Multiply(bits4, tmp1, b, Ones(4), Ones(4) * Pow2(4));
    Run(4, 4);
    tmp1 := SquareRun(bits8, 4, b, Ones(8));
    bits16 := Multiply(bits8, tmp1, b, Ones(8), Ones(8) * Pow2(8));
    Run(8, 8);
    tmp1 := SquareRun(bits16, 8, b, Ones(16));
    bits32 := Multiply(bits16, tmp1, b, Ones(16), Ones(16) * Pow2(16));
    Run(16, 16);
  }

  /** y = x^((p+1)/4); true exactly when y is a square root of x, and for p prime exactly when
      x has one. */
  method GSqrt(x: Fe) returns (y: Fe, ok: bool)
    requires 0 <= Mag(x) <= 0x8000001000000
    ensures Tight(y) && Eq(V(y), Pow(V(x), (P + 1) / 4), P)
    ensures ok <==> Eq(V(y) * V(y), V(x), P)
    ensures IsPrime(P) ==> (ok <==> IsSquare(V(x)))
  {
    hide Mag, V, Eq, Pow, MulFe, Ones, Pow2, Tight, IsPrime, IsSquare;
    ghost var b := V(x);
    SmallOnes();
    FirstPower(x, b);
    var tmp1, ans;
    var bits8, bits16, bits32 := ShortRuns(x, b);
    tmp1 := SquareRun(bits32, 16, b, Ones(32));
    var bits64 := Multiply(bits32, tmp1, b, Ones(32), Ones(32) * Pow2(32));
    Run(32, 32);
    tmp1 := SquareRun(bits64, 32, b, Ones(64));
    var bits128 := Multiply(bits64, tmp1, b, Ones(64), Ones(64) * Pow2(64));
    Run(64, 64);
    tmp1 := SquareRun(bits128, 32, b, Ones(128));
    ans := Multiply(bits64, tmp1, b, Ones(64), Ones(128) * Pow2(64));
    Run(128, 64);
    tmp1 := SquareRun(ans, 16, b, Ones(192));
    ans := Multiply(bits32, tmp1, b, Ones(32), Ones(192) * Pow2(32));
    Run(192, 32);
    tmp1 := SquareRun(ans, 8, b, Ones(224));
    ans := Multiply(bits16, tmp1, b, Ones(16), Ones(224) * Pow2(16));
    Run(224, 16);
    tmp1 := SquareRun(ans, 4, b, Ones(240));
    ans := Multiply(bits8, tmp1, b, Ones(8), Ones(240) * Pow2(8));
    Run(240, 8);
    tmp1 := Square(ans, b, Ones(248));
    y := tmp1;
    SqrtExponent();
    HoldsElim(y, b, (P + 1) / 4);
    TightMag(y);
    tmp1 := Product(y, y);
    ok := Same(tmp1, x);
    SameAfterProduct(V(tmp1), V(y), V(x));
    SqrtResult(V(y), V(x));
  }

  lemma HoldsElim(w: Fe, b: int, e: nat)
    requires Holds(w, b, e)
    ensures Eq(V(w), Pow(b, e), P)
  {
  }

  lemma SqrtExponent()
    ensures 2 * Ones(248) == (P + 1) / 4
  {
    Pow2Add(248, 3);
    assert Pow2(3) == 8;
    Modulus();
  }

  lemma SameAfterProduct(q: int, y: int, x: int)
    requires Eq(q, y * y, P)
    ensures Eq(q, x, P) <==> Eq(y * y, x, P)
  {
    hide Eq;
    EqSym(q, y * y, P);
    if Eq(q, x, P) { EqTrans(y * y, q, x, P); }
    if Eq(y * y, x, P) { EqTrans(q, y * y, x, P); }
  }

  /** If x = r^2 then (x^((p+1)/4))^2 = r^(p+1) = r^2 = x, by Fermat when r is a unit. */
  lemma SqrtResult(y: int, x: int)
    requires Eq(y, Pow(x, (P + 1) / 4), P)
    ensures IsPrime(P) ==> (Eq(y * y, x, P) <==> IsSquare(x))
  {
    hide Eq, Pow, IsPrime;
    if IsPrime(P) && IsSquare(x) {
      var r :| Eq(r * r, x, P);
      RootOfSquare(y, x, r);
    }
  }

  lemma RootOfSquare(y: int, x: int, r: int)
    requires IsPrime(P) && Eq(r * r, x, P) && Eq(y, Pow(x, (P + 1) / 4), P)
    ensures Eq(y * y, x, P)
  {
    hide Eq, Pow, IsPrime;
    var n := (P + 1) / 4;
    EqSym(r * r, x, P);
    PowCong(x, r * r, n, P);
    EqTrans(y, Pow(x, n), Pow(r * r, n), P);
    EqMul(y, Pow(r * r, n), y, Pow(r * r, n), P);
    PowSquares(r, n);
    assert 4 * n == P + 1;
    PowFermat(r);
    EqTrans(y * y, Pow(r, P + 1), r * r, P);
    EqTrans(y * y, r * r, x, P);
  }

  lemma PowSquares(r: int, n: nat)
    ensures Pow(r * r, n) * Pow(r * r, n) == Pow(r, 4 * n)
  {
    assert Pow(r, 1) == r && Pow(r, 2) == r * r;
    PowPow(r, 2, n);
    PowAdd(r, 2 * n, 2 * n);
  }

  lemma PowFermat(r: int)
    requires IsPrime(P)
    ensures Eq(Pow(r, P + 1), r * r, P)
  {
    hide Eq, IsPrime;
    assert Pow(r, 1) == r && Pow(r, 2) == r * r;
    hide Pow;
    PowAdd(r, P - 1, 2);
    if Eq(r, 0, P) {
      EqMul(r, 0, r, 0, P);
      EqScale(Pow(r, P - 1), r * r, 0, P);
      EqSym(r * r, 0, P);
      EqTrans(Pow(r, P + 1), 0, r * r, P);
    } else {
      Fermat(r, P);
      EqRefl(r * r, P);
      EqMul(Pow(r, P - 1), 1, r * r, r * r, P);
    }
  }
}
