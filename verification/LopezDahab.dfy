/** The Lopez-Dahab points of ecc.cpp: (x z, y z^2, z) stands for (x, y). */
module LopezDahab {
  import opened Bits
  import opened Gf2
  import opened Gf571
  import opened BinaryLaw
  import opened BinaryGroup
  import opened Buffers
  import ByteOps

  ghost predicate Lopez(x: Elem, y: Elem, z: Elem, p: Pt) {
    if p.Inf? then z == 0 else z != 0 && x == Mul(p.x, z) && y == Mul(p.y, Sq(z))
  }

  /** The coefficient a is 1 here. */
  function One(): Elem {
    SmallElems();
    1
  }

  /** The curve is y^2 + x y = x^3 + x^2 + b. */
  lemma CurveIs(b: Elem, x: Elem, y: Elem)
    ensures OnCurve(One(), b, At(x, y)) <==>
      Add(Mul(y, y), Mul(x, y)) == Add(Add(Mul(x, Mul(x, x)), Mul(x, x)), b)
  {
    UnitCurve(One(), b, x, y);
  }

  // ---------------------------------------------------------------- doubling

  /** What the curve equation says about the tangent slope. */
  lemma TangentOn(b: Elem, p: Pt, l: Elem)
    requires p.At? && OnCurve(One(), b, p) && Mul(l, p.x) == Add(Sq(p.x), p.y)
    ensures Mul(Add(Sq(l), Add(One(), l)), Sq(p.x)) == Add(Sq(Sq(p.x)), b)
    ensures Mul(l, Sq(p.x)) == Add(Add(Sq(p.y), b), Sq(p.x))
  {
    var x2 := Sq(p.x);
    var m := Mul(p.x, p.y);
    SlopeProducts(p.x, p.y, l);
    MulOne(x2);
    hide Mul, Add, Sq, Cu;
    Factor(Sq(l), Add(One(), l), x2);
    Factor(One(), l, x2);
    CurveSums(Sq(p.y), m, Cu(p.x), x2, b, Sq(x2));
  }

  lemma SlopeProducts(x: Elem, y: Elem, l: Elem)
    requires Mul(l, x) == Add(Sq(x), y)
    ensures Mul(l, Sq(x)) == Add(Cu(x), Mul(x, y)) && Mul(Sq(l), Sq(x)) == Add(Sq(Sq(x)), Sq(y))
  {
    hide Mul, Add;
    MulAssoc(l, x, x);
    MulAdd(x, Sq(x), y);
    MulComm(Mul(l, x), x);
    SqMul(l, x);
    SqAdd(Sq(x), y);
  }

  lemma CurveSums(y2: Elem, m: Elem, x3: Elem, x2: Elem, b: Elem, x4: Elem)
    requires Add(Add(y2, m), Add(x3, Add(x2, b))) == 0
    ensures Add(Add(x4, y2), Add(x2, Add(x3, m))) == Add(x4, b)
    ensures Add(x3, m) == Add(Add(y2, b), x2)
  {
    hide Add, Bit;
    var u, v := Add(y2, m), Add(x3, Add(x2, b));
    var p, q := Add(Add(x4, y2), Add(x2, Add(x3, m))), Add(x4, b);
    var r, s := Add(x3, m), Add(Add(y2, b), x2);
    forall i: nat ensures (Bit(p, i) <==> Bit(q, i)) && (Bit(r, i) <==> Bit(s, i)) {
      SumBit(u, v, i); SumBit(y2, m, i); SumBit(x3, Add(x2, b), i); SumBit(x2, b, i); BitConst(i);
      SumBit(Add(x4, y2), Add(x2, r), i); SumBit(x4, y2, i); SumBit(x2, r, i); SumBit(x3, m, i);
      SumBit(x4, b, i); SumBit(Add(y2, b), x2, i); SumBit(y2, b, i);
    }
    BitExt(p, q);
    BitExt(r, s);
  }

  /** The doubling formula, with t = y^2 + b z^4 + z3. */
  lemma DoubleLopez(b: Elem, x: Elem, y: Elem, z: Elem, p: Pt)
    requires Irreducible() && p.At? && Lopez(x, y, z, p) && (p.x == 0 || OnCurve(One(), b, p))
    ensures
      var bz := Mul(Sq(Sq(z)), b);
      var z3 := Mul(Sq(x), Sq(z));
      var x3 := Add(Sq(Sq(x)), bz);
      Lopez(x3, Add(Mul(x3, Add(Add(Sq(y), bz), z3)), Mul(bz, z3)), z3, DoublePt(One(), p))
  {
    hide Mul, Add, Sq, Irreducible, Tangent, Equation, OnCurve;
    var q := Sq(Sq(z));
    var bz, z3 := Mul(q, b), Mul(Sq(x), Sq(z));
    ScaledPowers(x, y, z, p);
    MulComm(q, b);
    if p.x == 0 {
      SquareZero(q);
    } else {
      var l := Tangent(p.x, p.y);
      var x3, t := Add(Sq(Sq(x)), bz), Add(Add(Sq(y), bz), z3);
      var r := DoublePt(One(), p);
      TangentIs(p.x, p.y);
      TangentOn(b, p, l);
      LopezNonzero(p.x, z);
      Factor(Sq(Sq(p.x)), b, q);
      MulAssoc(r.x, Sq(p.x), q);
      assert x3 == Mul(r.x, z3);
      Factor(Sq(p.y), b, q);
      Factor(Add(Sq(p.y), b), Sq(p.x), q);
      MulAssoc(l, Sq(p.x), q);
      assert t == Mul(l, z3);
      DoubleOrdinate(b, p.x, l, r.x, q, z3);
    }
  }

  /** What the doubling formula computes from the affine coordinates of any point, on the curve with
      coefficient b or not. */
  ghost function DoubleForm(b: Elem, p: Pt): Pt
    requires Irreducible()
  {
    if p.Inf? || p.x == 0 then Inf
    else
      var u := Sq(p.x);
      SquareNonzero(p.x);
      var x3 := Div(Add(Sq(u), b), u);
      At(x3, Add(Mul(x3, Div(Add(Add(Sq(p.y), b), u), u)), Div(b, u)))
  }

  lemma SquareNonzero(x: Elem)
    requires Irreducible() && x != 0
    ensures Sq(x) != 0 && Gf2Field.Coprime(Sq(x), F())
  {
    hide Irreducible, Sq, Gf2Field.Coprime;
    PowersNonzero(x);
    ElemCoprime(Sq(x));
  }

  /** The formula on scaled coordinates, with t = y^2 + b z^4 + z3. */
  lemma DoubleScaledForm(b: Elem, x: Elem, y: Elem, z: Elem, p: Pt)
    requires Irreducible() && p.At? && Lopez(x, y, z, p)
    ensures
      var bz := Mul(Sq(Sq(z)), b);
      var z3 := Mul(Sq(x), Sq(z));
      var x3 := Add(Sq(Sq(x)), bz);
      Lopez(x3, Add(Mul(x3, Add(Add(Sq(y), bz), z3)), Mul(bz, z3)), z3, DoubleForm(b, p))
  {
    hide Mul, Add, Sq, Div, Irreducible, Gf2Field.Coprime;
    var q := Sq(Sq(z));
    var bz, z3 := Mul(q, b), Mul(Sq(x), Sq(z));
    ScaledPowers(x, y, z, p);
    MulComm(q, b);
    if p.x == 0 {
      SquareZero(q);
    } else {
      var u := Sq(p.x);
      SquareNonzero(p.x);
      var m, n := Add(Sq(u), b), Add(Add(Sq(p.y), b), u);
      var x3, t, w := Div(m, u), Div(n, u), Div(b, u);
      LopezNonzero(p.x, z);
      Factor(Sq(u), b, q);
      Factor(Sq(p.y), b, q);
      Factor(Add(Sq(p.y), b), u, q);
      QuotientScaled(x3, m, u, q, z3);
      QuotientScaled(t, n, u, q, z3);
      QuotientScaled(w, b, u, q, z3);
      Interchange(x3, z3, t, z3);
      MulAssoc(w, z3, z3);
      SquareOf(z3);
      Factor(Mul(x3, t), w, Sq(z3));
    }
  }

  lemma SquareOf(z: Elem)
    ensures Mul(z, z) == Sq(z)
  {
  }

  lemma QuotientScaled(r: Elem, m: Elem, u: Elem, q: Elem, z3: Elem)
    requires u != 0 && Gf2Field.Coprime(u, F()) && r == Div(m, u) && z3 == Mul(u, q)
    ensures Mul(r, z3) == Mul(m, q)
  {
    hide Mul, Div, Gf2Field.Coprime;
    DivIs(r, m, u);
    MulAssoc(r, u, q);
  }

  /** Coordinates with z not 0 stand for one point. */
  lemma LopezUnique(x: Elem, y: Elem, z: Elem, p: Pt, q: Pt)
    requires Irreducible() && Lopez(x, y, z, p) && Lopez(x, y, z, q)
    ensures p == q
  {
    hide Mul, Irreducible;
    if z != 0 {
      PowersNonzero(z);
      CancelFactor(p.x, q.x, z);
      CancelFactor(p.y, q.y, Sq(z));
    }
  }

  lemma CancelFactor(a: Elem, b: Elem, c: Elem)
    requires Irreducible() && c != 0 && Mul(a, c) == Mul(b, c)
    ensures a == b
  {
    hide Mul, Irreducible, Add;
    Factor(a, b, c);
    SameIff(a, b);
    SameIff(Mul(a, c), Mul(b, c));
    if Add(a, b) != 0 { MulNonzero(Add(a, b), c); }
  }

  /** On the curve the formula is the tangent law; it is for x = 0 anywhere. */
  lemma DoubleFormIs(b: Elem, p: Pt)
    requires Irreducible() && (p.At? && p.x != 0 ==> OnCurve(One(), b, p))
    ensures DoubleForm(b, p) == DoublePt(One(), p)
  {
    hide Mul, Add, Sq, Div, Irreducible, Tangent, Equation, OnCurve;
    if p.At? && p.x != 0 {
      var z := One();
      UnitIs(p.x, p.y);
      DoubleScaledForm(b, p.x, p.y, z, p);
      DoubleLopez(b, p.x, p.y, z, p);
      var bz, z3 := Mul(Sq(Sq(z)), b), Mul(Sq(p.x), Sq(z));
      var x3 := Add(Sq(Sq(p.x)), bz);
      hide Lopez, DoubleForm, DoublePt;
      LopezUnique(x3, Add(Mul(x3, Add(Add(Sq(p.y), bz), z3)), Mul(bz, z3)), z3, DoubleForm(b, p), DoublePt(One(), p));
    } else {
      ZeroDoubles(b, p);
    }
  }

  lemma ZeroDoubles(b: Elem, p: Pt)
    requires Irreducible() && (p.Inf? || p.x == 0)
    ensures DoubleForm(b, p) == Inf && DoublePt(One(), p) == Inf
  {
  }

  lemma ScaledPowers(x: Elem, y: Elem, z: Elem, p: Pt)
    requires p.At? && x == Mul(p.x, z) && y == Mul(p.y, Sq(z))
    ensures Mul(Sq(x), Sq(z)) == Mul(Sq(p.x), Sq(Sq(z)))
    ensures Sq(Sq(x)) == Mul(Sq(Sq(p.x)), Sq(Sq(z))) && Sq(y) == Mul(Sq(p.y), Sq(Sq(z)))
  {
    hide Mul;
    SqMul(p.x, z);
    SqMul(Sq(p.x), Sq(z));
    SqMul(p.y, Sq(z));
    MulAssoc(Sq(p.x), Sq(z), Sq(z));
  }

  lemma SquareZero(q: Elem)
    ensures Len(0) == 0 && Mul(Sq(0), q) == 0
  {
    SmallElems();
    MulOne(0);
    MulOne(q);
  }

  lemma LopezNonzero(u: Elem, z: Elem)
    requires Irreducible() && u != 0 && z != 0
    ensures Mul(Sq(u), Sq(Sq(z))) != 0
  {
    hide Irreducible;
    PowersNonzero(u);
    PowersNonzero(z);
    PowersNonzero(Sq(z));
    hide Sq, Mul;
    MulNonzero(Sq(u), Sq(Sq(z)));
  }

  lemma DoubleOrdinate(b: Elem, u: Elem, l: Elem, x3: Elem, q: Elem, z3: Elem)
    requires Mul(x3, Sq(u)) == Add(Sq(Sq(u)), b) && z3 == Mul(Sq(u), q)
    ensures Add(Mul(Mul(x3, z3), Mul(l, z3)), Mul(Mul(b, q), z3)) == Mul(Add(Add(x3, Sq(u)), Mul(l, x3)), Sq(z3))
  {
    var u2 := Sq(u);
    assert Mul(Add(x3, u2), z3) == Mul(b, q) by {
      hide Mul, Add;
      MulAssoc(Add(x3, u2), u2, q);
      Factor(x3, u2, u2);
      AddLaws(Sq(u2), b, Sq(u2));
      AddLaws(b, Sq(u2), 0);
      AddLaws(Add(Sq(u2), b), Sq(u2), 0);
      AddLaws(Sq(u2), b, 0);
    }
    hide Mul, Add;
    Interchange(x3, z3, l, z3);
    MulComm(x3, l);
    MulAssoc(Add(x3, u2), z3, z3);
    Factor(Mul(l, x3), Add(x3, u2), Sq(z3));
    AddLaws(Mul(l, x3), Add(x3, u2), 0);
  }

  // ---------------------------------------------------------------- mixed addition

  /** The differences scaled, the second point having z = 1. */
  lemma MixedSlope(x: Elem, y: Elem, z: Elem, p: Pt, q: Pt, l: Elem)
    requires p.At? && q.At? && x == Mul(p.x, z) && y == Mul(p.y, Sq(z))
    ensures Add(x, Mul(z, q.x)) == Mul(Add(p.x, q.x), z)
    ensures Add(y, Mul(Sq(z), q.y)) == Mul(Add(p.y, q.y), Sq(z))
    ensures Mul(l, Add(p.x, q.x)) == Add(p.y, q.y) ==>
      Add(y, Mul(Sq(z), q.y)) == Mul(l, Mul(z, Add(x, Mul(z, q.x))))
  {
    hide Mul, Add;
    var d := Add(p.x, q.x);
    MulComm(z, q.x);
    MulComm(Sq(z), q.y);
    Factor(p.x, q.x, z);
    Factor(p.y, q.y, Sq(z));
    MulComm(z, Mul(d, z));
    MulAssoc(d, z, z);
    MulAssoc(l, d, Sq(z));
  }

  /** With B = d z and C = z B: B^2 C = d C^2 and B^2 z^2 = C^2. */
  lemma MixedSquares(d: Elem, z: Elem, bb: Elem, c: Elem)
    requires bb == Mul(d, z) && c == Mul(z, bb)
    ensures Mul(Sq(bb), Add(c, Sq(z))) == Mul(Add(d, One()), Sq(c))
  {
    MulOne(Sq(c));
    assert Mul(Sq(bb), Sq(z)) == Sq(c) by {
      hide Mul;
      SqMul(z, bb);
      MulComm(Sq(z), Sq(bb));
    }
    assert Mul(Sq(bb), c) == Mul(d, Sq(c)) by {
      hide Mul;
      MulAssoc(bb, bb, c);
      MulAssoc(d, z, Mul(bb, c));
      MulAssoc(z, bb, c);
    }
    hide Mul, Add;
    MulAdd(Sq(bb), c, Sq(z));
    Factor(d, One(), Sq(c));
  }

  lemma MixedX(d: Elem, l: Elem, z: Elem, bb: Elem, c: Elem, e: Elem)
    requires bb == Mul(d, z) && c == Mul(z, bb) && e == Mul(l, c)
    ensures Mul(c, e) == Mul(l, Sq(c))
    ensures Add(Add(Mul(Sq(bb), Add(c, Sq(z))), Sq(e)), Mul(c, e)) == Mul(Add(Add(Sq(l), l), Add(One(), d)), Sq(c))
  {
    MixedSquares(d, z, bb, c);
    SlopeSquare(d, l, c, e);
    hide Mul, Add, Sq;
    var w := Add(d, One());
    Factor(w, Sq(l), Sq(c));
    Factor(Add(w, Sq(l)), l, Sq(c));
    AddLaws(d, One(), 0);
    AddLaws(w, Sq(l), l);
    AddLaws(w, Add(Sq(l), l), 0);
  }

  lemma MixedY(l: Elem, p: Pt, q: Pt, x3: Elem, z3: Elem)
    requires p.At? && q.At? && Mul(l, Add(p.x, q.x)) == Add(p.y, q.y)
    ensures Add(Mul(Add(Mul(l, z3), z3), Add(Mul(q.x, z3), Mul(x3, z3))), Mul(Sq(z3), Add(q.x, q.y)))
         == Mul(Add(Add(x3, p.y), Mul(l, Add(x3, p.x))), Sq(z3))
  {
    MulOne(z3);
    MulOne(Add(q.x, x3));
    hide Mul, Add;
    Factor(l, One(), z3);
    Factor(q.x, x3, z3);
    Interchange(Add(l, One()), z3, Add(q.x, x3), z3);
    MulComm(Sq(z3), Add(q.x, q.y));
    Factor(Mul(Add(l, One()), Add(q.x, x3)), Add(q.x, q.y), Sq(z3));
    MulAdd(Add(q.x, x3), l, One());
    MulAdd(l, q.x, x3);
    MulAdd(l, x3, p.x);
    MulAdd(l, p.x, q.x);
    OrdinateSums(Mul(l, q.x), Mul(l, x3), Mul(l, p.x), q.x, x3, p.y, q.y);
  }

  lemma OrdinateSums(lq: Elem, l3: Elem, lp: Elem, xq: Elem, x3: Elem, yp: Elem, yq: Elem)
    requires Add(lp, lq) == Add(yp, yq)
    ensures Add(Add(Add(lq, l3), Add(xq, x3)), Add(xq, yq)) == Add(Add(x3, yp), Add(l3, lp))
  {
    hide Add, Bit;
    var u, v := Add(Add(Add(lq, l3), Add(xq, x3)), Add(xq, yq)), Add(Add(x3, yp), Add(l3, lp));
    forall i: nat ensures Bit(u, i) <==> Bit(v, i) {
      SumBit(lp, lq, i); SumBit(yp, yq, i);
      SumBit(Add(Add(lq, l3), Add(xq, x3)), Add(xq, yq), i); SumBit(Add(lq, l3), Add(xq, x3), i);
      SumBit(lq, l3, i); SumBit(xq, x3, i); SumBit(xq, yq, i);
      SumBit(Add(x3, yp), Add(l3, lp), i); SumBit(x3, yp, i); SumBit(l3, lp, i);
    }
    BitExt(u, v);
  }

  lemma AddLopez(x: Elem, y: Elem, z: Elem, p: Pt, q: Pt)
    requires Irreducible() && p.At? && q.At? && Lopez(x, y, z, p)
    ensures
      var bb := Add(x, Mul(z, q.x));
      var c := Mul(z, bb);
      var e := Add(y, Mul(Sq(z), q.y));
      var z3 := Sq(c);
      var x3 := Add(Add(Mul(Sq(bb), Add(c, Sq(z))), Sq(e)), Mul(c, e));
      && (bb == 0 <==> p.x == q.x) && (e == 0 <==> p.y == q.y)
      && (p.x != q.x ==>
            Lopez(x3, Add(Mul(Add(Mul(c, e), z3), Add(Mul(q.x, z3), x3)), Mul(Sq(z3), Add(q.x, q.y))), z3,
              AddPt(One(), p, q)))
  {
    hide Mul, Add, Irreducible, Chord, Sq;
    var d := Add(p.x, q.x);
    var bb := Add(x, Mul(z, q.x));
    var c := Mul(z, bb);
    var e := Add(y, Mul(Sq(z), q.y));
    MixedSlope(x, y, z, p, q, 0);
    SameIff(p.x, q.x);
    SameIff(p.y, q.y);
    PowersNonzero(z);
    MulOne(z);
    MulOne(Sq(z));
    if d != 0 { MulNonzero(d, z); }
    if Add(p.y, q.y) != 0 { MulNonzero(Add(p.y, q.y), Sq(z)); }
    if p.x != q.x {
      var l := Chord(p.x, p.y, q.x, q.y);
      ChordIs(p.x, p.y, q.x, q.y);
      MixedSlope(x, y, z, p, q, l);
      MulNonzero(z, bb);
      PowersNonzero(c);
      MixedX(d, l, z, bb, c, e);
      var r := AddPt(One(), p, q);
      assert r.x == Add(Add(Sq(l), l), Add(One(), d));
      MixedY(l, p, q, r.x, Sq(c));
    }
  }

  // ---------------------------------------------------------------- points updated in place

  class Projective {
    var x: Elem
    var y: Elem
    var z: Elem

    constructor ()
    {
      SmallElems();
      x, y, z := 0, 0, 1;
    }

    ghost predicate Is(p: Pt)
      reads this
    {
      Lopez(x, y, z, p)
    }

    method SetInfinite()
      modifies this
      ensures Is(Inf)
    {
      SmallElems();
      x, y, z := 1, 0, 0;
    }

    method CopyFrom(pt: Projective)
      modifies this
      ensures x == old(pt.x) && y == old(pt.y) && z == old(pt.z)
    {
      x, y, z := pt.x, pt.y, pt.z;
    }
  }

  /** The points the engine is given: those of the curve, and the pair (0, 0), which the affine
      wrapper passes on as a finite point. */
  ghost predicate Handled(b: Elem, p: Pt) { OnCurve(One(), b, p) || p == At(0, 0) }

  /** Doubling on the curve with coefficient b; dst may be pt. */
  method LopezDouble(pt: Projective, dst: Projective, b: Elem, ghost p: Pt)
    requires Irreducible() && pt.Is(p)
    modifies dst
    ensures dst.Is(DoubleForm(b, p)) && (Handled(b, p) ==> dst.Is(DoublePt(One(), p)))
  {
    hide Mul, Add, Irreducible, DoublePt, DoubleForm, Lopez, OnCurve;
    LopezForm(pt.x, pt.y, pt.z, p);
    DoubleInf();
    ZeroForm(b);
    if Handled(b, p) { DoubleFormIs(b, p); }
    if pt.z == 0 {
      dst.CopyFrom(pt);
      return;
    }
    DoubleScaledForm(b, pt.x, pt.y, pt.z, p);
    var x1sq := Mul(pt.x, pt.x);
    var z1sq := Mul(pt.z, pt.z);
    var bz1sqsq := Mul(z1sq, z1sq);
    bz1sqsq := Mul(bz1sqsq, b);
    var az := Mul(x1sq, z1sq);
    var tmp1 := Mul(x1sq, x1sq);
    var ax := Add(tmp1, bz1sqsq);
    tmp1 := Mul(pt.y, pt.y);
    tmp1 := Add(tmp1, bz1sqsq);
    tmp1 := Add(tmp1, az);
    tmp1 := Mul(ax, tmp1);
    var tmp2 := Mul(bz1sqsq, az);
    var ay := Add(tmp1, tmp2);
    dst.x, dst.y, dst.z := ax, ay, az;
  }

  lemma DoubleInf()
    requires Irreducible()
    ensures DoublePt(One(), Inf) == Inf
  {
  }

  lemma ZeroForm(b: Elem)
    requires Irreducible()
    ensures DoubleForm(b, Inf) == Inf
  {
  }

  lemma LopezForm(x: Elem, y: Elem, z: Elem, p: Pt)
    requires Lopez(x, y, z, p)
    ensures z == 0 <==> p == Inf
  {
  }

  lemma UnitForm(x: Elem, y: Elem, z: Elem, q: Pt)
    requires Lopez(x, y, z, q) && z == One()
    ensures q == At(x, y)
  {
    MulOne(q.x);
    MulOne(q.y);
    MulOne(1);
  }

  /** The sum that the mixed addition forms: it reads pt2.x and pt2.y as the affine
      coordinates r of its second operand q, whatever pt2.z is. */
  ghost function MixedSum(b: Elem, p: Pt, q: Pt, r: Pt): Pt
    requires Irreducible()
  {
    if p.Inf? then q else if p == r then DoubleForm(b, q) else AddPt(One(), p, r)
  }

  /** With z = 1 that is the group sum. */
  lemma MixedUnit(b: Elem, p: Pt, q: Pt)
    requires Irreducible() && Handled(b, q)
    ensures MixedSum(b, p, q, q) == AddPt(One(), p, q)
  {
    hide Irreducible, DoublePt, DoubleForm, OnCurve;
    DoubleInf();
    DoubleFormIs(b, q);
  }

  /** The end of the mixed addition, from the differences on. */
  method LopezChord(pt2: Projective, t10: Elem, t20: Elem, ax0: Elem, ay0: Elem, dst: Projective)
    modifies dst
    ensures dst.z == Sq(t10)
    ensures dst.x == Add(Add(Mul(Sq(ax0), Add(t10, t20)), Sq(ay0)), Mul(t10, ay0))
    ensures dst.y == Add(Mul(Add(Mul(t10, ay0), dst.z), Add(Mul(old(pt2.x), dst.z), dst.x)),
      Mul(Sq(dst.z), Add(old(pt2.x), old(pt2.y))))
  {
    hide Mul, Add;
    var az := Mul(t10, t10);
    var t3 := Mul(t10, ay0);
    var t1 := Add(t10, t20);
    var t2 := Mul(ax0, ax0);
    var ax := Mul(t2, t1);
    t2 := Mul(ay0, ay0);
    ax := Add(ax, t2);
    ax := Add(ax, t3);
    t2 := Mul(pt2.x, az);
    t2 := Add(t2, ax);
    t1 := Mul(az, az);
    t3 := Add(t3, az);
    var ay := Mul(t3, t2);
    t2 := Add(pt2.x, pt2.y);
    t3 := Mul(t1, t2);
    ay := Add(ay, t3);
    dst.x, dst.y, dst.z := ax, ay, az;
  }

  /** The mixed addition, whatever pt2.z is; dst may be either operand. */
  method LopezAdd(pt1: Projective, pt2: Projective, dst: Projective, b: Elem, ghost p: Pt, ghost q: Pt)
    requires Irreducible() && pt1.Is(p) && pt2.Is(q)
    modifies dst
    ensures dst.Is(MixedSum(b, p, q, At(old(pt2.x), old(pt2.y))))
  {
    hide Mul, Add, Irreducible, DoublePt, DoubleForm, AddPt, Lopez, Handled;
    ghost var r := At(pt2.x, pt2.y);
    LopezForm(pt1.x, pt1.y, pt1.z, p);
    SpecialCases(p, r);
    if pt1.z == 0 {
      dst.CopyFrom(pt2);
      return;
    }
    AddLopez(pt1.x, pt1.y, pt1.z, p, r);
    var t1 := Mul(pt1.z, pt2.x);
    var t2 := Mul(pt1.z, pt1.z);
    var ax := Add(pt1.x, t1);
    t1 := Mul(pt1.z, ax);
    var t3 := Mul(t2, pt2.y);
    var ay := Add(pt1.y, t3);
    if ax == 0 {
      if ay == 0 {
        LopezDouble(pt2, dst, b, q);
      } else {
        dst.SetInfinite();
        LopezInf(dst.x, dst.y, dst.z);
      }
      return;
    }
    LopezChord(pt2, t1, t2, ax, ay, dst);
  }

  lemma LopezInf(x: Elem, y: Elem, z: Elem)
    requires Lopez(x, y, z, Inf)
    ensures z == 0
  {
  }

  lemma SpecialCases(p: Pt, q: Pt)
    requires Irreducible()
    ensures p.Inf? ==> AddPt(One(), p, q) == q
    ensures p.At? && q.At? && p.x == q.x ==> AddPt(One(), p, q) == if p.y == q.y then DoublePt(One(), q) else Inf
  {
  }

  // ---------------------------------------------------------------- scalar multiplication

  lemma {:induction false} MultipleHandled(b: Elem, n: nat, p: Pt)
    requires Irreducible() && Handled(b, p)
    ensures Handled(b, Multiple(One(), n, p))
  {
    hide AddPt, DoublePt, Irreducible, Equation;
    if p == At(0, 0) {
      MultipleOfNothing(n);
    } else if n > 0 {
      var h := Multiple(One(), n / 2, p);
      MultipleHandled(b, n / 2, p);
      if h == At(0, 0) {
        NothingSums(p);
      } else {
        AddOnCurve(One(), b, h, p);
        AddOnCurve(One(), b, DoublePt(One(), h), p);
      }
    }
  }

  lemma NothingSums(p: Pt)
    requires Irreducible()
    ensures DoublePt(One(), At(0, 0)) == Inf && AddPt(One(), Inf, p) == p
  {
  }

  /** The multiples of (0, 0) are (0, 0) and infinity. */
  lemma {:induction false} MultipleOfNothing(n: nat)
    requires Irreducible()
    ensures Multiple(One(), n, At(0, 0)) == Inf || Multiple(One(), n, At(0, 0)) == At(0, 0)
  {
    hide AddPt, DoublePt, Irreducible;
    DoubleInf();
    NothingSums(At(0, 0));
    if n > 0 { MultipleOfNothing(n / 2); }
  }

  lemma {:induction false} MultipleInf(n: nat)
    requires Irreducible()
    ensures Multiple(One(), n, Inf) == Inf
  {
    hide AddPt, DoublePt, Irreducible;
    DoubleInf();
    NothingSums(Inf);
    if n > 0 { MultipleInf(n / 2); }
  }

  /** What the multiplication forms: doublings by the formula, and additions that read the
      coordinates of q as the affine point r. */
  ghost function MixedMultiple(b: Elem, n: nat, q: Pt, r: Pt): Pt
    requires Irreducible()
  {
    if n == 0 then Inf
    else
      var d := DoubleForm(b, MixedMultiple(b, n / 2, q, r));
      if n % 2 == 1 then MixedSum(b, d, q, r) else d
  }

  lemma MixedUnits(b: Elem, q: Pt, r: Pt)
    requires Irreducible()
    ensures MixedMultiple(b, 0, q, r) == Inf && MixedMultiple(b, 1, q, r) == q
  {
    hide DoubleForm, Irreducible;
    ZeroForm(b);
    assert MixedMultiple(b, 0, q, r) == Inf;
  }

  lemma {:induction false} MixedOfInf(b: Elem, n: nat, r: Pt)
    requires Irreducible()
    ensures MixedMultiple(b, n, Inf, r) == Inf
  {
    hide DoubleForm, Irreducible;
    ZeroForm(b);
    if n > 0 { MixedOfInf(b, n / 2, r); }
  }

  /** With z = 1 that is the multiple. */
  lemma {:induction false} MixedMultipleUnit(b: Elem, n: nat, q: Pt)
    requires Irreducible() && Handled(b, q)
    ensures MixedMultiple(b, n, q, q) == Multiple(One(), n, q)
  {
    hide AddPt, DoublePt, DoubleForm, MixedSum, Irreducible, OnCurve;
    if n > 0 {
      var h := Multiple(One(), n / 2, q);
      MixedMultipleUnit(b, n / 2, q);
      MultipleHandled(b, n / 2, q);
      DoubleFormIs(b, h);
      MixedUnit(b, DoublePt(One(), h), q);
    }
  }

  /** Reading one bit more of the multiplier. */
  lemma MixedHead(s: seq<byte>, ix: nat, k: nat, b: Elem, q: Pt, r: Pt)
    requires Irreducible() && ix < |s| && 1 <= k <= 8 && ByteOps.Head(s, ix, k) > 0
    ensures ByteOps.Head(s, ix, k - 1) > 0
    ensures
      var d := DoubleForm(b, MixedMultiple(b, ByteOps.Head(s, ix, k), q, r));
      MixedMultiple(b, ByteOps.Head(s, ix, k - 1), q, r) ==
      if And(Pow2(k - 1), s[ix]) != 0 then MixedSum(b, d, q, r) else d
  {
    hide MixedSum, DoubleForm, Irreducible, ByteOps.Head, Pow2, And;
    ByteOps.HeadStep(s, ix, k);
    BitTest(k - 1, s[ix]);
    BitRange(s[ix] / Pow2(k - 1));
  }

  lemma BitRange(x: int)
    ensures 0 <= x % 2 <= 1
  {
  }

  ghost predicate Prefix(pt: Projective, s: seq<byte>, ix: nat, k: nat, b: Elem, q: Pt, r: Pt)
    requires Irreducible() && ix < |s|
    reads pt
  {
    ByteOps.Head(s, ix, k) > 0 && pt.Is(MixedMultiple(b, ByteOps.Head(s, ix, k), q, r))
  }

  /** The bits of one byte of n, from mask = 2^(k-1) down. */
  method MulByte(ans: Projective, pt: Projective, n: array<byte>, ix: nat, mask0: int, b: Elem, ghost k0: nat,
    ghost p: Pt)
    requires Irreducible() && n.Length == 72 && ix < 72 && ans != pt && k0 <= 8 && mask0 == Pow2(k0) / 2
    requires pt.Is(p) && Prefix(ans, n[..], ix, k0, b, p, At(pt.x, pt.y))
    modifies ans
    ensures Prefix(ans, n[..], ix, 0, b, p, At(pt.x, pt.y))
  {
    hide DoubleForm, DoublePt, Irreducible, ByteOps.Head, Pow2, And, MixedMultiple, Lopez, Handled, MixedSum;
    ghost var s, r, k := n[..], At(pt.x, pt.y), k0;
    var mask := mask0;
    ByteOps.MaskHalf(k);
    while mask != 0
      invariant k <= 8 && mask == Pow2(k) / 2 && (mask != 0 <==> k > 0)
      invariant pt.Is(p) && r == At(pt.x, pt.y) && Prefix(ans, s, ix, k, b, p, r)
      decreases k
    {
      ghost var h := MixedMultiple(b, ByteOps.Head(s, ix, k), p, r);
      MixedHead(s, ix, k, b, p, r);
      ByteOps.MaskHalf(k);
      LopezDouble(ans, ans, b, h);
      if And(mask, n[ix]) != 0 { LopezAdd(ans, pt, ans, b, DoubleForm(b, h), p); }
      ByteOps.MaskHalf(k - 1);
      mask, k := mask / 2, k - 1;
    }
  }

  /** ecc_mul, for a point with any z; dst may be pt. */
  method LopezMul(pt: Projective, n: array<byte>, dst: Projective, b: Elem, ghost p: Pt)
    requires Irreducible() && n.Length == 72 && pt.Is(p)
    modifies dst
    ensures dst.Is(MixedMultiple(b, ByteOps.Val(n), p, At(old(pt.x), old(pt.y))))
    ensures (old(pt.z) == 0 || old(pt.z) == One()) && Handled(b, p) ==> dst.Is(Multiple(One(), ByteOps.Val(n), p))
  {
    hide DoubleForm, DoublePt, AddPt, Irreducible, ByteOps.Head, Pow2, MixedMultiple, Multiple, Lopez, Handled, BE,
      MixedSum;
    ghost var s, r := n[..], At(pt.x, pt.y);
    RightForUnit(b, ByteOps.Val(n), pt.x, pt.y, pt.z, p);
    MixedUnits(b, p, r);
    var ix, mask, k := ByteOps.FirstBit(n);
    if ix < 0 {
      dst.SetInfinite();
      InfinityIs(dst.x, dst.y, dst.z);
      return;
    }
    LopezForm(pt.x, pt.y, pt.z, p);
    if pt.z == 0 {
      MixedOfInf(b, ByteOps.Val(n), r);
      dst.SetInfinite();
      InfinityIs(dst.x, dst.y, dst.z);
      return;
    }
    var ans := new Projective();
    ans.CopyFrom(pt);
    ByteOps.HeadFirst(s, ix, k);
    ByteOps.HeadAll(s);
    ByteOps.MaskHalf(k);
    ByteOps.MaskHalf(8);
    assert Pow2(8) == 256 by { Pow2Small(); }
    mask := mask / 2;
    if mask == 0 {
      if ix < 71 { ByteOps.HeadNext(s, ix); }
      mask, k := 0x80, 8;
      ix := ix + 1;
    }
    while ix < 72
      invariant 0 <= ix <= 72 && k <= 8 && mask == Pow2(k) / 2
      invariant pt.Is(p) && r == At(pt.x, pt.y) && n[..] == s && fresh(ans)
      invariant if ix < 72 then Prefix(ans, s, ix, k, b, p, r) else Prefix(ans, s, 71, 0, b, p, r)
    {
      MulByte(ans, pt, n, ix, mask, b, k, p);
      if ix < 71 { ByteOps.HeadNext(s, ix); }
      ix, mask, k := ix + 1, 0x80, 8;
    }
    dst.CopyFrom(ans);
  }

  lemma InfinityIs(x: Elem, y: Elem, z: Elem)
    requires Lopez(x, y, z, Inf)
    ensures z == 0
  {
  }

  lemma RightForUnit(b: Elem, n: nat, x: Elem, y: Elem, z: Elem, p: Pt)
    requires Irreducible() && Lopez(x, y, z, p)
    ensures (z == 0 || z == One()) && Handled(b, p) ==> MixedMultiple(b, n, p, At(x, y)) == Multiple(One(), n, p)
  {
    hide Irreducible, MixedMultiple, Multiple, Handled, Lopez;
    LopezForm(x, y, z, p);
    if z == 0 {
      MixedOfInf(b, n, At(x, y));
      MultipleInf(n);
    } else if z == One() && Handled(b, p) {
      UnitForm(x, y, z, p);
      MixedMultipleUnit(b, n, p);
    }
  }

  method ToAffine(pt: Projective, ghost p: Pt) returns (x: Elem, y: Elem)
    requires Irreducible() && pt.Is(p)
    ensures if p.Inf? then x == 0 && y == 0 else x == p.x && y == p.y
  {
    hide Mul, Irreducible, Inverse;
    if pt.z == 0 {
      SmallElems();
      return 0, 0;
    }
    ElemCoprime(pt.z);
    var tmp1 := Inverse(pt.z);
    Unscale(pt.z, tmp1, p);
    x := Mul(pt.x, tmp1);
    var tmp2 := Mul(tmp1, tmp1);
    y := Mul(pt.y, tmp2);
  }

  lemma Unscale(z: Elem, r: Elem, p: Pt)
    requires Irreducible() && z != 0 && Gf2Field.Coprime(z, F()) && r == Inverse(z) && p.At?
    ensures Mul(Mul(p.x, z), r) == p.x && Mul(Mul(p.y, Sq(z)), Sq(r)) == p.y
  {
    hide Mul, Irreducible, Inverse, Gf2Field.Coprime;
    MulInverse(z);
    SqMul(z, r);
    MulOne(1);
    MulAssoc(p.x, z, r);
    MulAssoc(p.y, Sq(z), Sq(r));
    MulOne(p.x);
    MulOne(p.y);
  }

  /** The affine ecc_mul: n times the point, the pair (0, 0) standing for infinity both ways. */
  method AffineMul(x: Elem, y: Elem, n: array<byte>, b: Elem) returns (rx: Elem, ry: Elem)
    requires Irreducible() && n.Length == 72
    requires (x == 0 && y == 0) || OnCurve(One(), b, At(x, y))
    ensures var p := if x == 0 && y == 0 then Inf else At(x, y);
      Pair(rx, ry) == Encode(Multiple(One(), ByteOps.Val(n), p))
  {
    hide AddPt, DoublePt, Irreducible, Multiple, Lopez, OnCurve, BE;
    ghost var p, v := At(x, y), ByteOps.Val(n);
    var pt := new Projective();
    pt.x, pt.y, pt.z := x, y, One();
    UnitIs(x, y);
    var ans := new Projective();
    LopezMul(pt, n, ans, b, p);
    rx, ry := ToAffine(ans, Multiple(One(), v, p));
    MultipleInf(v);
    if x == 0 && y == 0 { MultipleOfNothing(v); }
  }

  lemma UnitIs(x: Elem, y: Elem)
    ensures Lopez(x, y, One(), At(x, y))
  {
    MulOne(x);
    MulOne(y);
    MulOne(1);
  }

  // ---------------------------------------------------------------- the affine addition of ecc.cpp

  /** Coordinate pairs; infinity is recognised by x = 0 alone. */
  datatype Pair = Pair(x: Elem, y: Elem)

  function Encode(p: Pt): Pair {
    SmallElems();
    if p.Inf? then Pair(0, 0) else Pair(p.x, p.y)
  }

  function PairDouble(p: Pair): Pair
    requires Irreducible()
  {
    SmallElems();
    if p.x == 0 then Pair(0, 0)
    else
      ElemCoprime(p.x);
      var s := Add(p.x, Div(p.y, p.x));
      var s1 := Add(s, 1);
      var x := Add(Mul(s, s), s1);
      Pair(x, Add(Mul(s1, x), Mul(p.x, p.x)))
  }

  /** None when the division by x1 + x2 = 0 is reached. */
  function PairAdd(p: Pair, q: Pair): Option<Pair>
    requires Irreducible()
  {
    SmallElems();
    if p.x == 0 then Some(q)
    else if q.x == 0 then Some(p)
    else if p.x == q.x && p.y == q.y then Some(PairDouble(p))
    else if p.x == q.x && (q.y == Add(p.x, p.y) || p.y == Add(q.x, q.y)) then Some(Pair(0, 0))
    else if p.x == q.x then None
    else
      SameIff(p.x, q.x);
      ElemCoprime(Add(p.x, q.x));
      var d := Add(p.x, q.x);
      var s := Div(Add(p.y, q.y), d);
      var x := Add(Add(Mul(s, s), Add(d, s)), 1);
      Some(Pair(x, Add(Add(Mul(s, Add(p.x, x)), x), p.y)))
  }

  datatype Option<T> = None | Some(value: T)

  /** On the curve, two points with the same x are equal or opposite. */
  lemma SameAbscissa(b: Elem, x: Elem, y: Elem, w: Elem)
    requires Irreducible() && Equation(One(), b, x, y) == 0 && Equation(One(), b, x, w) == 0
    ensures w == y || w == Add(x, y)
  {
    var d := Add(y, w);
    assert Mul(d, Add(d, x)) == 0 by {
      SqAdd(y, w);
      MulComm(d, x);
      assert Mul(d, Add(d, x)) == Add(Sq(d), Mul(x, d)) by { hide Mul, Add, Sq; MulAdd(d, d, x); SqForm(d); }
      hide Mul, Add, Sq;
      MulAdd(x, y, w);
      DifferenceSums(Sq(y), Mul(x, y), Sq(w), Mul(x, w), Add(Cu(x), Add(Mul(One(), Sq(x)), b)));
    }
    hide Mul, Add;
    if d != 0 && Add(d, x) != 0 { MulNonzero(d, Add(d, x)); }
    SameIff(y, w);
    SameIff(d, x);
    AddLaws(y, w, 0);
    AddLaws(x, y, 0);
  }

  lemma SqForm(d: Elem)
    ensures Sq(d) == Mul(d, d)
  {
  }

  lemma DifferenceSums(a: Elem, b: Elem, c: Elem, d: Elem, e: Elem)
    requires Add(Add(a, b), e) == 0 && Add(Add(c, d), e) == 0
    ensures Add(Add(a, c), Add(b, d)) == 0
  {
    hide Add;
    SameIff(Add(a, b), e);
    SameIff(Add(c, d), e);
    AddSwap(a, b, c, d);
    AddLaws(e, 0, 0);
  }

  /** Both formulas for the finite sum agree. */
  lemma PairChord(p: Pt, q: Pt)
    requires Irreducible() && p.At? && q.At? && p.x != 0 && q.x != 0 && p.x != q.x
    ensures PairAdd(Encode(p), Encode(q)) == Some(Encode(AddPt(One(), p, q)))
  {
    hide Mul, Irreducible, Add, Div;
    SameIff(p.x, q.x);
    ElemCoprime(Add(p.x, q.x));
    var d, s := Add(p.x, q.x), Chord(p.x, p.y, q.x, q.y);
    ChordSums(Sq(s), s, d);
    var x := AddPt(One(), p, q).x;
    AddLaws(p.x, x, 0);
    ChordOrdinate(x, p.y, Mul(s, Add(x, p.x)));
  }

  lemma ChordSums(q: Elem, s: Elem, d: Elem)
    ensures Add(Add(q, Add(d, s)), One()) == Add(Add(q, s), Add(One(), d))
  {
    hide Add;
    AddLaws(d, s, 0);
    AddLaws(q, s, d);
    AddLaws(Add(q, s), d, One());
    AddLaws(d, One(), 0);
  }

  lemma ChordOrdinate(x: Elem, y: Elem, m: Elem)
    ensures Add(Add(m, x), y) == Add(Add(x, y), m)
  {
    hide Add;
    AddLaws(m, x, y);
    AddLaws(m, Add(x, y), 0);
  }

  lemma PairTangent(p: Pt)
    requires Irreducible() && p.At? && p.x != 0
    ensures PairDouble(Encode(p)) == Encode(DoublePt(One(), p))
  {
    hide Mul, Irreducible, Add, Div;
    ElemCoprime(p.x);
    var l := Tangent(p.x, p.y);
    AddLaws(l, One(), 0);
    TangentSums(l, DoublePt(One(), p).x, Sq(p.x));
  }

  lemma TangentSums(l: Elem, x3: Elem, u: Elem)
    ensures Add(Mul(Add(l, One()), x3), u) == Add(Add(x3, u), Mul(l, x3))
  {
    MulOne(x3);
    hide Mul, Add;
    MulAdd(x3, l, One());
    AddLaws(Mul(l, x3), x3, u);
    AddLaws(Mul(l, x3), Add(x3, u), 0);
  }

  /** The point of order two, x = 0, is mistaken for infinity: the affine addition is the
      group law exactly when the first argument is infinite or neither one is that point. */
  lemma PairAddIff(b: Elem, p: Pt, q: Pt)
    requires Irreducible() && b != 0 && OnCurve(One(), b, p) && OnCurve(One(), b, q)
    ensures PairAdd(Encode(p), Encode(q)) == Some(Encode(AddPt(One(), p, q)))
       <==> p.Inf? || (p.x != 0 && (q.At? ==> q.x != 0))
  {
    hide Mul, Irreducible, Add, Div, Equation;
    if p.At? { OrderTwo(b, p); }
    if q.At? { OrderTwo(b, q); }
    if p.At? && q.At? && p.x != 0 && q.x != 0 {
      if p.x == q.x {
        SameAbscissa(b, p.x, p.y, q.y);
        PairTangent(p);
        SameIff(p.y, Add(p.x, p.y));
        AddLaws(p.x, p.y, 0);
        AddLaws(p.y, p.x, 0);
      } else {
        PairChord(p, q);
      }
    } else if p.At? && q.At? && p.x != q.x {
      if p.x == 0 { NotNeutral(p, q); } else { NotNeutralRight(p, q); }
    } else if p.At? && q.At? {
      SameAbscissa(b, p.x, p.y, q.y);
      AddLaws(p.y, 0, 0);
      assert p == q && AddPt(One(), p, q) == Inf;
    }
  }

  /** Such operands exist: every curve has the point (0, sqrt b), and doubling it by the affine
      addition returns the point itself. */
  lemma OrderTwoFails(y: Elem)
    requires Irreducible() && y != 0
    ensures Sq(y) != 0 && OnCurve(One(), Sq(y), At(0, y))
    ensures PairAdd(Encode(At(0, y)), Encode(At(0, y))) != Some(Encode(AddPt(One(), At(0, y), At(0, y))))
  {
    hide Irreducible, PairAdd, AddPt, Encode;
    OrderTwoOn(y);
    PowersNonzero(y);
    PairAddIff(Sq(y), At(0, y), At(0, y));
  }

  lemma OrderTwoOn(y: Elem)
    ensures Equation(One(), Sq(y), 0, y) == 0
  {
    MulOne(0);
    MulOne(One());
    MulOne(y);
    hide Mul;
    AddLaws(Sq(y), 0, 0);
    AddLaws(0, Sq(y), 0);
  }

  /** A finite point with x = 0 is not (0, 0). */
  lemma OrderTwo(b: Elem, p: Pt)
    requires Irreducible() && b != 0 && p.At? && OnCurve(One(), b, p)
    ensures p.x == 0 ==> p.y != 0
  {
    MulOne(0);
    MulOne(One());
    hide Mul;
    AddLaws(0, 0, 0);
    AddLaws(b, 0, 0);
    assert Equation(One(), b, 0, 0) == b;
  }

  lemma NotNeutral(p: Pt, q: Pt)
    requires Irreducible() && p.At? && q.At? && p.x == 0 && q.x != 0
    ensures AddPt(One(), p, q) != q
  {
    hide Mul, Irreducible, Add, Chord;
    var r, l := AddPt(One(), p, q), Chord(p.x, p.y, q.x, q.y);
    ChordIs(p.x, p.y, q.x, q.y);
    AddLaws(q.x, 0, 0);
    // with the same x, the sum would have ordinate q.x + q.y
    AddLaws(q.x, p.y, Add(p.y, q.y));
    AddLaws(p.y, q.y, 0);
    NotOwnNegative(q.x, q.y);
  }

  lemma NotNeutralRight(p: Pt, q: Pt)
    requires Irreducible() && p.At? && q.At? && q.x == 0 && p.x != 0
    ensures AddPt(One(), p, q) != p
  {
    hide Mul, Irreducible, Add, Chord;
    var r, l := AddPt(One(), p, q), Chord(p.x, p.y, q.x, q.y);
    ChordIs(p.x, p.y, q.x, q.y);
    AddLaws(p.x, 0, 0);
    // with the same x, the sum would have ordinate p.x + p.y
    AddLaws(p.x, p.x, 0);
    MulOne(l);
    AddLaws(Add(p.x, p.y), 0, 0);
    NotOwnNegative(p.x, p.y);
  }

  lemma NotOwnNegative(x: Elem, y: Elem)
    requires x != 0
    ensures Add(x, y) != y
  {
    hide Add;
    AddLaws(y, x, 0);
    AddLaws(y, y, 0);
    AddLaws(x, y, y);
    AddLaws(x, 0, 0);
  }

  // ---------------------------------------------------------------- mixed additions with any z

  /** Where the mixed addition of p and a point read as r gives the sum s whatever z is. */
  ghost predicate Forgiven(p: Pt, s: Pt, r: Pt)
    requires Irreducible()
  {
    || p.Inf?
    || (s.Inf? && p.x == 0)
    || (s == NegPt(p) && r.At? && p.x != r.x && LeadsBack(Chord(p.x, p.y, r.x, r.y), r.x))
  }

  /** k^2 + k + 1 = x: the line with slope k to a point with abscissa x ends above its start. */
  ghost predicate LeadsBack(k: Elem, x: Elem) { Add(Add(Sq(k), k), One()) == x }

  /** The mixed addition is the group sum exactly for z = 1 and in the cases above. Associativity is
      needed only where p is the point that the coordinates read as. */
  lemma MixedSumIff(b: Elem, p: Pt, q: Pt, x: Elem, y: Elem, z: Elem)
    requires Irreducible() && b != 0 && OnCurve(One(), b, p) && OnCurve(One(), b, q) && Lopez(x, y, z, q)
    requires p == At(x, y) ==> Associative(One(), b)
    ensures MixedSum(b, p, q, At(x, y)) == AddPt(One(), p, q) <==>
      z == One() || Forgiven(p, AddPt(One(), p, q), At(x, y))
  {
    hide Irreducible, OnCurve, AddPt, DoublePt, DoubleForm, Lopez, Forgiven, MixedSum, Associative;
    if z == One() {
      UnitForm(x, y, z, q);
      MixedUnit(b, p, q);
    } else if p.Inf? {
      MixedFromInf(b, q, At(x, y));
    } else if p == At(x, y) {
      MixedSamePoint(b, p, q, x, y, z);
    } else if p.x == x {
      MixedOpposite(b, p, q, x, y, z);
    } else {
      MixedChord(b, p, q, x, y, z);
    }
  }

  lemma MixedFromInf(b: Elem, q: Pt, r: Pt)
    requires Irreducible()
    ensures MixedSum(b, Inf, q, r) == q && AddPt(One(), Inf, q) == q && Forgiven(Inf, q, r)
  {
    hide Irreducible;
  }

  /** The coordinates of a finite point, read with z = 1, are its own only where they are 0. */
  lemma ReadApart(q: Pt, x: Elem, y: Elem, z: Elem)
    requires Irreducible() && q.At? && Lopez(x, y, z, q) && z != One()
    ensures (x == q.x <==> q.x == 0) && (y == q.y <==> q.y == 0)
  {
    hide Irreducible, Mul;
    MulOne(z);
    MulOne(Sq(z));
    MulOne(q.x);
    MulOne(q.y);
    MulComm(q.x, z);
    MulComm(q.y, Sq(z));
    UnitSquare(z);
    SameIff(Sq(z), One());
    if x == q.x && q.x != 0 { CancelFactor(z, One(), q.x); }
    if y == q.y && q.y != 0 { CancelFactor(Sq(z), One(), q.y); }
  }

  /** z^2 = 1 only for z = 1. */
  lemma UnitSquare(z: Elem)
    requires Irreducible()
    ensures z != One() ==> Add(Sq(z), One()) != 0
  {
    hide Irreducible, Add;
    SqAdd(z, One());
    MulOne(1);
    SameIff(z, One());
    hide Mul;
    if z != One() { PowersNonzero(Add(z, One())); }
  }

  lemma ReadElsewhere(b: Elem, q: Pt, x: Elem, y: Elem, z: Elem)
    requires Irreducible() && b != 0 && q.At? && OnCurve(One(), b, q) && Lopez(x, y, z, q) && z != One()
    ensures q != At(x, y)
  {
    hide Irreducible, Lopez, OnCurve;
    ReadApart(q, x, y, z);
    OrderTwo(b, q);
  }

  lemma Cancelled(b: Elem, p: Pt, q: Pt)
    requires Irreducible() && Associative(One(), b) && OnCurve(One(), b, p) && OnCurve(One(), b, q)
    requires AddPt(One(), p, q) == AddPt(One(), q, q)
    ensures p == q
  {
    hide Irreducible, OnCurve, AddPt, Associative, NegPt;
    NegStays(b, q);
    Associate(One(), b, p, q, NegPt(q));
    Associate(One(), b, q, q, NegPt(q));
    NegSum(One(), q);
    AddNothing(One(), p);
    AddNothing(One(), q);
  }

  lemma NegStays(b: Elem, q: Pt)
    requires OnCurve(One(), b, q)
    ensures OnCurve(One(), b, NegPt(q))
  {
    hide Equation, Add;
    if q.At? { NegOnCurve(One(), b, q.x, q.y); }
  }

  /** A sum of finite points is infinite only for points with one abscissa. */
  lemma InfiniteSum(p: Pt, q: Pt)
    requires Irreducible() && p.At? && AddPt(One(), p, q) == Inf
    ensures q.At? && p.x == q.x
  {
    hide Irreducible;
  }

  /** p is the point read: the source doubles q instead. */
  lemma MixedSamePoint(b: Elem, p: Pt, q: Pt, x: Elem, y: Elem, z: Elem)
    requires Irreducible() && b != 0 && OnCurve(One(), b, p) && OnCurve(One(), b, q) && Lopez(x, y, z, q)
    requires z != One() && p == At(x, y) && Associative(One(), b)
    ensures MixedSum(b, p, q, At(x, y)) != AddPt(One(), p, q) && !Forgiven(p, AddPt(One(), p, q), At(x, y))
  {
    var s := AddPt(One(), p, q);
    assert MixedSum(b, p, q, At(x, y)) == DoubleForm(b, q);
    hide Irreducible, OnCurve, AddPt, DoublePt, DoubleForm, Lopez, Associative, NegPt;
    AddNothing(One(), p);
    AddNothing(One(), q);
    DoubleFormIs(b, q);
    if q.At? {
      ReadElsewhere(b, q, x, y, z);
      if s == DoublePt(One(), q) { Cancelled(b, p, q); }
      if s.Inf? && p.x == 0 {
        InfiniteSum(p, q);
        SameZero(b, p, q);
      }
    } else {
      ZeroForm(b);
    }
  }

  /** The curve has one point with abscissa 0. */
  lemma SameZero(b: Elem, p: Pt, q: Pt)
    requires Irreducible() && p.At? && q.At? && p.x == 0 && q.x == 0
    requires OnCurve(One(), b, p) && OnCurve(One(), b, q)
    ensures p == q
  {
    hide Irreducible, Equation;
    SameAbscissa(b, 0, p.y, q.y);
    AddLaws(p.y, 0, 0);
  }

  /** p has the abscissa read and another ordinate: the source takes the sum for infinite. */
  lemma MixedOpposite(b: Elem, p: Pt, q: Pt, x: Elem, y: Elem, z: Elem)
    requires Irreducible() && OnCurve(One(), b, p) && OnCurve(One(), b, q) && Lopez(x, y, z, q)
    requires z != One() && p.At? && p.x == x && p.y != y
    ensures MixedSum(b, p, q, At(x, y)) == AddPt(One(), p, q) <==> Forgiven(p, AddPt(One(), p, q), At(x, y))
  {
    assert MixedSum(b, p, q, At(x, y)) == Inf;
    var s := AddPt(One(), p, q);
    hide Irreducible, OnCurve, AddPt, Lopez, NegPt;
    if s.Inf? {
      InfiniteSum(p, q);
      ReadApart(q, x, y, z);
    }
  }

  /** The slope of the line through p and q, or of the tangent at p. */
  ghost function Slope(p: Pt, q: Pt): Elem
    requires Irreducible() && p.At? && q.At? && (p.x == q.x ==> p.x != 0)
  {
    if p.x != q.x then Chord(p.x, p.y, q.x, q.y) else Tangent(p.x, p.y)
  }

  /** Where a line from p ends, in either case. */
  lemma SumEnd(p: Pt, q: Pt)
    requires Irreducible() && p.At? && q.At? && AddPt(One(), p, q).At?
    ensures p.x == q.x ==> p.x != 0
    ensures
      var s, l := AddPt(One(), p, q), Slope(p, q);
      && s.x == Add(Add(Sq(l), l), Add(One(), Add(p.x, q.x)))
      && s.y == Add(Add(s.x, p.y), Mul(l, Add(s.x, p.x)))
  {
    hide Irreducible, Mul, Add, Chord, Tangent;
    if p.x == q.x {
      var l, s := Tangent(p.x, p.y), AddPt(One(), p, q);
      TangentIs(p.x, p.y);
      TangentForm(l, p.x);
      MulAdd(l, s.x, p.x);
      TangentLine(s.x, Sq(p.x), p.y, Mul(l, s.x));
    }
  }

  lemma TangentForm(l: Elem, x: Elem)
    ensures Add(Sq(l), Add(One(), l)) == Add(Add(Sq(l), l), Add(One(), Add(x, x)))
  {
    hide Add;
    AddLaws(x, x, 0);
    AddLaws(One(), 0, 0);
    AddLaws(One(), l, 0);
    AddLaws(Sq(l), l, One());
  }

  lemma TangentLine(x3: Elem, u: Elem, y: Elem, m: Elem)
    ensures Add(Add(x3, u), m) == Add(Add(x3, y), Add(m, Add(u, y)))
  {
    hide Add, Bit;
    var v, w := Add(Add(x3, u), m), Add(Add(x3, y), Add(m, Add(u, y)));
    forall i: nat ensures Bit(v, i) <==> Bit(w, i) {
      SumBit(Add(x3, u), m, i); SumBit(x3, u, i);
      SumBit(Add(x3, y), Add(m, Add(u, y)), i); SumBit(x3, y, i); SumBit(m, Add(u, y), i); SumBit(u, y, i);
    }
    BitExt(v, w);
  }

  /** A line that ends above its start ends at the negative. */
  lemma EndAbove(p: Pt, x: Elem, l: Elem)
    requires p.At?
    ensures x == p.x ==> Add(Add(x, p.y), Mul(l, Add(x, p.x))) == Add(p.x, p.y)
  {
    hide Mul, Add;
    AddLaws(p.x, p.x, 0);
    AddLaws(Add(p.x, p.y), 0, 0);
    MulOne(l);
  }

  /** Lines from one point to one other point have one slope. */
  lemma SlopesSame(x: Elem, u: Elem, v: Elem, l: Elem, k: Elem)
    requires Irreducible() && x != u
    requires Add(Add(x, v), Mul(l, Add(x, u))) == Add(Add(x, v), Mul(k, Add(x, u)))
    ensures l == k
  {
    hide Irreducible, Mul, Add;
    SameIff(x, u);
    SumCancels(Add(x, v), Mul(l, Add(x, u)), Mul(k, Add(x, u)));
    CancelFactor(l, k, Add(x, u));
  }

  lemma SumCancels(c: Elem, a: Elem, b: Elem)
    ensures Add(c, a) == Add(c, b) <==> a == b
  {
    hide Add;
    AddLaws(c, a, 0);
    AddLaws(c, b, 0);
  }

  /** p has another abscissa than the one read: the source follows the chord to the point read. */
  lemma MixedChord(b: Elem, p: Pt, q: Pt, x: Elem, y: Elem, z: Elem)
    requires Irreducible() && b != 0 && OnCurve(One(), b, p) && OnCurve(One(), b, q) && Lopez(x, y, z, q)
    requires z != One() && p.At? && p.x != x
    ensures MixedSum(b, p, q, At(x, y)) == AddPt(One(), p, q) <==> Forgiven(p, AddPt(One(), p, q), At(x, y))
  {
    var r, s := At(x, y), AddPt(One(), p, q);
    var m := AddPt(One(), p, r);
    assert MixedSum(b, p, q, r) == m && m.At?;
    SumEnd(p, r);
    var k := Slope(p, r);
    assert k == Chord(p.x, p.y, x, y);
    EndAbove(p, m.x, k);
    ChordBack(k, p.x, x);
    assert m.x == p.x <==> LeadsBack(k, x);
    hide Irreducible, OnCurve, Lopez, Slope, Chord, LeadsBack;
    if s.Inf? {
      InfiniteSum(p, q);
      ReadApart(q, x, y, z);
    } else if q.Inf? {
      AddNothing(One(), p);
      OwnNegative(p);
    } else {
      SumEnd(p, q);
      hide AddPt, Mul, Add;
      EndAbove(p, s.x, Slope(p, q));
      NegForm(p);
      if s.x != p.x { ChordsApart(b, p, q, x, y, z); }
    }
  }

  lemma NegForm(p: Pt)
    requires p.At?
    ensures NegPt(p) == At(p.x, Add(p.x, p.y))
  {
  }

  /** p is its own negative exactly for abscissa 0. */
  lemma OwnNegative(p: Pt)
    requires p.At?
    ensures NegPt(p) == p <==> p.x == 0
  {
    hide Add;
    AddLaws(p.y, 0, 0);
    if p.x != 0 { NotOwnNegative(p.x, p.y); }
  }

  lemma ChordBack(k: Elem, u: Elem, x: Elem)
    ensures Add(Add(Sq(k), k), Add(One(), Add(u, x))) == u <==> LeadsBack(k, x)
  {
    hide Add, Sq;
    var a := Add(Add(Sq(k), k), One());
    AddLaws(Add(Sq(k), k), One(), Add(u, x));
    AddLaws(a, Add(u, x), 0);
    AddLaws(u, x, a);
    AddLaws(x, a, 0);
    AddLaws(u, 0, 0);
    SumCancels(u, Add(x, a), 0);
    SameIff(x, a);
    AddLaws(Add(u, x), a, 0);
  }

  /** If the chord to the point read led to the sum, the two second points would be one. */
  lemma ChordsApart(b: Elem, p: Pt, q: Pt, x: Elem, y: Elem, z: Elem)
    requires Irreducible() && b != 0 && OnCurve(One(), b, q) && Lopez(x, y, z, q) && z != One()
    requires p.At? && q.At? && p.x != x && AddPt(One(), p, q).At? && AddPt(One(), p, q).x != p.x
    ensures AddPt(One(), p, At(x, y)) != AddPt(One(), p, q)
  {
    var r, s := At(x, y), AddPt(One(), p, q);
    hide Irreducible, OnCurve, Lopez, AddPt, Mul, Add, Slope, Sq;
    ReadApart(q, x, y, z);
    OrderTwo(b, q);
    if AddPt(One(), p, r) == s {
      SumEnd(p, q);
      SumEnd(p, r);
      var l, k := Slope(p, q), Slope(p, r);
      SlopesSame(s.x, p.x, p.y, l, k);
      SumCancels(Add(Sq(l), l), Add(One(), Add(p.x, q.x)), Add(One(), Add(p.x, x)));
      SumCancels(One(), Add(p.x, q.x), Add(p.x, x));
      SumCancels(p.x, q.x, x);
      SlopeForm(p, q);
      SlopeForm(p, r);
      SumCancels(p.y, q.y, y);
    }
  }

  lemma SlopeForm(p: Pt, q: Pt)
    requires Irreducible() && p.At? && q.At? && p.x != q.x
    ensures Mul(Slope(p, q), Add(p.x, q.x)) == Add(p.y, q.y)
  {
    hide Irreducible, Mul, Add, Chord;
    ChordIs(p.x, p.y, q.x, q.y);
  }

  // ---------------------------------------------------------------- multiples with any z

  /** Up to the first bit that goes wrong: where half the multiple is right, an even multiple is, and
      an odd one exactly where its addition is. */
  lemma MixedStepIff(b: Elem, n: nat, q: Pt, x: Elem, y: Elem, z: Elem)
    requires Irreducible() && b != 0 && n > 0 && OnCurve(One(), b, q) && Lopez(x, y, z, q)
    requires MixedMultiple(b, n / 2, q, At(x, y)) == Multiple(One(), n / 2, q)
    requires DoublePt(One(), Multiple(One(), n / 2, q)) == At(x, y) ==> Associative(One(), b)
    ensures MixedMultiple(b, n, q, At(x, y)) == Multiple(One(), n, q) <==>
      n % 2 == 0 || z == One() || Forgiven(DoublePt(One(), Multiple(One(), n / 2, q)), Multiple(One(), n, q), At(x, y))
  {
    hide Irreducible, OnCurve, AddPt, DoublePt, DoubleForm, Lopez, Forgiven, MixedSum, Associative;
    var h := Multiple(One(), n / 2, q);
    MultipleStays(b, n / 2, q);
    DoubleFormIs(b, h);
    DoubleStays(b, h);
    MixedSumIff(b, DoublePt(One(), h), q, x, y, z);
  }

  lemma DoubleStays(b: Elem, p: Pt)
    requires Irreducible() && OnCurve(One(), b, p)
    ensures OnCurve(One(), b, DoublePt(One(), p))
  {
    hide Irreducible, OnCurve, DoublePt;
    AddNothing(One(), p);
    AddOnCurve(One(), b, p, p);
  }

  lemma {:induction false} MultipleStays(b: Elem, n: nat, p: Pt)
    requires Irreducible() && OnCurve(One(), b, p)
    ensures OnCurve(One(), b, Multiple(One(), n, p))
  {
    hide Irreducible, Equation, AddPt, DoublePt;
    if n > 0 {
      MultipleStays(b, n / 2, p);
      var d := DoublePt(One(), Multiple(One(), n / 2, p));
      DoubleStays(b, Multiple(One(), n / 2, p));
      AddOnCurve(One(), b, d, p);
    }
  }

  /** Powers of two need no addition: they are right for every z. */
  lemma {:induction false} MixedPowers(b: Elem, k: nat, q: Pt, r: Pt)
    requires Irreducible() && OnCurve(One(), b, q)
    ensures MixedMultiple(b, Pow2(k), q, r) == Multiple(One(), Pow2(k), q)
    decreases k
  {
    hide Irreducible, OnCurve, AddPt, DoublePt, DoubleForm, MixedSum, Pow2, MixedMultiple, Multiple;
    if k == 0 {
      ZeroPower();
      MixedUnits(b, q, r);
      MultipleOne(q);
    } else {
      Pow2Succ(k - 1);
      MixedPowers(b, k - 1, q, r);
      MultipleStays(b, Pow2(k - 1), q);
      DoubleFormIs(b, Multiple(One(), Pow2(k - 1), q));
      EvenStep(b, Pow2(k - 1), q, r);
    }
  }

  lemma ZeroPower()
    ensures Pow2(0) == 1
  {
  }

  lemma EvenStep(b: Elem, n: nat, q: Pt, r: Pt)
    requires Irreducible() && n > 0
    ensures MixedMultiple(b, 2 * n, q, r) == DoubleForm(b, MixedMultiple(b, n, q, r))
    ensures Multiple(One(), 2 * n, q) == DoublePt(One(), Multiple(One(), n, q))
  {
    hide Irreducible, AddPt, DoublePt, DoubleForm, MixedSum;
    assert 2 * n / 2 == n && 2 * n % 2 == 0;
  }

  lemma MultipleOne(q: Pt)
    requires Irreducible()
    ensures Multiple(One(), 1, q) == q
  {
    hide Irreducible, AddPt, DoublePt;
    DoubleInf();
    NothingSums(q);
    assert Multiple(One(), 0, q) == Inf;
  }

  /** So are all multiples of the point of order two, whose doubles are infinite. */
  lemma {:induction false} MixedOrderTwo(b: Elem, n: nat, q: Pt, r: Pt)
    requires Irreducible() && q.At? && q.x == 0
    ensures MixedMultiple(b, n, q, r) == Multiple(One(), n, q) && (n > 0 ==> Multiple(One(), n, q) in {Inf, q})
  {
    hide Irreducible, AddPt, DoublePt, DoubleForm, MixedSum;
    if n > 0 {
      MixedOrderTwo(b, n / 2, q, r);
      ZeroDoubles(b, q);
      ZeroDoubles(b, Inf);
      NothingSums(q);
      MixedFromInf(b, q, r);
    }
  }

  /** The triple is right exactly for z = 1 and where the one addition it makes is forgiven. */
  lemma MixedTriple(b: Elem, q: Pt, x: Elem, y: Elem, z: Elem)
    requires Irreducible() && b != 0 && OnCurve(One(), b, q) && Lopez(x, y, z, q)
    requires DoublePt(One(), q) == At(x, y) ==> Associative(One(), b)
    ensures MixedMultiple(b, 3, q, At(x, y)) == Multiple(One(), 3, q) <==>
      z == One() || Forgiven(DoublePt(One(), q), AddPt(One(), DoublePt(One(), q), q), At(x, y))
    ensures Multiple(One(), 3, q) == AddPt(One(), DoublePt(One(), q), q)
  {
    hide Irreducible, OnCurve, AddPt, DoublePt, Lopez, Forgiven, Associative, MixedMultiple;
    MixedUnits(b, q, At(x, y));
    MultipleOne(q);
    assert 3 / 2 == 1 && 3 % 2 == 1;
    MixedStepIff(b, 3, q, x, y, z);
  }

  // ---------------------------------------------------------------- an operand

  /** A product of short polynomials is not reduced. */
  lemma ShortProduct(a: Elem, c: Elem, r: Elem)
    requires r == Times(a, c)
    ensures Mul(a, c) == r
  {
    hide Times, Mul;
    Gf2Field.CongRefl(r, F());
    MulIs(r, a, c);
  }

  lemma SmallProducts()
    ensures Sq(2) == 4 && Sq(3) == 5 && Sq(7) == 21 && Mul(3, 7) == 9 && Mul(2, 21) == 42
  {
    SmallTimes();
    hide Mul, Times;
    ShortProduct(2, 2, 4);
    ShortProduct(3, 3, 5);
    ShortProduct(7, 7, 21);
    ShortProduct(3, 7, 9);
    ShortProduct(2, 21, 42);
  }

  lemma SmallTimes()
    ensures Times(2, 2) == 4 && Times(3, 3) == 5 && Times(7, 7) == 21 && Times(3, 7) == 9 && Times(2, 21) == 42
  {
    hide Times, Plus;
    TimesThree(3);
    TimesThree(7);
    SmallXors();
    DoubleTimes(2);
    DoubleTimes(21);
  }

  lemma DoubleTimes(b: nat)
    ensures Times(2, b) == 2 * b
  {
    hide Times;
    TimesDoubleLeft(1, b);
    TimesOneLeft(b);
  }

  lemma TimesThree(a: nat)
    ensures Times(a, 3) == Plus(2 * a, a) && Times(a, 7) == Plus(2 * Plus(2 * a, a), a)
  {
    hide Times, Plus;
    TimesComm(a, 1);
    TimesOneLeft(a);
    TimesStep(a, 1);
    TimesStep(a, 3);
  }

  lemma SmallXors()
    ensures Plus(6, 3) == 5 && Plus(10, 3) == 9 && Plus(14, 7) == 9 && Plus(18, 7) == 21
  {
  }

  lemma SmallSums()
    ensures Add(1, 2) == 3 && Add(4, 2) == 6 && Add(1, 6) == 7 && Add(1, 7) == 6 && Add(6, 6) == 0 && Add(1, 3) == 2
    ensures Add(5, 2) == 7 && Add(7, 1) == 6 && Add(6, 9) == 15 && Add(15, 2) == 13
  {
  }

  /** The point (1, 2), and its double (7, 15), on the curve with b = 6; polynomials are numbers. */
  lemma SlipPoint()
    requires Irreducible()
    ensures OnCurve(One(), 6, At(1, 2)) && DoublePt(One(), At(1, 2)) == At(7, 15)
  {
    hide OnCurve, DoublePt, Irreducible;
    SlipOn();
    SlipDouble();
  }

  lemma SlipOn()
    ensures OnCurve(One(), 6, At(1, 2))
  {
    SmallProducts();
    SmallSums();
    MulOne(1);
    MulOne(2);
    hide Mul, Add;
    assert Sq(1) == 1 && Cu(1) == 1 && Mul(1, 2) == 2;
  }

  lemma SlipDouble()
    requires Irreducible()
    ensures DoublePt(One(), At(1, 2)) == At(7, 15)
  {
    hide Irreducible, Mul, Add, Tangent;
    SmallProducts();
    SmallSums();
    MulOne(1);
    SlipTangent();
    AddLaws(6, 6, 0);
    AddLaws(7, 1, 8);
  }

  lemma SlipTangent()
    requires Irreducible()
    ensures Tangent(1, 2) == 3
  {
    var l := Tangent(1, 2);
    TangentIs(1, 2);
    MulOne(l);
    MulOne(1);
    SmallSums();
    hide Irreducible, Mul, Tangent;
  }

  /** The triple of that point, given with any z but 1, is wrong. */
  lemma MixedSlips(z: Elem)
    requires Irreducible() && z != 0 && z != One()
    ensures OnCurve(One(), 6, At(1, 2)) && Lopez(z, Mul(2, Sq(z)), z, At(1, 2))
    ensures MixedMultiple(6, 3, At(1, 2), At(z, Mul(2, Sq(z)))) != Multiple(One(), 3, At(1, 2))
  {
    hide Irreducible, MixedMultiple, Multiple, DoublePt, OnCurve, Mul, Sq, Lopez, AddPt, Forgiven;
    SlipPoint();
    SlipScaled(z);
    SlipUnforgiven(At(z, Mul(2, Sq(z))));
    MixedTriple(6, At(1, 2), z, Mul(2, Sq(z)), z);
  }

  lemma SlipScaled(z: Elem)
    requires z != 0
    ensures Lopez(z, Mul(2, Sq(z)), z, At(1, 2)) && At(z, Mul(2, Sq(z))) != At(7, 15)
  {
    MulOne(z);
    SmallProducts();
    hide Mul, Sq;
  }

  lemma SlipUnforgiven(r: Pt)
    requires Irreducible()
    ensures !Forgiven(At(7, 15), AddPt(One(), At(7, 15), At(1, 2)), r)
  {
    hide Irreducible, AddPt, NegPt, Chord, LeadsBack;
    SlipSum();
  }

  /** The sum of (7, 15) and (1, 2) is neither infinite nor above (7, 15). */
  lemma SlipSum()
    requires Irreducible()
    ensures AddPt(One(), At(7, 15), At(1, 2)).At? && AddPt(One(), At(7, 15), At(1, 2)) != NegPt(At(7, 15))
  {
    hide Irreducible, Mul, Add, Chord;
    SmallSums();
    var l, s := Chord(7, 15, 1, 2), AddPt(One(), At(7, 15), At(1, 2));
    ChordIs(7, 15, 1, 2);
    MulOne(6);
    if s.x == 7 {
      SlipSlope(l);
      SquarePlus(l);
    }
  }

  lemma SlipSlope(l: Elem)
    requires Add(Add(Sq(l), l), Add(One(), Add(7, 1))) == 7
    ensures Add(Sq(l), l) == 0
  {
    SmallSums();
    hide Add, Sq;
    assert Add(One(), Add(7, 1)) == 7;
    AddLaws(Add(Sq(l), l), 7, 7);
    AddLaws(7, 7, 0);
    AddLaws(Add(Sq(l), l), 0, 0);
  }

  /** l^2 + l = 0 only for 0 and 1. */
  lemma SquarePlus(l: Elem)
    requires Irreducible() && Add(Sq(l), l) == 0
    ensures l == 0 || l == One()
  {
    hide Irreducible, Mul, Add;
    MulOne(l);
    MulAdd(l, l, One());
    SquareOf(l);
    SameIff(l, One());
    if l != 0 && l != One() { MulNonzero(l, Add(l, One())); }
  }
}
