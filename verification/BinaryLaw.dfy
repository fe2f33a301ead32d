/** The chord-and-tangent law of y^2 + x y = x^3 + a x^2 + b over GF(2^571), and the
    Jacobian formulas that compute it without division. */
module BinaryLaw {
  import opened Gf2
  import opened Gf2Field
  import opened Gf571

  function Sq(a: Elem): Elem { Mul(a, a) }

  function Cu(a: Elem): Elem { Mul(a, Sq(a)) }

  // ---------------------------------------------------------------- rearranging products and sums

  lemma Interchange(a: Elem, b: Elem, c: Elem, d: Elem)
    ensures Mul(Mul(a, b), Mul(c, d)) == Mul(Mul(a, c), Mul(b, d))
  {
    hide *;
    MulAssoc(a, b, Mul(c, d));
    MulAssoc(b, c, d);
    MulComm(b, c);
    MulAssoc(c, b, d);
    MulAssoc(a, c, Mul(b, d));
  }

  lemma SqMul(a: Elem, b: Elem)
    ensures Sq(Mul(a, b)) == Mul(Sq(a), Sq(b))
  {
    hide Mul;
    Interchange(a, b, a, b);
  }

  lemma CuMul(a: Elem, b: Elem)
    ensures Cu(Mul(a, b)) == Mul(Cu(a), Cu(b))
  {
    hide Mul;
    SqMul(a, b);
    Interchange(a, b, Sq(a), Sq(b));
  }

  /** Squaring is additive in characteristic two. */
  lemma SqAdd(a: Elem, b: Elem)
    ensures Sq(Add(a, b)) == Add(Sq(a), Sq(b))
  {
    hide Mul, Add;
    MulAdd(Add(a, b), a, b);
    MulAdd(a, a, b);
    MulAdd(b, a, b);
    MulComm(a, b);
    AddLaws(Sq(a), Mul(a, b), Add(Mul(a, b), Sq(b)));
    AddLaws(Mul(a, b), Sq(b), 0);
  }

  lemma AddSwap(a: Elem, b: Elem, c: Elem, d: Elem)
    ensures Add(Add(a, b), Add(c, d)) == Add(Add(a, c), Add(b, d))
  {
    PlusSwap(a, b, c, d);
  }

  /** A common factor, taken out of a sum. */
  lemma Factor(a: Elem, b: Elem, c: Elem)
    ensures Add(Mul(a, c), Mul(b, c)) == Mul(Add(a, b), c)
  {
    hide *;
    MulAdd(c, a, b);
  }

  lemma SameIff(a: Elem, b: Elem)
    ensures Add(a, b) == 0 <==> a == b
  {
    hide Add;
    AddLaws(a, b, 0);
    AddLaws(a, 0, 0);
  }

  // ---------------------------------------------------------------- the affine law

  datatype Pt = Inf | At(x: Elem, y: Elem)

  /** The slope of the tangent, and of the chord. */
  function Tangent(x: Elem, y: Elem): Elem
    requires Irreducible() && x != 0
  {
    ElemCoprime(x);
    Add(x, Div(y, x))
  }

  function Chord(x1: Elem, y1: Elem, x2: Elem, y2: Elem): Elem
    requires Irreducible() && x1 != x2
  {
    SameIff(x1, x2);
    ElemCoprime(Add(x1, x2));
    Div(Add(y1, y2), Add(x1, x2))
  }

  function DoublePt(a: Elem, p: Pt): Pt
    requires Irreducible()
  {
    if p.Inf? || p.x == 0 then Inf
    else
      var l := Tangent(p.x, p.y);
      SmallElems();
      var x := Add(Sq(l), Add(a, l));
      At(x, Add(Add(x, Sq(p.x)), Mul(l, x)))
  }

  function AddPt(a: Elem, p: Pt, q: Pt): Pt
    requires Irreducible()
  {
    if p.Inf? then q
    else if q.Inf? then p
    else if p.x == q.x then if p.y == q.y then DoublePt(a, p) else Inf
    else
      var l := Chord(p.x, p.y, q.x, q.y);
      var x := Add(Add(Sq(l), l), Add(a, Add(p.x, q.x)));
      At(x, Add(Add(x, p.y), Mul(l, Add(x, p.x))))
  }

  /** The negative: the other point with the same x. */
  function NegPt(p: Pt): Pt {
    if p.Inf? then Inf else At(p.x, Add(p.x, p.y))
  }

  lemma NegSum(a: Elem, p: Pt)
    requires Irreducible()
    ensures AddPt(a, p, NegPt(p)) == Inf && AddPt(a, NegPt(p), p) == Inf && NegPt(NegPt(p)) == p
  {
    if p.At? {
      AddLaws(p.x, p.y, p.x);
      AddLaws(p.x, p.x, p.y);
      AddLaws(p.y, p.x, 0);
      hide Add;
    }
  }

  // ---------------------------------------------------------------- Jacobian coordinates

  /** (x z^2, y z^3, z) stands for (x, y). */
  ghost predicate Scaled(x: Elem, y: Elem, z: Elem, p: Pt)
  {
    p.At? && x == Mul(p.x, Sq(z)) && y == Mul(p.y, Cu(z))
  }

  ghost predicate Jac(x: Elem, y: Elem, z: Elem, p: Pt) {
    if p.Inf? then z == 0 else z != 0 && Scaled(x, y, z, p)
  }

  lemma TangentIs(x: Elem, y: Elem)
    requires Irreducible() && x != 0
    ensures Mul(Tangent(x, y), x) == Add(Sq(x), y)
  {
    hide Mul, Add, Irreducible, Inverse, Coprime;
    ElemCoprime(x);
    DivIs(Div(y, x), y, x);
    hide Div;
    Factor(x, Div(y, x), x);
  }

  lemma ChordIs(x1: Elem, y1: Elem, x2: Elem, y2: Elem)
    requires Irreducible() && x1 != x2
    ensures Mul(Chord(x1, y1, x2, y2), Add(x1, x2)) == Add(y1, y2)
  {
    hide Mul, Add, Irreducible, Inverse, Coprime;
    SameIff(x1, x2);
    ElemCoprime(Add(x1, x2));
    DivIs(Chord(x1, y1, x2, y2), Add(y1, y2), Add(x1, x2));
  }

  /** z^4 in two ways. */
  lemma Fourth(z: Elem)
    ensures Mul(Cu(z), z) == Sq(Sq(z)) && Mul(z, Cu(z)) == Sq(Sq(z))
  {
    hide Mul;
    MulAssoc(z, Sq(z), z);
    MulComm(Sq(z), z);
    MulAssoc(z, z, Sq(z));
    MulComm(z, Cu(z));
  }

  /** The tangent slope, scaled: y z + x^2 over the new z. */
  lemma DoubleSlope(x: Elem, y: Elem, z: Elem, p: Pt, l: Elem)
    requires Scaled(x, y, z, p) && Mul(l, p.x) == Add(Sq(p.x), p.y)
    ensures Add(Mul(y, z), Sq(x)) == Mul(l, Mul(x, Sq(z)))
  {
    hide Mul, Add;
    var z2, z4 := Sq(z), Sq(Sq(z));
    MulAssoc(p.x, z2, z2);
    MulAssoc(l, p.x, z4);
    SqMul(p.x, z2);
    MulAssoc(p.y, Cu(z), z);
    Fourth(z);
    Factor(Sq(p.x), p.y, z4);
    AddLaws(Mul(y, z), Sq(x), 0);
  }

  /** The new x coordinate of either formula: s^2 + z (a z + s) when s = l z. */
  lemma SlopeSquare(a: Elem, l: Elem, z: Elem, s: Elem)
    requires s == Mul(l, z)
    ensures Sq(s) == Mul(Sq(l), Sq(z)) && Mul(s, z) == Mul(l, Sq(z)) && Mul(z, s) == Mul(l, Sq(z))
    ensures Mul(z, Mul(a, z)) == Mul(a, Sq(z))
  {
    hide Mul;
    SqMul(l, z);
    MulAssoc(l, z, z);
    MulComm(z, s);
    MulAssoc(a, z, z);
    MulComm(z, Mul(a, z));
  }

  lemma DoubleX(a: Elem, l: Elem, z: Elem, s: Elem)
    requires s == Mul(l, z)
    ensures Add(Sq(s), Mul(z, Add(Mul(a, z), s))) == Mul(Add(Sq(l), Add(a, l)), Sq(z))
  {
    SlopeSquare(a, l, z, s);
    hide Mul, Add, Sq;
    MulAdd(z, Mul(a, z), s);
    Factor(a, l, Sq(z));
    Factor(Sq(l), Add(a, l), Sq(z));
  }

  /** x^4 over the square of the new z is the square of the affine x. */
  lemma DoubleX4(x: Elem, z: Elem, u: Elem)
    requires x == Mul(u, Sq(z))
    ensures Mul(x, Mul(x, Sq(x))) == Mul(Sq(u), Sq(Mul(x, Sq(z))))
  {
    hide Mul;
    Fourth(x);
    SqMul(x, Sq(z));
    SqMul(u, Sq(z));
    SqMul(Sq(u), Sq(Sq(z)));
    MulAssoc(Sq(u), Sq(x), Sq(Sq(z)));
    MulComm(Sq(x), Sq(Sq(z)));
    MulAssoc(Sq(u), Sq(Sq(z)), Sq(x));
  }

  lemma DoubleY(l: Elem, z: Elem, s: Elem, x3: Elem, u: Elem)
    requires s == Mul(l, z)
    ensures Add(Mul(z, Add(Mul(x3, Sq(z)), Mul(u, Sq(z)))), Mul(s, Mul(x3, Sq(z)))) ==
      Mul(Add(Add(x3, u), Mul(l, x3)), Cu(z))
  {
    hide Mul, Add;
    Factor(x3, u, Sq(z));
    var w := Add(x3, u);
    MulComm(z, Mul(w, Sq(z)));
    MulAssoc(w, Sq(z), z);
    MulComm(Sq(z), z);
    Interchange(l, z, x3, Sq(z));
    Factor(w, Mul(l, x3), Cu(z));
  }

  /** The doubling formula on scaled coordinates. */
  lemma DoubleScaled(a: Elem, x: Elem, y: Elem, z: Elem, p: Pt)
    requires Irreducible() && z != 0 && Scaled(x, y, z, p)
    ensures
      var z3 := Mul(x, Sq(z));
      var s := Add(Mul(y, z), Sq(x));
      var x3 := Add(Sq(s), Mul(z3, Add(Mul(a, z3), s)));
      Jac(x3, Add(Mul(z3, Add(x3, Mul(x, Mul(x, Sq(x))))), Mul(s, x3)), z3, DoublePt(a, p))
  {
    hide Mul, Add, Irreducible, Tangent;
    var z3 := Mul(x, Sq(z));
    if p.x == 0 {
      MulOne(Sq(z));
    } else {
      var l := Tangent(p.x, p.y);
      var s, q := Add(Mul(y, z), Sq(x)), DoublePt(a, p);
      MulNonzero(z, z);
      MulNonzero(p.x, Sq(z));
      MulNonzero(x, Sq(z));
      TangentIs(p.x, p.y);
      DoubleSlope(x, y, z, p, l);
      DoubleX(a, l, z3, s);
      DoubleX4(x, z, p.x);
      DoubleY(l, z3, s, q.x, Sq(p.x));
    }
  }

  /** The common factor of the two cross products: with w = z1 z2,
      (u z1^2) z2^2 = u w^2 and (v z1^3) z2^3 = v w^3. */
  lemma CrossTerm(u: Elem, v: Elem, z1: Elem, z2: Elem)
    ensures Mul(Mul(u, Sq(z1)), Sq(z2)) == Mul(u, Sq(Mul(z1, z2)))
    ensures Mul(Mul(v, Cu(z1)), Cu(z2)) == Mul(v, Cu(Mul(z1, z2)))
  {
    SqMul(z1, z2);
    CuMul(z1, z2);
    hide *;
    MulAssoc(u, Sq(z1), Sq(z2));
    MulAssoc(v, Cu(z1), Cu(z2));
  }

  /** ta and tb: the differences of the cross products. */
  lemma AddCross(x1: Elem, y1: Elem, z1: Elem, p: Pt, x2: Elem, y2: Elem, z2: Elem, q: Pt)
    requires Scaled(x1, y1, z1, p) && Scaled(x2, y2, z2, q)
    ensures Add(Mul(x1, Sq(z2)), Mul(x2, Sq(z1))) == Mul(Add(p.x, q.x), Sq(Mul(z1, z2)))
    ensures Add(Mul(y1, Cu(z2)), Mul(y2, Cu(z1))) == Mul(Add(p.y, q.y), Cu(Mul(z1, z2)))
  {
    hide Mul, Add, Sq, Cu;
    CrossTerm(p.x, p.y, z1, z2);
    CrossTerm(q.x, q.y, z2, z1);
    MulComm(z1, z2);
    Factor(p.x, q.x, Sq(Mul(z1, z2)));
    Factor(p.y, q.y, Cu(Mul(z1, z2)));
  }

  /** The chord slope, scaled: tb is the slope times the new z. */
  lemma AddSlope(l: Elem, d: Elem, e: Elem, w: Elem, ta: Elem)
    requires Mul(l, d) == e && ta == Mul(d, Sq(w))
    ensures Mul(e, Cu(w)) == Mul(l, Mul(w, ta))
  {
    hide Mul;
    MulAssoc(w, d, Sq(w));
    MulComm(w, d);
    MulAssoc(d, w, Sq(w));
    MulAssoc(l, d, Cu(w));
  }

  lemma AddCube(d: Elem, w: Elem, ta: Elem)
    requires ta == Mul(d, Sq(w))
    ensures Cu(ta) == Mul(d, Sq(Mul(w, ta)))
  {
    hide Mul;
    SqMul(w, ta);
    MulAssoc(d, Sq(w), Sq(ta));
  }

  lemma AddX(a: Elem, l: Elem, d: Elem, z: Elem, tb: Elem, cube: Elem)
    requires tb == Mul(l, z) && cube == Mul(d, Sq(z))
    ensures Add(cube, Add(Mul(a, Sq(z)), Add(Mul(tb, z), Sq(tb)))) == Mul(Add(Add(Sq(l), l), Add(a, d)), Sq(z))
  {
    SlopeSquare(a, l, z, tb);
    var q := Sq(z);
    hide *;
    Factor(l, Sq(l), q);
    Factor(a, Add(l, Sq(l)), q);
    Factor(d, Add(a, Add(l, Sq(l))), q);
    AddLaws(l, Sq(l), 0);
    AddLaws(d, a, Add(Sq(l), l));
    AddLaws(a, d, 0);
    AddLaws(Add(a, d), Add(Sq(l), l), 0);
  }

  /** w is z2 times ta, z1 w the new z. */
  lemma AddY(l: Elem, z1: Elem, w: Elem, tb: Elem, x1: Elem, y1: Elem, p: Pt, x3: Elem)
    requires p.At? && x1 == Mul(p.x, Sq(z1)) && y1 == Mul(p.y, Cu(z1)) && tb == Mul(l, Mul(z1, w))
    ensures
      var s := Mul(x3, Sq(Mul(z1, w)));
      Add(Mul(w, Add(Mul(z1, s), Mul(y1, Sq(w)))), Mul(tb, Add(s, Mul(x1, Sq(w)))))
      == Mul(Add(Add(x3, p.y), Mul(l, Add(x3, p.x))), Cu(Mul(z1, w)))
  {
    hide Mul, Add;
    var z := Mul(z1, w);
    var s := Mul(x3, Sq(z));
    CrossTerm(p.x, p.y, z1, w);
    MulAdd(w, Mul(z1, s), Mul(y1, Sq(w)));
    AddYFirst(z1, w, x3);
    AddYSecond(y1, w);
    Factor(x3, p.y, Cu(z));
    Factor(x3, p.x, Sq(z));
    Interchange(l, z, Add(x3, p.x), Sq(z));
    Factor(Add(x3, p.y), Mul(l, Add(x3, p.x)), Cu(z));
  }

  lemma AddYFirst(z1: Elem, w: Elem, x3: Elem)
    ensures Mul(w, Mul(z1, Mul(x3, Sq(Mul(z1, w))))) == Mul(x3, Cu(Mul(z1, w)))
  {
    var z := Mul(z1, w);
    var s := Mul(x3, Sq(z));
    hide Mul, Add;
    MulAssoc(w, z1, s);
    MulComm(w, z1);
    MulAssoc(z, x3, Sq(z));
    MulComm(z, x3);
    MulAssoc(x3, z, Sq(z));
  }

  lemma AddYSecond(y: Elem, w: Elem)
    ensures Mul(w, Mul(y, Sq(w))) == Mul(y, Cu(w))
  {
    hide Mul;
    MulAssoc(w, y, Sq(w));
    MulComm(w, y);
    MulAssoc(y, w, Sq(w));
  }

  /** The addition formula on scaled coordinates of points with different x. */
  lemma AddScaled(a: Elem, x1: Elem, y1: Elem, z1: Elem, p: Pt, x2: Elem, y2: Elem, z2: Elem, q: Pt)
    requires Irreducible() && z1 != 0 && z2 != 0 && Scaled(x1, y1, z1, p) && Scaled(x2, y2, z2, q)
    ensures
      var ta := Add(Mul(x1, Sq(z2)), Mul(x2, Sq(z1)));
      var tb := Add(Mul(y1, Cu(z2)), Mul(y2, Cu(z1)));
      var w := Mul(z2, ta);
      var z := Mul(z1, w);
      var x := Add(Cu(ta), Add(Mul(a, Sq(z)), Add(Mul(tb, z), Sq(tb))));
      && (Cu(ta) == 0 <==> p.x == q.x) && (tb == 0 <==> p.y == q.y)
      && (p.x != q.x ==>
            Jac(x, Add(Mul(w, Add(Mul(z1, x), Mul(y1, Sq(w)))), Mul(tb, Add(x, Mul(x1, Sq(w))))), z, AddPt(a, p, q)))
  {
    hide Mul, Add, Irreducible, Chord, Sq, Cu;
    var ta := Add(Mul(x1, Sq(z2)), Mul(x2, Sq(z1)));
    var tb := Add(Mul(y1, Cu(z2)), Mul(y2, Cu(z1)));
    var w, d, e, f := Mul(z2, ta), Add(p.x, q.x), Add(p.y, q.y), Mul(z1, z2);
    var z := Mul(z1, w);
    AddCross(x1, y1, z1, p, x2, y2, z2, q);
    SameIff(p.x, q.x);
    SameIff(p.y, q.y);
    MulNonzero(z1, z2);
    PowersNonzero(f);
    MulOne(Sq(f));
    MulOne(Cu(f));
    if d != 0 { MulNonzero(d, Sq(f)); }
    if e != 0 { MulNonzero(e, Cu(f)); }
    if ta != 0 { PowersNonzero(ta); } else { ZeroPowers(); }
    if p.x != q.x {
      var l := Chord(p.x, p.y, q.x, q.y);
      ChordIs(p.x, p.y, q.x, q.y);
      MulAssoc(z1, z2, ta);
      AddSlope(l, d, e, f, ta);
      AddCube(d, f, ta);
      AddX(a, l, d, z, tb, Cu(ta));
      MulNonzero(f, ta);
      var r := AddPt(a, p, q);
      assert r.x == Add(Add(Sq(l), l), Add(a, d));
      AddY(l, z1, w, tb, x1, y1, p, r.x);
    }
  }

  lemma PowersNonzero(a: Elem)
    requires Irreducible() && a != 0
    ensures Sq(a) != 0 && Cu(a) != 0
  {
    hide Mul, Irreducible;
    MulNonzero(a, a);
    MulNonzero(a, Sq(a));
  }

  lemma ZeroPowers()
    ensures Len(0) == 0 && Cu(0) == 0
  {
    SmallElems();
    MulOne(Sq(0));
  }

  // ---------------------------------------------------------------- multiples

  /** Left-to-right double-and-add. */
  function Multiple(a: Elem, n: nat, p: Pt): Pt
    requires Irreducible()
  {
    if n == 0 then Inf
    else
      var d := DoublePt(a, Multiple(a, n / 2, p));
      if n % 2 == 1 then AddPt(a, d, p) else d
  }
}
