/** The chord-and-tangent law stays on the curve, and double-and-add is repeated addition. */
module BinaryGroup {
  import opened Bits
  import opened Gf571
  import opened BinaryLaw

  /** y^2 + x y + x^3 + a x^2 + b. */
  function Equation(a: Elem, b: Elem, x: Elem, y: Elem): Elem {
    Add(Add(Sq(y), Mul(x, y)), Add(Cu(x), Add(Mul(a, Sq(x)), b)))
  }

  predicate OnCurve(a: Elem, b: Elem, p: Pt) {
    p.At? ==> Equation(a, b, p.x, p.y) == 0
  }

  lemma UnitCurve(a: Elem, b: Elem, x: Elem, y: Elem)
    requires a == 1
    ensures OnCurve(a, b, At(x, y)) <==>
      Add(Mul(y, y), Mul(x, y)) == Add(Add(Mul(x, Mul(x, x)), Mul(x, x)), b)
  {
    MulOne(Mul(x, x));
    hide Mul, Add;
    AddLaws(Mul(x, Mul(x, x)), Mul(x, x), b);
    SameIff(Add(Mul(y, y), Mul(x, y)), Add(Mul(x, Mul(x, x)), Add(Mul(x, x), b)));
  }

  // ---------------------------------------------------------------- sums in any order

  lemma SumBit(a: Elem, b: Elem, i: nat)
    ensures Bit(Add(a, b), i) <==> Bit(a, i) != Bit(b, i)
  {
    BitXor(a, b, i);
  }

  /** (p + r) + (q0 + q1 + q2 + q3) + (s0 + s1 + s2 + s3) + (t + w) + b, regrouped. */
  lemma Regroup(y2: Elem, v2: Elem, xy: Elem, xv: Elem, uy: Elem, uv: Elem,
                x3: Elem, xuu: Elem, uxx: Elem, u3: Elem, ax: Elem, au: Elem, b: Elem)
    ensures
      Add(Add(Add(y2, v2), Add(Add(xy, uy), Add(xv, uv))), Add(Add(Add(x3, xuu), Add(uxx, u3)), Add(Add(ax, au), b)))
      == Add(Add(Add(y2, xy), Add(x3, Add(ax, b))),
             Add(Add(Add(Add(v2, uv), au), Add(xuu, u3)), Add(uy, Add(xv, uxx))))
  {
    hide Add, Bit;
    var l1, l2, l3, l4 := Add(y2, v2), Add(xy, uy), Add(xv, uv), Add(Add(xy, uy), Add(xv, uv));
    var m1, m2, m3, m4 := Add(x3, xuu), Add(uxx, u3), Add(Add(x3, xuu), Add(uxx, u3)), Add(Add(ax, au), b);
    var l, m := Add(l1, l4), Add(m3, m4);
    var n1, n2, n3 := Add(y2, xy), Add(ax, b), Add(x3, Add(ax, b));
    var o1, o2, o3, o4 := Add(Add(v2, uv), au), Add(xuu, u3), Add(xv, uxx), Add(uy, Add(xv, uxx));
    var n, o := Add(n1, n3), Add(Add(o1, o2), o4);
    forall i: nat ensures Bit(Add(l, m), i) <==> Bit(Add(n, o), i) {
      SumBit(l, m, i); SumBit(n, o, i);
      SumBit(l1, l4, i); SumBit(y2, v2, i); SumBit(l2, l3, i); SumBit(xy, uy, i); SumBit(xv, uv, i);
      SumBit(m3, m4, i); SumBit(m1, m2, i); SumBit(x3, xuu, i); SumBit(uxx, u3, i);
      SumBit(Add(ax, au), b, i); SumBit(ax, au, i);
      SumBit(n1, n3, i); SumBit(y2, xy, i); SumBit(x3, n2, i); SumBit(ax, b, i);
      SumBit(Add(o1, o2), o4, i); SumBit(o1, o2, i); SumBit(Add(v2, uv), au, i); SumBit(v2, uv, i);
      SumBit(xuu, u3, i); SumBit(uy, o3, i); SumBit(xv, uxx, i);
    }
    BitExt(Add(l, m), Add(n, o));
  }

  // ---------------------------------------------------------------- along a line

  /** x1 + u and y1 + l u: the equation along a line of slope l, relative to its base point. */
  function Residue(a: Elem, x: Elem, y: Elem, l: Elem, u: Elem): Elem {
    Add(Mul(u, Add(Add(Add(Sq(l), l), a), Add(x, u))), Add(y, Add(Mul(l, x), Sq(x))))
  }

  lemma Cube(x: Elem, u: Elem)
    ensures Cu(Add(x, u)) == Add(Add(Cu(x), Mul(x, Sq(u))), Add(Mul(u, Sq(x)), Cu(u)))
  {
    hide Mul, Add;
    SqAdd(x, u);
    MulAdd(Add(Sq(x), Sq(u)), x, u);
    MulAdd(x, Sq(x), Sq(u));
    MulAdd(u, Sq(x), Sq(u));
  }

  lemma Cross(x: Elem, u: Elem, y: Elem, v: Elem)
    ensures Mul(Add(x, u), Add(y, v)) == Add(Add(Mul(x, y), Mul(u, y)), Add(Mul(x, v), Mul(u, v)))
  {
    hide Mul, Add;
    MulAdd(Add(x, u), y, v);
    MulAdd(y, x, u);
    MulAdd(v, x, u);
  }

  /** Moving by u along the line adds u times the residue. */
  lemma AlongLine(a: Elem, b: Elem, x: Elem, y: Elem, l: Elem, u: Elem)
    ensures Equation(a, b, Add(x, u), Add(y, Mul(l, u))) == Add(Equation(a, b, x, y), Mul(u, Residue(a, x, y, l, u)))
  {
    var v := Mul(l, u);
    SqAdd(y, v);
    SqAdd(x, u);
    Cross(x, u, y, v);
    Cube(x, u);
    SquareLine(l, u);
    LinearLine(x, y, l, u);
    QuadraticLine(a, x, l, u);
    hide Mul, Add, Sq, Cu;
    MulAdd(a, Sq(x), Sq(u));
    var q := Mul(u, Add(Add(Add(Sq(l), l), a), Add(x, u)));
    MulAdd(u, q, Add(y, Add(Mul(l, x), Sq(x))));
    Regroup(Sq(y), Sq(v), Mul(x, y), Mul(x, v), Mul(u, y), Mul(u, v),
            Cu(x), Mul(x, Sq(u)), Mul(u, Sq(x)), Cu(u), Mul(a, Sq(x)), Mul(a, Sq(u)), b);
  }

  lemma SquareLine(l: Elem, u: Elem)
    ensures Sq(Mul(l, u)) == Mul(Sq(l), Sq(u)) && Mul(u, Mul(l, u)) == Mul(l, Sq(u))
  {
    hide Mul;
    SqMul(l, u);
    MulComm(u, Mul(l, u));
    MulAssoc(l, u, u);
  }

  lemma LinearLine(x: Elem, y: Elem, l: Elem, u: Elem)
    ensures Mul(u, Add(y, Add(Mul(l, x), Sq(x)))) == Add(Mul(u, y), Add(Mul(x, Mul(l, u)), Mul(u, Sq(x))))
  {
    hide Mul, Add;
    MulAdd(u, y, Add(Mul(l, x), Sq(x)));
    MulAdd(u, Mul(l, x), Sq(x));
    MulComm(u, Mul(l, x));
    MulComm(l, x);
    MulAssoc(x, l, u);
  }

  lemma QuadraticLine(a: Elem, x: Elem, l: Elem, u: Elem)
    ensures Mul(u, Mul(u, Add(Add(Add(Sq(l), l), a), Add(x, u))))
         == Add(Add(Add(Mul(Sq(l), Sq(u)), Mul(l, Sq(u))), Mul(a, Sq(u))), Add(Mul(x, Sq(u)), Cu(u)))
  {
    var s, t := Add(Add(Sq(l), l), a), Add(x, u);
    var q := Sq(u);
    assert Mul(u, Mul(u, Add(s, t))) == Mul(Add(s, t), q) by {
      hide Mul, Add;
      MulAssoc(u, u, Add(s, t));
      MulComm(q, Add(s, t));
    }
    hide Mul, Add;
    Factor(s, t, q);
    Factor(Add(Sq(l), l), a, q);
    Factor(Sq(l), l, q);
    Factor(x, u, q);
  }

  /** The third intersection: the residue takes the same value at d and at x + s + d. */
  lemma ThirdRoot(a: Elem, x: Elem, y: Elem, l: Elem, d: Elem)
    ensures
      var s := Add(Add(Sq(l), l), a);
      Residue(a, x, y, l, Add(x, Add(s, d))) == Residue(a, x, y, l, d)
  {
    hide Mul, Add;
    var s := Add(Add(Sq(l), l), a);
    var u := Add(x, Add(s, d));
    AddLaws(x, s, d);
    AddLaws(x, Add(s, d), 0);
    AddLaws(s, x, u);
    AddLaws(s, d, 0);
    AddLaws(s, Add(s, d), 0);
    AddLaws(x, d, 0);
    AddLaws(s, x, d);
    AddLaws(x, s, 0);
    assert Add(x, u) == Add(s, d);
    assert Add(s, Add(x, u)) == d;
    assert Add(s, Add(x, d)) == u;
    MulComm(u, d);
  }

  /** (x, y) and its negative (x, x + y) satisfy the equation together. */
  lemma NegOnCurve(a: Elem, b: Elem, x: Elem, y: Elem)
    ensures Equation(a, b, x, Add(x, y)) == Equation(a, b, x, y)
  {
    hide Add, Mul;
    SqAdd(x, y);
    MulAdd(x, x, y);
    AddLaws(Sq(x), Sq(y), Add(Sq(x), Mul(x, y)));
    AddLaws(Sq(x), Add(Sq(y), Add(Sq(x), Mul(x, y))), 0);
    AddLaws(Sq(y), Sq(x), Mul(x, y));
    AddLaws(Sq(x), Sq(y), 0);
    AddLaws(Sq(x), Add(Sq(y), Mul(x, y)), 0);
    AddLaws(Add(Sq(x), Sq(y)), Sq(x), Mul(x, y));
    AddLaws(Sq(x), Sq(y), Mul(x, y));
    AddLaws(Sq(y), Mul(x, y), 0);
    PairsCancel(Sq(x), Sq(y), Mul(x, y));
  }

  lemma PairsCancel(p: Elem, q: Elem, r: Elem)
    ensures Add(Add(p, q), Add(p, r)) == Add(q, r)
  {
    hide Add;
    AddSwap(p, q, p, r);
    AddLaws(p, 0, 0);
    AddLaws(Add(q, r), 0, 0);
  }

  // ---------------------------------------------------------------- closure

  lemma ChordOnCurve(a: Elem, b: Elem, p: Pt, q: Pt)
    requires Irreducible() && p.At? && q.At? && p.x != q.x && OnCurve(a, b, p) && OnCurve(a, b, q)
    ensures OnCurve(a, b, AddPt(a, p, q))
  {
    hide Mul, Add, Irreducible, Chord, Equation, Residue, Sq, Cu;
    var l, d := Chord(p.x, p.y, q.x, q.y), Add(p.x, q.x);
    var s := Add(Add(Sq(l), l), a);
    var x3, u := Add(s, d), Add(p.x, Add(s, d));
    ChordIs(p.x, p.y, q.x, q.y);
    SameIff(p.x, q.x);
    AddLaws(p.x, q.x, 0);
    AddLaws(p.y, q.y, 0);
    AlongLine(a, b, p.x, p.y, l, d);
    ThirdRoot(a, p.x, p.y, l, d);
    AddLaws(Mul(d, Residue(a, p.x, p.y, l, d)), 0, 0);
    if Residue(a, p.x, p.y, l, d) != 0 { MulNonzero(d, Residue(a, p.x, p.y, l, d)); }
    AlongLine(a, b, p.x, p.y, l, u);
    MulOne(u);
    AddLaws(0, 0, 0);
    AddLaws(p.x, x3, 0);
    NegOnCurve(a, b, x3, Add(p.y, Mul(l, u)));
    AddLaws(Add(Sq(l), l), a, d);
    AddLaws(x3, p.y, Mul(l, u));
    var r := AddPt(a, p, q);
    assert r.x == x3 && r.y == Add(x3, Add(p.y, Mul(l, u)));
  }

  lemma TangentOnCurve(a: Elem, b: Elem, p: Pt)
    requires Irreducible() && p.At? && p.x != 0 && OnCurve(a, b, p)
    ensures OnCurve(a, b, DoublePt(a, p))
  {
    hide Mul, Add, Irreducible, Tangent, Equation, Residue, Sq, Cu;
    var l := Tangent(p.x, p.y);
    var s := Add(Add(Sq(l), l), a);
    var u := Add(p.x, Add(s, 0));
    TangentIs(p.x, p.y);
    TangentResidue(a, p.x, p.y, l);
    ThirdRoot(a, p.x, p.y, l, 0);
    AlongLine(a, b, p.x, p.y, l, u);
    MulOne(u);
    AddLaws(0, 0, 0);
    AddLaws(s, 0, 0);
    AddLaws(p.x, s, 0);
    TangentOrdinate(p.x, p.y, l, s);
    NegOnCurve(a, b, s, Add(p.y, Mul(l, u)));
    AddLaws(Sq(l), l, a);
    AddLaws(l, a, 0);
    var r := DoublePt(a, p);
    assert r.x == s && r.y == Add(s, Add(p.y, Mul(l, u)));
  }

  lemma TangentResidue(a: Elem, x: Elem, y: Elem, l: Elem)
    requires Mul(l, x) == Add(Sq(x), y)
    ensures Residue(a, x, y, l, 0) == 0
  {
    MulOne(Add(Add(Add(Sq(l), l), a), Add(x, 0)));
    hide Mul, Add, Sq;
    AddLaws(Sq(x), y, Sq(x));
    AddLaws(y, Sq(x), 0);
    AddLaws(Sq(x), Add(y, Sq(x)), 0);
    AddLaws(y, 0, 0);
    AddLaws(0, 0, 0);
  }

  lemma TangentOrdinate(x: Elem, y: Elem, l: Elem, x3: Elem)
    requires Mul(l, x) == Add(Sq(x), y)
    ensures Add(Add(x3, Sq(x)), Mul(l, x3)) == Add(x3, Add(y, Mul(l, Add(x, x3))))
  {
    hide Mul, Add, Sq;
    MulAdd(l, x, x3);
    AddLaws(Sq(x), y, Mul(l, x3));
    AddLaws(y, Sq(x), 0);
    AddLaws(y, Sq(x), Mul(l, x3));
    AddLaws(y, Add(Sq(x), Mul(l, x3)), 0);
    AddLaws(x3, Sq(x), Mul(l, x3));
  }

  /** The law stays on the curve, special cases included. */
  lemma AddOnCurve(a: Elem, b: Elem, p: Pt, q: Pt)
    requires Irreducible() && OnCurve(a, b, p) && OnCurve(a, b, q)
    ensures OnCurve(a, b, AddPt(a, p, q)) && OnCurve(a, b, DoublePt(a, p))
  {
    hide Irreducible, Equation;
    if p.At? && p.x != 0 { TangentOnCurve(a, b, p); }
    if p.At? && q.At? && p.x != q.x { ChordOnCurve(a, b, p, q); }
  }

  // ---------------------------------------------------------------- the line through two points

  /** The two points and the negative of their sum lie on one line, the tangent where they are one
      point; its slope gives the sum of the three abscissas. */
  lemma SumOnLine(a: Elem, p: Pt, q: Pt) returns (l: Elem)
    requires Irreducible() && p.At? && q.At? && AddPt(a, p, q).At?
    ensures Mul(l, Add(p.x, q.x)) == Add(p.y, q.y) && (p == q ==> Mul(l, p.x) == Add(Sq(p.x), p.y))
    ensures
      var s := NegPt(AddPt(a, p, q));
      Mul(l, Add(p.x, s.x)) == Add(p.y, s.y) && Add(Add(p.x, q.x), s.x) == Add(Add(Sq(l), l), a)
  {
    hide Irreducible, Mul, Add, Chord, Tangent, Sq;
    var r := AddPt(a, p, q);
    AddLaws(p.x, r.x, 0);
    if p.x != q.x {
      l := Chord(p.x, p.y, q.x, q.y);
      ChordIs(p.x, p.y, q.x, q.y);
      ThirdOrdinate(r.x, p.y, Mul(l, Add(r.x, p.x)));
      ThirdAbscissa(Add(Sq(l), l), a, Add(p.x, q.x));
    } else {
      l := Tangent(p.x, p.y);
      TangentIs(p.x, p.y);
      MulAdd(l, p.x, r.x);
      FlatOrdinate(r.x, Sq(p.x), p.y, Mul(l, r.x));
      FlatSlope(p.x, p.y, l);
      AddLaws(a, l, 0);
      AddLaws(Sq(l), l, a);
      AddLaws(r.x, 0, 0);
    }
  }

  lemma ThirdOrdinate(x: Elem, y: Elem, m: Elem)
    ensures Add(y, Add(x, Add(Add(x, y), m))) == m
  {
    hide Add;
    AddLaws(x, y, m);
    AddLaws(x, Add(y, m), 0);
    AddLaws(y, m, 0);
  }

  lemma ThirdAbscissa(m: Elem, a: Elem, d: Elem)
    ensures Add(d, Add(m, Add(a, d))) == Add(m, a)
  {
    hide Add;
    AddLaws(m, a, d);
    AddLaws(Add(m, a), d, 0);
    AddLaws(d, Add(m, a), 0);
  }

  lemma FlatOrdinate(x: Elem, u: Elem, y: Elem, m: Elem)
    ensures Add(y, Add(x, Add(Add(x, u), m))) == Add(Add(u, y), m)
  {
    hide Add;
    AddLaws(x, u, m);
    AddLaws(x, Add(u, m), 0);
    AddLaws(y, u, m);
  }

  lemma FlatSlope(x: Elem, y: Elem, l: Elem)
    ensures Mul(l, Add(x, x)) == Add(y, y) && Add(x, x) == 0
  {
    AddLaws(x, x, 0);
    AddLaws(y, y, 0);
    MulOne(l);
    hide Mul, Add;
  }

  // ---------------------------------------------------------------- multiples

  /** The hypothesis that the law is associative on the curve. */
  ghost predicate Associative(a: Elem, b: Elem)
    requires Irreducible()
  {
    forall p, q, r {:trigger AddPt(a, AddPt(a, p, q), r)} {:trigger AddPt(a, p, AddPt(a, q, r))} ::
      OnCurve(a, b, p) && OnCurve(a, b, q) && OnCurve(a, b, r) ==>
        AddPt(a, AddPt(a, p, q), r) == AddPt(a, p, AddPt(a, q, r))
  }

  /** p added to itself n times. */
  function Sum(a: Elem, n: nat, p: Pt): Pt
    requires Irreducible()
  {
    if n == 0 then Inf else AddPt(a, Sum(a, n - 1, p), p)
  }

  lemma {:induction false} SumOnCurve(a: Elem, b: Elem, n: nat, p: Pt)
    requires Irreducible() && OnCurve(a, b, p)
    ensures OnCurve(a, b, Sum(a, n, p))
  {
    if n == 0 {
      InfOnCurve(a, b);
    }
    hide Irreducible, AddPt, OnCurve;
    if n > 0 {
      SumOnCurve(a, b, n - 1, p);
      AddOnCurve(a, b, Sum(a, n - 1, p), p);
    }
  }

  lemma InfOnCurve(a: Elem, b: Elem)
    ensures OnCurve(a, b, Inf)
  {
  }

  lemma {:induction false} SumAdd(a: Elem, b: Elem, m: nat, n: nat, p: Pt)
    requires Irreducible() && OnCurve(a, b, p) && Associative(a, b)
    ensures AddPt(a, Sum(a, m, p), Sum(a, n, p)) == Sum(a, m + n, p)
    decreases n
  {
    hide Irreducible, OnCurve, AddPt, Associative;
    AddNothing(a, Sum(a, m, p));
    if n > 0 {
      SumAdd(a, b, m, n - 1, p);
      SumOnCurve(a, b, m, p);
      SumOnCurve(a, b, n - 1, p);
      Associate(a, b, Sum(a, m, p), Sum(a, n - 1, p), p);
    }
  }

  lemma Associate(a: Elem, b: Elem, p: Pt, q: Pt, r: Pt)
    requires Irreducible() && Associative(a, b) && OnCurve(a, b, p) && OnCurve(a, b, q) && OnCurve(a, b, r)
    ensures AddPt(a, AddPt(a, p, q), r) == AddPt(a, p, AddPt(a, q, r))
  {
    hide OnCurve, AddPt;
  }

  lemma AddNothing(a: Elem, p: Pt)
    requires Irreducible()
    ensures AddPt(a, p, Inf) == p && AddPt(a, p, p) == DoublePt(a, p)
  {
  }

  /** Double-and-add computes the repeated sum. */
  lemma {:induction false} MultipleIsSum(a: Elem, b: Elem, n: nat, p: Pt)
    requires Irreducible() && OnCurve(a, b, p) && Associative(a, b)
    ensures Multiple(a, n, p) == Sum(a, n, p)
  {
    hide Irreducible, OnCurve, AddPt, DoublePt;
    if n > 0 {
      var h := n / 2;
      MultipleIsSum(a, b, h, p);
      AddNothing(a, Sum(a, h, p));
      SumAdd(a, b, h, h, p);
    }
  }

  // ---------------------------------------------------------------- differences

  /** Adding back what was subtracted. */
  lemma SubUndone(a: Elem, b: Elem, p: Pt, q: Pt)
    requires Irreducible() && OnCurve(a, b, p) && OnCurve(a, b, q) && Associative(a, b)
    ensures OnCurve(a, b, NegPt(q)) && AddPt(a, AddPt(a, p, NegPt(q)), q) == p
  {
    hide Irreducible, AddPt, Associative;
    if q.At? { NegOnCurve(a, b, q.x, q.y); }
    Associate(a, b, p, NegPt(q), q);
    NegSum(a, q);
    AddNothing(a, p);
  }
}
