/** The point operations of the Curve1174 engine, on extended projective coordinates updated
    in place. T = X Y / Z is valid only where stated; a table entry holds d T instead. */
module Points1174 {
  import opened Bits
  import opened Branchless
  import opened PrimeField
  import opened Edwards
  import opened Formulas
  import opened Multiples
  import opened Limbs1174
  import opened Field1174

  const C: Curve := Curve(P, -1174)

  /** The curve is x^2 + y^2 = 1 - 1174 x^2 y^2 over the residues modulo 2^251 - 9. */
  lemma CurveIs(x: int, y: int)
    ensures 0x7fffffffffffffffffffffffffffffffffffffffffffffffffffffffffffff7 == Pow2(251) - 9
    ensures On(C, Aff(x, y)) <==>
      && 0 <= x < 0x7fffffffffffffffffffffffffffffffffffffffffffffffffffffffffffff7
      && 0 <= y < 0x7fffffffffffffffffffffffffffffffffffffffffffffffffffffffffffff7
      && Eq(x * x + y * y, 1 - 1174 * (x * x * (y * y)),
           0x7fffffffffffffffffffffffffffffffffffffffffffffffffffffffffffff7)
  {
    Modulus();
    hide Eq, Pow2;
  }

  /** The sum (x3, y3): x3 (1 - 1174 k) = x1 y2 + x2 y1 and y3 (1 + 1174 k) = y1 y2 - x1 x2, with
      k = x1 x2 y1 y2. */
  lemma SumIs(a: Aff, b: Aff, s: Aff)
    requires Sound(C) && On(C, a) && On(C, b)
    ensures s == Add(C, a, b) <==>
      var k := (a.x * b.x) * (a.y * b.y);
      && 0 <= s.x < 0x7fffffffffffffffffffffffffffffffffffffffffffffffffffffffffffff7
      && 0 <= s.y < 0x7fffffffffffffffffffffffffffffffffffffffffffffffffffffffffffff7
      && Eq(s.x * (1 - 1174 * k), a.x * b.y + b.x * a.y,
           0x7fffffffffffffffffffffffffffffffffffffffffffffffffffffffffffff7)
      && Eq(s.y * (1 + 1174 * k), a.y * b.y - a.x * b.x,
           0x7fffffffffffffffffffffffffffffffffffffffffffffffffffffffffffff7)
  {
    hide Eq, CurveEq, Add, Sound;
    SumIff(C, a, b, s);
  }

  class ECp {
    var x: Fe
    var y: Fe
    var z: Fe
    var t: Fe

    constructor ()
    {
    }

    /** X, Y and Z are reduced and stand for the affine point a. */
    ghost predicate Is(a: Aff)
      reads this`x, this`y, this`z
    {
      && 0 <= Mag(x) <= 0x8000001000000 && 0 <= Mag(y) <= 0x8000001000000 && 0 <= Mag(z) <= 0x8000001000000
      && Rep(C, V(x), V(y), V(z), a)
    }

    /** T is reduced and valid, times s. */
    ghost predicate HasT(s: int, a: Aff)
      reads this`z, this`t
    {
      0 <= Mag(t) <= 0x8000001000000 && RepT(C, s, V(t), V(z), a)
    }

    /** Z is 1. */
    ghost predicate Unit()
      reads this`z
    {
      V(z) == 1
    }

    method Double1(ghost a: Aff)
      requires Sound(C) && On(C, a) && Is(a) && HasT(1, a) && Unit()
      modifies this
      ensures On(C, Add(C, a, a)) && Is(Add(C, a, a)) && HasT(1, Add(C, a, a))
    {
      hide V, Mag, Eq, On, Add, Product, Sum, Difference, Reduced, Rep, RepT, Tight, Sound;
      ghost var X, Y, Z := V(x), V(y), V(z);
      var a0 := Product(x, x);
      var b := Product(y, y);
      var e := Sum(t, t);
      var g := Sum(a0, b);
      var two := Fe(2, 0, 0, 0, 0);
      SmallConstant(2);
      var f := Difference(g, two);
      var h := Difference(a0, b);
      DoubleFromT(C, a, V(t));
      x := Product(e, f);
      y := Product(g, h);
      z := Product(g, g);
      ghost var q := V(z);
      z := Difference(z, g);
      z := Difference(z, g);
      t := Product(e, h);
      z := Reduced(z);
      SquareMinusTwice(q, V(g), V(z), P);
      EqRefl(2, P);
      DoubleFormulas(C, a, X, Y, Z, V(a0), V(b), 2, V(e), V(x), V(y), V(z), V(t));
    }

    method Double2(ghost a: Aff)
      requires Sound(C) && On(C, a) && Is(a)
      modifies this`x, this`y, this`z
      ensures On(C, Add(C, a, a)) && Is(Add(C, a, a))
    {
      hide V, Mag, Eq, On, Add, Product, Sum, Difference, Rep, Tight, Sound, RepT;
      ghost var X, Y, Z := V(x), V(y), V(z);
      var a0 := Product(x, x);
      var b := Product(y, y);
      var c := Product(z, z);
      ghost var c0 := V(c);
      c := Sum(c, c);
      var g := Sum(x, y);
      var e := Product(g, g);
      DoubleCross(C, a, X, Y, Z, V(a0), V(b), V(e));
      e := Difference(e, a0);
      e := Difference(e, b);
      g := Sum(a0, b);
      var f := Difference(g, c);
      var h := Difference(a0, b);
      x := Product(e, f);
      y := Product(g, h);
      z := Product(f, g);
      EqScale(2, c0, Z * Z, P);
      EqRefl(V(e) * V(h), P);
      DoubleFormulas(C, a, X, Y, Z, V(a0), V(b), V(c), V(e), V(x), V(y), V(z), V(e) * V(h));
    }

    method Double3(ghost a: Aff)
      requires Sound(C) && On(C, a) && Is(a)
      modifies this
      ensures On(C, Add(C, a, a)) && Is(Add(C, a, a)) && HasT(1, Add(C, a, a))
    {
      hide V, Mag, Eq, On, Add, Product, Sum, Difference, Rep, Tight, Sound, RepT;
      ghost var X, Y, Z := V(x), V(y), V(z);
      var a0 := Product(x, x);
      var b := Product(y, y);
      var c := Product(z, z);
      ghost var c0 := V(c);
      c := Sum(c, c);
      var g := Sum(x, y);
      var e := Product(g, g);
      DoubleCross(C, a, X, Y, Z, V(a0), V(b), V(e));
      e := Difference(e, a0);
      e := Difference(e, b);
      g := Sum(a0, b);
      var f := Difference(g, c);
      var h := Difference(a0, b);
      x := Product(e, f);
      y := Product(g, h);
      z := Product(f, g);
      t := Product(e, h);
      EqScale(2, c0, Z * Z, P);
      DoubleFormulas(C, a, X, Y, Z, V(a0), V(b), V(c), V(e), V(x), V(y), V(z), V(t));
    }

    /** Add q, whose Z is 1 and whose T is premultiplied by the curve constant. */
    method Add1(q: ECp, ghost a: Aff, ghost b: Aff)
      requires q != this && Sound(C) && On(C, a) && On(C, b)
      requires Is(a) && HasT(1, a) && q.Is(b) && q.HasT(C.d, b) && q.Unit()
      modifies this
      ensures On(C, Add(C, a, b)) && Is(Add(C, a, b)) && HasT(1, Add(C, a, b))
    {
      hide V, Mag, Eq, On, Add, Product, Sum, Difference, Rep, Tight, Sound, RepT;
      ghost var X, Y, Z, T := V(x), V(y), V(z), V(t);
      var a0 := Product(x, q.x);
      var b0 := Product(y, q.y);
      var c := Product(t, q.t);
      ghost var c0 := V(c);
      var f := Difference(z, c);
      var g := Sum(z, c);
      var h := Difference(b0, a0);
      c := Sum(x, y);
      var d := Sum(q.x, q.y);
      var e := Product(c, d);
      ghost var s := V(e);
      e := Difference(e, a0);
      e := Difference(e, b0);
      x := Product(e, f);
      y := Product(g, h);
      z := Product(f, g);
      t := Product(e, h);
      EqRefl(Z, P);
      AddFormulas(C, a, b, X, Y, Z, T, V(q.x), V(q.y), V(q.z), V(q.t),
        V(a0), V(b0), c0, Z, s, V(x), V(y), V(z), V(t));
    }

    /** Add q, with any Z; leaves T as it was. */
    method Add2(q: ECp, ghost a: Aff, ghost b: Aff)
      requires q != this && Sound(C) && On(C, a) && On(C, b)
      requires Is(a) && HasT(1, a) && q.Is(b) && q.HasT(C.d, b)
      modifies this`x, this`y, this`z
      ensures On(C, Add(C, a, b)) && Is(Add(C, a, b))
    {
      hide V, Mag, Eq, On, Add, Product, Sum, Difference, Rep, Tight, Sound, RepT;
      ghost var X, Y, Z, T := V(x), V(y), V(z), V(t);
      var a0 := Product(x, q.x);
      var b0 := Product(y, q.y);
      var c := Product(t, q.t);
      var d := Product(z, q.z);
      ghost var c0, d0 := V(c), V(d);
      var f := Difference(d, c);
      var g := Sum(d, c);
      var h := Difference(b0, a0);
      c := Sum(x, y);
      d := Sum(q.x, q.y);
      var e := Product(c, d);
      ghost var s := V(e);
      e := Difference(e, a0);
      e := Difference(e, b0);
      x := Product(e, f);
      y := Product(g, h);
      z := Product(f, g);
      EqRefl(V(e) * V(h), P);
      AddFormulas(C, a, b, X, Y, Z, T, V(q.x), V(q.y), V(q.z), V(q.t),
        V(a0), V(b0), c0, d0, s, V(x), V(y), V(z), V(e) * V(h));
    }

    /** Add q without using T of either point. */
    method AddProj(q: ECp, ghost a: Aff, ghost b: Aff)
      requires q != this && Sound(C) && On(C, a) && On(C, b)
      requires Is(a) && q.Is(b)
      modifies this
      ensures On(C, Add(C, a, b)) && Is(Add(C, a, b)) && t == Fe(0, 0, 0, 0, 0)
    {
      hide V, Mag, Eq, On, Add, Product, Sum, Difference, Scaled, Rep, Tight, Sound, RepT;
      var A := Product(q.z, z);
      var B := Product(A, A);
      var CC := Product(q.x, x);
      var D := Product(q.y, y);
      var E := Product(CC, D);
      ghost var cd := V(E);
      E := Scaled(E, -1174);
      var F := Difference(B, E);
      var G := Sum(B, E);
      var X3 := Sum(q.x, q.y);
      var Y3 := Sum(x, y);
      var Z3 := Product(X3, Y3);
      ghost var s := V(Z3);
      Y3 := Difference(Z3, CC);
      X3 := Difference(Y3, D);
      Y3 := Product(F, X3);
      ghost var fx := V(Y3);
      X3 := Product(A, Y3);
      Y3 := Difference(D, CC);
      Z3 := Product(G, Y3);
      ghost var gy := V(Z3);
      Y3 := Product(A, Z3);
      Z3 := Product(F, G);
      ProjFormulas(C, b, a, V(q.x), V(q.y), V(q.z), V(x), V(y), V(z),
        V(A), V(B), V(CC), V(D), cd, V(E), s, fx, gy, V(X3), V(Y3), V(Z3));
      AddComm(C, a, b);
      x, y, z, t := X3, Y3, Z3, Fe(0, 0, 0, 0, 0);
    }

    /** The neutral element, with T = 0 valid under any scale. */
    method Inf()
      requires Sound(C)
      modifies this
      ensures Is(O) && HasT(1, O) && HasT(C.d, O) && On(C, O)
    {
      hide V, Mag, Eq, Rep, RepT, Sound;
      x := Fe(0, 0, 0, 0, 0);
      y := Fe(1, 0, 0, 0, 0);
      z := Fe(1, 0, 0, 0, 0);
      t := Fe(0, 0, 0, 0, 0);
      SmallConstant(0);
      SmallConstant(1);
      InfRep(C);
      OnO(C);
    }

    /** The point with affine coordinates congruent to those of a. */
    method Init(px: Fe, py: Fe, ghost a: Aff)
      requires Sound(C) && 0 <= Mag(px) <= 0x8000001000000 && 0 <= Mag(py) <= 0x8000001000000
      requires Eq(V(px), a.x, P) && Eq(V(py), a.y, P)
      modifies this
      ensures Is(a) && HasT(1, a) && Unit()
    {
      hide V, Mag, Eq, Rep, RepT, Product, Sound;
      x := px;
      y := py;
      z := Fe(1, 0, 0, 0, 0);
      t := Product(px, py);
      SmallConstant(1);
      InitRep(C, a, V(x), V(y), V(t));
    }

    method Copy(q: ECp)
      modifies this
      ensures x == q.x && y == q.y && z == q.z && t == q.t
    {
      x, y, z, t := q.x, q.y, q.z, q.t;
    }

    /** this = -q. */
    method NegOf(q: ECp)
      modifies this
      ensures x == NegFe(old(q.x)) && y == old(q.y) && z == old(q.z) && t == NegFe(old(q.t))
    {
      x, y, z, t := Negated(q.x), q.y, q.z, Negated(q.t);
    }

    /** Make affine: multiply through by 1 / Z. */
    method Norm(ghost a: Aff)
      requires Sound(C) && Is(a) && 0 <= Mag(t) <= 0x8000001000000
      modifies this
      ensures Tight(x) && Tight(y) && Tight(z) && Tight(t)
      ensures Eq(V(x), a.x, P) && Eq(V(y), a.y, P) && Eq(V(z), 1, P)
      ensures old(HasT(1, a)) ==> Eq(V(t), a.x * a.y, P)
    {
      hide V, Mag, Eq, RepT, Product, Reduced, Tight, Pow;
      ghost var X, Y, Z, T := V(x), V(y), V(z), V(t);
      var w := GInv(z);
      TightMag(w);
      NormRep(C, a, X, Y, Z, T, V(w));
      x := Affine(x, w, a.x);
      y := Affine(y, w, a.y);
      z := Affine(z, w, 1);
      var r := Product(t, w);
      t := Reduced(r);
      EqTrans(V(t), V(r), T * V(w), P);
      if Eq(T * V(w), a.x * a.y, P) { EqTrans(V(t), T * V(w), a.x * a.y, P); }
    }

    // -------------------------------------------------------------- constant-time table look-up

    /** this = u when b is 1. */
    method Cmov(u: ECp, b: int)
      requires b == 0 || b == 1
      modifies this
      ensures b == 1 ==> x == old(u.x) && y == old(u.y) && z == old(u.z) && t == old(u.t)
      ensures b == 0 ==> x == old(x) && y == old(y) && z == old(z) && t == old(t)
    {
      hide BlendFe;
      BlendFeCorrect(x, u.x, b);
      BlendFeCorrect(y, u.y, b);
      BlendFeCorrect(z, u.z, b);
      BlendFeCorrect(t, u.t, b);
      x := BlendFe(x, u.x, b);
      y := BlendFe(y, u.y, b);
      z := BlendFe(z, u.z, b);
      t := BlendFe(t, u.t, b);
    }

    /** this = w[i], reading every entry. */
    method LookUp(w: array<ECp>, i: int)
      requires w.Length == 9 && 0 <= i <= 8
      requires forall k :: 0 <= k < 9 ==> w[k] != this
      modifies this
      ensures x == w[i].x && y == w[i].y && z == w[i].z && t == w[i].t
    {
      hide Equal;
      ghost var e := w[i];
      EqualCorrect(i);
      Cmov(w[0], Equal(i, 0));
      Cmov(w[1], Equal(i, 1));
      Cmov(w[2], Equal(i, 2));
      Cmov(w[3], Equal(i, 3));
      Cmov(w[4], Equal(i, 4));
      Cmov(w[5], Equal(i, 5));
      Cmov(w[6], Equal(i, 6));
      Cmov(w[7], Equal(i, 7));
      Cmov(w[8], Equal(i, 8));
    }

    /** this = sign(b) * w[|b|], without branching on b. */
    method Select(w: array<ECp>, b: int)
      requires w.Length == 9 && -8 <= b <= 8
      requires forall k :: 0 <= k < 9 ==> w[k] != this
      modifies this
      ensures var e, s := w[Abs(b)], b < 0;
        && x == (if s then NegFe(e.x) else e.x) && y == e.y && z == e.z && t == (if s then NegFe(e.t) else e.t)
    {
      hide NegFe, Xor, Asr31;
      var m := Asr31(b);
      var babs := Xor(b, m) - m;
      AbsBySign(b);
      LookUp(w, babs);
      var mt := new ECp();
      mt.NegOf(this);
      Cmov(mt, m % 2);
    }

    // -------------------------------------------------------------- one window

    /** Four doublings and one addition: 16 a + b. */
    method Window(q: ECp, ghost a: Aff, ghost b: Aff)
      requires q != this && Sound(C) && On(C, a) && On(C, b)
      requires Is(a) && q.Is(b) && q.HasT(C.d, b)
      modifies this
      ensures On(C, Sixteenth(a, b)) && Is(Sixteenth(a, b))
    {
      hide On, Add, Sound, Eq, Rep, RepT, V, Mag;
      ghost var a2 := Add(C, a, a);
      ghost var a4 := Add(C, a2, a2);
      ghost var a8 := Add(C, a4, a4);
      Double2(a);
      Double2(a2);
      Double2(a4);
      Double3(a8);
      Add2(q, Add(C, a8, a8), b);
    }
  }

  ghost function Sixteenth(a: Aff, b: Aff): Aff {
    var a2 := Add(C, a, a);
    var a4 := Add(C, a2, a2);
    var a8 := Add(C, a4, a4);
    Add(C, Add(C, a8, a8), b)
  }

  /** x / Z for a coordinate. */
  method Affine(v: Fe, w: Fe, ghost r: int) returns (u: Fe)
    requires 0 <= Mag(v) <= 0x8000001000000 && 0 <= Mag(w) <= 0x8000001000000
    requires Eq(V(v) * V(w), r, P)
    ensures Tight(u) && Eq(V(u), r, P)
  {
    hide V, Mag, Eq, Tight;
    var q := Product(v, w);
    u := Reduced(q);
    EqTrans(V(u), V(q), V(v) * V(w), P);
    EqTrans(V(u), V(v) * V(w), r, P);
  }

  function BlendFe(f: Fe, g: Fe, ib: int): Fe {
    Fe(Xor(f.a0, And(Xor(f.a0, g.a0), -ib)), Xor(f.a1, And(Xor(f.a1, g.a1), -ib)), Xor(f.a2, And(Xor(f.a2, g.a2), -ib)),
       Xor(f.a3, And(Xor(f.a3, g.a3), -ib)), Xor(f.a4, And(Xor(f.a4, g.a4), -ib)))
  }

  lemma BlendFeCorrect(f: Fe, g: Fe, ib: int)
    requires ib == 0 || ib == 1
    ensures BlendFe(f, g, ib) == if ib == 1 then g else f
  {
    hide Xor, And;
    Blend(f.a0, g.a0, -ib);
    Blend(f.a1, g.a1, -ib);
    Blend(f.a2, g.a2, -ib);
    Blend(f.a3, g.a3, -ib);
    Blend(f.a4, g.a4, -ib);
  }

  lemma SmallConstant(n: int)
    requires 0 <= n <= 2
    ensures V(Fe(n, 0, 0, 0, 0)) == n && Mag(Fe(n, 0, 0, 0, 0)) == n
  {
  }
}
