/** The point operations of the Ed3363 engine, on extended projective coordinates updated
    in place. T = X Y / Z is valid only where stated; a table entry holds d T instead. */
module Points3363 {
  import opened Bits
  import opened Branchless
  import opened PrimeField
  import opened Edwards
  import opened Formulas
  import opened Multiples
  import opened Limbs3363
  import opened Field3363

  const C: Curve := Curve(Q, 11111)

  /** The curve is x^2 + y^2 = 1 + 11111 x^2 y^2 over the residues modulo 2^336 - 3. */
  lemma CurveIs(x: int, y: int)
    ensures 0xfffffffffffffffffffffffffffffffffffffffffffffffffffffffffffffffffffffffffffffffffffd == Pow2(336) - 3
    ensures On(C, Aff(x, y)) <==>
      && 0 <= x < 0xfffffffffffffffffffffffffffffffffffffffffffffffffffffffffffffffffffffffffffffffffffd
      && 0 <= y < 0xfffffffffffffffffffffffffffffffffffffffffffffffffffffffffffffffffffffffffffffffffffd
      && Eq(x * x + y * y, 1 + 11111 * (x * x * (y * y)),
           0xfffffffffffffffffffffffffffffffffffffffffffffffffffffffffffffffffffffffffffffffffffd)
  {
    Pow2Of336();
    hide Eq, Pow2;
  }

  /** The sum (x3, y3): x3 (1 + 11111 k) = x1 y2 + x2 y1 and y3 (1 - 11111 k) = y1 y2 - x1 x2, with
      k = x1 x2 y1 y2. */
  lemma SumIs(a: Aff, b: Aff, s: Aff)
    requires Sound(C) && On(C, a) && On(C, b)
    ensures s == Add(C, a, b) <==>
      var k := (a.x * b.x) * (a.y * b.y);
      && 0 <= s.x < 0xfffffffffffffffffffffffffffffffffffffffffffffffffffffffffffffffffffffffffffffffffffd
      && 0 <= s.y < 0xfffffffffffffffffffffffffffffffffffffffffffffffffffffffffffffffffffffffffffffffffffd
      && Eq(s.x * (1 + 11111 * k), a.x * b.y + b.x * a.y,
           0xfffffffffffffffffffffffffffffffffffffffffffffffffffffffffffffffffffffffffffffffffffd)
      && Eq(s.y * (1 - 11111 * k), a.y * b.y - a.x * b.x,
           0xfffffffffffffffffffffffffffffffffffffffffffffffffffffffffffffffffffffffffffffffffffd)
  {
    hide Eq, CurveEq, Add, Sound;
    SumIff(C, a, b, s);
  }

  class ECp {
    var x: Fe6
    var y: Fe6
    var z: Fe6
    var t: Fe6

    constructor ()
    {
    }

    /** X, Y and Z are reduced and stand for the affine point a. */
    ghost predicate Is(a: Aff)
      reads this`x, this`y, this`z
    {
      && 0 <= Mag6(x) <= 0x100000000100000 && 0 <= Mag6(y) <= 0x100000000100000 && 0 <= Mag6(z) <= 0x100000000100000
      && Rep(C, V6(x), V6(y), V6(z), a)
    }

    /** The coordinates are as a reduction leaves them. */
    ghost predicate Settled()
      reads this`x, this`y, this`z
    {
      Tight6(x) && Tight6(y) && Tight6(z)
    }

    /** T is reduced and valid, times s. */
    ghost predicate HasT(s: int, a: Aff)
      reads this`z, this`t
    {
      0 <= Mag6(t) <= 0x100000000100000 && RepT(C, s, V6(t), V6(z), a)
    }

    /** Z is 1. */
    ghost predicate Unit()
      reads this`z
    {
      V6(z) == 1
    }

    method Double1(ghost a: Aff)
      requires Sound(C) && On(C, a) && Is(a) && HasT(1, a) && Unit()
      modifies this
      ensures On(C, Add(C, a, a)) && Is(Add(C, a, a)) && HasT(1, Add(C, a, a))
    {
      hide V6, Mag6, Eq, On, Add, Product6, Sum6, Difference6, Reduced6, Rep, RepT, Tight6, Sound;
      ghost var X, Y, Z := V6(x), V6(y), V6(z);
      var a0 := Product6(x, x);
      var b := Product6(y, y);
      var e := Sum6(t, t);
      var g := Sum6(a0, b);
      var two := Fe6(2, 0, 0, 0, 0, 0);
      SmallConstant(2);
      var f := Difference6(g, two);
      var h := Difference6(a0, b);
      DoubleFromT(C, a, V6(t));
      x := Product6(e, f);
      y := Product6(g, h);
      z := Product6(g, g);
      ghost var q := V6(z);
      z := Difference6(z, g);
      z := Difference6(z, g);
      t := Product6(e, h);
      z := Reduced6(z);
      SquareMinusTwice(q, V6(g), V6(z), Q);
      EqRefl(2, Q);
      DoubleFormulas(C, a, X, Y, Z, V6(a0), V6(b), 2, V6(e), V6(x), V6(y), V6(z), V6(t));
    }

    method Double2(ghost a: Aff)
      requires Sound(C) && On(C, a) && Is(a)
      modifies this`x, this`y, this`z
      ensures On(C, Add(C, a, a)) && Is(Add(C, a, a))
    {
      hide V6, Mag6, Eq, On, Add, Product6, Sum6, Difference6, Rep, Tight6, Sound, RepT;
      ghost var X, Y, Z := V6(x), V6(y), V6(z);
      var a0 := Product6(x, x);
      var b := Product6(y, y);
      var c := Product6(z, z);
      ghost var c0 := V6(c);
      c := Sum6(c, c);
      var g := Sum6(x, y);
      var e := Product6(g, g);
      DoubleCross(C, a, X, Y, Z, V6(a0), V6(b), V6(e));
      e := Difference6(e, a0);
      e := Difference6(e, b);
      g := Sum6(a0, b);
      var f := Difference6(g, c);
      var h := Difference6(a0, b);
      x := Product6(e, f);
      y := Product6(g, h);
      z := Product6(f, g);
      EqScale(2, c0, Z * Z, Q);
      EqRefl(V6(e) * V6(h), Q);
      DoubleFormulas(C, a, X, Y, Z, V6(a0), V6(b), V6(c), V6(e), V6(x), V6(y), V6(z), V6(e) * V6(h));
    }

    method Double3(ghost a: Aff)
      requires Sound(C) && On(C, a) && Is(a)
      modifies this
      ensures On(C, Add(C, a, a)) && Is(Add(C, a, a)) && HasT(1, Add(C, a, a))
    {
      hide V6, Mag6, Eq, On, Add, Product6, Sum6, Difference6, Rep, Tight6, Sound, RepT;
      ghost var X, Y, Z := V6(x), V6(y), V6(z);
      var a0 := Product6(x, x);
      var b := Product6(y, y);
      var c := Product6(z, z);
      ghost var c0 := V6(c);
      c := Sum6(c, c);
      var g := Sum6(x, y);
      var e := Product6(g, g);
      DoubleCross(C, a, X, Y, Z, V6(a0), V6(b), V6(e));
      e := Difference6(e, a0);
      e := Difference6(e, b);
      g := Sum6(a0, b);
      var f := Difference6(g, c);
      var h := Difference6(a0, b);
      x := Product6(e, f);
      y := Product6(g, h);
      z := Product6(f, g);
      t := Product6(e, h);
      EqScale(2, c0, Z * Z, Q);
      DoubleFormulas(C, a, X, Y, Z, V6(a0), V6(b), V6(c), V6(e), V6(x), V6(y), V6(z), V6(t));
    }

    /** Add q, whose Z is 1 and whose T is premultiplied by the curve constant. */
    method Add1(q: ECp, ghost a: Aff, ghost b: Aff)
      requires q != this && Sound(C) && On(C, a) && On(C, b)
      requires Is(a) && HasT(1, a) && q.Is(b) && q.HasT(C.d, b) && q.Unit()
      modifies this
      ensures On(C, Add(C, a, b)) && Is(Add(C, a, b)) && HasT(1, Add(C, a, b))
    {
      hide V6, Mag6, Eq, On, Add, Product6, Sum6, Difference6, Rep, Tight6, Sound, RepT;
      ghost var X, Y, Z, T := V6(x), V6(y), V6(z), V6(t);
      var a0 := Product6(x, q.x);
      var b0 := Product6(y, q.y);
      var c := Product6(t, q.t);
      ghost var c0 := V6(c);
      var f := Difference6(z, c);
      var g := Sum6(z, c);
      var h := Difference6(b0, a0);
      c := Sum6(x, y);
      var d := Sum6(q.x, q.y);
      var e := Product6(c, d);
      ghost var s := V6(e);
      e := Difference6(e, a0);
      e := Difference6(e, b0);
      x := Product6(e, f);
      y := Product6(g, h);
      z := Product6(f, g);
      t := Product6(e, h);
      EqRefl(Z, Q);
      AddFormulas(C, a, b, X, Y, Z, T, V6(q.x), V6(q.y), V6(q.z), V6(q.t),
        V6(a0), V6(b0), c0, Z, s, V6(x), V6(y), V6(z), V6(t));
    }

    /** Add q, with any Z; leaves T as it was. */
    method Add2(q: ECp, ghost a: Aff, ghost b: Aff)
      requires q != this && Sound(C) && On(C, a) && On(C, b)
      requires Is(a) && HasT(1, a) && q.Is(b) && q.HasT(C.d, b)
      modifies this`x, this`y, this`z
      ensures On(C, Add(C, a, b)) && Is(Add(C, a, b)) && Settled()
    {
      hide V6, Mag6, Eq, On, Add, Product6, Sum6, Difference6, Rep, Tight6, Sound, RepT;
      ghost var X, Y, Z, T := V6(x), V6(y), V6(z), V6(t);
      var a0 := Product6(x, q.x);
      var b0 := Product6(y, q.y);
      var c := Product6(t, q.t);
      var d := Product6(z, q.z);
      ghost var c0, d0 := V6(c), V6(d);
      var f := Difference6(d, c);
      var g := Sum6(d, c);
      var h := Difference6(b0, a0);
      c := Sum6(x, y);
      d := Sum6(q.x, q.y);
      var e := Product6(c, d);
      ghost var s := V6(e);
      e := Difference6(e, a0);
      e := Difference6(e, b0);
      x := Product6(e, f);
      y := Product6(g, h);
      z := Product6(f, g);
      EqRefl(V6(e) * V6(h), Q);
      AddFormulas(C, a, b, X, Y, Z, T, V6(q.x), V6(q.y), V6(q.z), V6(q.t),
        V6(a0), V6(b0), c0, d0, s, V6(x), V6(y), V6(z), V6(e) * V6(h));
    }

    /** Add q without using T of either point. */
    method AddProj(q: ECp, ghost a: Aff, ghost b: Aff)
      requires q != this && Sound(C) && On(C, a) && On(C, b)
      requires Is(a) && q.Is(b)
      modifies this
      ensures On(C, Add(C, a, b)) && Is(Add(C, a, b)) && Settled() && t == Fe6(0, 0, 0, 0, 0, 0)
    {
      hide V6, Mag6, Eq, On, Add, Product6, Sum6, Difference6, Scaled6, Rep, Tight6, Sound, RepT;
      var A := Product6(q.z, z);
      var B := Product6(A, A);
      var CC := Product6(q.x, x);
      var D := Product6(q.y, y);
      var E := Product6(CC, D);
      ghost var cd := V6(E);
      E := Scaled6(E, 11111);
      var F := Difference6(B, E);
      var G := Sum6(B, E);
      var X3 := Sum6(q.x, q.y);
      var Y3 := Sum6(x, y);
      var Z3 := Product6(X3, Y3);
      ghost var s := V6(Z3);
      Y3 := Difference6(Z3, CC);
      X3 := Difference6(Y3, D);
      Y3 := Product6(F, X3);
      ghost var fx := V6(Y3);
      X3 := Product6(A, Y3);
      Y3 := Difference6(D, CC);
      Z3 := Product6(G, Y3);
      ghost var gy := V6(Z3);
      Y3 := Product6(A, Z3);
      Z3 := Product6(F, G);
      ProjFormulas(C, b, a, V6(q.x), V6(q.y), V6(q.z), V6(x), V6(y), V6(z),
        V6(A), V6(B), V6(CC), V6(D), cd, V6(E), s, fx, gy, V6(X3), V6(Y3), V6(Z3));
      AddComm(C, a, b);
      x, y, z, t := X3, Y3, Z3, Fe6(0, 0, 0, 0, 0, 0);
    }

    /** The neutral element, with T = 0 valid under any scale. */
    method Inf()
      requires Sound(C)
      modifies this
      ensures Is(O) && HasT(1, O) && HasT(C.d, O) && On(C, O)
    {
      hide V6, Mag6, Eq, Rep, RepT, Sound;
      x := Fe6(0, 0, 0, 0, 0, 0);
      y := Fe6(1, 0, 0, 0, 0, 0);
      z := Fe6(1, 0, 0, 0, 0, 0);
      t := Fe6(0, 0, 0, 0, 0, 0);
      SmallConstant(0);
      SmallConstant(1);
      InfRep(C);
      OnO(C);
    }

    /** The point with affine coordinates congruent to those of a. */
    method Init(px: Fe6, py: Fe6, ghost a: Aff)
      requires Sound(C) && 0 <= Mag6(px) <= 0x100000000100000 && 0 <= Mag6(py) <= 0x100000000100000
      requires Eq(V6(px), a.x, Q) && Eq(V6(py), a.y, Q)
      modifies this
      ensures Is(a) && HasT(1, a) && Unit()
    {
      hide V6, Mag6, Eq, Rep, RepT, Product6, Sound;
      x := px;
      y := py;
      z := Fe6(1, 0, 0, 0, 0, 0);
      t := Product6(px, py);
      SmallConstant(1);
      InitRep(C, a, V6(x), V6(y), V6(t));
    }

    method Copy(q: ECp)
      modifies this
      ensures x == q.x && y == q.y && z == q.z && t == q.t
    {
      x, y, z, t := q.x, q.y, q.z, q.t;
    }

    /** this = -q. */
    method NegOf(q: ECp)
      modifies this
      ensures x == NegFe6(old(q.x)) && y == old(q.y) && z == old(q.z) && t == NegFe6(old(q.t))
    {
      x, y, z, t := Negated6(q.x), q.y, q.z, Negated6(q.t);
    }

    // -------------------------------------------------------------- constant-time table look-up

    /** this = u when b is 1. */
    method Cmov(u: ECp, b: int)
      requires b == 0 || b == 1
      modifies this
      ensures b == 1 ==> x == old(u.x) && y == old(u.y) && z == old(u.z) && t == old(u.t)
      ensures b == 0 ==> x == old(x) && y == old(y) && z == old(z) && t == old(t)
    {
      hide BlendFe6;
      BlendFeCorrect6(x, u.x, b);
      BlendFeCorrect6(y, u.y, b);
      BlendFeCorrect6(z, u.z, b);
      BlendFeCorrect6(t, u.t, b);
      x := BlendFe6(x, u.x, b);
      y := BlendFe6(y, u.y, b);
      z := BlendFe6(z, u.z, b);
      t := BlendFe6(t, u.t, b);
    }

    /** this = w[i], reading every entry. */
    method LookUp(w: array<ECp>, i: int)
      requires w.Length == 9 && 0 <= i <= 8
      requires forall k :: 0 <= k < 9 ==> w[k] != this
      modifies this
      ensures x == w[i].x && y == w[i].y && z == w[i].z && t == w[i].t
    {
      hide Equal;
      ghost var e := w[i];
      EqualCorrect(i);
      Cmov(w[0], Equal(i, 0));
      Cmov(w[1], Equal(i, 1));
      Cmov(w[2], Equal(i, 2));
      Cmov(w[3], Equal(i, 3));
      Cmov(w[4], Equal(i, 4));
      Cmov(w[5], Equal(i, 5));
      Cmov(w[6], Equal(i, 6));
      Cmov(w[7], Equal(i, 7));
      Cmov(w[8], Equal(i, 8));
    }

    /** this = sign(b) * w[|b|], without branching on b. */
    method Select(w: array<ECp>, b: int)
      requires w.Length == 9 && -8 <= b <= 8
      requires forall k :: 0 <= k < 9 ==> w[k] != this
      modifies this
      ensures var e, s := w[Abs(b)], b < 0;
        && x == (if s then NegFe6(e.x) else e.x) && y == e.y && z == e.z && t == (if s then NegFe6(e.t) else e.t)
    {
      hide NegFe6, Xor, Asr31;
      var m := Asr31(b);
      var babs := Xor(b, m) - m;
      AbsBySign(b);
      LookUp(w, babs);
      var mt := new ECp();
      mt.NegOf(this);
      Cmov(mt, m % 2);
    }

    // -------------------------------------------------------------- one window

    /** Four doublings and one addition: 16 a + b. */
    method Window(q: ECp, ghost a: Aff, ghost b: Aff)
      requires q != this && Sound(C) && On(C, a) && On(C, b)
      requires Is(a) && q.Is(b) && q.HasT(C.d, b)
      modifies this
      ensures On(C, Sixteenth(a, b)) && Is(Sixteenth(a, b)) && Settled()
    {
      hide On, Add, Sound, Eq, Rep, RepT, V6, Mag6;
      ghost var a2 := Add(C, a, a);
      ghost var a4 := Add(C, a2, a2);
      ghost var a8 := Add(C, a4, a4);
      Double2(a);
      Double2(a2);
      Double2(a4);
      Double3(a8);
      Add2(q, Add(C, a8, a8), b);
    }
  }

  ghost function Sixteenth(a: Aff, b: Aff): Aff {
    var a2 := Add(C, a, a);
    var a4 := Add(C, a2, a2);
    var a8 := Add(C, a4, a4);
    Add(C, Add(C, a8, a8), b)
  }

  /** x / Z for a coordinate. */
  method Affine(v: Fe6, w: Fe6, ghost r: int) returns (u: Fe6)
    requires 0 <= Mag6(v) <= 0x100000000100000 && 0 <= Mag6(w) <= 0x100000000100000
    requires Eq(V6(v) * V6(w), r, Q)
    ensures Tight6(u) && Eq(V6(u), r, Q)
  {
    hide V6, Mag6, Eq, Tight6;
    var q := Product6(v, w);
    u := Reduced6(q);
    EqTrans(V6(u), V6(q), V6(v) * V6(w), Q);
    EqTrans(V6(u), V6(v) * V6(w), r, Q);
  }

  function BlendFe6(f: Fe6, g: Fe6, ib: int): Fe6 {
    Fe6(Xor(f.a0, And(Xor(f.a0, g.a0), -ib)),
        Xor(f.a1, And(Xor(f.a1, g.a1), -ib)),
        Xor(f.a2, And(Xor(f.a2, g.a2), -ib)),
        Xor(f.a3, And(Xor(f.a3, g.a3), -ib)),
        Xor(f.a4, And(Xor(f.a4, g.a4), -ib)),
        Xor(f.a5, And(Xor(f.a5, g.a5), -ib)))
  }

  lemma BlendFeCorrect6(f: Fe6, g: Fe6, ib: int)
    requires ib == 0 || ib == 1
    ensures BlendFe6(f, g, ib) == if ib == 1 then g else f
  {
    hide Xor, And;
    Blend(f.a0, g.a0, -ib);
    Blend(f.a1, g.a1, -ib);
    Blend(f.a2, g.a2, -ib);
    Blend(f.a3, g.a3, -ib);
    Blend(f.a4, g.a4, -ib);
    Blend(f.a5, g.a5, -ib);
  }

  lemma SmallConstant(n: int)
    requires 0 <= n <= 2
    ensures V6(Fe6(n, 0, 0, 0, 0, 0)) == n && Mag6(Fe6(n, 0, 0, 0, 0, 0)) == n
  {
  }
}
