/** The points of eccl_le.cpp: affine and Jacobian coordinates updated in place. */
module BinaryCurve {
  import opened Bits
  import opened Gf2
  import opened Gf2Field
  import opened Gf571
  import opened BinaryLaw
  import Words
  import Gf571Words
  import WordOps
  import BinaryGroup

  /** The coefficient a of the curve. */
  function A(): Elem {
    SmallElems();
    1
  }

  /** The curve is y^2 + x y = x^3 + x^2 + b. */
  lemma CurveIs(b: Elem, x: Elem, y: Elem)
    ensures BinaryGroup.OnCurve(A(), b, At(x, y)) <==>
      Add(Mul(y, y), Mul(x, y)) == Add(Add(Mul(x, Mul(x, x)), Mul(x, x)), b)
  {
    BinaryGroup.UnitCurve(A(), b, x, y);
  }

  /** Affine coordinates; (0, 0) is the point at infinity. */
  class Affine {
    var x: Elem
    var y: Elem

    constructor ()
      ensures x == 0 && y == 0
    {
      SmallElems();
      x, y := 0, 0;
    }

    ghost function Point(): Pt
      reads this
    {
      if x == 0 && y == 0 then Inf else At(x, y)
    }

    ghost predicate Is(p: Pt)
      reads this
    {
      if p.Inf? then x == 0 && y == 0 else x == p.x && y == p.y
    }

    predicate Infinite()
      reads this
    {
      x == 0 && y == 0
    }

    method SetInfinite()
      modifies this
      ensures Is(Inf)
    {
      SmallElems();
      x, y := 0, 0;
    }

    method CopyFrom(pt: Affine)
      modifies this
      ensures x == old(pt.x) && y == old(pt.y)
    {
      x, y := pt.x, pt.y;
    }
  }

  /** ecc571_neg; dst may be pt. */
  method AffineNeg(pt: Affine, dst: Affine)
    modifies dst
    ensures dst.Point() == NegPt(old(pt.Point()))
  {
    AddLaws(pt.x, pt.y, 0);
    var y := Add(pt.x, pt.y);
    dst.x := pt.x;
    dst.y := y;
  }

  /** Doubling by the tangent; dst may be pt. */
  method AffineDouble(pt: Affine, dst: Affine)
    requires Irreducible()
    modifies dst
    ensures dst.Is(DoublePt(A(), old(pt.Point())))
  {
    hide Mul, BinaryLaw.Tangent, Irreducible, Gf571.Add, Div;
    if pt.x == 0 {
      dst.SetInfinite();
      return;
    }
    SmallElems();
    ElemCoprime(pt.x);
    var ax := Div(pt.y, pt.x);
    var tmp1 := Add(pt.x, ax);
    ghost var l := tmp1;
    assert l == Tangent(pt.x, pt.y) by { TangentForm(pt.x, pt.y); }
    ax := Mul(tmp1, tmp1);
    var tmp2 := Add(tmp1, A());
    ax := Add(ax, tmp2);
    var ay := Add(tmp1, 1);
    ay := Mul(ay, ax);
    tmp1 := Mul(pt.x, pt.x);
    ay := Add(ay, tmp1);
    AddLaws(l, A(), 0);
    DoubleOrdinate(l, ax, Sq(pt.x));
    dst.x, dst.y := ax, ay;
  }

  lemma TangentForm(x: Elem, y: Elem)
    requires Irreducible() && x != 0 && Coprime(x, F())
    ensures Add(x, Div(y, x)) == Tangent(x, y)
  {
  }

  /** (l + 1) x3 + u = (x3 + u) + l x3. */
  lemma DoubleOrdinate(l: Elem, x3: Elem, u: Elem)
    ensures Len(1) == 1 && Add(Mul(Add(l, 1), x3), u) == Add(Add(x3, u), Mul(l, x3))
  {
    MulOne(x3);
    hide Mul, Gf571.Add;
    MulAdd(x3, l, 1);
    AddLaws(Mul(l, x3), x3, u);
    AddLaws(Mul(l, x3), Add(x3, u), 0);
  }

  /** Addition by the chord, with the source's special cases; dst may be either operand. */
  method AffineAdd(pt1: Affine, pt2: Affine, dst: Affine)
    requires Irreducible()
    modifies dst
    ensures dst.Is(AddPt(A(), old(pt1.Point()), old(pt2.Point())))
  {
    hide Mul, BinaryLaw.Chord, Irreducible, Gf571.Add, Div, BinaryLaw.DoublePt;
    if pt1.Infinite() {
      dst.CopyFrom(pt2);
      return;
    }
    if pt2.Infinite() {
      dst.CopyFrom(pt1);
      return;
    }
    if pt1.x == pt2.x {
      if pt1.x == 0 || pt1.y != pt2.y {
        DoubleZero(A(), pt1.Point());
        dst.SetInfinite();
      } else {
        AffineDouble(pt1, dst);
      }
      return;
    }
    SmallElems();
    AddLaws(pt1.x, pt2.x, 0);
    SameIff(pt2.x, pt1.x);
    ElemCoprime(Add(pt2.x, pt1.x));
    var ax := Add(pt1.y, pt2.y);
    var tmp1 := Add(pt2.x, pt1.x);
    var tmp2 := Div(ax, tmp1);
    ghost var l := tmp2;
    assert l == Chord(pt1.x, pt1.y, pt2.x, pt2.y) by { ChordForm(pt1.x, pt1.y, pt2.x, pt2.y); }
    ax := Mul(tmp2, tmp2);
    ax := Add(ax, tmp2);
    var ay := Add(tmp1, A());
    ax := Add(ax, ay);
    AddLaws(tmp1, A(), 0);
    ay := Add(pt1.x, ax);
    ay := Mul(tmp2, ay);
    ay := Add(ax, ay);
    ay := Add(pt1.y, ay);
    AddOrdinate(l, ax, pt1.x, pt1.y);
    dst.x, dst.y := ax, ay;
  }

  /** ecc571_sub; dst may be either operand. */
  method AffineSub(pt1: Affine, pt2: Affine, dst: Affine)
    requires Irreducible()
    modifies dst
    ensures dst.Is(AddPt(A(), old(pt1.Point()), NegPt(old(pt2.Point()))))
  {
    hide Irreducible, BinaryLaw.AddPt, BinaryLaw.NegPt;
    var tmp := new Affine();
    AffineNeg(pt2, tmp);
    AffineAdd(pt1, tmp, dst);
  }

  lemma DoubleZero(a: Elem, p: Pt)
    requires Irreducible()
    ensures p.Inf? || p.x == 0 ==> DoublePt(a, p) == Inf
  {
  }

  lemma ChordForm(x1: Elem, y1: Elem, x2: Elem, y2: Elem)
    requires Irreducible() && x1 != x2 && Add(x2, x1) == Add(x1, x2) && Add(x2, x1) != 0 && Coprime(Add(x2, x1), F())
    ensures Div(Add(y1, y2), Add(x2, x1)) == Chord(x1, y1, x2, y2)
  {
  }

  lemma AddOrdinate(l: Elem, x3: Elem, x1: Elem, y1: Elem)
    ensures Add(y1, Add(x3, Mul(l, Add(x1, x3)))) == Add(Add(x3, y1), Mul(l, Add(x3, x1)))
  {
    hide Mul, Gf571.Add;
    AddLaws(x1, x3, 0);
    AddLaws(y1, x3, Mul(l, Add(x3, x1)));
    AddLaws(x3, y1, 0);
  }

  // ---------------------------------------------------------------- Jacobian coordinates

  class Projective {
    var x: Elem
    var y: Elem
    var z: Elem

    constructor ()
    {
      SmallElems();
      x, y, z := 0, 0, 0;
    }

    ghost predicate Is(p: Pt)
      reads this
    {
      Jac(x, y, z, p)
    }

    predicate Infinite()
      reads this
    {
      z == 0
    }

    method SetInfinite()
      modifies this
      ensures Is(Inf)
    {
      SmallElems();
      x, y, z := 1, 1, 0;
    }

    method CopyFrom(pt: Projective)
      modifies this
      ensures x == old(pt.x) && y == old(pt.y) && z == old(pt.z)
    {
      x, y, z := pt.x, pt.y, pt.z;
    }
  }

  /** The affine point scaled by a blinding value. */
  method Blind(pt: Affine, rnd: Elem, dst: Projective)
    requires rnd != 0
    modifies dst
    ensures dst.Is(At(old(pt.x), old(pt.y))) && dst.z == rnd
  {
    hide Mul;
    var tmp1 := Mul(rnd, rnd);
    var tmp2 := Mul(rnd, tmp1);
    MulComm(tmp1, pt.x);
    MulComm(tmp2, pt.y);
    tmp1 := Mul(tmp1, pt.x);
    tmp2 := Mul(tmp2, pt.y);
    dst.x, dst.y, dst.z := tmp1, tmp2, rnd;
  }

  method ToAffine(pt: Projective, dst: Affine, ghost p: Pt)
    requires Irreducible() && pt.Is(p)
    modifies dst
    ensures dst.Is(p)
  {
    hide Mul, Irreducible, Inverse;
    if pt.Infinite() {
      dst.SetInfinite();
    } else {
      ElemCoprime(pt.z);
      var tmp1 := Inverse(pt.z);
      Unscale(pt.z, tmp1, p);
      var tmp2 := Mul(tmp1, tmp1);
      MulComm(tmp2, tmp1);
      tmp1 := Mul(tmp2, tmp1);
      dst.x := Mul(pt.x, tmp2);
      dst.y := Mul(pt.y, tmp1);
    }
  }

  lemma Unscale(z: Elem, r: Elem, p: Pt)
    requires Irreducible() && z != 0 && Coprime(z, F()) && r == Inverse(z) && p.At?
    ensures Mul(Mul(p.x, Sq(z)), Sq(r)) == p.x && Mul(Mul(p.y, Cu(z)), Cu(r)) == p.y
  {
    hide Mul, Irreducible, Inverse, Coprime;
    MulInverse(z);
    SqMul(z, r);
    CuMul(z, r);
    MulOne(1);
    MulAssoc(p.x, Sq(z), Sq(r));
    MulAssoc(p.y, Cu(z), Cu(r));
    MulOne(p.x);
    MulOne(p.y);
  }

  /** The Jacobian doubling formula; dst may be pt. */
  method JacobianDouble(pt: Projective, dst: Projective, ghost p: Pt)
    requires Irreducible() && pt.Is(p)
    modifies dst
    ensures dst.Is(DoublePt(A(), p))
  {
    hide Mul, Irreducible, Gf571.Add, BinaryLaw.DoublePt, BinaryLaw.Jac, BinaryLaw.Scaled;
    DoubleZero(A(), p);
    JacForm(pt.x, pt.y, pt.z, p);
    if pt.Infinite() {
      dst.SetInfinite();
      return;
    }
    DoubleScaled(A(), pt.x, pt.y, pt.z, p);
    var az := Mul(pt.z, pt.z);
    az := Mul(pt.x, az);
    var ay := Mul(pt.y, pt.z);
    var tmp1 := Mul(pt.x, pt.x);
    var tmp2 := Add(ay, tmp1);
    ay := Mul(tmp2, tmp2);
    var ax := Mul(A(), az);
    ax := Add(ax, tmp2);
    ax := Mul(az, ax);
    ax := Add(ay, ax);
    tmp1 := Mul(pt.x, tmp1);
    tmp1 := Mul(pt.x, tmp1);
    ay := Add(ax, tmp1);
    ay := Mul(az, ay);
    tmp1 := Mul(tmp2, ax);
    ay := Add(ay, tmp1);
    dst.x, dst.y, dst.z := ax, ay, az;
  }

  lemma JacForm(x: Elem, y: Elem, z: Elem, p: Pt)
    requires Jac(x, y, z, p)
    ensures if z == 0 then p == Inf else Scaled(x, y, z, p)
  {
  }

  /** The end of the addition formula, from the differences on. */
  method JacobianChord(pt1: Projective, tmp1: Elem, tmp30: Elem, tmp4: Elem, ay0: Elem, az: Elem, dst: Projective)
    modifies dst
    ensures dst.x == Add(ay0, Add(tmp30, Add(Mul(tmp1, az), Sq(tmp1)))) && dst.z == az
    ensures dst.y == Add(Mul(tmp4, Add(Mul(old(pt1.z), dst.x), Mul(old(pt1.y), Sq(tmp4)))),
      Mul(tmp1, Add(dst.x, Mul(old(pt1.x), Sq(tmp4)))))
  {
    hide Mul, Gf571.Add;
    var ax := Mul(tmp1, az);
    var tmp2 := Mul(tmp1, tmp1);
    ax := Add(ax, tmp2);
    ax := Add(tmp30, ax);
    ax := Add(ay0, ax);
    var ay := Mul(pt1.z, ax);
    tmp2 := Mul(tmp4, tmp4);
    var tmp3 := Mul(pt1.y, tmp2);
    ay := Add(ay, tmp3);
    ay := Mul(tmp4, ay);
    tmp2 := Mul(pt1.x, tmp2);
    tmp2 := Add(ax, tmp2);
    tmp2 := Mul(tmp1, tmp2);
    ay := Add(ay, tmp2);
    dst.x, dst.y, dst.z := ax, ay, az;
  }

  /** The Jacobian addition formula with its special cases; dst may be either operand. */
  method JacobianAdd(pt1: Projective, pt2: Projective, dst: Projective, ghost p: Pt, ghost q: Pt)
    requires Irreducible() && pt1.Is(p) && pt2.Is(q)
    modifies dst
    ensures dst.Is(AddPt(A(), p, q))
  {
    hide Mul, Irreducible, A, Gf571.Add, BinaryLaw.DoublePt, BinaryLaw.AddPt, BinaryLaw.Jac, BinaryLaw.Scaled;
    JacForm(pt1.x, pt1.y, pt1.z, p);
    JacForm(pt2.x, pt2.y, pt2.z, q);
    AddCases(A(), p, q);
    if pt1.Infinite() {
      dst.CopyFrom(pt2);
      return;
    }
    if pt2.Infinite() {
      dst.CopyFrom(pt1);
      return;
    }
    AddScaled(A(), pt1.x, pt1.y, pt1.z, p, pt2.x, pt2.y, pt2.z, q);
    var tmp1 := Mul(pt2.z, pt2.z);
    var az := Mul(pt1.x, tmp1);
    var tmp2 := Mul(pt1.z, pt1.z);
    var ay := Mul(pt2.x, tmp2);
    var tmp3 := Add(az, ay);
    var tmp4 := Mul(pt2.z, tmp3);
    az := Mul(pt1.z, tmp4);
    ay := Mul(tmp3, tmp3);
    ay := Mul(tmp3, ay);
    tmp3 := Mul(az, az);
    tmp3 := Mul(A(), tmp3);
    var ax := Mul(pt2.z, tmp1);
    ax := Mul(pt1.y, ax);
    tmp1 := Mul(pt1.z, tmp2);
    tmp1 := Mul(pt2.y, tmp1);
    tmp1 := Add(ax, tmp1);
    if ay == 0 {
      if tmp1 == 0 {
        JacobianDouble(pt2, dst, q);
      } else {
        dst.SetInfinite();
      }
      return;
    }
    JacobianChord(pt1, tmp1, tmp3, tmp4, ay, az, dst);
  }

  lemma AddCases(a: Elem, p: Pt, q: Pt)
    requires Irreducible()
    ensures p.Inf? ==> AddPt(a, p, q) == q
    ensures q.Inf? ==> AddPt(a, p, q) == p
    ensures p.At? && q.At? && p.x == q.x ==> AddPt(a, p, q) == if p.y == q.y then DoublePt(a, q) else Inf
  {
  }

  // ---------------------------------------------------------------- scalar multiplication

  /** One bit of the multiplier. */
  lemma MultipleStep(a: Elem, v: nat, n: nat, p: Pt)
    requires Irreducible()
    ensures v / Pow2(n + 1) >= 0 && v / Pow2(n) >= 0
    ensures v / Pow2(n) > 0 ==>
      var d := DoublePt(a, Multiple(a, v / Pow2(n + 1), p));
      Multiple(a, v / Pow2(n), p) == if v / Pow2(n) % 2 == 1 then AddPt(a, d, p) else d
  {
    hide BinaryLaw.AddPt, BinaryLaw.DoublePt, Irreducible, Pow2;
    WordOps.NextBit(v, n);
  }

  lemma MultipleOne(a: Elem, p: Pt)
    requires Irreducible()
    ensures Multiple(a, 1, p) == p && Multiple(a, 0, p) == Inf
  {
    hide Irreducible;
    assert Multiple(a, 0, p) == Inf;
    DoubleZero(a, Inf);
    AddCases(a, Inf, p);
  }

  ghost predicate Prefix(pt: Projective, v: nat, n: nat, p: Pt)
    requires Irreducible()
    reads pt
  {
    v / Pow2(n) > 0 && pt.Is(Multiple(A(), v / Pow2(n), p))
  }

  lemma MoreBits(v: nat, n: nat)
    requires v / Pow2(n + 1) > 0
    ensures v / Pow2(n) > 0
  {
    hide Pow2;
    WordOps.NextBit(v, n);
  }

  /** The bits of one byte of n below mask = 2^k; the sum is computed for every bit
      and kept only when the bit is set. */
  method MulByte(ans: Projective, pt: Projective, tmp1: Projective, n: array<Words.word>, ix: nat, mask0: int,
                 ghost k0: nat, ghost p: Pt)
    requires Irreducible() && n.Length == 9 && ans != pt && tmp1 != pt && ans != tmp1
    requires ix < 72 && k0 <= 8 && mask0 == Pow2(k0) && pt.Is(p)
    requires Prefix(ans, WordOps.Val(n), 8 * ix + k0, p)
    modifies ans, tmp1
    ensures Prefix(ans, WordOps.Val(n), 8 * ix, p)
  {
    hide Irreducible, Pow2, Words.LE, Words.Byte, And, BinaryLaw.Jac, BinaryLaw.AddPt, BinaryLaw.DoublePt,
      BinaryLaw.Multiple;
    ghost var v, k := WordOps.Val(n), k0;
    var b := Words.Byte(n[..], ix);
    WordOps.HalfMask(k);
    var mask := mask0 / 2;
    while mask != 0
      invariant k <= 8 && mask == (if k == 0 then 0 else Pow2(k - 1)) && (mask == 0 <==> k == 0)
      invariant pt.Is(p) && Prefix(ans, v, 8 * ix + k, p)
      decreases k
    {
      ghost var q := Multiple(A(), v / Pow2(8 * ix + k), p);
      WordOps.ByteBit(n[..], ix, k - 1);
      MoreBits(v, 8 * ix + k - 1);
      MultipleStep(A(), v, 8 * ix + k - 1, p);
      JacobianDouble(ans, ans, q);
      JacobianAdd(ans, pt, if And(mask, b) != 0 then ans else tmp1, DoublePt(A(), q), p);
      WordOps.HalfMask(k - 1);
      mask, k := mask / 2, k - 1;
    }
  }

  /** Scalar multiplication in Jacobian coordinates; dst may be pt. */
  method JacobianMul(pt: Projective, n: array<Words.word>, dst: Projective, ghost p: Pt)
    requires Irreducible() && n.Length == 9 && pt.Is(p)
    modifies dst
    ensures dst.Is(Multiple(A(), WordOps.Val(n), p))
  {
    hide Irreducible, Pow2, Words.LE, BinaryLaw.Jac, BinaryLaw.Multiple;
    ghost var v := WordOps.Val(n);
    MultipleOne(A(), p);
    JacForm(pt.x, pt.y, pt.z, p);
    var none := Gf571Words.IsZero(n);
    if none {
      dst.SetInfinite();
      return;
    }
    if pt.Infinite() {
      MultipleInf(A(), v);
      dst.SetInfinite();
      return;
    }
    var ans := new Projective();
    ans.CopyFrom(pt);
    var tmp1 := new Projective();
    var ix, mask, k := Gf571Words.FirstBit(n);
    Words.WordSize();
    assert Prefix(ans, v, 8 * ix + k, p);
    MulBytes(ans, pt, tmp1, n, ix, mask, k, p);
    WordOps.WholeValue(v);
    dst.CopyFrom(ans);
  }

  /** The loop over the bytes of n, downwards from byte ix. */
  method MulBytes(ans: Projective, pt: Projective, tmp1: Projective, n: array<Words.word>, ix0: nat, mask0: int,
                  ghost k0: nat, ghost p: Pt)
    requires Irreducible() && n.Length == 9 && ans != pt && tmp1 != pt && ans != tmp1
    requires ix0 < 72 && k0 <= 8 && mask0 == Pow2(k0) && pt.Is(p)
    requires Prefix(ans, WordOps.Val(n), 8 * ix0 + k0, p)
    modifies ans, tmp1
    ensures Prefix(ans, WordOps.Val(n), 0, p)
  {
    hide Irreducible, Pow2, Words.LE, BinaryLaw.Jac, BinaryLaw.Multiple, Prefix;
    var ix: int, mask := ix0, mask0;
    ghost var v, k := WordOps.Val(n), k0;
    Words.WordSize();
    while ix >= 0
      invariant -1 <= ix < 72 && k <= 8 && (ix >= 0 ==> mask == Pow2(k)) && pt.Is(p)
      invariant Prefix(ans, v, if ix >= 0 then 8 * ix + k else 0, p)
    {
      MulByte(ans, pt, tmp1, n, ix, mask, k, p);
      ix, mask, k := ix - 1, 0x100, 8;
    }
  }

  lemma {:induction false} MultipleInf(a: Elem, n: nat)
    requires Irreducible()
    ensures Multiple(a, n, Inf) == Inf
  {
    if n > 0 { MultipleInf(a, n / 2); }
  }

  /** The multiples of (0, 0) are (0, 0) and infinity. */
  lemma {:induction false} MultipleOfNothing(a: Elem, n: nat)
    requires Irreducible()
    ensures Multiple(a, n, At(0, 0)) == Inf || Multiple(a, n, At(0, 0)) == At(0, 0)
  {
    hide Irreducible, BinaryLaw.AddPt, BinaryLaw.DoublePt;
    DoubleZero(a, Inf);
    DoubleZero(a, At(0, 0));
    AddCases(a, Inf, At(0, 0));
    if n > 0 { MultipleOfNothing(a, n / 2); }
  }

  /** The blinded multiplication: the affine result does not depend on rnd, and infinity, the
      pair (0, 0), has infinite multiples. */
  method AffineMul(pt: Affine, n: array<Words.word>, dst: Affine, rnd: Elem)
    requires Irreducible() && n.Length == 9 && rnd != 0
    modifies dst
    ensures dst.Is(Multiple(A(), WordOps.Val(n), old(pt.Point())))
  {
    hide Irreducible, Words.LE, BinaryLaw.Jac, BinaryLaw.Multiple;
    ghost var a, v := At(pt.x, pt.y), WordOps.Val(n);
    MultipleInf(A(), v);
    if a == At(0, 0) { MultipleOfNothing(A(), v); }
    var p := new Projective();
    Blind(pt, rnd, p);
    var ans := new Projective();
    JacobianMul(p, n, ans, a);
    ToAffine(ans, dst, Multiple(A(), v, a));
  }
}
