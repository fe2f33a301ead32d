/** Multiples of a point of an Edwards curve. Associativity of the addition law is a
    hypothesis of every lemma that regroups sums. */
module Multiples {
  import opened PrimeField
  import opened Edwards

  ghost predicate Associative(c: Curve)
    requires c.p >= 2
  {
    forall a, b, e {:trigger Add(c, Add(c, a, b), e)} {:trigger Add(c, a, Add(c, b, e))} ::
      On(c, a) && On(c, b) && On(c, e) ==> Add(c, Add(c, a, b), e) == Add(c, a, Add(c, b, e))
  }

  const O: Aff := Aff(0, 1)

  function Neg(c: Curve, a: Aff): Aff
    requires c.p > 0
  {
    Aff((-a.x) % c.p, a.y)
  }

  /** n times a, for n of either sign. */
  ghost function Times(c: Curve, n: int, a: Aff): Aff
    requires c.p >= 2
    decreases if n < 0 then -n else n
  {
    if n == 0 then O
    else if n > 0 then Add(c, Times(c, n - 1, a), a)
    else Add(c, Times(c, n + 1, a), Neg(c, a))
  }

  /** The multiples by 0, 1 and -1; with TimesAdd they give all others. */
  lemma TimesUnits(c: Curve, a: Aff)
    requires Sound(c) && On(c, a)
    ensures Times(c, 0, a) == Aff(0, 1) && Times(c, 1, a) == a && Times(c, -1, a) == Neg(c, a)
  {
    hide Add, On;
    NegOn(c, a);
    AddO(c, a);
    AddO(c, Neg(c, a));
    assert Times(c, 0, a) == O;
  }

  lemma AddComm(c: Curve, a: Aff, b: Aff)
    requires c.p >= 2
    ensures Add(c, a, b) == Add(c, b, a)
  {
    assert Cross(c, a.x, a.y, b.x, b.y) == Cross(c, b.x, b.y, a.x, a.y);
  }

  lemma OnO(c: Curve)
    requires c.p >= 2
    ensures On(c, O)
  {
    EqRefl(1, c.p);
  }

  lemma NegOn(c: Curve, a: Aff)
    requires c.p >= 2 && On(c, a)
    ensures On(c, Neg(c, a)) && Eq(Neg(c, a).x, -a.x, c.p)
  {
    hide Eq;
    var x, y, p := Neg(c, a).x, a.y, c.p;
    EqMod(-a.x, p);
    EqMul(x, -a.x, x, -a.x, p);
    assert (-a.x) * (-a.x) == a.x * a.x;
    EqRefl(y * y, p);
    EqMul(x * x, a.x * a.x, y * y, y * y, p);
    EqScale(c.d, x * x * (y * y), a.x * a.x * (y * y), p);
    EqRefl(1, p);
    EqAdd(1, 1, c.d * (x * x * (y * y)), c.d * (a.x * a.x * (y * y)), p);
    EqAdd(x * x, a.x * a.x, y * y, y * y, p);
    EqTrans(x * x + y * y, a.x * a.x + y * y, 1 + c.d * (a.x * a.x * (y * y)), p);
    EqSym(1 + c.d * (x * x * (y * y)), 1 + c.d * (a.x * a.x * (y * y)), p);
    EqTrans(x * x + y * y, 1 + c.d * (a.x * a.x * (y * y)), 1 + c.d * (x * x * (y * y)), p);
  }

  lemma AddO(c: Curve, a: Aff)
    requires Sound(c) && On(c, a)
    ensures Add(c, O, a) == a && Add(c, a, O) == a
  {
    hide Add;
    OnO(c);
    assert Cross(c, O.x, O.y, a.x, a.y) == 0;
    EqRefl(a.x, c.p);
    EqRefl(a.y, c.p);
    AddUnique(c, O, a, a);
    AddComm(c, O, a);
  }

  lemma AddNeg(c: Curve, a: Aff)
    requires Sound(c) && On(c, a)
    ensures Add(c, a, Neg(c, a)) == O && Add(c, Neg(c, a), a) == O
  {
    hide Eq, Add;
    var p, b := c.p, Neg(c, a);
    NegOn(c, a);
    OnO(c);
    var k := Cross(c, a.x, a.y, b.x, b.y);
    // x: a.x y + (-a.x) y = 0
    NegAbscissa(a.x, a.y, b.x, p);
    // y: 1 - k = 1 + d x^2 y^2 = x^2 + y^2 = y^2 - x (-x)
    NegNumerator(c, a, b.x, k);
    AddUnique(c, a, b, O);
    AddComm(c, a, b);
  }

  lemma NegAbscissa(x: int, y: int, n: int, p: int)
    requires p > 0 && Eq(n, -x, p)
    ensures Eq(0, x * y + n * y, p)
  {
    hide Eq;
    EqRefl(x * y, p);
    EqScale(y, n, -x, p);
    EqAdd(x * y, x * y, y * n, y * (-x), p);
    assert x * y + y * (-x) == 0;
    assert y * n == n * y;
    EqSym(x * y + n * y, 0, p);
  }

  lemma NegNumerator(c: Curve, a: Aff, x: int, k: int)
    requires c.p > 0 && On(c, a) && Eq(x, -a.x, c.p) && k == c.d * ((a.x * x) * (a.y * a.y))
    ensures Eq(1 * (1 - k), a.y * a.y - a.x * x, c.p)
  {
    hide Eq;
    var p, xx, yy := c.p, a.x * a.x, a.y * a.y;
    EqScale(a.x, x, -a.x, p);
    assert a.x * (-a.x) == -xx;
    EqScale(c.d * yy, a.x * x, -xx, p);
    assert c.d * yy * (a.x * x) == k;
    assert c.d * yy * (-xx) == -(c.d * (xx * yy));
    EqRefl(1, p);
    EqAdd(1, 1, k, -(c.d * (xx * yy)), p);
    EqSym(xx + yy, 1 + c.d * (xx * yy), p);
    EqTrans(1 - k, 1 + c.d * (xx * yy), xx + yy, p);
    EqRefl(yy, p);
    EqAdd(yy, yy, a.x * x, -xx, p);
    EqSym(yy - a.x * x, yy + xx, p);
    EqTrans(1 - k, xx + yy, yy - a.x * x, p);
  }

  lemma {:induction false} TimesOn(c: Curve, n: int, a: Aff)
    requires Sound(c) && On(c, a)
    ensures On(c, Times(c, n, a))
    decreases if n < 0 then -n else n
  {
    hide Add, On;
    OnO(c);
    NegOn(c, a);
    if n > 0 {
      TimesOn(c, n - 1, a);
      AddOn(c, Times(c, n - 1, a), a);
    } else if n < 0 {
      TimesOn(c, n + 1, a);
      AddOn(c, Times(c, n + 1, a), Neg(c, a));
    }
  }

  /** One step up, whatever the sign. */
  lemma TimesSucc(c: Curve, n: int, a: Aff)
    requires Sound(c) && Associative(c) && On(c, a)
    ensures Times(c, n + 1, a) == Add(c, Times(c, n, a), a)
  {
    hide Add, On;
    if n < 0 {
      var t := Times(c, n + 1, a);
      TimesOn(c, n + 1, a);
      NegOn(c, a);
      AddNeg(c, a);
      AddO(c, t);
      assert Times(c, n, a) == Add(c, t, Neg(c, a));
      assert Add(c, Add(c, t, Neg(c, a)), a) == Add(c, t, Add(c, Neg(c, a), a));
    }
  }

  lemma TimesPred(c: Curve, n: int, a: Aff)
    requires Sound(c) && Associative(c) && On(c, a)
    ensures Times(c, n - 1, a) == Add(c, Times(c, n, a), Neg(c, a))
  {
    hide Add, On;
    if n > 0 {
      var t := Times(c, n - 1, a);
      TimesOn(c, n - 1, a);
      NegOn(c, a);
      AddNeg(c, a);
      AddO(c, t);
      assert Times(c, n, a) == Add(c, t, a);
      assert Add(c, Add(c, t, a), Neg(c, a)) == Add(c, t, Add(c, a, Neg(c, a)));
    }
  }

  lemma {:induction false} TimesAdd(c: Curve, m: int, n: int, a: Aff)
    requires Sound(c) && Associative(c) && On(c, a)
    ensures Add(c, Times(c, m, a), Times(c, n, a)) == Times(c, m + n, a)
    decreases if n < 0 then -n else n
  {
    hide Add, On, Times;
    var s := Times(c, m, a);
    TimesOn(c, m, a);
    if n == 0 {
      AddO(c, s);
      assert Times(c, 0, a) == O by { TimesZero(c, a); }
    } else {
      var i := if n > 0 then n - 1 else n + 1;
      var b := if n > 0 then a else Neg(c, a);
      var t := Times(c, i, a);
      TimesOn(c, i, a);
      NegOn(c, a);
      TimesAdd(c, m, i, a);
      if n > 0 {
        TimesSucc(c, i, a);
        TimesSucc(c, m + i, a);
      } else {
        TimesPred(c, i, a);
        TimesPred(c, m + i, a);
      }
      assert Add(c, Add(c, s, t), b) == Add(c, s, Add(c, t, b));
    }
  }

  lemma TimesZero(c: Curve, a: Aff)
    requires c.p >= 2
    ensures Times(c, 0, a) == O
  {
  }

  lemma TimesOne(c: Curve, a: Aff)
    requires Sound(c) && On(c, a)
    ensures Times(c, 1, a) == a
  {
    AddO(c, a);
  }

  /** -(n a) = (-n) a: the negated table entry of the signed window. */
  lemma {:induction false} TimesNeg(c: Curve, n: int, a: Aff)
    requires Sound(c) && Associative(c) && On(c, a)
    ensures Neg(c, Times(c, n, a)) == Times(c, -n, a)
  {
    hide Add, On, Times, Neg;
    var s, t, u := Times(c, n, a), Times(c, -n, a), Neg(c, Times(c, n, a));
    TimesOn(c, n, a);
    TimesOn(c, -n, a);
    NegOn(c, s);
    TimesAdd(c, n, -n, a);
    TimesZero(c, a);
    AddNeg(c, s);
    AddO(c, t);
    AddO(c, u);
    // -s = -s + (s + t) = (-s + s) + t = t
    assert Add(c, Add(c, u, s), t) == Add(c, u, Add(c, s, t));
  }
}
