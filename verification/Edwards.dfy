/** The Edwards curve x^2 + y^2 = 1 + d x^2 y^2 over the integers modulo p: the affine
    addition law, its completeness for non-square d, and multiples of a point. */
module Edwards {
  import opened PrimeField

  datatype Curve = Curve(p: int, d: int)

  /** An affine point; coordinates are residues. */
  datatype Aff = Aff(x: int, y: int)

  ghost predicate RootOf(r: int, d: int, p: int)
    requires p > 0
  {
    Eq(r * r, d, p)
  }

  /** What the formulas need of the parameters: p an odd prime and d no square. */
  ghost predicate Sound(c: Curve) {
    IsPrime(c.p) && c.p > 2 && forall r :: !RootOf(r, c.d, c.p)
  }

  ghost predicate CurveEq(c: Curve, x: int, y: int)
    requires c.p > 0
  {
    Eq(x * x + y * y, 1 + c.d * (x * x * (y * y)), c.p)
  }

  ghost predicate On(c: Curve, a: Aff)
    requires c.p > 0
  {
    0 <= a.x < c.p && 0 <= a.y < c.p && CurveEq(c, a.x, a.y)
  }

  function Cross(c: Curve, x1: int, y1: int, x2: int, y2: int): int {
    c.d * ((x1 * x2) * (y1 * y2))
  }

  /** d is a square when (u r)^2 = d v^2 with v invertible. */
  lemma SquareRatio(c: Curve, u: int, v: int)
    requires Sound(c) && Eq(u * u, c.d * (v * v), c.p)
    ensures Eq(v, 0, c.p)
  {
    var p := c.p;
    if !Eq(v, 0, p) {
      var w := Pow(v, p - 2);
      InverseByPower(v, p);
      EqMul(v * w, 1, v * w, 1, p);
      EqScale(w * w, u * u, c.d * (v * v), p);
      EqScale(c.d, (v * w) * (v * w), 1, p);
      Regroup(w, u, c.d, v);
      EqTrans((u * w) * (u * w), c.d * ((v * w) * (v * w)), c.d, p);
      assert RootOf(u * w, c.d, p);
    }
  }

  lemma Regroup(w: int, u: int, d: int, v: int)
    ensures w * w * (u * u) == (u * w) * (u * w)
    ensures w * w * (d * (v * v)) == d * ((v * w) * (v * w))
  {
    assert w * w * (d * (v * v)) == d * (w * w * (v * v));
  }

  /** Completeness: the denominators 1 + k and 1 - k of the addition law never vanish. */
  lemma Complete(c: Curve, x1: int, y1: int, x2: int, y2: int, e: int)
    requires Sound(c) && CurveEq(c, x1, y1) && CurveEq(c, x2, y2)
    requires e == 1 || e == -1
    ensures !Eq(Cross(c, x1, y1, x2, y2), e, c.p)
  {
    if Eq(Cross(c, x1, y1, x2, y2), e, c.p) {
      hide *;
      CompleteBranch(c, x1, y1, x2, y2, e, 1);
      CompleteBranch(c, x1, y1, x2, y2, e, -1);
      CrossZero(c, x1, y1, x2, y2);
      CrossUnit(Cross(c, x1, y1, x2, y2), e, c.p);
    }
  }

  /** With k = e, (x1 + s e y1)^2 = d (x1 y1 (x2 + s y2))^2, so x1 y1 (x2 + s y2) = 0. */
  lemma CompleteBranch(c: Curve, x1: int, y1: int, x2: int, y2: int, e: int, s: int)
    requires Sound(c) && CurveEq(c, x1, y1) && CurveEq(c, x2, y2)
    requires (e == 1 || e == -1) && (s == 1 || s == -1)
    requires Eq(Cross(c, x1, y1, x2, y2), e, c.p)
    ensures Eq(x1 * y1 * (x2 + s * y2), 0, c.p)
  {
    var m := x1 * y1;
    var v := m * (x2 + s * y2);
    CurveScaled(c, x1, y1, x2, y2, e);
    CrossScaled(c, x1, y1, x2, y2, e, s);
    BranchSum(c.d * (m * m) * (x2 * x2 + y2 * y2), c.d * (m * m) * (2 * s * (x2 * y2)),
              x1 * x1 + y1 * y1, 2 * s * (x1 * y1) * e, c.p);
    SquareL(c.d, m, x2, y2, s);
    SquareR(x1, y1, s, e);
    SquareRatio(c, x1 + s * e * y1, v);
  }

  lemma BranchSum(n: int, l: int, r: int, t: int, p: int)
    requires p > 0 && Eq(n, r, p) && Eq(l, t, p)
    ensures Eq(r + t, n + l, p)
  {
    EqAdd(n, r, l, t, p);
    EqSym(n + l, r + t, p);
  }

  /** d m^2 (x2^2 + y2^2) = d m^2 + k^2 = d m^2 + 1 = x1^2 + y1^2, where m = x1 y1. */
  lemma CurveScaled(c: Curve, x1: int, y1: int, x2: int, y2: int, e: int)
    requires c.p > 0 && CurveEq(c, x1, y1) && CurveEq(c, x2, y2)
    requires e == 1 || e == -1
    requires Eq(Cross(c, x1, y1, x2, y2), e, c.p)
    ensures Eq(c.d * ((x1 * y1) * (x1 * y1)) * (x2 * x2 + y2 * y2), x1 * x1 + y1 * y1, c.p)
  {
    hide Eq;
    var p, k := c.p, Cross(c, x1, y1, x2, y2);
    var q := c.d * ((x1 * y1) * (x1 * y1));
    EqScale(q, x2 * x2 + y2 * y2, 1 + c.d * (x2 * x2 * (y2 * y2)), p);
    CrossSquare(c.d, x1, y1, x2, y2);
    EqMul(k, e, k, e, p);
    assert x1 * x1 * (y1 * y1) == (x1 * y1) * (x1 * y1);
    CurveScaledSum(q * (x2 * x2 + y2 * y2), q, k * k, x1 * x1 + y1 * y1, p);
  }

  lemma CurveScaledSum(n: int, q: int, k2: int, r: int, p: int)
    requires p > 0 && Eq(n, q + k2, p) && Eq(k2, 1, p) && Eq(r, 1 + q, p)
    ensures Eq(n, r, p)
  {
    EqRefl(q, p);
    EqAdd(q, q, k2, 1, p);
    EqTrans(n, q + k2, q + 1, p);
    EqSym(r, 1 + q, p);
    EqTrans(n, q + 1, r, p);
  }

  lemma CrossScaled(c: Curve, x1: int, y1: int, x2: int, y2: int, e: int, s: int)
    requires c.p > 0 && Eq(Cross(c, x1, y1, x2, y2), e, c.p)
    ensures Eq(c.d * ((x1 * y1) * (x1 * y1)) * (2 * s * (x2 * y2)), 2 * s * (x1 * y1) * e, c.p)
  {
    EqScale(2 * s * (x1 * y1), Cross(c, x1, y1, x2, y2), e, c.p);
    CrossLinear(c.d, x1, y1, x2, y2, s);
  }

  /** x1 y1 (x2 + y2) = x1 y1 (x2 - y2) = 0 makes k vanish. */
  lemma CrossZero(c: Curve, x1: int, y1: int, x2: int, y2: int)
    requires Sound(c)
    requires Eq(x1 * y1 * (x2 + 1 * y2), 0, c.p) && Eq(x1 * y1 * (x2 + -1 * y2), 0, c.p)
    ensures Eq(Cross(c, x1, y1, x2, y2), 0, c.p)
  {
    hide Eq;
    var p, s := c.p, x1 * y1;
    EqAdd(s * (x2 + 1 * y2), 0, s * (x2 + -1 * y2), 0, p);
    assert s * (x2 + 1 * y2) + s * (x2 + -1 * y2) == 2 * (s * x2);
    EuclidLemma(2, s * x2, p);
    if Eq(2, 0, p) { EqResidue(2, 0, p); }
    EqScale(c.d * y2, s * x2, 0, p);
    CrossFactor(c.d, x1, y1, x2, y2);
  }

  lemma CrossFactor(d: int, x1: int, y1: int, x2: int, y2: int)
    ensures d * y2 * (x1 * y1 * x2) == d * ((x1 * x2) * (y1 * y2))
  {
    assert y2 * (x1 * y1 * x2) == (x1 * x2) * (y1 * y2);
  }

  lemma CrossUnit(k: int, e: int, p: int)
    requires p > 1 && Eq(k, 0, p) && (e == 1 || e == -1)
    ensures !Eq(k, e, p)
  {
    if Eq(k, e, p) {
      EqSym(k, e, p);
      EqTrans(e, k, 0, p);
      EqScale(e, e, 0, p);
      EqResidue(1, 0, p);
    }
  }

  lemma CrossSquare(d: int, x1: int, y1: int, x2: int, y2: int)
    ensures d * ((x1 * y1) * (x1 * y1)) * (1 + d * (x2 * x2 * (y2 * y2)))
         == d * ((x1 * y1) * (x1 * y1)) + (d * ((x1 * x2) * (y1 * y2))) * (d * ((x1 * x2) * (y1 * y2)))
  {
    var m, n := x1 * y1, x2 * y2;
    assert (x1 * x2) * (y1 * y2) == m * n;
    assert x2 * x2 * (y2 * y2) == n * n;
    assert (d * (m * n)) * (d * (m * n)) == d * (m * m) * (d * (n * n));
  }

  lemma CrossLinear(d: int, x1: int, y1: int, x2: int, y2: int, s: int)
    ensures d * ((x1 * y1) * (x1 * y1)) * (2 * s * (x2 * y2)) == 2 * s * (x1 * y1) * (d * ((x1 * x2) * (y1 * y2)))
  {
    var m, n := x1 * y1, x2 * y2;
    assert (x1 * x2) * (y1 * y2) == m * n;
    assert d * (m * m) * (2 * s * n) == 2 * s * m * (d * (m * n));
  }

  lemma SquareL(d: int, m: int, x2: int, y2: int, s: int)
    requires s * s == 1
    ensures d * ((m * (x2 + s * y2)) * (m * (x2 + s * y2)))
         == d * (m * m) * (x2 * x2 + y2 * y2) + d * (m * m) * (2 * s * (x2 * y2))
  {
    var t := x2 + s * y2;
    assert t * t == x2 * x2 + y2 * y2 + 2 * s * (x2 * y2);
    assert (m * t) * (m * t) == (m * m) * (t * t);
    assert d * ((m * m) * (t * t)) == d * (m * m) * (t * t);
  }

  lemma SquareR(x: int, y: int, s: int, e: int)
    requires s * s == 1 && e * e == 1
    ensures (x + s * e * y) * (x + s * e * y) == x * x + y * y + 2 * s * (x * y) * e
  {
    var t := s * e;
    assert t * t == 1;
    assert (x + t * y) * (x + t * y) == x * x + t * t * (y * y) + 2 * t * (x * y);
  }

  // ---------------------------------------------------------------- the affine law

  ghost function Inv(a: int, p: int): int
    requires p >= 2
  {
    Pow(a, p - 2)
  }

  /** (x1 y2 + x2 y1) / (1 + k) and (y1 y2 - x1 x2) / (1 - k). */
  ghost function Add(c: Curve, a: Aff, b: Aff): Aff
    requires c.p >= 2
  {
    var k := Cross(c, a.x, a.y, b.x, b.y);
    Aff(((a.x * b.y + b.x * a.y) * Inv(1 + k, c.p)) % c.p,
        ((a.y * b.y - a.x * b.x) * Inv(1 - k, c.p)) % c.p)
  }

  ghost predicate Quotient(q: int, num: int, den: int, p: int)
    requires p > 0
  {
    !Eq(den, 0, p) && Eq(q * den, num, p)
  }

  lemma Divide(num: int, den: int, p: int)
    requires IsPrime(p) && !Eq(den, 0, p)
    ensures Quotient((num * Inv(den, p)) % p, num, den, p)
  {
    hide Pow;
    var i := Inv(den, p);
    InverseByPower(den, p);
    EqMod(num * i, p);
    EqRefl(den, p);
    EqMul((num * i) % p, num * i, den, den, p);
    EqScale(num, den * i, 1, p);
    assert num * i * den == num * (den * i);
    EqTrans((num * i) % p * den, num * (den * i), num, p);
  }

  lemma QuotientUnique(q: int, r: int, num: int, den: int, p: int)
    requires IsPrime(p) && Quotient(q, num, den, p) && Quotient(r, num, den, p)
    ensures Eq(q, r, p)
  {
    EqSym(r * den, num, p);
    EqTrans(q * den, num, r * den, p);
    assert q * den == den * q && r * den == den * r;
    EqCancel(den, q, r, p);
  }

  /** The coordinates of a sum satisfy the two defining equations, with invertible denominators. */
  lemma AddEquations(c: Curve, a: Aff, b: Aff)
    requires Sound(c) && On(c, a) && On(c, b)
    ensures 0 <= Add(c, a, b).x < c.p && 0 <= Add(c, a, b).y < c.p
    ensures var k := Cross(c, a.x, a.y, b.x, b.y);
      && Quotient(Add(c, a, b).x, a.x * b.y + b.x * a.y, 1 + k, c.p)
      && Quotient(Add(c, a, b).y, a.y * b.y - a.x * b.x, 1 - k, c.p)
  {
    hide Eq, Cross, Quotient, CurveEq;
    var k := Cross(c, a.x, a.y, b.x, b.y);
    Denominators(c, a.x, a.y, b.x, b.y);
    Divide(a.x * b.y + b.x * a.y, 1 + k, c.p);
    Divide(a.y * b.y - a.x * b.x, 1 - k, c.p);
  }

  lemma Denominators(c: Curve, x1: int, y1: int, x2: int, y2: int)
    requires Sound(c) && CurveEq(c, x1, y1) && CurveEq(c, x2, y2)
    ensures !Eq(1 + Cross(c, x1, y1, x2, y2), 0, c.p) && !Eq(1 - Cross(c, x1, y1, x2, y2), 0, c.p)
  {
    hide Eq, Cross, CurveEq;
    var p, k := c.p, Cross(c, x1, y1, x2, y2);
    Complete(c, x1, y1, x2, y2, 1);
    Complete(c, x1, y1, x2, y2, -1);
    EqRefl(1, p);
    if Eq(1 + k, 0, p) { EqAdd(1 + k, 0, 1, 1, p); }
    if Eq(1 - k, 0, p) {
      EqAdd(1, 1, 1 - k, 0, p);
    }
  }

  /** A sum is the only residue pair that satisfies the defining equations. */
  lemma AddUnique(c: Curve, a: Aff, b: Aff, s: Aff)
    requires Sound(c) && On(c, a) && On(c, b)
    requires 0 <= s.x < c.p && 0 <= s.y < c.p
    requires var k := Cross(c, a.x, a.y, b.x, b.y);
      && Eq(s.x * (1 + k), a.x * b.y + b.x * a.y, c.p)
      && Eq(s.y * (1 - k), a.y * b.y - a.x * b.x, c.p)
    ensures s == Add(c, a, b)
  {
    hide Eq, Cross, CurveEq, Add;
    var k := Cross(c, a.x, a.y, b.x, b.y);
    AddEquations(c, a, b);
    QuotientUnique(s.x, Add(c, a, b).x, a.x * b.y + b.x * a.y, 1 + k, c.p);
    QuotientUnique(s.y, Add(c, a, b).y, a.y * b.y - a.x * b.x, 1 - k, c.p);
    EqResidue(s.x, Add(c, a, b).x, c.p);
    EqResidue(s.y, Add(c, a, b).y, c.p);
  }

  /** The sum and the two fractions, denominators cleared. */
  lemma SumIff(c: Curve, a: Aff, b: Aff, s: Aff)
    requires Sound(c) && On(c, a) && On(c, b)
    ensures s == Add(c, a, b) <==>
      var k := c.d * ((a.x * b.x) * (a.y * b.y));
      && 0 <= s.x < c.p && 0 <= s.y < c.p
      && Eq(s.x * (1 + k), a.x * b.y + b.x * a.y, c.p) && Eq(s.y * (1 - k), a.y * b.y - a.x * b.x, c.p)
  {
    hide Eq, CurveEq, Add, Sound;
    var k := c.d * ((a.x * b.x) * (a.y * b.y));
    AddEquations(c, a, b);
    if 0 <= s.x < c.p && 0 <= s.y < c.p && Eq(s.x * (1 + k), a.x * b.y + b.x * a.y, c.p)
      && Eq(s.y * (1 - k), a.y * b.y - a.x * b.x, c.p) {
      AddUnique(c, a, b, s);
    }
  }

  // ---------------------------------------------------------------- closure

  /** What is left of the curve equation of a sum once denominators are cleared, in terms of
      s = x^2 + y^2 and u = d x^2 y^2 of either operand. */
  function Residual(s1: int, s2: int, u: int, v: int): int {
    s1 * s2 * (1 + u * v) - (1 - u * v) * (1 - u * v) - (u * (s2 * s2) + v * (s1 * s1))
  }

  /** (n1/(1+k))^2 + (n2/(1-k))^2 - 1 - d (n1/(1+k))^2 (n2/(1-k))^2, times the denominators. */
  function Cleared(q1: int, q2: int, k: int, dqq: int): int {
    q1 * ((1 - k) * (1 - k)) + q2 * ((1 + k) * (1 + k)) - (1 + k) * (1 + k) * ((1 - k) * (1 - k)) - dqq
  }

  lemma ClosureIdentity(d: int, x1: int, y1: int, x2: int, y2: int)
    ensures var k, n1, n2 := d * ((x1 * x2) * (y1 * y2)), x1 * y2 + x2 * y1, y1 * y2 - x1 * x2;
      Cleared(n1 * n1, n2 * n2, k, d * (n1 * n1 * (n2 * n2)))
      == Residual(x1 * x1 + y1 * y1, x2 * x2 + y2 * y2, d * (x1 * x1 * (y1 * y1)), d * (x2 * x2 * (y2 * y2)))
  {
    hide *;
    var m, n, f, g := x1 * y1, x2 * y2, y1 * y1 - x1 * x1, y2 * y2 - x2 * x2;
    var n1, n2 := x1 * y2 + x2 * y1, y1 * y2 - x1 * x2;
    SumSquares(x1, y1, x2, y2);
    Numerators(x1, y1, x2, y2);
    NumeratorProduct(n1, n2, m, n, f, g);
    MonomialForms(x1, y1, x2, y2);
    SquareGap(x1, y1);
    SquareGap(x2, y2);
    ClosureCollect(d, m, n, f, g, x1 * x1 + y1 * y1, x2 * x2 + y2 * y2, n1 * n1, n2 * n2);
  }

  lemma MonomialForms(x1: int, y1: int, x2: int, y2: int)
    ensures (x1 * x2) * (y1 * y2) == (x1 * y1) * (x2 * y2)
    ensures x1 * x1 * (y1 * y1) == (x1 * y1) * (x1 * y1)
    ensures x2 * x2 * (y2 * y2) == (x2 * y2) * (x2 * y2)
  {
  }

  lemma SumSquares(x1: int, y1: int, x2: int, y2: int)
    ensures var n1, n2 := x1 * y2 + x2 * y1, y1 * y2 - x1 * x2;
      && n1 * n1 + n2 * n2 == (x1 * x1 + y1 * y1) * (x2 * x2 + y2 * y2)
      && n1 * n1 - n2 * n2 == 4 * ((x1 * y1) * (x2 * y2)) - (y1 * y1 - x1 * x1) * (y2 * y2 - x2 * x2)
  {
    CrossMonomials(x1, y1, x2, y2);
    CollectSquares(x1 * y2, x2 * y1, y1 * y2, x1 * x2, x1 * x1, y1 * y1, x2 * x2, y2 * y2, (x1 * y1) * (x2 * y2));
  }

  lemma CrossMonomials(x1: int, y1: int, x2: int, y2: int)
    ensures (x1 * y2) * (x1 * y2) == (x1 * x1) * (y2 * y2) && (x2 * y1) * (x2 * y1) == (x2 * x2) * (y1 * y1)
    ensures (y1 * y2) * (y1 * y2) == (y1 * y1) * (y2 * y2) && (x1 * x2) * (x1 * x2) == (x1 * x1) * (x2 * x2)
    ensures (x1 * y2) * (x2 * y1) == (x1 * y1) * (x2 * y2) && (y1 * y2) * (x1 * x2) == (x1 * y1) * (x2 * y2)
  {
  }

  lemma CollectSquares(p: int, q: int, r: int, s: int, a1: int, b1: int, a2: int, b2: int, w: int)
    requires p * p == a1 * b2 && q * q == a2 * b1 && r * r == b1 * b2 && s * s == a1 * a2
    requires p * q == w && r * s == w
    ensures (p + q) * (p + q) + (r - s) * (r - s) == (a1 + b1) * (a2 + b2)
    ensures (p + q) * (p + q) - (r - s) * (r - s) == 4 * w - (b1 - a1) * (b2 - a2)
  {
    assert (p + q) * (p + q) == p * p + q * q + 2 * (p * q);
    assert (r - s) * (r - s) == r * r + s * s - 2 * (r * s);
  }

  lemma Numerators(x1: int, y1: int, x2: int, y2: int)
    ensures (x1 * y2 + x2 * y1) * (y1 * y2 - x1 * x2)
         == (x1 * y1) * (y2 * y2 - x2 * x2) + (x2 * y2) * (y1 * y1 - x1 * x1)
  {
  }

  lemma NumeratorProduct(n1: int, n2: int, m: int, n: int, f: int, g: int)
    requires n1 * n2 == m * g + n * f
    ensures n1 * n1 * (n2 * n2) == m * m * (g * g) + n * n * (f * f) + 2 * (m * n) * (f * g)
  {
    assert n1 * n1 * (n2 * n2) == (n1 * n2) * (n1 * n2);
    assert (m * g + n * f) * (m * g + n * f) == m * m * (g * g) + n * n * (f * f) + 2 * (m * n) * (f * g);
  }

  lemma SquareGap(x: int, y: int)
    ensures (y * y - x * x) * (y * y - x * x) == (x * x + y * y) * (x * x + y * y) - 4 * ((x * y) * (x * y))
  {
  }

  lemma ClosureCollect(d: int, m: int, n: int, f: int, g: int, t1: int, t2: int, q1: int, q2: int)
    requires q1 + q2 == t1 * t2
    requires q1 - q2 == 4 * (m * n) - f * g
    requires q1 * q2 == m * m * (g * g) + n * n * (f * f) + 2 * (m * n) * (f * g)
    requires f * f == t1 * t1 - 4 * (m * m) && g * g == t2 * t2 - 4 * (n * n)
    ensures Cleared(q1, q2, d * (m * n), d * (q1 * q2)) == Residual(t1, t2, d * (m * m), d * (n * n))
  {
    hide *;
    var k, u, v := d * (m * n), d * (m * m), d * (n * n);
    CrossForms(d, m, n);
    Distribute3(d, m, n, f, g);
    ScaleGap(u, t2, n * n, g * g);
    ScaleGap(v, t1, m * m, f * f);
    ScaleGap2(k, m * n, f * g);
    ClosureSum(q1, q2, k, u, v, t1, t2, k * (m * n), k * (f * g), d * (q1 * q2));
  }

  lemma CrossForms(d: int, m: int, n: int)
    ensures var k, u, v := d * (m * n), d * (m * m), d * (n * n);
      k * k == u * v && k * (m * n) == u * (n * n) && k * (m * n) == v * (m * m)
  {
  }

  lemma Distribute3(d: int, m: int, n: int, f: int, g: int)
    ensures d * (m * m * (g * g) + n * n * (f * f) + 2 * (m * n) * (f * g))
         == d * (m * m) * (g * g) + d * (n * n) * (f * f) + 2 * (d * (m * n) * (f * g))
  {
    var gg, ff, fg, mm, nn, mn := g * g, f * f, f * g, m * m, n * n, m * n;
    DistributeAtoms(d, mm, gg, nn, ff, mn, fg);
  }

  lemma DistributeAtoms(d: int, mm: int, gg: int, nn: int, ff: int, mn: int, fg: int)
    ensures d * (mm * gg + nn * ff + 2 * mn * fg) == d * mm * gg + d * nn * ff + 2 * (d * mn * fg)
  {
  }

  lemma ScaleGap(u: int, t: int, nn: int, gg: int)
    requires gg == t * t - 4 * nn
    ensures u * gg == u * (t * t) - 4 * (u * nn)
  {
  }

  lemma ScaleGap2(k: int, mn: int, fg: int)
    ensures k * (4 * mn - fg) == 4 * (k * mn) - k * fg
  {
  }

  lemma ClosureSum(q1: int, q2: int, k: int, u: int, v: int, t1: int, t2: int, kw: int, kfg: int, dqq: int)
    requires q1 + q2 == t1 * t2 && k * k == u * v
    requires k * (q1 - q2) == 4 * kw - kfg
    requires dqq == (u * (t2 * t2) - 4 * kw) + (v * (t1 * t1) - 4 * kw) + 2 * kfg
    ensures Cleared(q1, q2, k, dqq) == Residual(t1, t2, u, v)
  {
    SpreadSquares(q1, q2, k);
    SpreadDenominators(k);
  }

  lemma SpreadDenominators(k: int)
    ensures (1 + k) * (1 + k) * ((1 - k) * (1 - k)) == (1 - k * k) * (1 - k * k)
  {
    assert (1 + k) * (1 - k) == 1 - k * k;
    assert (1 + k) * (1 + k) * ((1 - k) * (1 - k)) == ((1 + k) * (1 - k)) * ((1 + k) * (1 - k));
  }

  lemma SpreadSquares(q1: int, q2: int, k: int)
    ensures q1 * ((1 - k) * (1 - k)) + q2 * ((1 + k) * (1 + k)) == (q1 + q2) * (1 + k * k) - 2 * (k * (q1 - q2))
  {
  }

  lemma ResidualVanishes(u: int, v: int)
    ensures Residual(1 + u, 1 + v, u, v) == 0
  {
  }

  lemma ResidualForm(s1: int, s2: int, u: int, v: int)
    ensures Residual(s1, s2, u, v) ==
      (1 + u * v) * (s1 * s2) - (1 - u * v) * (1 - u * v) - (u * (s2 * s2) + v * (s1 * s1))
  {
    var w := 1 + u * v;
    assert s1 * s2 * w == w * (s1 * s2);
  }

  lemma ResidualCong(s1: int, s2: int, u: int, v: int, p: int)
    requires p > 0 && Eq(s1, 1 + u, p) && Eq(s2, 1 + v, p)
    ensures Eq(Residual(s1, s2, u, v), 0, p)
  {
    hide Eq, Residual;
    var r1, r2, w := 1 + u, 1 + v, 1 + u * v;
    ResidualForm(s1, s2, u, v);
    ResidualForm(r1, r2, u, v);
    EqMul(s1, r1, s2, r2, p);
    EqMul(s1, r1, s1, r1, p);
    EqMul(s2, r2, s2, r2, p);
    EqScale(w, s1 * s2, r1 * r2, p);
    EqScale(u, s2 * s2, r2 * r2, p);
    EqScale(v, s1 * s1, r1 * r1, p);
    EqAdd(u * (s2 * s2), u * (r2 * r2), v * (s1 * s1), v * (r1 * r1), p);
    var c := (1 - u * v) * (1 - u * v);
    EqRefl(c, p);
    EqAdd(w * (s1 * s2), w * (r1 * r2), c, c, p);
    EqAdd(w * (s1 * s2) - c, w * (r1 * r2) - c, u * (s2 * s2) + v * (s1 * s1), u * (r2 * r2) + v * (r1 * r1), p);
    ResidualVanishes(u, v);
  }

  lemma ClearedCong(x: int, n1: int, y: int, n2: int, k: int, d: int, p: int)
    requires p > 0 && Eq(x, n1, p) && Eq(y, n2, p)
    ensures Eq(Cleared(x * x, y * y, k, d * (x * x * (y * y))), Cleared(n1 * n1, n2 * n2, k, d * (n1 * n1 * (n2 * n2))),
      p)
  {
    hide Eq;
    EqMul(x, n1, x, n1, p);
    EqMul(y, n2, y, n2, p);
    EqMul(x * x, n1 * n1, y * y, n2 * n2, p);
    EqScale(d, x * x * (y * y), n1 * n1 * (n2 * n2), p);
    ClearedSum(x * x, n1 * n1, y * y, n2 * n2, k, d * (x * x * (y * y)), d * (n1 * n1 * (n2 * n2)), p);
  }

  lemma ClearedSum(q1: int, r1: int, q2: int, r2: int, k: int, a: int, b: int, p: int)
    requires p > 0 && Eq(q1, r1, p) && Eq(q2, r2, p) && Eq(a, b, p)
    ensures Eq(Cleared(q1, q2, k, a), Cleared(r1, r2, k, b), p)
  {
    hide Eq;
    var e, f, g := (1 - k) * (1 - k), (1 + k) * (1 + k), (1 + k) * (1 + k) * ((1 - k) * (1 - k));
    EqScale(e, q1, r1, p);
    EqScale(f, q2, r2, p);
    EqAdd(e * q1, e * r1, f * q2, f * r2, p);
    EqRefl(g, p);
    EqAdd(e * q1 + f * q2, e * r1 + f * r2, g, g, p);
    EqAdd(e * q1 + f * q2 - g, e * r1 + f * r2 - g, a, b, p);
  }

  lemma ClearedFactor(x: int, y: int, k: int, d: int)
    ensures Cleared((x * (1 + k)) * (x * (1 + k)), (y * (1 - k)) * (y * (1 - k)), k,
                    d * ((x * (1 + k)) * (x * (1 + k)) * ((y * (1 - k)) * (y * (1 - k)))))
         == ((1 + k) * (1 - k)) * ((1 + k) * (1 - k)) * (x * x + y * y - (1 + d * (x * x * (y * y))))
  {
    ClearedFactorAtoms(x, y, 1 + k, 1 - k, d);
  }

  lemma ClearedFactorAtoms(x: int, y: int, e: int, f: int, d: int)
    ensures (x * e) * (x * e) * (f * f) + (y * f) * (y * f) * (e * e) - e * e * (f * f)
      - d * ((x * e) * (x * e) * ((y * f) * (y * f)))
         == (e * f) * (e * f) * (x * x + y * y - (1 + d * (x * x * (y * y))))
  {
    var h, a, b, c := (e * f) * (e * f), x * x, y * y, d * (x * x * (y * y));
    assert (x * e) * (x * e) * (f * f) == h * a && (y * f) * (y * f) * (e * e) == h * b;
    assert e * e * (f * f) == h;
    assert d * ((x * e) * (x * e) * ((y * f) * (y * f))) == h * c by { QuarticForm(x, y, e, f, d); }
    assert h * a + h * b - h - h * c == h * (a + b - (1 + c));
  }

  lemma QuarticForm(x: int, y: int, e: int, f: int, d: int)
    ensures d * ((x * e) * (x * e) * ((y * f) * (y * f))) == (e * f) * (e * f) * (d * (x * x * (y * y)))
  {
    assert (x * e) * (x * e) * ((y * f) * (y * f)) == ((e * f) * (e * f)) * (x * x * (y * y));
  }

  /** The sum of two points of the curve is on the curve. */
  lemma AddOn(c: Curve, a: Aff, b: Aff)
    requires Sound(c) && On(c, a) && On(c, b)
    ensures On(c, Add(c, a, b))
  {
    hide Eq, Cross, Add, Cleared, Residual;
    var p, k, s := c.p, Cross(c, a.x, a.y, b.x, b.y), Add(c, a, b);
    AddEquations(c, a, b);
    SumOnCurve(c, a, b, s.x, s.y);
  }

  lemma SumOnCurve(c: Curve, a: Aff, b: Aff, x: int, y: int)
    requires Sound(c) && On(c, a) && On(c, b)
    requires var k := Cross(c, a.x, a.y, b.x, b.y);
      && Quotient(x, a.x * b.y + b.x * a.y, 1 + k, c.p)
      && Quotient(y, a.y * b.y - a.x * b.x, 1 - k, c.p)
    ensures CurveEq(c, x, y)
  {
    hide Eq, Cleared, Residual;
    var p, d, k := c.p, c.d, Cross(c, a.x, a.y, b.x, b.y);
    var n1, n2 := a.x * b.y + b.x * a.y, a.y * b.y - a.x * b.x;
    ClearedCong(x * (1 + k), n1, y * (1 - k), n2, k, d, p);
    ClosureIdentity(d, a.x, a.y, b.x, b.y);
    ResidualCong(a.x * a.x + a.y * a.y, b.x * b.x + b.y * b.y, d * (a.x * a.x * (a.y * a.y)),
      d * (b.x * b.x * (b.y * b.y)), p);
    ClearedFactor(x, y, k, d);
    ClosureCancel(1 + k, 1 - k, x * x + y * y, 1 + d * (x * x * (y * y)), p,
      Cleared(n1 * n1, n2 * n2, k, d * (n1 * n1 * (n2 * n2))));
  }

  lemma ClosureCancel(e: int, f: int, l: int, r: int, p: int, z: int)
    requires IsPrime(p) && !Eq(e, 0, p) && !Eq(f, 0, p)
    requires Eq((e * f) * (e * f) * (l - r), z, p) && Eq(z, 0, p)
    ensures Eq(l, r, p)
  {
    hide Eq;
    EqTrans((e * f) * (e * f) * (l - r), z, 0, p);
    NonzeroMul(e, f, p);
    NonzeroMul(e * f, e * f, p);
    EuclidLemma((e * f) * (e * f), l - r, p);
    EqRefl(r, p);
    EqAdd(l - r, 0, r, r, p);
  }
}
