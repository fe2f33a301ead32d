/** The projective addition and doubling formulas of the source, over the integers modulo p.
    The lemmas take the values of the source's temporaries as given up to congruence. */
module Formulas {
  import opened PrimeField
  import opened Edwards

  /** (X : Y : Z) stands for the affine point a. */
  ghost predicate Rep(c: Curve, X: int, Y: int, Z: int, a: Aff)
    requires c.p > 0
  {
    !Eq(Z, 0, c.p) && Eq(X, a.x * Z, c.p) && Eq(Y, a.y * Z, c.p)
  }

  /** The extended coordinate T = X Y / Z, scaled by s (1, or d in the premultiplied table). */
  ghost predicate RepT(c: Curve, s: int, T: int, Z: int, a: Aff)
    requires c.p > 0
  {
    Eq(T, s * (a.x * a.y * Z), c.p)
  }

  lemma MulRep(r: int, a: int, A: int, b: int, B: int, p: int)
    requires p > 0 && Eq(r, a * b, p) && Eq(a, A, p) && Eq(b, B, p)
    ensures Eq(r, A * B, p)
  {
    hide Eq;
    EqMul(a, A, b, B, p);
    EqTrans(r, a * b, A * B, p);
  }

  /** e = m u, f = s m (1 - k), g = m (1 + k), h = s m w with s = 1 or -1: then
      (e f : g h : f g) is the quotient pair (u / (1 + k), w / (1 - k)) and e h its T. */
  lemma Finish(c: Curve, m: int, s: int, k: int, u: int, w: int, q: Aff,
    e: int, f: int, g: int, h: int, X: int, Y: int, Z: int, T: int)
    requires IsPrime(c.p) && !Eq(m, 0, c.p) && (s == 1 || s == -1)
    requires Quotient(q.x, u, 1 + k, c.p) && Quotient(q.y, w, 1 - k, c.p)
    requires Eq(e, m * u, c.p) && Eq(f, s * m * (1 - k), c.p) && Eq(g, m * (1 + k), c.p) && Eq(h, s * m * w, c.p)
    requires Eq(X, e * f, c.p) && Eq(Y, g * h, c.p) && Eq(Z, f * g, c.p) && Eq(T, e * h, c.p)
    ensures Rep(c, X, Y, Z, q) && RepT(c, 1, T, Z, q)
  {
    hide Eq;
    var p, n := c.p, s * m * m;
    MulRep(X, e, m * u, f, s * m * (1 - k), p);
    MulRep(Y, g, m * (1 + k), h, s * m * w, p);
    MulRep(Z, f, s * m * (1 - k), g, m * (1 + k), p);
    MulRep(T, e, m * u, h, s * m * w, p);
    FinishForms(m, s, 1 + k, 1 - k, u, w);
    NonzeroMul(m, m, p);
    NonzeroSign(s, m * m, p);
    FinishQuotients(n, 1 + k, 1 - k, u, w, q.x, q.y, X, Y, Z, T, p);
  }

  lemma FinishForms(m: int, s: int, e: int, f: int, u: int, w: int)
    ensures var n := s * m * m;
      && (m * u) * (s * m * f) == n * (u * f) && (m * e) * (s * m * w) == n * (e * w)
      && (s * m * f) * (m * e) == n * (e * f) && (m * u) * (s * m * w) == n * (u * w)
      && n == s * (m * m)
  {
  }

  lemma NonzeroSign(s: int, a: int, p: int)
    requires IsPrime(p) && !Eq(a, 0, p) && (s == 1 || s == -1)
    ensures !Eq(s * a, 0, p)
  {
    assert s * (s * a) == a;
    if Eq(s * a, 0, p) { EqScale(s, s * a, 0, p); }
  }

  lemma FinishQuotients(n: int, e: int, f: int, u: int, w: int, x: int, y: int, X: int, Y: int, Z: int, T: int, p: int)
    requires IsPrime(p) && !Eq(n, 0, p) && Quotient(x, u, e, p) && Quotient(y, w, f, p)
    requires Eq(X, n * (u * f), p) && Eq(Y, n * (e * w), p) && Eq(Z, n * (e * f), p) && Eq(T, n * (u * w), p)
    ensures !Eq(Z, 0, p) && Eq(X, x * Z, p) && Eq(Y, y * Z, p) && Eq(T, 1 * (x * y * Z), p)
  {
    hide Eq;
    NonzeroMul(e, f, p);
    NonzeroMul(n, e * f, p);
    if Eq(Z, 0, p) {
      EqSym(Z, n * (e * f), p);
      EqTrans(n * (e * f), Z, 0, p);
    }
    QuotientForms(n, e, f, u, w);
    ScaledQuotient(n * f, x, e, u, X, Z, p);
    ScaledQuotient(n * e, y, f, w, Y, Z, p);
    ScaledProduct(n, x * e, u, y * f, w, x, y, e, f, T, Z, p);
  }

  lemma QuotientForms(n: int, e: int, f: int, u: int, w: int)
    ensures n * (u * f) == n * f * u && n * (e * w) == n * e * w
    ensures n * (e * f) == n * f * e && n * (e * f) == n * e * f
  {
  }

  /** X = n u and Z = n e give X = x Z when x e = u. */
  lemma ScaledQuotient(n: int, x: int, e: int, u: int, X: int, Z: int, p: int)
    requires p > 0 && Eq(x * e, u, p) && Eq(X, n * u, p) && Eq(Z, n * e, p)
    ensures Eq(X, x * Z, p)
  {
    hide Eq;
    EqScale(n, x * e, u, p);
    EqScale(x, Z, n * e, p);
    assert n * (x * e) == x * (n * e);
    EqTrans(x * Z, x * (n * e), n * u, p);
    EqSym(x * Z, n * u, p);
    EqTrans(X, n * u, x * Z, p);
  }

  lemma ScaledProduct(n: int, xe: int, u: int, yf: int, w: int, x: int, y: int, e: int, f: int, T: int, Z: int, p: int)
    requires p > 0 && xe == x * e && yf == y * f && Eq(xe, u, p) && Eq(yf, w, p)
    requires Eq(T, n * (u * w), p) && Eq(Z, n * (e * f), p)
    ensures Eq(T, 1 * (x * y * Z), p)
  {
    hide Eq;
    EqMul(xe, u, yf, w, p);
    EqScale(n, xe * yf, u * w, p);
    EqSym(n * (xe * yf), n * (u * w), p);
    EqTrans(T, n * (u * w), n * (xe * yf), p);
    EqScale(x * y, Z, n * (e * f), p);
    QuadForm(n, x, y, e, f);
    EqSym(x * y * Z, x * y * (n * (e * f)), p);
    EqTrans(T, n * (xe * yf), x * y * Z, p);
  }

  lemma QuadForm(n: int, x: int, y: int, e: int, f: int)
    ensures n * ((x * e) * (y * f)) == x * y * (n * (e * f))
  {
  }

  // ---------------------------------------------------------------- addition

  /** The temporaries of the source's addition, for operands (X1 : Y1 : Z1) and (X2 : Y2 : Z2):
      a = X1 X2, b = Y1 Y2, d = Z1 Z2, c = T1 (d T2), s = (X1 + Y1)(X2 + Y2). */
  lemma AddFormulas(cv: Curve, A: Aff, B: Aff, X1: int, Y1: int, Z1: int, T1: int, X2: int, Y2: int, Z2: int, T2: int,
    a: int, b: int, c: int, d: int, s: int, X: int, Y: int, Z: int, T: int)
    requires Sound(cv) && On(cv, A) && On(cv, B)
    requires Rep(cv, X1, Y1, Z1, A) && Rep(cv, X2, Y2, Z2, B)
    requires RepT(cv, 1, T1, Z1, A) && RepT(cv, cv.d, T2, Z2, B)
    requires Eq(a, X1 * X2, cv.p) && Eq(b, Y1 * Y2, cv.p) && Eq(c, T1 * T2, cv.p) && Eq(d, Z1 * Z2, cv.p)
    requires Eq(s, (X1 + Y1) * (X2 + Y2), cv.p)
    requires Eq(X, (s - a - b) * (d - c), cv.p) && Eq(Y, (d + c) * (b - a), cv.p)
    requires Eq(Z, (d - c) * (d + c), cv.p) && Eq(T, (s - a - b) * (b - a), cv.p)
    ensures Rep(cv, X, Y, Z, Add(cv, A, B)) && RepT(cv, 1, T, Z, Add(cv, A, B)) && On(cv, Add(cv, A, B))
  {
    hide Eq, On, Add;
    var p, m, k := cv.p, Z1 * Z2, Cross(cv, A.x, A.y, B.x, B.y);
    AddOperands(cv, A, B, X1, Y1, Z1, T1, X2, Y2, Z2, T2, a, b, c, d, s);
    hide Cross;
    AddTemporaries(m, k, A.x, A.y, B.x, B.y, a, b, c, d, s, p);
    NonzeroMul(Z1, Z2, p);
    AddEquations(cv, A, B);
    AddOn(cv, A, B);
    Finish(cv, m, 1, k, A.x * B.y + B.x * A.y, A.y * B.y - A.x * B.x, Add(cv, A, B),
      s - a - b, d - c, d + c, b - a, X, Y, Z, T);
  }

  lemma AddOperands(cv: Curve, A: Aff, B: Aff, X1: int, Y1: int, Z1: int, T1: int, X2: int, Y2: int, Z2: int, T2: int,
    a: int, b: int, c: int, d: int, s: int)
    requires cv.p > 0 && Rep(cv, X1, Y1, Z1, A) && Rep(cv, X2, Y2, Z2, B)
    requires RepT(cv, 1, T1, Z1, A) && RepT(cv, cv.d, T2, Z2, B)
    requires Eq(a, X1 * X2, cv.p) && Eq(b, Y1 * Y2, cv.p) && Eq(c, T1 * T2, cv.p) && Eq(d, Z1 * Z2, cv.p)
    requires Eq(s, (X1 + Y1) * (X2 + Y2), cv.p)
    ensures var m, p := Z1 * Z2, cv.p;
      && Eq(a, m * (A.x * B.x), p) && Eq(b, m * (A.y * B.y), p)
      && Eq(c, m * Cross(cv, A.x, A.y, B.x, B.y), p) && Eq(d, m, p)
      && Eq(s, m * ((A.x + A.y) * (B.x + B.y)), p)
  {
    hide Eq;
    var p := cv.p;
    MulRep(a, X1, A.x * Z1, X2, B.x * Z2, p);
    PairForm(A.x, Z1, B.x, Z2);
    MulRep(b, Y1, A.y * Z1, Y2, B.y * Z2, p);
    PairForm(A.y, Z1, B.y, Z2);
    MulRep(c, T1, 1 * (A.x * A.y * Z1), T2, cv.d * (B.x * B.y * Z2), p);
    CrossForm(A.x, A.y, Z1, B.x, B.y, Z2, cv.d);
    EqAdd(X1, A.x * Z1, Y1, A.y * Z1, p);
    EqAdd(X2, B.x * Z2, Y2, B.y * Z2, p);
    MulRep(s, X1 + Y1, A.x * Z1 + A.y * Z1, X2 + Y2, B.x * Z2 + B.y * Z2, p);
    PairForm(A.x + A.y, Z1, B.x + B.y, Z2);
    assert A.x * Z1 + A.y * Z1 == (A.x + A.y) * Z1;
    assert B.x * Z2 + B.y * Z2 == (B.x + B.y) * Z2;
  }

  lemma PairForm(x: int, z: int, y: int, w: int)
    ensures (x * z) * (y * w) == z * w * (x * y)
  {
  }

  lemma CrossForm(x1: int, y1: int, z1: int, x2: int, y2: int, z2: int, d: int)
    ensures (1 * (x1 * y1 * z1)) * (d * (x2 * y2 * z2)) == z1 * z2 * (d * ((x1 * x2) * (y1 * y2)))
  {
    var m, n := x1 * y1, x2 * y2;
    assert (x1 * x2) * (y1 * y2) == m * n;
    assert (m * z1) * (d * (n * z2)) == z1 * z2 * (d * (m * n));
  }

  lemma AddTemporaries(m: int, k: int, x1: int, y1: int, x2: int, y2: int, a: int, b: int, c: int, d: int, s: int,
    p: int)
    requires p > 0 && Eq(a, m * (x1 * x2), p) && Eq(b, m * (y1 * y2), p) && Eq(c, m * k, p) && Eq(d, m, p)
    requires Eq(s, m * ((x1 + y1) * (x2 + y2)), p)
    ensures Eq(s - a - b, m * (x1 * y2 + x2 * y1), p) && Eq(d - c, 1 * m * (1 - k), p)
    ensures Eq(d + c, m * (1 + k), p) && Eq(b - a, 1 * m * (y1 * y2 - x1 * x2), p)
  {
    hide Eq;
    var xx, yy, v := x1 * x2, y1 * y2, (x1 + y1) * (x2 + y2);
    EqAdd(s, m * v, a, m * xx, p);
    EqAdd(s - a, m * v - m * xx, b, m * yy, p);
    assert v - xx - yy == x1 * y2 + x2 * y1;
    FactorOut(m, v, xx, yy, k);
    EqAdd(d, m, c, m * k, p);
    EqAdd(b, m * yy, a, m * xx, p);
  }

  lemma FactorOut(m: int, v: int, xx: int, yy: int, k: int)
    ensures m * v - m * xx - m * yy == m * (v - xx - yy)
    ensures m * yy - m * xx == 1 * m * (yy - xx)
    ensures m - m * k == 1 * m * (1 - k) && m + m * k == m * (1 + k)
  {
  }

  // ---------------------------------------------------------------- doubling

  /** The temporaries of the source's doubling: a = X^2, b = Y^2, c = 2 Z^2, e = 2 X Y. */
  lemma DoubleFormulas(cv: Curve, A: Aff, X1: int, Y1: int, Z1: int,
    a: int, b: int, c: int, e: int, X: int, Y: int, Z: int, T: int)
    requires Sound(cv) && On(cv, A) && Rep(cv, X1, Y1, Z1, A)
    requires Eq(a, X1 * X1, cv.p) && Eq(b, Y1 * Y1, cv.p) && Eq(c, 2 * (Z1 * Z1), cv.p)
    requires Eq(e, 2 * (A.x * A.y) * (Z1 * Z1), cv.p)
    requires Eq(X, e * (a + b - c), cv.p) && Eq(Y, (a + b) * (a - b), cv.p)
    requires Eq(Z, (a + b - c) * (a + b), cv.p) && Eq(T, e * (a - b), cv.p)
    ensures Rep(cv, X, Y, Z, Add(cv, A, A)) && RepT(cv, 1, T, Z, Add(cv, A, A)) && On(cv, Add(cv, A, A))
  {
    hide Eq, On, Add;
    var p, m, k := cv.p, Z1 * Z1, Cross(cv, A.x, A.y, A.x, A.y);
    MulRep(a, X1, A.x * Z1, X1, A.x * Z1, p);
    PairForm(A.x, Z1, A.x, Z1);
    MulRep(b, Y1, A.y * Z1, Y1, A.y * Z1, p);
    PairForm(A.y, Z1, A.y, Z1);
    OnCross(cv, A);
    hide Cross;
    DoubleTemporaries(m, k, A.x, A.y, a, b, c, e, p);
    NonzeroMul(Z1, Z1, p);
    AddEquations(cv, A, A);
    AddOn(cv, A, A);
    Finish(cv, m, -1, k, A.x * A.y + A.x * A.y, A.y * A.y - A.x * A.x, Add(cv, A, A),
      e, a + b - c, a + b, a - b, X, Y, Z, T);
  }

  lemma OnCross(cv: Curve, A: Aff)
    requires cv.p > 0 && On(cv, A)
    ensures Eq(A.x * A.x + A.y * A.y, 1 + Cross(cv, A.x, A.y, A.x, A.y), cv.p)
  {
  }

  lemma DoubleTemporaries(m: int, k: int, x: int, y: int, a: int, b: int, c: int, e: int, p: int)
    requires p > 0 && Eq(a, m * (x * x), p) && Eq(b, m * (y * y), p) && Eq(c, 2 * m, p)
    requires Eq(e, 2 * (x * y) * m, p) && Eq(x * x + y * y, 1 + k, p)
    ensures Eq(e, m * (x * y + x * y), p) && Eq(a + b - c, -1 * m * (1 - k), p)
    ensures Eq(a + b, m * (1 + k), p) && Eq(a - b, -1 * m * (y * y - x * x), p)
  {
    hide Eq;
    var xx, yy, xy := x * x, y * y, x * y;
    EqAdd(a, m * xx, b, m * yy, p);
    EqScale(m, xx + yy, 1 + k, p);
    DoubleFactors(m, xx, yy, xy, k);
    EqTrans(a + b, m * (xx + yy), m * (1 + k), p);
    EqAdd(a + b, m * (1 + k), c, 2 * m, p);
  }

  lemma DoubleFactors(m: int, xx: int, yy: int, xy: int, k: int)
    ensures m * xx + m * yy == m * (xx + yy) && m * xx - m * yy == -1 * m * (yy - xx)
    ensures m * (1 + k) - 2 * m == -1 * m * (1 - k) && 2 * xy * m == m * (xy + xy)
  {
  }

  /** e = (X + Y)^2 - a - b. */
  lemma DoubleCross(cv: Curve, A: Aff, X1: int, Y1: int, Z1: int, a: int, b: int, s: int)
    requires cv.p > 0 && Rep(cv, X1, Y1, Z1, A)
    requires Eq(a, X1 * X1, cv.p) && Eq(b, Y1 * Y1, cv.p) && Eq(s, (X1 + Y1) * (X1 + Y1), cv.p)
    ensures Eq(s - a - b, 2 * (A.x * A.y) * (Z1 * Z1), cv.p)
  {
    hide Eq;
    var p := cv.p;
    EqAdd(s, (X1 + Y1) * (X1 + Y1), a, X1 * X1, p);
    EqAdd(s - a, (X1 + Y1) * (X1 + Y1) - X1 * X1, b, Y1 * Y1, p);
    assert (X1 + Y1) * (X1 + Y1) - X1 * X1 - Y1 * Y1 == 2 * (X1 * Y1);
    EqMul(X1, A.x * Z1, Y1, A.y * Z1, p);
    EqScale(2, X1 * Y1, (A.x * Z1) * (A.y * Z1), p);
    PairForm(A.x, Z1, A.y, Z1);
    TwiceForm(A.x * A.y, Z1 * Z1);
    EqTrans(s - a - b, 2 * (X1 * Y1), 2 * ((A.x * Z1) * (A.y * Z1)), p);
  }

  lemma TwiceForm(u: int, m: int)
    ensures 2 * (m * u) == 2 * u * m
  {
  }

  /** e = 2 T when Z = 1. */
  lemma DoubleFromT(cv: Curve, A: Aff, T1: int)
    requires cv.p > 0 && RepT(cv, 1, T1, 1, A)
    ensures Eq(T1 + T1, 2 * (A.x * A.y) * (1 * 1), cv.p)
  {
    hide Eq;
    EqAdd(T1, 1 * (A.x * A.y * 1), T1, 1 * (A.x * A.y * 1), cv.p);
  }

  /** g^2 - 2 g = (g - 2) g. */
  lemma SquareMinusTwice(q: int, g: int, z: int, p: int)
    requires p > 0 && Eq(q, g * g, p) && Eq(z, q - g - g, p)
    ensures Eq(z, (g - 2) * g, p)
  {
    hide Eq;
    EqRefl(g, p);
    EqAdd(q, g * g, g, g, p);
    EqAdd(q - g, g * g - g, g, g, p);
    assert (g - 2) * g == g * g - g - g;
    EqTrans(z, q - g - g, (g - 2) * g, p);
  }

  // ---------------------------------------------------------------- other forms

  /** The temporaries of the source's addition without T: a = Z1 Z2, b = a^2, c = X1 X2,
      d = Y1 Y2, e = d (c d), F = b - e, G = b + e. */
  lemma ProjFormulas(cv: Curve, A: Aff, B: Aff, X1: int, Y1: int, Z1: int, X2: int, Y2: int, Z2: int,
    a: int, b: int, c: int, d: int, cd: int, e: int, s: int, fx: int, gy: int, X: int, Y: int, Z: int)
    requires Sound(cv) && On(cv, A) && On(cv, B)
    requires Rep(cv, X1, Y1, Z1, A) && Rep(cv, X2, Y2, Z2, B)
    requires Eq(a, Z1 * Z2, cv.p) && Eq(b, a * a, cv.p) && Eq(c, X1 * X2, cv.p) && Eq(d, Y1 * Y2, cv.p)
    requires Eq(cd, c * d, cv.p) && Eq(e, cd * cv.d, cv.p) && Eq(s, (X1 + Y1) * (X2 + Y2), cv.p)
    requires Eq(fx, (b - e) * (s - c - d), cv.p) && Eq(X, a * fx, cv.p)
    requires Eq(gy, (b + e) * (d - c), cv.p) && Eq(Y, a * gy, cv.p) && Eq(Z, (b - e) * (b + e), cv.p)
    ensures Rep(cv, X, Y, Z, Add(cv, A, B)) && On(cv, Add(cv, A, B))
  {
    hide Eq, On, Add;
    var p, m, k := cv.p, Z1 * Z2, Cross(cv, A.x, A.y, B.x, B.y);
    ProjOperands(cv, A, B, X1, Y1, Z1, X2, Y2, Z2, a, b, c, d, cd, e, s);
    hide Cross;
    ProjTemporaries(m, k, A.x, A.y, B.x, B.y, a, b, c, d, e, s, p);
    NonzeroMul(Z1, Z2, p);
    NonzeroMul(m, m, p);
    AddEquations(cv, A, B);
    AddOn(cv, A, B);
    ProjOrder(a, b - e, s - c - d, fx, X, p);
    ProjOrder(a, b + e, d - c, gy, Y, p);
    assert (b + e) * (a * (d - c)) == (a * (d - c)) * (b + e);
    EqRefl((a * (s - c - d)) * (a * (d - c)), p);
    Finish(cv, m * m, 1, k, A.x * B.y + B.x * A.y, A.y * B.y - A.x * B.x, Add(cv, A, B),
      a * (s - c - d), b - e, b + e, a * (d - c), X, Y, Z, (a * (s - c - d)) * (a * (d - c)));
  }

  lemma ProjOrder(a: int, f: int, s: int, fs: int, X: int, p: int)
    requires p > 0 && Eq(fs, f * s, p) && Eq(X, a * fs, p)
    ensures Eq(X, (a * s) * f, p)
  {
    hide Eq;
    EqScale(a, fs, f * s, p);
    assert a * (f * s) == (a * s) * f;
    EqTrans(X, a * fs, (a * s) * f, p);
  }

  lemma ProjOperands(cv: Curve, A: Aff, B: Aff, X1: int, Y1: int, Z1: int, X2: int, Y2: int, Z2: int,
    a: int, b: int, c: int, d: int, cd: int, e: int, s: int)
    requires cv.p > 0 && Rep(cv, X1, Y1, Z1, A) && Rep(cv, X2, Y2, Z2, B)
    requires Eq(a, Z1 * Z2, cv.p) && Eq(b, a * a, cv.p) && Eq(c, X1 * X2, cv.p) && Eq(d, Y1 * Y2, cv.p)
    requires Eq(cd, c * d, cv.p) && Eq(e, cd * cv.d, cv.p) && Eq(s, (X1 + Y1) * (X2 + Y2), cv.p)
    ensures var m, p := Z1 * Z2, cv.p;
      && Eq(b, m * m, p) && Eq(c, m * (A.x * B.x), p) && Eq(d, m * (A.y * B.y), p)
      && Eq(e, m * m * Cross(cv, A.x, A.y, B.x, B.y), p)
      && Eq(s, m * ((A.x + A.y) * (B.x + B.y)), p)
  {
    hide Eq;
    var p, m := cv.p, Z1 * Z2;
    MulRep(b, a, m, a, m, p);
    MulRep(c, X1, A.x * Z1, X2, B.x * Z2, p);
    PairForm(A.x, Z1, B.x, Z2);
    MulRep(d, Y1, A.y * Z1, Y2, B.y * Z2, p);
    PairForm(A.y, Z1, B.y, Z2);
    ProjCross(m, A.x * B.x, A.y * B.y, c, d, cd, e, cv.d, p);
    EqAdd(X1, A.x * Z1, Y1, A.y * Z1, p);
    EqAdd(X2, B.x * Z2, Y2, B.y * Z2, p);
    MulRep(s, X1 + Y1, A.x * Z1 + A.y * Z1, X2 + Y2, B.x * Z2 + B.y * Z2, p);
    PairForm(A.x + A.y, Z1, B.x + B.y, Z2);
    assert A.x * Z1 + A.y * Z1 == (A.x + A.y) * Z1;
    assert B.x * Z2 + B.y * Z2 == (B.x + B.y) * Z2;
  }

  lemma ProjCross(m: int, xx: int, yy: int, c: int, d: int, cd: int, e: int, k: int, p: int)
    requires p > 0 && Eq(c, m * xx, p) && Eq(d, m * yy, p) && Eq(cd, c * d, p) && Eq(e, cd * k, p)
    ensures Eq(e, m * m * (k * (xx * yy)), p)
  {
    hide Eq;
    MulRep(cd, c, m * xx, d, m * yy, p);
    EqRefl(k, p);
    MulRep(e, cd, (m * xx) * (m * yy), k, k, p);
    assert (m * xx) * (m * yy) * k == m * m * (k * (xx * yy)) by {
      assert (m * xx) * (m * yy) == m * m * (xx * yy);
    }
  }

  lemma ProjTemporaries(m: int, k: int, x1: int, y1: int, x2: int, y2: int, a: int, b: int, c: int, d: int, e: int,
    s: int, p: int)
    requires p > 0 && Eq(a, m, p) && Eq(b, m * m, p) && Eq(c, m * (x1 * x2), p) && Eq(d, m * (y1 * y2), p)
    requires Eq(e, m * m * k, p) && Eq(s, m * ((x1 + y1) * (x2 + y2)), p)
    ensures Eq(a * (s - c - d), m * m * (x1 * y2 + x2 * y1), p) && Eq(b - e, 1 * (m * m) * (1 - k), p)
    ensures Eq(b + e, m * m * (1 + k), p) && Eq(a * (d - c), 1 * (m * m) * (y1 * y2 - x1 * x2), p)
  {
    hide Eq;
    var xx, yy, v := x1 * x2, y1 * y2, (x1 + y1) * (x2 + y2);
    EqAdd(s, m * v, c, m * xx, p);
    EqAdd(s - c, m * v - m * xx, d, m * yy, p);
    assert v - xx - yy == x1 * y2 + x2 * y1;
    FactorOut(m, v, xx, yy, k);
    EqMul(a, m, s - c - d, m * (v - xx - yy), p);
    EqAdd(d, m * yy, c, m * xx, p);
    EqMul(a, m, d - c, m * (yy - xx), p);
    EqAdd(b, m * m, e, m * m * k, p);
    ProjFactors(m, v - xx - yy, yy - xx, k);
  }

  lemma ProjFactors(m: int, u: int, w: int, k: int)
    ensures m * (m * u) == m * m * u && m * (m * w) == 1 * (m * m) * w
    ensures m * m - m * m * k == 1 * (m * m) * (1 - k) && m * m + m * m * k == m * m * (1 + k)
  {
  }

  lemma InfRep(cv: Curve)
    requires Sound(cv)
    ensures Rep(cv, 0, 1, 1, Aff(0, 1)) && RepT(cv, 1, 0, 1, Aff(0, 1)) && RepT(cv, cv.d, 0, 1, Aff(0, 1))
  {
    hide Eq;
    EqRefl(0, cv.p);
    EqRefl(1, cv.p);
    UnitNonzero(cv.p);
    assert cv.d * (0 * 1 * 1) == 0;
  }

  lemma UnitNonzero(p: int)
    requires p > 1
    ensures !Eq(1, 0, p)
  {
    if Eq(1, 0, p) { EqResidue(1, 0, p); }
  }

  lemma InitRep(cv: Curve, a: Aff, X: int, Y: int, T: int)
    requires Sound(cv) && Eq(X, a.x, cv.p) && Eq(Y, a.y, cv.p) && Eq(T, X * Y, cv.p)
    ensures Rep(cv, X, Y, 1, a) && RepT(cv, 1, T, 1, a)
  {
    hide Eq;
    UnitNonzero(cv.p);
    MulRep(T, X, a.x, Y, a.y, cv.p);
  }

  /** Multiplying the coordinates by 1 / Z gives the affine point. */
  lemma NormRep(cv: Curve, a: Aff, X: int, Y: int, Z: int, T: int, w: int)
    requires cv.p > 0 && Rep(cv, X, Y, Z, a) && Eq(Z * w, 1, cv.p)
    ensures Eq(X * w, a.x, cv.p) && Eq(Y * w, a.y, cv.p)
    ensures RepT(cv, 1, T, Z, a) ==> Eq(T * w, a.x * a.y, cv.p)
  {
    hide Eq;
    NormCoordinate(X, a.x, Z, w, cv.p);
    NormCoordinate(Y, a.y, Z, w, cv.p);
    if RepT(cv, 1, T, Z, a) { NormCoordinate(T, a.x * a.y, Z, w, cv.p); }
  }

  lemma NormCoordinate(X: int, x: int, Z: int, w: int, p: int)
    requires p > 0 && Eq(X, x * Z, p) && Eq(Z * w, 1, p)
    ensures Eq(X * w, x, p)
  {
    hide Eq;
    EqRefl(w, p);
    EqMul(X, x * Z, w, w, p);
    EqScale(x, Z * w, 1, p);
    assert x * Z * w == x * (Z * w);
    EqTrans(X * w, x * (Z * w), x, p);
  }

  /** -(x, y) = (-x, y) in coordinates, T included. */
  lemma NegRep(cv: Curve, s: int, X: int, Y: int, Z: int, T: int, a: Aff, x: int)
    requires cv.p > 0 && Rep(cv, X, Y, Z, a) && RepT(cv, s, T, Z, a) && Eq(x, -a.x, cv.p)
    ensures Rep(cv, -X, Y, Z, Aff(x, a.y)) && RepT(cv, s, -T, Z, Aff(x, a.y))
  {
    hide Eq;
    var p := cv.p;
    NegCoordinate(X, Z, a.x, x, p);
    NegCoordinate(T, s * (a.y * Z), a.x, x, p) by {
      assert a.x * (s * (a.y * Z)) == s * (a.x * a.y * Z);
    }
    assert x * (s * (a.y * Z)) == s * (x * a.y * Z);
  }

  lemma NegCoordinate(X: int, Z: int, a: int, x: int, p: int)
    requires p > 0 && Eq(X, a * Z, p) && Eq(x, -a, p)
    ensures Eq(-X, x * Z, p)
  {
    hide Eq;
    EqScale(-1, X, a * Z, p);
    EqRefl(Z, p);
    EqMul(x, -a, Z, Z, p);
    assert -1 * (a * Z) == -a * Z;
    EqSym(x * Z, -a * Z, p);
    EqTrans(-X, -a * Z, x * Z, p);
  }

  /** Coordinates may be replaced by congruent ones. */
  lemma RepCong(cv: Curve, a: Aff, X: int, Y: int, Z: int, X': int, Y': int, Z': int)
    requires cv.p > 0 && Rep(cv, X, Y, Z, a) && Eq(X', X, cv.p) && Eq(Y', Y, cv.p) && Eq(Z', Z, cv.p)
    ensures Rep(cv, X', Y', Z', a)
  {
    hide Eq;
    var p := cv.p;
    EqSym(Z', Z, p);
    if Eq(Z', 0, p) { EqTrans(Z, Z', 0, p); }
    EqScale(a.x, Z, Z', p);
    EqScale(a.y, Z, Z', p);
    EqTrans(X', X, a.x * Z, p);
    EqTrans(X', a.x * Z, a.x * Z', p);
    EqTrans(Y', Y, a.y * Z, p);
    EqTrans(Y', a.y * Z, a.y * Z', p);
  }

  /** With a congruent Z, other numbers are coordinates of the same point only if congruent. */
  lemma RepSame(cv: Curve, a: Aff, X: int, Y: int, Z: int, X': int, Y': int, Z': int)
    requires cv.p > 0 && Rep(cv, X, Y, Z, a) && Eq(Z', Z, cv.p)
    ensures Rep(cv, X', Y', Z', a) <==> Eq(X', X, cv.p) && Eq(Y', Y, cv.p)
  {
    hide Eq;
    if Rep(cv, X', Y', Z', a) {
      SameCoordinate(X, X', a.x, Z, Z', cv.p);
      SameCoordinate(Y, Y', a.y, Z, Z', cv.p);
    }
    if Eq(X', X, cv.p) && Eq(Y', Y, cv.p) { RepCong(cv, a, X, Y, Z, X', Y', Z'); }
  }

  lemma SameCoordinate(X: int, X': int, r: int, Z: int, Z': int, p: int)
    requires p > 0 && Eq(X, r * Z, p) && Eq(X', r * Z', p) && Eq(Z', Z, p)
    ensures Eq(X', X, p)
  {
    hide Eq;
    EqScale(r, Z', Z, p);
    EqTrans(X', r * Z', r * Z, p);
    EqSym(X, r * Z, p);
    EqTrans(X', r * Z, X, p);
  }
}
