/** Integers modulo a prime: cancellation, powers, Fermat's little theorem. */
module PrimeField {

  ghost predicate Eq(a: int, b: int, p: int)
    requires p > 0
  {
    (a - b) % p == 0
  }

  ghost predicate IsFactor(m: int, n: int) { m > 0 && n % m == 0 }

  ghost predicate IsPrime(p: int) {
    p >= 2 && forall m :: 2 <= m < p ==> !IsFactor(m, p)
  }

  // ---------------------------------------------------------------- congruence

  lemma EqIntro(a: int, b: int, k: int, p: int)
    requires p > 0 && a == b + k * p
    ensures Eq(a, b, p)
  {
    var q, r := k * p / p, (k * p) % p;
    assert p * (k - q) == r;
    SmallMultiple(p, k - q);
  }

  lemma SmallMultiple(p: int, d: int)
    requires p > 0 && -p < p * d < p
    ensures d == 0
  {
  }

  lemma EqElim(a: int, b: int, p: int) returns (k: int)
    requires p > 0 && Eq(a, b, p)
    ensures a == b + k * p
  {
    k := (a - b) / p;
  }

  lemma EqRefl(a: int, p: int)
    requires p > 0
    ensures Eq(a, a, p)
  {
    EqIntro(a, a, 0, p);
  }

  lemma EqSym(a: int, b: int, p: int)
    requires p > 0 && Eq(a, b, p)
    ensures Eq(b, a, p)
  {
    var k := EqElim(a, b, p);
    EqIntro(b, a, -k, p);
  }

  lemma EqTrans(a: int, b: int, c: int, p: int)
    requires p > 0 && Eq(a, b, p) && Eq(b, c, p)
    ensures Eq(a, c, p)
  {
    var k := EqElim(a, b, p);
    var l := EqElim(b, c, p);
    EqIntro(a, c, k + l, p);
  }

  lemma EqAdd(a: int, a': int, b: int, b': int, p: int)
    requires p > 0 && Eq(a, a', p) && Eq(b, b', p)
    ensures Eq(a + b, a' + b', p) && Eq(a - b, a' - b', p)
  {
    var k := EqElim(a, a', p);
    var l := EqElim(b, b', p);
    EqIntro(a + b, a' + b', k + l, p);
    EqIntro(a - b, a' - b', k - l, p);
  }

  lemma EqMul(a: int, a': int, b: int, b': int, p: int)
    requires p > 0 && Eq(a, a', p) && Eq(b, b', p)
    ensures Eq(a * b, a' * b', p)
  {
    var k := EqElim(a, a', p);
    var l := EqElim(b, b', p);
    var q := a' * l + k * b' + k * l * p;
    assert a * b == a' * b' + q * p;
    EqIntro(a * b, a' * b', q, p);
  }

  lemma EqScale(c: int, a: int, a': int, p: int)
    requires p > 0 && Eq(a, a', p)
    ensures Eq(c * a, c * a', p)
  {
    EqRefl(c, p);
    EqMul(c, c, a, a', p);
  }

  lemma EqMod(a: int, p: int)
    requires p > 0
    ensures Eq(a % p, a, p)
  {
    EqIntro(a % p, a, -(a / p), p);
  }

  /** Two residues are congruent only when equal. */
  lemma EqResidue(a: int, b: int, p: int)
    requires p > 0 && 0 <= a < p && 0 <= b < p && Eq(a, b, p)
    ensures a == b
  {
    var k := EqElim(a, b, p);
    SmallMultiple(p, k);
  }

  /** Inverses are congruent. */
  lemma InverseIff(z: int, v: int, w: int, p: int)
    requires p > 0 && Eq(z * v, 1, p)
    ensures Eq(z * w, 1, p) <==> Eq(w, v, p)
  {
    hide Eq;
    if Eq(w, v, p) {
      EqScale(z, w, v, p);
      EqTrans(z * w, z * v, 1, p);
    }
    if Eq(z * w, 1, p) {
      EqScale(w, z * v, 1, p);
      EqScale(v, z * w, 1, p);
      assert w * (z * v) == v * (z * w);
      EqSym(w * (z * v), w * 1, p);
      EqTrans(w, w * (z * v), v, p);
    }
  }

  lemma EqModIff(a: int, b: int, p: int)
    requires p > 0
    ensures Eq(a, b, p) <==> a % p == b % p
  {
    if Eq(a, b, p) {
      EqMod(a, p);
      EqMod(b, p);
      EqTrans(a % p, a, b, p);
      EqSym(b % p, b, p);
      EqTrans(a % p, b, b % p, p);
      EqResidue(a % p, b % p, p);
    }
    if a % p == b % p {
      EqIntro(a, b, a / p - b / p, p);
    }
  }

  // ---------------------------------------------------------------- Euclid's lemma

  ghost predicate Annihilates(k: int, b: int, p: int)
    requires p > 0
  {
    k > 0 && Eq(k * b, 0, p)
  }

  lemma {:induction false} LeastAnnihilator(n: int, b: int, p: int) returns (k: int)
    requires p > 0 && Annihilates(n, b, p)
    ensures Annihilates(k, b, p) && k <= n
    ensures forall m :: 0 < m < k ==> !Annihilates(m, b, p)
    decreases n
  {
    if m :| 0 < m < n && Annihilates(m, b, p) {
      k := LeastAnnihilator(m, b, p);
    } else {
      k := n;
    }
  }

  /** Every annihilator of b is a multiple of the least one. */
  lemma LeastDivides(k: int, n: int, b: int, p: int)
    requires p > 0 && Annihilates(k, b, p) && Annihilates(n, b, p)
    requires forall m :: 0 < m < k ==> !Annihilates(m, b, p)
    ensures n % k == 0
  {
    var q, r := n / k, n % k;
    EqScale(q, k * b, 0, p);
    EqAdd(n * b, 0, q * (k * b), q * 0, p);
    assert n * b - q * (k * b) == r * b by {
      assert (n - q * k) * b == n * b - q * (k * b);
    }
    if r > 0 { assert Annihilates(r, b, p); }
  }

  lemma EuclidLemma(a: int, b: int, p: int)
    requires IsPrime(p) && Eq(a * b, 0, p)
    ensures Eq(a, 0, p) || Eq(b, 0, p)
  {
    var a' := a % p;
    EqMod(a, p);
    if a' != 0 {
      EqRefl(b, p);
      EqMul(a', a, b, b, p);
      EqTrans(a' * b, a * b, 0, p);
      EqIntro(p * b, 0, b, p);
      var k := LeastAnnihilator(a', b, p);
      LeastDivides(k, p, b, p);
      assert IsFactor(k, p);
      assert k == 1;
    } else {
      EqModIff(a, 0, p);
    }
  }

  lemma EqCancel(c: int, a: int, b: int, p: int)
    requires IsPrime(p) && !Eq(c, 0, p) && Eq(c * a, c * b, p)
    ensures Eq(a, b, p)
  {
    EqRefl(c * b, p);
    EqAdd(c * a, c * b, c * b, c * b, p);
    assert c * a - c * b == c * (a - b);
    EuclidLemma(c, a - b, p);
    EqRefl(b, p);
    EqAdd(a - b, 0, b, b, p);
  }

  lemma NonzeroMul(a: int, b: int, p: int)
    requires IsPrime(p) && !Eq(a, 0, p) && !Eq(b, 0, p)
    ensures !Eq(a * b, 0, p)
  {
    if Eq(a * b, 0, p) { EuclidLemma(a, b, p); }
  }

  // ---------------------------------------------------------------- powers

  ghost function Pow(a: int, n: nat): int {
    if n == 0 then 1 else a * Pow(a, n - 1)
  }

  lemma {:induction false} PowAdd(a: int, m: nat, n: nat)
    ensures Pow(a, m + n) == Pow(a, m) * Pow(a, n)
  {
    if m > 0 {
      PowAdd(a, m - 1, n);
      assert a * (Pow(a, m - 1) * Pow(a, n)) == a * Pow(a, m - 1) * Pow(a, n);
    }
  }

  lemma {:induction false} PowCong(a: int, b: int, n: nat, p: int)
    requires p > 0 && Eq(a, b, p)
    ensures Eq(Pow(a, n), Pow(b, n), p)
  {
    if n == 0 {
      EqRefl(1, p);
    } else {
      PowCong(a, b, n - 1, p);
      EqMul(a, b, Pow(a, n - 1), Pow(b, n - 1), p);
    }
  }

  lemma {:induction false} PowPow(a: int, m: nat, n: nat)
    ensures m * n >= 0 && Pow(Pow(a, m), n) == Pow(a, m * n)
    decreases n
  {
    if n > 0 {
      PowPow(a, m, n - 1);
      assert m * n == m + m * (n - 1);
      PowAdd(a, m, m * (n - 1));
    }
  }

  // ---------------------------------------------------------------- Fermat

  ghost function Pick<T>(s: set<T>): (x: T)
    requires s != {}
    ensures x in s
  {
    var x :| x in s;
    x
  }

  ghost function Prod(s: set<int>): int {
    if s == {} then 1 else Pick(s) * Prod(s - {Pick(s)})
  }

  lemma {:induction false} ProdRemove(s: set<int>, x: int)
    requires x in s
    ensures Prod(s) == x * Prod(s - {x})
    decreases s
  {
    var y := Pick(s);
    if y != x {
      ProdRemove(s - {y}, x);
      ProdRemove(s - {x}, y);
      assert s - {y} - {x} == s - {x} - {y};
      Exchange(x, y, Prod(s - {x} - {y}));
    }
  }

  lemma Exchange(x: int, y: int, r: int)
    ensures y * (x * r) == x * (y * r)
  {
  }

  lemma {:induction false} ProdNonzero(s: set<int>, p: int)
    requires IsPrime(p) && forall x :: x in s ==> 0 < x < p
    ensures !Eq(Prod(s), 0, p)
    decreases s
  {
    if s == {} {
      if Eq(1, 0, p) { EqResidue(1, 0, p); }
    } else {
      var x := Pick(s);
      ProdNonzero(s - {x}, p);
      if Eq(x, 0, p) { EqResidue(x, 0, p); }
      NonzeroMul(x, Prod(s - {x}), p);
    }
  }

  ghost function Dilate(a: int, s: set<int>, p: int): set<int>
    requires p > 0
  {
    set x | x in s :: (a * x) % p
  }

  /** Multiplying by a unit permutes residues, so the products differ by a power of it. */
  lemma {:induction false} ProdTimes(a: int, s: set<int>, p: int)
    requires IsPrime(p) && !Eq(a, 0, p)
    requires forall x :: x in s ==> 0 < x < p
    ensures |Dilate(a, s, p)| == |s|
    ensures Eq(Prod(Dilate(a, s, p)), Pow(a, |s|) * Prod(s), p)
    decreases s
  {
    if s == {} {
      EqRefl(1, p);
      assert Dilate(a, s, p) == {};
    } else {
      var x := Pick(s);
      var r, y := s - {x}, (a * x) % p;
      ProdTimes(a, r, p);
      if z :| z in r && (a * z) % p == y {
        EqModIff(a * z, a * x, p);
        EqCancel(a, z, x, p);
        EqResidue(z, x, p);
      }
      var t := Dilate(a, s, p);
      assert t == Dilate(a, r, p) + {y} by {
        assert s == r + {x};
      }
      assert t - {y} == Dilate(a, r, p);
      ProdRemove(t, y);
      EqMod(a * x, p);
      EqMul(y, a * x, Prod(Dilate(a, r, p)), Pow(a, |r|) * Prod(r), p);
      assert |s| == |r| + 1;
      Rearrange(a, x, Pow(a, |r|), Prod(r));
    }
  }

  lemma Rearrange(a: int, x: int, q: int, r: int)
    ensures (a * x) * (q * r) == (a * q) * (x * r)
  {
  }

  /** The non-zero residues {1, ..., n - 1}. */
  ghost function Units(n: int): (s: set<int>)
    requires n >= 1
    ensures |s| == n - 1
    ensures forall x :: x in s <==> 0 < x < n
  {
    if n == 1 then {} else Units(n - 1) + {n - 1}
  }

  /** Fermat's little theorem. */
  lemma Fermat(a: int, p: int)
    requires IsPrime(p) && !Eq(a, 0, p)
    ensures Eq(Pow(a, p - 1), 1, p)
  {
    hide Prod, Pow, Units, Eq;
    var c, q := Prod(Units(p)), Pow(a, p - 1);
    UnitsPermuted(a, p);
    ProdNonzero(Units(p), p);
    EqSym(c, q * c, p);
    Commute(c, q);
    EqCancel(c, q, 1, p);
  }

  /** Multiplying every unit by a permutes the units. */
  lemma UnitsPermuted(a: int, p: int)
    requires IsPrime(p) && !Eq(a, 0, p)
    ensures Eq(Prod(Units(p)), Pow(a, p - 1) * Prod(Units(p)), p)
  {
    hide Prod, Pow, Units, Dilate, Eq;
    var s := Units(p);
    ProdTimes(a, s, p);
    DilateInside(a, p);
    SubsetFull(Dilate(a, s, p), s);
  }

  lemma Commute(c: int, q: int)
    ensures q * c == c * q && c * 1 == c
  {
  }

  /** Multiplication by a unit sends units to units. */
  lemma DilateInside(a: int, p: int)
    requires IsPrime(p) && !Eq(a, 0, p)
    ensures Dilate(a, Units(p), p) <= Units(p)
  {
    var s := Units(p);
    forall x | x in s ensures (a * x) % p in s { UnitProduct(a, x, p); }
  }

  lemma UnitProduct(a: int, x: int, p: int)
    requires IsPrime(p) && !Eq(a, 0, p) && 0 < x < p
    ensures 0 < (a * x) % p < p
  {
    hide IsPrime, Eq;
    if Eq(x, 0, p) { EqResidue(x, 0, p); }
    NonzeroMul(a, x, p);
    EqModIff(a * x, 0, p);
  }

  lemma SubsetFull(t: set<int>, s: set<int>)
    requires t <= s && |t| == |s|
    ensures t == s
  {
    assert s == t + (s - t);
  }

  /** The inverse as the source computes it: x^(p-2). */
  lemma InverseByPower(a: int, p: int)
    requires IsPrime(p) && !Eq(a, 0, p)
    ensures Eq(a * Pow(a, p - 2), 1, p)
  {
    Fermat(a, p);
  }
}
