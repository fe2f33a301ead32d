/** Polynomials over GF(2), written as natural numbers: bit i is the coefficient of x^i.
    Addition is exclusive-or; multiplication by x is doubling. */
module Gf2 {
  import opened Bits

  function Plus(a: nat, b: nat): (c: nat)
  {
    XorNat(a, b);
    Xor(a, b)
  }

  lemma {:induction false} XorNat(a: int, b: int)
    requires a >= 0 && b >= 0
    ensures Xor(a, b) >= 0
    decreases a + b
  {
    if a > 0 && b > 0 { XorNat(a / 2, b / 2); }
  }

  /** Horner's rule over the bits of b, most significant first: the source's multiplication. */
  function Times(a: nat, b: nat): nat {
    if b == 0 then 0 else Plus(2 * Times(a, b / 2), if b % 2 == 1 then a else 0)
  }

  /** integer_length: the number of bits, one more than the degree. */
  function Len(a: nat): nat {
    if a == 0 then 0 else 1 + Len(a / 2)
  }

  // ---------------------------------------------------------------- addition

  lemma PlusRules(a: nat, b: nat)
    ensures Plus(a, 0) == a && Plus(0, a) == a && Plus(a, a) == 0
    ensures Plus(a, b) == Plus(b, a) && Plus(a, Plus(a, b)) == b
  {
    XorComm(a, b);
    XorSelf(a);
    XorCancel(a, b);
  }

  lemma PlusAssoc(a: nat, b: nat, c: nat)
    ensures Plus(Plus(a, b), c) == Plus(a, Plus(b, c))
  {
    XorAssoc(a, b, c);
  }

  lemma PlusSwap(a: nat, b: nat, c: nat, d: nat)
    ensures Plus(Plus(a, b), Plus(c, d)) == Plus(Plus(a, c), Plus(b, d))
  {
    hide *;
    PlusAssoc(a, b, Plus(c, d));
    PlusAssoc(b, c, d);
    PlusRules(b, c);
    PlusAssoc(c, b, d);
    PlusAssoc(a, c, Plus(b, d));
  }

  lemma PlusDouble(a: nat, b: nat)
    ensures Plus(2 * a, 2 * b) == 2 * Plus(a, b)
    ensures Plus(2 * a + 1, 2 * b) == 2 * Plus(a, b) + 1 && Plus(2 * a, 2 * b + 1) == 2 * Plus(a, b) + 1
    ensures Plus(2 * a + 1, 2 * b + 1) == 2 * Plus(a, b)
  {
    HalfForms(a);
    HalfForms(b);
  }

  lemma HalfForms(a: nat)
    ensures (2 * a) / 2 == a && (2 * a) % 2 == 0 && (2 * a + 1) / 2 == a && (2 * a + 1) % 2 == 1
  {
  }

  lemma PlusHalf(a: nat, b: nat)
    ensures Plus(a, b) / 2 == Plus(a / 2, b / 2)
    ensures Plus(a, b) % 2 == if a % 2 == b % 2 then 0 else 1
  {
    hide *;
    PlusDouble(a / 2, b / 2);
  }

  // ---------------------------------------------------------------- multiplication

  lemma TimesStep(a: nat, b: nat)
    ensures Times(a, 2 * b) == 2 * Times(a, b) && Times(a, 2 * b + 1) == Plus(2 * Times(a, b), a)
  {
    HalfForms(b);
    PlusRules(2 * Times(a, b), 0);
  }

  lemma {:induction false} TimesPlusLeft(a: nat, c: nat, b: nat)
    ensures Times(Plus(a, c), b) == Plus(Times(a, b), Times(c, b))
  {
    PlusRules(0, 0);
    hide Plus;
    if b > 0 {
      var h := b / 2;
      TimesPlusLeft(a, c, h);
      PlusDouble(Times(a, h), Times(c, h));
      var i, j := if b % 2 == 1 then a else 0, if b % 2 == 1 then c else 0;
      PlusSwap(2 * Times(a, h), i, 2 * Times(c, h), j);
    }
  }

  lemma {:induction false} TimesDoubleLeft(a: nat, b: nat)
    ensures Times(2 * a, b) == 2 * Times(a, b)
  {
    hide Plus;
    if b > 0 {
      TimesDoubleLeft(a, b / 2);
      PlusDouble(2 * Times(a, b / 2), if b % 2 == 1 then a else 0);
    }
  }

  lemma {:induction false} TimesPlusRight(a: nat, b: nat, c: nat)
    ensures Times(a, Plus(b, c)) == Plus(Times(a, b), Times(a, c))
    decreases b + c
  {
    PlusRules(b, c);
    PlusRules(c, b);
    PlusRules(Times(a, b), 0);
    PlusRules(Times(a, c), 0);
    hide Plus;
    if b > 0 && c > 0 {
      var s, p, q := Plus(b, c), b / 2, c / 2;
      TimesPlusRight(a, p, q);
      PlusHalf(b, c);
      PlusDouble(Times(a, p), Times(a, q));
      var i, j := if b % 2 == 1 then a else 0, if c % 2 == 1 then a else 0;
      PlusSwap(2 * Times(a, p), i, 2 * Times(a, q), j);
      PlusRules(a, 0);
      PlusRules(2 * Times(a, s / 2), 0);
      TimesStep(a, s / 2);
    }
  }

  lemma {:induction false} TimesOneLeft(b: nat)
    ensures Times(1, b) == b && Times(0, b) == 0
  {
    PlusRules(0, 0);
    if b > 0 {
      TimesOneLeft(b / 2);
      PlusDouble(b / 2, 0);
      PlusRules(b / 2, 0);
      assert Plus(2 * (b / 2), 1) == 2 * Plus(b / 2, 0) + 1;
      PlusRules(2 * (b / 2), 0);
    }
  }

  lemma {:induction false} TimesComm(a: nat, b: nat)
    ensures Times(a, b) == Times(b, a)
  {
    if b == 0 {
      TimesOneLeft(a);
    } else {
      hide Plus;
      var h, r := b / 2, b % 2;
      TimesComm(a, h);
      TimesDoubleLeft(h, a);
      PlusDouble(h, 0);
      PlusRules(h, 0);
      PlusRules(2 * h, 0);
      assert b == Plus(2 * h, r);
      TimesPlusLeft(2 * h, r, a);
      TimesOneLeft(a);
    }
  }

  lemma {:induction false} TimesAssoc(a: nat, b: nat, c: nat)
    ensures Times(Times(a, b), c) == Times(a, Times(b, c))
    decreases c
  {
    if c > 0 {
      hide Plus;
      var h, r := c / 2, if c % 2 == 1 then b else 0;
      TimesAssoc(a, b, h);
      TimesStep(a, Times(b, h));
      TimesPlusRight(a, 2 * Times(b, h), r);
    }
  }

  lemma {:induction false} TimesPow(a: nat, k: nat)
    ensures Times(a, Pow2(k)) == a * Pow2(k)
    decreases k
  {
    hide Times;
    if k == 0 {
      TimesComm(a, 1);
      TimesOneLeft(a);
    } else {
      TimesPow(a, k - 1);
      TimesStep(a, Pow2(k - 1));
      DoubleProduct(a, Pow2(k - 1));
    }
  }

  lemma DoubleProduct(a: int, p: int)
    ensures a * (2 * p) == 2 * (a * p)
  {
  }

  // ---------------------------------------------------------------- lengths

  lemma {:induction false} LenBound(a: nat, k: nat)
    ensures Len(a) <= k <==> a < Pow2(k)
    decreases k
  {
    if k > 0 {
      LenBound(a / 2, k - 1);
    }
  }

  lemma {:induction false} LenShift(a: nat, k: nat)
    requires a > 0
    ensures a * Pow2(k) > 0 && Len(a * Pow2(k)) == Len(a) + k
    decreases k
  {
    if k > 0 {
      LenShift(a, k - 1);
      DoubleProduct(a, Pow2(k - 1));
    }
  }

  lemma {:induction false} LenPlus(a: nat, b: nat, k: nat)
    requires Len(a) <= k && Len(b) <= k
    ensures Len(Plus(a, b)) <= k
    decreases k
  {
    PlusRules(a, b);
    PlusRules(b, a);
    hide Plus;
    if a > 0 && b > 0 {
      LenPlus(a / 2, b / 2, k - 1);
      PlusHalf(a, b);
    }
  }

  /** Equal leading terms cancel. */
  lemma {:induction false} LenCancel(a: nat, b: nat)
    requires Len(a) == Len(b) > 0
    ensures Len(Plus(a, b)) < Len(a)
    decreases a
  {
    hide Plus;
    PlusHalf(a, b);
    if a == 1 {
      assert b == 1;
      PlusRules(1, 1);
    } else {
      LenCancel(a / 2, b / 2);
    }
  }

  /** Unequal leading terms do not. */
  lemma {:induction false} LenDominates(a: nat, b: nat)
    requires Len(b) < Len(a)
    ensures Len(Plus(a, b)) == Len(a)
    decreases a
  {
    PlusRules(a, b);
    hide Plus;
    if b > 0 {
      PlusHalf(a, b);
      LenDominates(a / 2, b / 2);
    }
  }

  lemma {:induction false} LenTimes(a: nat, b: nat)
    requires a > 0 && b > 0
    ensures Times(a, b) > 0 && Len(Times(a, b)) == Len(a) + Len(b) - 1
    decreases b
  {
    hide Plus;
    var h, r := b / 2, if b % 2 == 1 then a else 0;
    if b == 1 {
      PlusRules(a, 0);
      assert Times(a, 0) == 0;
    } else {
      LenTimes(a, h);
      var d := 2 * Times(a, h);
      assert Len(d) == Len(a) + Len(h);
      LenDominates(d, r);
      assert Len(h) >= 1;
    }
  }
}
