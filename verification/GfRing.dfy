/** The ring of polynomials over GF(2) modulo f. */
module GfRing {
  import opened Gf2
  import opened Gf2Field

  /** The reduced product, one bit of the multiplier at a time. */
  function MulMod(a: nat, b: nat, f: nat): (r: nat)
    requires Len(a) < Len(f)
    ensures IsProduct(r, a, b, f)
    decreases b
  {
    hide Times, Plus, XTime, Cong, Len;
    if b == 0 then
      ZeroProduct(a, f);
      0
    else
      var r := MulMod(a, b / 2, f);
      ProductStep(r, a, b / 2, b % 2 == 1, f);
      var d := XTime(r, f);
      if b % 2 == 1 then Plus(d, a) else d
  }

  lemma ZeroProduct(a: nat, f: nat)
    requires Len(f) > 0
    ensures IsProduct(0, a, 0, f)
  {
    CongRefl(0, f);
    assert Times(a, 0) == 0 && Len(0) == 0;
  }

  /** The product is whatever reduced polynomial is congruent to it. */
  lemma MulModIs(r: nat, a: nat, b: nat, f: nat)
    requires Len(r) < Len(f) && Len(a) < Len(f) && Cong(r, Times(a, b), f)
    ensures r == MulMod(a, b, f)
  {
    hide Times, Plus, Cong, Len, MulMod;
    ProductUnique(r, MulMod(a, b, f), a, b, f);
  }

  lemma MulModComm(a: nat, b: nat, f: nat)
    requires Len(a) < Len(f) && Len(b) < Len(f)
    ensures MulMod(a, b, f) == MulMod(b, a, f)
  {
    hide Times, Plus, Cong, Len, MulMod;
    TimesComm(a, b);
    MulModIs(MulMod(b, a, f), a, b, f);
  }

  lemma MulModAssoc(a: nat, b: nat, c: nat, f: nat)
    requires Len(a) < Len(f) && Len(b) < Len(f) && Len(c) < Len(f)
    ensures MulMod(MulMod(a, b, f), c, f) == MulMod(a, MulMod(b, c, f), f)
  {
    hide Times, Plus, Cong, Len, MulMod;
    var ab, bc := MulMod(a, b, f), MulMod(b, c, f);
    CongScale(a, bc, Times(b, c), f);
    CongTrans(MulMod(a, bc, f), Times(a, bc), Times(a, Times(b, c)), f);
    CongScale(c, ab, Times(a, b), f);
    TimesComm(c, ab);
    TimesComm(c, Times(a, b));
    TimesAssoc(a, b, c);
    CongSym(Times(ab, c), Times(Times(a, b), c), f);
    CongTrans(MulMod(a, bc, f), Times(a, Times(b, c)), Times(ab, c), f);
    MulModIs(MulMod(a, bc, f), ab, c, f);
  }

  lemma MulModPlus(a: nat, b: nat, c: nat, f: nat)
    requires Len(a) < Len(f) && Len(b) < Len(f) && Len(c) < Len(f)
    ensures Len(Plus(b, c)) < Len(f)
    ensures MulMod(a, Plus(b, c), f) == Plus(MulMod(a, b, f), MulMod(a, c, f))
    ensures MulMod(Plus(b, c), a, f) == Plus(MulMod(b, a, f), MulMod(c, a, f))
  {
    hide Times, Plus, Cong, Len, MulMod;
    LenPlus(b, c, Len(f) - 1);
    LenPlus(MulMod(a, b, f), MulMod(a, c, f), Len(f) - 1);
    TimesPlusRight(a, b, c);
    CongPlus(MulMod(a, b, f), Times(a, b), MulMod(a, c, f), Times(a, c), f);
    MulModIs(Plus(MulMod(a, b, f), MulMod(a, c, f)), a, Plus(b, c), f);
    MulModComm(a, Plus(b, c), f);
    MulModComm(a, b, f);
    MulModComm(a, c, f);
  }

  lemma MulModUnits(a: nat, f: nat)
    requires Len(a) < Len(f) && Len(1) < Len(f)
    ensures MulMod(a, 1, f) == a && MulMod(1, a, f) == a
    ensures Len(0) == 0 && MulMod(a, 0, f) == 0 && MulMod(0, a, f) == 0
  {
    hide Times, Plus, Cong, MulMod;
    assert Len(0) == 0;
    hide Len;
    TimesOneLeft(a);
    TimesComm(1, a);
    TimesComm(0, a);
    CongRefl(a, f);
    CongRefl(0, f);
    MulModIs(a, a, 1, f);
    MulModIs(0, a, 0, f);
    MulModComm(a, 1, f);
    MulModComm(a, 0, f);
  }
}
