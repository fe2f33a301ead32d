/** The field GF(2^571): its polynomial and its elements as reduced polynomials. */
module Gf571 {
  import opened Bits
  import opened Gf2
  import opened Gf2Field
  import opened GfRing
  import opened Buffers

  // ---------------------------------------------------------------- the field polynomial

  /** x^571 + x^10 + x^5 + x^2 + 1 in a 72-byte buffer. */
  function PrimBytes(): (s: seq<byte>)
    ensures |s| == 72
  {
    [8] + Zeros(69) + [4, 0x25]
  }

  /** The field polynomial. */
  function F(): nat { BE(PrimBytes()) }

  lemma FieldPolynomial()
    ensures F() == Pow2(571) + Pow2(10) + Pow2(5) + Pow2(2) + 1 && Len(F()) == 572
  {
    FieldLength();
    FieldTerms();
  }

  lemma FieldLength()
    ensures Len(BE(PrimBytes())) == 572
  {
    Pow2Small();
    hide Pow2, BE, Len;
    LengthOf(PrimBytes(), 0, 3);
  }

  lemma FieldTerms()
    ensures BE(PrimBytes()) == Pow2(571) + Pow2(10) + Pow2(5) + Pow2(2) + 1
  {
    Pow2Small();
    hide Pow2, BE;
    var hi: seq<byte>, lo: seq<byte> := [8] + Zeros(69), [4, 0x25];
    assert PrimBytes() == hi + lo;
    BEConcat(hi, lo);
    BEConcat([8], Zeros(69));
    BEZeros(69);
    BEPair(4, 0x25);
    BESingle(8);
    Pow2Add(3, 568);
    Pow2Add(552, 16);
    Regroup(Pow2(552), Pow2(16));
  }

  lemma Regroup(p: int, q: int)
    ensures 8 * p * q == 8 * (p * q)
  {
  }

  lemma BESingle(a: byte)
    ensures BE([a]) == a
  {
    assert [a][..0] == [];
    assert BE([]) == 0;
  }

  lemma BEPair(a: byte, b: byte)
    ensures BE([a, b]) == 256 * a + b
  {
    assert [a, b][..1] == [a];
    BESingle(a);
  }

  /** The hypothesis under which the residues form a field. */
  ghost predicate Irreducible() {
    forall d: nat :: Divides(d, F()) ==> d == 1 || d == F()
  }

  // ---------------------------------------------------------------- elements

  /** A reduced polynomial. */
  type Elem = a: nat | Len(a) <= 571

  lemma ElemShort(a: Elem)
    ensures Len(a) < Len(F()) && Len(F()) == 572
  {
    FieldPolynomial();
  }

  lemma SmallElems()
    ensures Len(0) == 0 && Len(1) == 1
  {
  }

  function Add(a: Elem, b: Elem): Elem {
    LenPlus(a, b, 571);
    Plus(a, b)
  }

  function Mul(a: Elem, b: Elem): (r: Elem)
    ensures IsProduct(r, a, b, F())
  {
    ElemShort(a);
    MulMod(a, b, F())
  }

  lemma ZeroProduct(a: nat)
    ensures IsProduct(0, a, 0, F())
  {
    FieldPolynomial();
    hide F;
    GfRing.ZeroProduct(a, F());
  }

  lemma ProductShort(r: nat, a: nat, c: nat)
    requires IsProduct(r, a, c, F())
    ensures Len(r) <= 571
  {
    FieldPolynomial();
    hide F;
  }

  /** The product is whatever reduced polynomial is congruent to it. */
  lemma MulIs(r: Elem, a: Elem, b: Elem)
    requires Cong(r, Times(a, b), F())
    ensures r == Mul(a, b)
  {
    hide Times, Plus, F, Cong, Len, MulMod;
    ElemShort(r);
    ElemShort(a);
    MulModIs(r, a, b, F());
  }

  // ---------------------------------------------------------------- ring laws

  lemma AddLaws(a: Elem, b: Elem, c: Elem)
    ensures Add(a, b) == Add(b, a) && Add(a, 0) == a && Add(0, a) == a && Add(a, a) == 0
    ensures Add(Add(a, b), c) == Add(a, Add(b, c)) && Add(a, Add(a, b)) == b
  {
    PlusRules(a, b);
    PlusAssoc(a, b, c);
  }

  lemma MulComm(a: Elem, b: Elem)
    ensures Mul(a, b) == Mul(b, a)
  {
    hide Times, Plus, F, Cong, Len, MulMod;
    ElemShort(a);
    ElemShort(b);
    MulModComm(a, b, F());
  }

  lemma MulAssoc(a: Elem, b: Elem, c: Elem)
    ensures Mul(Mul(a, b), c) == Mul(a, Mul(b, c))
  {
    hide Times, Plus, F, Cong, Len, MulMod;
    ElemShort(a);
    ElemShort(b);
    ElemShort(c);
    MulModAssoc(a, b, c, F());
  }

  lemma MulAdd(a: Elem, b: Elem, c: Elem)
    ensures Mul(a, Add(b, c)) == Add(Mul(a, b), Mul(a, c))
    ensures Mul(Add(b, c), a) == Add(Mul(b, a), Mul(c, a))
  {
    hide Times, Plus, F, Cong, Len, MulMod;
    ElemShort(a);
    ElemShort(b);
    ElemShort(c);
    MulModPlus(a, b, c, F());
  }

  lemma MulOne(a: Elem)
    ensures Len(1) == 1 && Mul(a, 1) == a && Mul(1, a) == a && Mul(a, 0) == 0 && Mul(0, a) == 0
  {
    SmallElems();
    hide Times, Plus, F, Cong, Len, MulMod;
    ElemShort(a);
    MulModUnits(a, F());
  }

  // ---------------------------------------------------------------- inverses

  /** A non-zero element shares no factor with an irreducible field polynomial. */
  lemma ElemCoprime(a: Elem)
    requires Irreducible() && a != 0
    ensures Coprime(a, F())
  {
    hide Times, Plus, F, Len;
    ElemShort(a);
    forall d: nat | Divides(d, a) && Divides(d, F()) ensures d == 1 {
      var q: nat :| Times(q, d) == a;
      TimesOneLeft(d);
      TimesComm(q, 0);
      TimesOneLeft(q);
      LenTimes(q, d);
      LenZero(q);
    }
  }

  /** The extended Euclidean loop on values. */
  function Euclid(u: nat, v: nat, g1: nat, g2: nat, ghost op: nat): (r: nat)
    requires EuclidInv(u, v, g1, g2, op, F())
    ensures IsInverse(r, op, F())
    decreases Len(u) + Len(v)
  {
    hide Times, Plus, F, Cong, Coprime, Len, Pow2, EuclidInv, IsInverse;
    if u == 1 then
      EuclidEnd(v, g1, g2, op, F());
      g1
    else if Len(u) < Len(v) then
      EuclidSwap(u, v, g1, g2, op, F());
      var j := Len(v) - Len(u);
      EuclidStep(v, u, g2, g1, op, F(), j);
      Euclid(Plus(v, u * Pow2(j)), u, Plus(g2, g1 * Pow2(j)), g1, op)
    else
      var j := Len(u) - Len(v);
      EuclidStep(u, v, g1, g2, op, F(), j);
      Euclid(Plus(u, v * Pow2(j)), v, Plus(g1, g2 * Pow2(j)), g2, op)
  }

  function Inverse(a: Elem): (r: Elem)
    requires a != 0 && Coprime(a, F())
    ensures IsInverse(r, a, F())
  {
    hide Times, Plus, Cong, Coprime, EuclidInv, F;
    ElemShort(a);
    LenTwoConverse(F());
    EuclidStart(a, F());
    Euclid(a, F(), 1, 0, a)
  }

  lemma LenTwoConverse(f: nat)
    requires Len(f) >= 2
    ensures f > 1
  {
  }

  lemma MulInverse(a: Elem)
    requires a != 0 && Coprime(a, F())
    ensures Len(1) == 1 && Mul(Inverse(a), a) == 1 && Mul(a, Inverse(a)) == 1
  {
    SmallElems();
    hide Times, Plus, F, Cong, Len, Mul, Inverse, Coprime;
    var r := Inverse(a);
    CongSym(Times(r, a), 1, F());
    MulIs(1, r, a);
    MulComm(r, a);
  }

  /** The quotient is the only solution of q b = a. */
  function Div(a: Elem, b: Elem): Elem
    requires b != 0 && Coprime(b, F())
  {
    Mul(a, Inverse(b))
  }

  lemma DivIs(q: Elem, a: Elem, b: Elem)
    requires b != 0 && Coprime(b, F())
    ensures q == Div(a, b) <==> Mul(q, b) == a
  {
    hide Times, Plus, F, Cong, Len, Mul, Inverse, Coprime;
    MulInverse(b);
    MulAssoc(q, b, Inverse(b));
    MulAssoc(a, Inverse(b), b);
    MulOne(q);
    MulOne(a);
  }

  /** No zero divisors. */
  lemma MulNonzero(a: Elem, b: Elem)
    requires Irreducible() && a != 0 && b != 0
    ensures Mul(a, b) != 0
  {
    hide Times, Plus, F, Cong, Len, Mul, Inverse, Coprime, Irreducible;
    ElemCoprime(b);
    MulInverse(b);
    MulAssoc(a, b, Inverse(b));
    MulOne(a);
    MulOne(Inverse(b));
  }
}
