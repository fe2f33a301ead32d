/** Columns of the AES state, sections 5.1.3 and 5.3.3 of FIPS 197. */
module AesColumns {
  import opened Bits
  import opened Buffers
  import opened PackedBytes
  import opened Gf256

  /** (w0 a + w1 b) + (w2 c + w3 d). */
  function Dot(w0: byte, w1: byte, w2: byte, w3: byte, x: Col): byte {
    Add8(Add8(Mul8(w0, x.b0), Mul8(w1, x.b1)), Add8(Mul8(w2, x.b2), Mul8(w3, x.b3)))
  }

  function MixColumn(x: Col): Col {
    Col(Dot(2, 3, 1, 1, x), Dot(1, 2, 3, 1, x), Dot(1, 1, 2, 3, x), Dot(3, 1, 1, 2, x))
  }

  function InvMixColumn(x: Col): Col {
    Col(Dot(0x0E, 0x0B, 0x0D, 9, x), Dot(9, 0x0E, 0x0B, 0x0D, x), Dot(0x0D, 9, 0x0E, 0x0B, x),
      Dot(0x0B, 0x0D, 9, 0x0E, x))
  }

  // ---------------------------------------------------------------- sums

  /** A weighted sum of a sum. */
  lemma DotAdd(w0: byte, w1: byte, w2: byte, w3: byte, x: Col, y: Col)
    ensures Dot(w0, w1, w2, w3, AddCol(x, y)) == Add8(Dot(w0, w1, w2, w3, x), Dot(w0, w1, w2, w3, y))
  {
    hide Mul8, Add8;
    Mul8Add(w0, x.b0, y.b0);
    Mul8Add(w1, x.b1, y.b1);
    Mul8Add(w2, x.b2, y.b2);
    Mul8Add(w3, x.b3, y.b3);
    AddExchange(Mul8(w0, x.b0), Mul8(w0, y.b0), Mul8(w1, x.b1), Mul8(w1, y.b1));
    AddExchange(Mul8(w2, x.b2), Mul8(w2, y.b2), Mul8(w3, x.b3), Mul8(w3, y.b3));
    AddExchange(Add8(Mul8(w0, x.b0), Mul8(w1, x.b1)), Add8(Mul8(w0, y.b0), Mul8(w1, y.b1)),
                Add8(Mul8(w2, x.b2), Mul8(w3, x.b3)), Add8(Mul8(w2, y.b2), Mul8(w3, y.b3)));
  }

  /** Inverse mixing is linear. */
  lemma InvMixAdd(x: Col, y: Col)
    ensures InvMixColumn(AddCol(x, y)) == AddCol(InvMixColumn(x), InvMixColumn(y))
  {
    hide Dot, Add8;
    DotAdd(0x0E, 0x0B, 0x0D, 9, x, y);
    DotAdd(9, 0x0E, 0x0B, 0x0D, x, y);
    DotAdd(0x0D, 9, 0x0E, 0x0B, x, y);
    DotAdd(0x0B, 0x0D, 9, 0x0E, x, y);
  }

  // ---------------------------------------------------------------- the product of the matrices

  /** The weight that a row (e) gives to an input whose column of weights is (m). */
  function Weight(e0: byte, e1: byte, e2: byte, e3: byte, m0: byte, m1: byte, m2: byte, m3: byte): byte {
    Add8(Add8(Mul8(e0, m0), Mul8(e1, m1)), Add8(Mul8(e2, m2), Mul8(e3, m3)))
  }

  /** A weighted sum of one multiple. */
  lemma DotScale(e0: byte, e1: byte, e2: byte, e3: byte, m0: byte, m1: byte, m2: byte, m3: byte, a: byte)
    ensures Dot(e0, e1, e2, e3, Col(Mul8(m0, a), Mul8(m1, a), Mul8(m2, a), Mul8(m3, a)))
         == Mul8(Weight(e0, e1, e2, e3, m0, m1, m2, m3), a)
  {
    hide Mul8, Add8;
    Mul8Assoc(e0, m0, a);
    Mul8Assoc(e1, m1, a);
    Mul8Assoc(e2, m2, a);
    Mul8Assoc(e3, m3, a);
    Mul8Add(a, Mul8(e0, m0), Mul8(e1, m1));
    Mul8Add(a, Mul8(e2, m2), Mul8(e3, m3));
    Mul8Add(a, Add8(Mul8(e0, m0), Mul8(e1, m1)), Add8(Mul8(e2, m2), Mul8(e3, m3)));
  }

  lemma CoefficientSums0()
    ensures Add8(4, 4) == 0 && Add8(5, 5) == 0 && Add8(6, 7) == 1 && Add8(7, 6) == 1 && Add8(7, 7) == 0
    ensures Add8(9, 0x0E) == 7 && Add8(9, 0x12) == 0x1B && Add8(0x0B, 0x0D) == 6 && Add8(0x0B, 0x16) == 0x1D
  {
    XorTiny();
    hide Xor;
    XorUp(2, 2, 0, 0, 0);
    XorIsPlus(4, 4);
    XorUp(2, 2, 0, 1, 1);
    XorIsPlus(5, 5);
    XorUp(3, 3, 0, 0, 1);
    XorIsPlus(6, 7);
    XorUp(3, 3, 0, 1, 0);
    XorIsPlus(7, 6);
    XorUp(3, 3, 0, 1, 1);
    XorIsPlus(7, 7);
    XorUp(2, 3, 1, 0, 1);
    XorUp(4, 7, 3, 1, 0);
    XorIsPlus(9, 0x0E);
    XorUp(1, 2, 3, 0, 0);
    XorUp(2, 4, 6, 0, 1);
    XorUp(4, 9, 0x0D, 1, 0);
    XorIsPlus(9, 0x12);
    XorUp(2, 3, 1, 1, 0);
    XorUp(5, 6, 3, 1, 1);
    XorIsPlus(0x0B, 0x0D);
    XorUp(1, 2, 3, 0, 1);
    XorUp(2, 5, 7, 1, 1);
    XorUp(5, 0x0B, 0x0E, 1, 0);
    XorIsPlus(0x0B, 0x16);
  }

  lemma CoefficientSums1()
    ensures Add8(0x0B, 0x17) == 0x1C && Add8(0x0D, 9) == 4 && Add8(0x0D, 0x1A) == 0x17 && Add8(0x0D, 0x1B) == 0x16
      && Add8(0x0E, 0x0B) == 5
    ensures Add8(0x0E, 0x1C) == 0x12 && Add8(0x0E, 0x1D) == 0x13 && Add8(0x12, 0x0E) == 0x1C && Add8(0x12, 0x16) == 4
  {
    XorTiny();
    hide Xor;
    XorUp(1, 2, 3, 0, 1);
    XorUp(2, 5, 7, 1, 1);
    XorUp(5, 0x0B, 0x0E, 1, 1);
    XorIsPlus(0x0B, 0x17);
    XorUp(3, 2, 1, 0, 0);
    XorUp(6, 4, 2, 1, 1);
    XorIsPlus(0x0D, 9);
    XorUp(1, 3, 2, 1, 0);
    XorUp(3, 6, 5, 0, 1);
    XorUp(6, 0x0D, 0x0B, 1, 0);
    XorIsPlus(0x0D, 0x1A);
    XorUp(6, 0x0D, 0x0B, 1, 1);
    XorIsPlus(0x0D, 0x1B);
    XorUp(3, 2, 1, 1, 1);
    XorUp(7, 5, 2, 0, 1);
    XorIsPlus(0x0E, 0x0B);
    XorUp(1, 3, 2, 1, 1);
    XorUp(3, 7, 4, 1, 0);
    XorUp(7, 0x0E, 9, 0, 0);
    XorIsPlus(0x0E, 0x1C);
    XorUp(7, 0x0E, 9, 0, 1);
    XorIsPlus(0x0E, 0x1D);
    XorUp(2, 1, 3, 0, 1);
    XorUp(4, 3, 7, 1, 1);
    XorUp(9, 7, 0x0E, 0, 0);
    XorIsPlus(0x12, 0x0E);
    XorUp(2, 2, 0, 0, 1);
    XorUp(4, 5, 1, 1, 1);
    XorUp(9, 0x0B, 2, 0, 0);
    XorIsPlus(0x12, 0x16);
  }

  lemma CoefficientSums2()
    ensures Add8(0x13, 0x13) == 0 && Add8(0x16, 0x0D) == 0x1B && Add8(0x16, 0x17) == 1 && Add8(0x17, 0x12) == 5
      && Add8(0x17, 0x16) == 1
    ensures Add8(0x1A, 9) == 0x13 && Add8(0x1B, 0x1B) == 0 && Add8(0x1B, 0x1C) == 7 && Add8(0x1C, 0x0B) == 0x17
  {
    XorTiny();
    hide Xor;
    XorUp(2, 2, 0, 0, 0);
    XorUp(4, 4, 0, 1, 1);
    XorUp(9, 9, 0, 1, 1);
    XorIsPlus(0x13, 0x13);
    XorUp(2, 1, 3, 1, 1);
    XorUp(5, 3, 6, 1, 0);
    XorUp(0x0B, 6, 0x0D, 0, 1);
    XorIsPlus(0x16, 0x0D);
    XorUp(2, 2, 0, 1, 1);
    XorUp(5, 5, 0, 1, 1);
    XorUp(0x0B, 0x0B, 0, 0, 1);
    XorIsPlus(0x16, 0x17);
    XorUp(2, 2, 0, 1, 0);
    XorUp(5, 4, 1, 1, 1);
    XorUp(0x0B, 9, 2, 1, 0);
    XorIsPlus(0x17, 0x12);
    XorUp(0x0B, 0x0B, 0, 1, 0);
    XorIsPlus(0x17, 0x16);
    XorUp(3, 1, 2, 0, 0);
    XorUp(6, 2, 4, 1, 0);
    XorUp(0x0D, 4, 9, 0, 1);
    XorIsPlus(0x1A, 9);
    XorUp(3, 3, 0, 0, 0);
    XorUp(6, 6, 0, 1, 1);
    XorUp(0x0D, 0x0D, 0, 1, 1);
    XorIsPlus(0x1B, 0x1B);
    XorUp(3, 3, 0, 0, 1);
    XorUp(6, 7, 1, 1, 0);
    XorUp(0x0D, 0x0E, 3, 1, 0);
    XorIsPlus(0x1B, 0x1C);
    XorUp(3, 1, 2, 1, 0);
    XorUp(7, 2, 5, 0, 1);
    XorUp(0x0E, 5, 0x0B, 0, 1);
    XorIsPlus(0x1C, 0x0B);
  }

  lemma CoefficientSums3()
    ensures Add8(0x1C, 0x1C) == 0 && Add8(0x1D, 0x1A) == 7
  {
    XorTiny();
    hide Xor;
    XorUp(3, 3, 0, 1, 1);
    XorUp(7, 7, 0, 0, 0);
    XorUp(0x0E, 0x0E, 0, 0, 0);
    XorIsPlus(0x1C, 0x1C);
    XorUp(3, 3, 0, 1, 0);
    XorUp(7, 6, 1, 0, 1);
    XorUp(0x0E, 0x0D, 3, 1, 0);
    XorIsPlus(0x1D, 0x1A);
  }

  /** The products of the coefficients of the two matrices. */
  lemma CoefficientProducts()
    ensures Mul8(0x0E, 1) == 0x0E && Mul8(0x0E, 2) == 0x1C && Mul8(0x0E, 3) == 0x12
    ensures Mul8(0x0B, 1) == 0x0B && Mul8(0x0B, 2) == 0x16 && Mul8(0x0B, 3) == 0x1D
    ensures Mul8(0x0D, 1) == 0x0D && Mul8(0x0D, 2) == 0x1A && Mul8(0x0D, 3) == 0x17
    ensures Mul8(9, 1) == 9 && Mul8(9, 2) == 0x12 && Mul8(9, 3) == 0x1B
  {
    hide Mul8, Add8;
    CoefficientSums0(); CoefficientSums1(); CoefficientSums2(); CoefficientSums3();
    OnePlusTwo();
    Doubled(0x0E);
    Mul8Units(0x0E);
    Mul8Add(0x0E, 1, 2);
    Doubled(0x0B);
    Mul8Units(0x0B);
    Mul8Add(0x0B, 1, 2);
    Doubled(0x0D);
    Mul8Units(0x0D);
    Mul8Add(0x0D, 1, 2);
    Doubled(9);
    Mul8Units(9);
    Mul8Add(9, 1, 2);
  }

  /** The products of the two matrices: the rows of the identity. */
  lemma Identity()
    ensures Weight(0x0E, 0x0B, 0x0D, 9, 2, 1, 1, 3) == 1
    ensures Weight(0x0E, 0x0B, 0x0D, 9, 3, 2, 1, 1) == 0
    ensures Weight(0x0E, 0x0B, 0x0D, 9, 1, 3, 2, 1) == 0
    ensures Weight(0x0E, 0x0B, 0x0D, 9, 1, 1, 3, 2) == 0
    ensures Weight(9, 0x0E, 0x0B, 0x0D, 2, 1, 1, 3) == 0
    ensures Weight(9, 0x0E, 0x0B, 0x0D, 3, 2, 1, 1) == 1
    ensures Weight(9, 0x0E, 0x0B, 0x0D, 1, 3, 2, 1) == 0
    ensures Weight(9, 0x0E, 0x0B, 0x0D, 1, 1, 3, 2) == 0
    ensures Weight(0x0D, 9, 0x0E, 0x0B, 2, 1, 1, 3) == 0
    ensures Weight(0x0D, 9, 0x0E, 0x0B, 3, 2, 1, 1) == 0
    ensures Weight(0x0D, 9, 0x0E, 0x0B, 1, 3, 2, 1) == 1
    ensures Weight(0x0D, 9, 0x0E, 0x0B, 1, 1, 3, 2) == 0
    ensures Weight(0x0B, 0x0D, 9, 0x0E, 2, 1, 1, 3) == 0
    ensures Weight(0x0B, 0x0D, 9, 0x0E, 3, 2, 1, 1) == 0
    ensures Weight(0x0B, 0x0D, 9, 0x0E, 1, 3, 2, 1) == 0
    ensures Weight(0x0B, 0x0D, 9, 0x0E, 1, 1, 3, 2) == 1
  {
    hide Mul8, Add8;
    CoefficientProducts();
    CoefficientSums0(); CoefficientSums1(); CoefficientSums2(); CoefficientSums3();
  }

  /** The column that input byte j contributes to a mixed column. */
  function Share(m0: byte, m1: byte, m2: byte, m3: byte, a: byte): Col {
    Col(Mul8(m0, a), Mul8(m1, a), Mul8(m2, a), Mul8(m3, a))
  }

  function Shares(x: Col): Col {
    AddCol(AddCol(Share(2, 1, 1, 3, x.b0), Share(3, 2, 1, 1, x.b1)),
      AddCol(Share(1, 3, 2, 1, x.b2), Share(1, 1, 3, 2, x.b3)))
  }

  lemma MixIsShares(x: Col)
    ensures MixColumn(x) == Shares(x)
  {
    hide Mul8, Add8;
  }

  /** A row of the inverse matrix applied to a mixed column. */
  lemma RowOfMixed(e0: byte, e1: byte, e2: byte, e3: byte, x: Col)
    ensures Dot(e0, e1, e2, e3, MixColumn(x))
         == Add8(Add8(Mul8(Weight(e0, e1, e2, e3, 2, 1, 1, 3), x.b0), Mul8(Weight(e0, e1, e2, e3, 3, 2, 1, 1), x.b1)),
                 Add8(Mul8(Weight(e0, e1, e2, e3, 1, 3, 2, 1), x.b2), Mul8(Weight(e0, e1, e2, e3, 1, 1, 3, 2), x.b3)))
  {
    MixIsShares(x);
    hide Mul8, Add8, Dot, MixColumn, Weight, AddCol;
    var s0, s1, s2, s3 :=
      Share(2, 1, 1, 3, x.b0), Share(3, 2, 1, 1, x.b1), Share(1, 3, 2, 1, x.b2), Share(1, 1, 3, 2, x.b3);
    DotAdd(e0, e1, e2, e3, AddCol(s0, s1), AddCol(s2, s3));
    DotAdd(e0, e1, e2, e3, s0, s1);
    DotAdd(e0, e1, e2, e3, s2, s3);
    DotScale(e0, e1, e2, e3, 2, 1, 1, 3, x.b0);
    DotScale(e0, e1, e2, e3, 3, 2, 1, 1, x.b1);
    DotScale(e0, e1, e2, e3, 1, 3, 2, 1, x.b2);
    DotScale(e0, e1, e2, e3, 1, 1, 3, 2, x.b3);
  }

  /** The inverse matrix undoes the mixing. */
  lemma MixInverse(x: Col)
    ensures InvMixColumn(MixColumn(x)) == x
  {
    hide Mul8, Add8, Dot, MixColumn, Weight;
    Identity();
    RowOfMixed(0x0E, 0x0B, 0x0D, 9, x);
    RowOfMixed(9, 0x0E, 0x0B, 0x0D, x);
    RowOfMixed(0x0D, 9, 0x0E, 0x0B, x);
    RowOfMixed(0x0B, 0x0D, 9, 0x0E, x);
    Mul8Units(x.b0);
    Mul8Units(x.b1);
    Mul8Units(x.b2);
    Mul8Units(x.b3);
    AddRules(x.b0, 0, 0);
    AddRules(x.b1, 0, 0);
    AddRules(x.b2, 0, 0);
    AddRules(x.b3, 0, 0);
    AddRules(0, 0, 0);
  }
}
