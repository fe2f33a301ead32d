/** mds_rem of Twofish.cpp: the remainder modulo g(x) over GF(2^8), section 4.3 of the Twofish paper. */
module TwofishRs {
  import opened Bits
  import opened Buffers
  import opened PackedBytes
  import opened Word32
  import opened GfByte

  lemma IsModulus()
    ensures Modulus(0x14D)
  {
    NineBits(0x14D);
  }

  function Mul(a: byte, b: byte): byte {
    IsModulus();
    MulB(a, b, 0x14D)
  }

  /** a + 1/a for the primitive element a = 2. */
  function Omega(): byte {
    IsModulus();
    Add8(2, Half(1, 0x14D))
  }

  lemma MulZero(a: byte)
    ensures Mul(a, 0) == 0 && Mul(0, a) == 0
  {
    IsModulus();
    MulBUnits(a, 0x14D);
  }

  lemma MulAdd(a: byte, b: byte, c: byte)
    ensures Mul(a, Add8(b, c)) == Add8(Mul(a, b), Mul(a, c))
  {
    IsModulus();
    MulBAdd(a, b, c, 0x14D);
  }

  // ---------------------------------------------------------------- polynomials

  /** Coefficient i, zero outside the range. */
  function At(q: seq<byte>, i: int): byte { if 0 <= i < |q| then q[i] else 0 }

  /** Coefficient j of q times g = x^4 + w x^3 + a x^2 + w x + 1. */
  function TimesG(q: seq<byte>, j: int): byte {
    Add8(Add8(Add8(At(q, j), Mul(Omega(), At(q, j - 1))), Mul(2, At(q, j - 2))),
         Add8(Mul(Omega(), At(q, j - 3)), At(q, j - 4)))
  }

  /** v = q g + r, with q of degree seven and r of degree three. */
  ghost predicate Divides(v: seq<byte>, q: seq<byte>, r: Col)
    requires |v| == 12
  {
    |q| == 8 && forall j :: 0 <= j < 12 ==> v[j] == Add8(TimesG(q, j), At([r.b0, r.b1, r.b2, r.b3], j))
  }

  ghost predicate IsRemainder(v: seq<byte>, r: Col)
    requires |v| == 12
  {
    exists q :: Divides(v, q, r)
  }

  // ---------------------------------------------------------------- synthetic division

  /** What remains of v after i steps: the window of four coefficients below position 12 - i. */
  function Rest(v: seq<byte>, p: Col, i: nat, j: int): byte
    requires |v| == 12 && i <= 8
  {
    if j > 11 - i then 0
    else if j == 11 - i then p.b3
    else if j == 10 - i then p.b2
    else if j == 9 - i then p.b1
    else if j == 8 - i then p.b0
    else At(v, j)
  }

  ghost predicate Partial(v: seq<byte>, q: seq<byte>, p: Col, i: nat)
    requires |v| == 12 && i <= 8
  {
    |q| == 8 && (forall k :: 0 <= k < 8 - i ==> q[k] == 0)
      && forall j :: 0 <= j < 12 ==> v[j] == Add8(TimesG(q, j), Rest(v, p, i, j))
  }

  /** The window after a step: shifted up, with t times w x^3 + a x^2 + w x + 1 removed. */
  function StepCol(p: Col, next: byte): Col {
    Col(Add8(next, p.b3), Add8(p.b0, Mul(Omega(), p.b3)), Add8(p.b1, Mul(2, p.b3)), Add8(p.b2, Mul(Omega(), p.b3)))
  }

  lemma PartialStep(v: seq<byte>, q: seq<byte>, p: Col, i: nat)
    requires |v| == 12 && i < 8 && Partial(v, q, p, i)
    ensures Partial(v, q[7 - i := p.b3], StepCol(p, v[7 - i]), i + 1)
  {
    hide Add8, Mul, Omega;
    var t, m := p.b3, 7 - i;
    var q', p' := q[m := t], StepCol(p, v[m]);
    forall j | 0 <= j < 12 ensures v[j] == Add8(TimesG(q', j), Rest(v, p', i + 1, j)) {
      assert v[j] == Add8(TimesG(q, j), Rest(v, p, i, j));
      SetCoefficient(q, m, t, j);
      StepBalance(TimesG(q, j), Rest(v, p, i, j), Weight(j - m, t));
    }
  }

  /** The multiple of t that coefficient d of g asks for. */
  function Weight(d: int, t: byte): byte {
    if d == 0 || d == 4 then t else if d == 1 || d == 3 then Mul(Omega(), t) else if d == 2 then Mul(2, t) else 0
  }

  /** c + r = (c + w) + (r + w). */
  lemma StepBalance(c: byte, r: byte, w: byte)
    ensures Add8(c, r) == Add8(Add8(c, w), Add8(r, w)) && Add8(w, w) == 0 && Add8(r, 0) == r && Add8(c, 0) == c
  {
    AddExchange(c, w, r, w);
    AddRules(w, w, 0);
    AddRules(r, 0, 0);
    AddRules(c, 0, 0);
    AddRules(Add8(c, r), 0, 0);
  }

  /** Setting a zero coefficient of the quotient adds a shifted multiple of g. */
  lemma SetCoefficient(q: seq<byte>, m: nat, t: byte, j: int)
    requires m < |q| && q[m] == 0
    ensures TimesG(q[m := t], j) == Add8(TimesG(q, j), Weight(j - m, t))
  {
    hide Add8, Mul, Omega;
    MulZero(Omega());
    MulZero(2);
    var a, b, c, d, e :=
      At(q, j), Mul(Omega(), At(q, j - 1)), Mul(2, At(q, j - 2)), Mul(Omega(), At(q, j - 3)), At(q, j - 4);
    FiveTerms(a, b, c, d, e, Weight(j - m, t));
  }

  /** A summand put in the place of a zero. */
  lemma FiveTerms(a: byte, b: byte, c: byte, d: byte, e: byte, w: byte)
    ensures a == 0 ==> Add8(Add8(Add8(w, b), c), Add8(d, e)) == Add8(Add8(Add8(Add8(a, b), c), Add8(d, e)), w)
    ensures b == 0 ==> Add8(Add8(Add8(a, w), c), Add8(d, e)) == Add8(Add8(Add8(Add8(a, b), c), Add8(d, e)), w)
    ensures c == 0 ==> Add8(Add8(Add8(a, b), w), Add8(d, e)) == Add8(Add8(Add8(Add8(a, b), c), Add8(d, e)), w)
    ensures d == 0 ==> Add8(Add8(Add8(a, b), c), Add8(w, e)) == Add8(Add8(Add8(Add8(a, b), c), Add8(d, e)), w)
    ensures e == 0 ==> Add8(Add8(Add8(a, b), c), Add8(d, w)) == Add8(Add8(Add8(Add8(a, b), c), Add8(d, e)), w)
    ensures Add8(Add8(Add8(Add8(a, b), c), Add8(d, e)), 0) == Add8(Add8(Add8(a, b), c), Add8(d, e))
  {
    hide Add8;
    AddRules(w, 0, 0);
    var z, x := Add8(d, e), Add8(Add8(a, b), c);
    AddRules(Add8(x, z), 0, 0);
    Outward(a, w, b);
    Outward(Add8(a, b), w, c);
    Outward(x, w, z);
    AddRules(a, b, w);
    AddRules(Add8(a, b), c, w);
    Outward(d, w, e);
    AddRules(x, z, w);
    AddRules(d, e, w);
  }

  lemma Outward(x: byte, w: byte, y: byte)
    ensures Add8(Add8(x, w), y) == Add8(Add8(x, y), w)
  {
    hide Add8;
    AddRules(x, w, y);
    AddRules(w, y, 0);
    AddRules(x, y, w);
  }

  // ---------------------------------------------------------------- the loop

  /** The low word supplies coefficients 7 - i down to 4 - i, zeros once it is used up. */
  ghost predicate Supply(v: seq<byte>, p: Col, i: nat)
    requires |v| == 12 && i <= 8
  {
    p.b3 == At(v, 7 - i) && p.b2 == At(v, 6 - i) && p.b1 == At(v, 5 - i) && p.b0 == At(v, 4 - i)
  }

  /** The coefficients of M(x) x^4. */
  function Message(p0: word32, p1: word32): (v: seq<byte>)
    ensures |v| == 12
  {
    var l, h := Unpack(p0), Unpack(p1);
    [0, 0, 0, 0, l.b0, l.b1, l.b2, l.b3, h.b0, h.b1, h.b2, h.b3]
  }

  /** mds_rem. */
  method MdsRem(p0: word32, p1: word32) returns (r: word32)
    ensures IsRemainder(Message(p0, p1), Unpack(r))
  {
    hide Unpack, Partial, Supply, StepCol;
    ghost var v: seq<byte>, q: seq<byte> := Message(p0, p1), [0, 0, 0, 0, 0, 0, 0, 0];
    var lo, hi := p0, p1;
    Start(p0, p1);
    for i := 0 to 8
      invariant |q| == 8 && Partial(v, q, Unpack(hi), i) && Supply(v, Unpack(lo), i)
    {
      ghost var p := Unpack(hi);
      PartialStep(v, q, p, i);
      SupplyStep(v, Unpack(lo), i);
      q := q[7 - i := p.b3];
      lo, hi := RemStep(lo, hi);
    }
    Finish(v, q, Unpack(hi));
    r := hi;
  }

  lemma Start(p0: word32, p1: word32)
    ensures Partial(Message(p0, p1), [0, 0, 0, 0, 0, 0, 0, 0], Unpack(p1), 0) && Supply(Message(p0, p1), Unpack(p0), 0)
  {
    hide Unpack, Add8, TimesG;
    var v: seq<byte>, q: seq<byte> := Message(p0, p1), [0, 0, 0, 0, 0, 0, 0, 0];
    forall j | 0 <= j < 12 ensures v[j] == Add8(TimesG(q, j), Rest(v, Unpack(p1), 0, j)) {
      ZeroTimes(q, j);
      AddRules(v[j], 0, 0);
      StartRest(v, Unpack(p1), j);
    }
  }

  lemma StartRest(v: seq<byte>, p: Col, j: nat)
    requires |v| == 12 && v[8] == p.b0 && v[9] == p.b1 && v[10] == p.b2 && v[11] == p.b3 && j < 12
    ensures Rest(v, p, 0, j) == v[j]
  {
  }

  lemma SupplyStep(v: seq<byte>, p: Col, i: nat)
    requires |v| == 12 && i < 8 && Supply(v, p, i) && (forall j :: 0 <= j < 4 ==> v[j] == 0)
    ensures p.b3 == v[7 - i] && Supply(v, Col(0, p.b0, p.b1, p.b2), i + 1)
  {
  }

  lemma Finish(v: seq<byte>, q: seq<byte>, p: Col)
    requires |v| == 12 && Partial(v, q, p, 8)
    ensures IsRemainder(v, p)
  {
    hide Add8, TimesG;
    forall j | 0 <= j < 12 ensures v[j] == Add8(TimesG(q, j), At([p.b0, p.b1, p.b2, p.b3], j)) {
      assert v[j] == Add8(TimesG(q, j), Rest(v, p, 8, j));
    }
    assert Divides(v, q, p);
  }

  /** One turn of the loop, by shifts and exclusive-or on words. */
  method RemStep(p0: word32, p1: word32) returns (lo: word32, hi: word32)
    ensures Unpack(lo) == Col(0, Unpack(p0).b0, Unpack(p0).b1, Unpack(p0).b2)
    ensures Unpack(hi) == StepCol(Unpack(p1), Unpack(p0).b3)
  {
    hide Unpack, Xor, And, Or, Shl32, Shr32, Add8, Mul, Omega;
    ghost var c := Unpack(p1);
    var t := Shr32(p1, 24);
    Top(p1);
    ShiftIn(p1, p0);
    hi := Or32(Shl32(p1, 8), Shr32(p0, 24));
    lo := Shl32(p0, 8);
    TimesA(t);
    var u: byte := if And(t, 0x80) != 0 then Twice(t, true) else Twice(t, false);
    Placed(u);
    Placed(t);
    UnpackXor(hi, Xor32(t, Shl32(u, 16)));
    UnpackXor(t, Shl32(u, 16));
    hi := Xor32(hi, Xor32(t, Shl32(u, 16)));
    var w: byte := Add8(u, Divided(t));
    Sides(w);
    UnpackXor(hi, Or32(Shl32(w, 24), Shl32(w, 8)));
    hi := Xor32(hi, Or32(Shl32(w, 24), Shl32(w, 8)));
    StepSums(c, Unpack(p0).b3, t, u, w);
  }

  /** `t << 1`, with G_MOD subtracted on overflow. */
  function Twice(t: byte, overflow: bool): (u: byte)
    requires overflow <==> t >= 128
    ensures u == Mul(2, t)
  {
    TwiceIs(t);
    if overflow then Xor(2 * t, 0x14D) else 2 * t
  }

  lemma TwiceIs(t: byte)
    ensures Mul(2, t) == if t >= 128 then Xor(2 * t, 0x14D) else 2 * t
  {
    IsModulus();
    Doubling(t, 0x14D);
    XorIsPlus(2 * t, 0x14D);
  }

  lemma TimesA(t: byte)
    ensures And(t, 0x80) != 0 <==> t >= 128
  {
    assert Pow2(7) == 0x80;
    AndComm(t, 0x80);
    BitTest(7, t);
    hide And;
    TopBit(7, t, 0x80);
  }

  /** `t >> 1`, with half of G_MOD added on underflow. */
  function Divided(t: byte): (u: byte)
    ensures u == Mul(Half1(), t)
  {
    DividedIs(t);
    if And(t, 1) != 0 then Add8(t / 2, 0xA6) else t / 2
  }

  function Half1(): byte {
    IsModulus();
    Half(1, 0x14D)
  }

  lemma DividedIs(t: byte)
    ensures (if And(t, 1) != 0 then Add8(t / 2, 0xA6) else t / 2) == Mul(Half1(), t)
  {
    IsModulus();
    assert Pow2(1) == 2;
    AndMask(t, 1);
    hide MulB, And;
    HalfIs(t, 0x14D);
  }

  lemma Top(w: word32)
    ensures Shr32(w, 24) == Unpack(w).b3
  {
    Shifts(w);
  }

  /** The shifted words. */
  lemma ShiftIn(p1: word32, p0: word32)
    ensures Unpack(Or32(Shl32(p1, 8), Shr32(p0, 24))) == Col(Unpack(p0).b3, Unpack(p1).b0, Unpack(p1).b1, Unpack(p1).b2)
    ensures Unpack(Shl32(p0, 8)) == Col(0, Unpack(p0).b0, Unpack(p0).b1, Unpack(p0).b2)
  {
    hide Unpack, Or, Shl32, Shr32;
    var c, d := Unpack(p1), Unpack(p0);
    RotlParts(p1);
    RotlParts(p0);
    Top(p0);
    EightBits();
    Divisible(Shl32(p1, 8), c.b0 + 0x100 * c.b1 + 0x1_0000 * c.b2);
    OrDisjoint(Shl32(p1, 8), Shr32(p0, 24), 8);
    UnpackIs(Shl32(p1, 8) + Shr32(p0, 24), d.b3, c.b0, c.b1, c.b2);
    UnpackIs(Shl32(p0, 8), 0, d.b0, d.b1, d.b2);
  }

  lemma Sides(w: byte)
    ensures Unpack(Or32(Shl32(w, 24), Shl32(w, 8))) == Col(0, w, 0, w)
  {
    Size();
    Pow2Add(16, 8);
    hide Unpack, Or, Pow2;
    assert Shl32(w, 24) == 0x100_0000 * w && Shl32(w, 8) == 0x100 * w;
    DivModUnique(0x100_0000 * w, 0x1_0000, 0x100 * w, 0);
    OrDisjoint(0x100_0000 * w, 0x100 * w, 16);
    UnpackIs(0x100_0000 * w + 0x100 * w, 0, w, 0, w);
  }

  /** The bytes of the new window. */
  lemma StepSums(c: Col, next: byte, t: byte, u: byte, w: byte)
    requires t == c.b3 && u == Mul(2, t) && w == Add8(u, Mul(Half1(), t))
    ensures w == Mul(Omega(), t)
    ensures AddCol(AddCol(Col(next, c.b0, c.b1, c.b2), AddCol(Col(t, 0, 0, 0), Col(0, 0, u, 0))), Col(0, w, 0, w)) ==
      StepCol(c, next)
  {
    OmegaParts(t);
    hide Add8, Mul, Omega, Half1;
    AddRules(t, 0, 0);
    AddRules(u, 0, 0);
    AddRules(0, 0, 0);
    AddRules(c.b0, 0, 0);
    AddRules(c.b2, 0, 0);
    AddRules(Add8(next, t), 0, 0);
    AddRules(Add8(c.b1, u), 0, 0);
  }

  lemma OmegaParts(t: byte)
    ensures Mul(Omega(), t) == Add8(Mul(2, t), Mul(Half1(), t))
  {
    IsModulus();
    hide MulB, Add8, Half;
    MulBAdd(t, 2, Half1(), 0x14D);
  }

  // ---------------------------------------------------------------- uniqueness

  /** The difference of two quotients. */
  function Difference(p: seq<byte>, q: seq<byte>): (d: seq<byte>)
    requires |p| == 8 && |q| == 8
    ensures |d| == 8
  {
    seq(8, i requires 0 <= i < 8 => Add8(p[i], q[i]))
  }

  lemma DifferenceTimes(p: seq<byte>, q: seq<byte>, j: int)
    requires |p| == 8 && |q| == 8
    ensures TimesG(Difference(p, q), j) == Add8(TimesG(p, j), TimesG(q, j))
  {
    hide Add8, Mul, Omega;
    AddRules(0, 0, 0);
    var d, w := Difference(p, q), Omega();
    MulAdd(w, At(p, j - 1), At(q, j - 1));
    MulAdd(2, At(p, j - 2), At(q, j - 2));
    MulAdd(w, At(p, j - 3), At(q, j - 3));
    AddExchange(At(p, j), At(q, j), Mul(w, At(p, j - 1)), Mul(w, At(q, j - 1)));
    AddExchange(Add8(At(p, j), Mul(w, At(p, j - 1))), Add8(At(q, j), Mul(w, At(q, j - 1))), Mul(2, At(p, j - 2)),
      Mul(2, At(q, j - 2)));
    AddExchange(Mul(w, At(p, j - 3)), Mul(w, At(q, j - 3)), At(p, j - 4), At(q, j - 4));
    AddExchange(Add8(Add8(At(p, j), Mul(w, At(p, j - 1))), Mul(2, At(p, j - 2))),
                Add8(Add8(At(q, j), Mul(w, At(q, j - 1))), Mul(2, At(q, j - 2))),
                Add8(Mul(w, At(p, j - 3)), At(p, j - 4)), Add8(Mul(w, At(q, j - 3)), At(q, j - 4)));
  }

  /** The leading coefficient of g is one: a multiple of degree below four is zero. */
  lemma {:induction false} TopZero(d: seq<byte>, n: nat)
    requires |d| == 8 && n <= 8 && (forall j :: 4 <= j < 12 ==> TimesG(d, j) == 0)
      && (forall k :: n <= k < 8 ==> d[k] == 0)
    ensures forall k :: 0 <= k < 8 ==> d[k] == 0
    decreases n
  {
    hide TimesG;
    if n > 0 {
      LeadingTerm(d, n);
      TopZero(d, n - 1);
    }
  }

  lemma LeadingTerm(d: seq<byte>, n: nat)
    requires |d| == 8 && 0 < n <= 8 && (forall k :: n <= k < 8 ==> d[k] == 0)
    ensures TimesG(d, n + 3) == d[n - 1]
  {
    hide Add8, Mul, Omega;
    MulZero(Omega());
    MulZero(2);
    AddRules(0, 0, 0);
    AddRules(d[n - 1], 0, 0);
    assert At(d, n + 3) == 0 && At(d, n + 2) == 0 && At(d, n + 1) == 0 && At(d, n) == 0;
  }

  lemma ZeroTimes(d: seq<byte>, j: int)
    requires forall k :: 0 <= k < |d| ==> d[k] == 0
    ensures TimesG(d, j) == 0
  {
    hide Add8, Mul, Omega;
    MulZero(Omega());
    MulZero(2);
    AddRules(0, 0, 0);
  }

  /** There is one remainder. */
  lemma RemainderUnique(v: seq<byte>, r: Col, s: Col)
    requires |v| == 12 && IsRemainder(v, r) && IsRemainder(v, s)
    ensures r == s
  {
    hide Add8, TimesG;
    var p :| Divides(v, p, r);
    var q :| Divides(v, q, s);
    var d := Difference(p, q);
    var rs: seq<byte>, ss: seq<byte> := [r.b0, r.b1, r.b2, r.b3], [s.b0, s.b1, s.b2, s.b3];
    forall j | 0 <= j < 12 ensures TimesG(d, j) == Add8(At(rs, j), At(ss, j)) {
      DifferenceTimes(p, q, j);
      assert v[j] == Add8(TimesG(p, j), At(rs, j)) && v[j] == Add8(TimesG(q, j), At(ss, j));
      Balance(v[j], TimesG(p, j), At(rs, j), TimesG(q, j), At(ss, j));
    }
    AddRules(0, 0, 0);
    assert forall j :: 4 <= j < 12 ==> TimesG(d, j) == 0;
    TopZero(d, 8);
    forall j | 0 <= j < 4 ensures rs[j] == ss[j] {
      ZeroTimes(d, j);
      SameByZero(rs[j], ss[j]);
    }
    assert rs[0] == ss[0] && rs[1] == ss[1] && rs[2] == ss[2] && rs[3] == ss[3];
  }

  lemma Balance(v: byte, a: byte, r: byte, b: byte, s: byte)
    requires v == Add8(a, r) && v == Add8(b, s)
    ensures Add8(a, b) == Add8(r, s)
  {
    hide Add8;
    AddRules(v, v, 0);
    AddExchange(a, r, b, s);
    AddRules(Add8(a, b), Add8(r, s), 0);
    SameByZero(Add8(a, b), Add8(r, s));
  }

  lemma SameByZero(a: byte, b: byte)
    ensures Add8(a, b) == 0 ==> a == b
  {
    hide Add8;
    AddCancel(a, b);
    AddRules(b, 0, 0);
    AddRules(a, 0, 0);
  }
}
