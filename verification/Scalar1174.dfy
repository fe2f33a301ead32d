/** Scalar multiplication of the Curve1174 engine: the table of small multiples and the window loop. */
module Scalar1174 {
  import opened Bits
  import opened PrimeField
  import opened Edwards
  import opened Formulas
  import opened Multiples
  import opened Limbs1174
  import opened Field1174
  import opened Points1174
  import opened Recoding

  // ---------------------------------------------------------------- the table

  /** e holds k a, with T scaled by s. */
  ghost predicate Entry(e: ECp, k: int, s: int, a: Aff)
    reads e
  {
    e.Is(Times(C, k, a)) && e.HasT(s, Times(C, k, a))
  }

  /** copy and double_3: the entry for 2 k. */
  method EntryDouble(e: ECp, src: ECp, k: int, ghost a: Aff)
    requires e != src && Sound(C) && Associative(C) && On(C, a) && Entry(src, k, 1, a)
    modifies e
    ensures Entry(e, 2 * k, 1, a)
  {
    hide V, Mag, Eq, On, Add, Times, Rep, RepT;
    TimesOn(C, k, a);
    TimesAdd(C, k, k, a);
    e.Copy(src);
    e.Double3(Times(C, k, a));
  }

  /** copy and add_1 of the entry for 1: the entry for k + 1. */
  method EntryNext(e: ECp, src: ECp, one: ECp, k: int, ghost a: Aff)
    requires e != src && e != one && Sound(C) && Associative(C) && On(C, a)
    requires Entry(src, k, 1, a) && Entry(one, 1, C.d, a) && one.Unit()
    modifies e
    ensures Entry(e, k + 1, 1, a)
  {
    hide V, Mag, Eq, On, Add, Times, Rep, RepT;
    TimesOn(C, k, a);
    TimesOn(C, 1, a);
    TimesAdd(C, k, 1, a);
    e.Copy(src);
    e.Add1(one, Times(C, k, a), Times(C, 1, a));
  }

  /** gmuli of T by the curve constant. */
  method Premultiply(e: ECp, ghost k: int, ghost a: Aff)
    requires Entry(e, k, 1, a)
    modifies e`t
    ensures Entry(e, k, C.d, a)
  {
    hide V, Mag, Eq, Times, Scaled, Tight, Rep;
    ghost var q, t0 := Times(C, k, a), V(e.t);
    e.t := Scaled(e.t, -1174);
    var m := q.x * q.y * V(e.z);
    EqScale(-1174, t0, 1 * m, P);
    EqTrans(V(e.t), t0 * -1174, -1174 * m, P);
  }

  ghost predicate Distinct(w: array<ECp>)
    requires w.Length == 9
    reads w
  {
    forall i, j :: 0 <= i < j < 9 ==> w[i] != w[j]
  }

  ghost function Cells(w: array<ECp>): set<object>
    requires w.Length == 9
    reads w
  {
    {w[0], w[1], w[2], w[3], w[4], w[5], w[6], w[7], w[8]}
  }

  /** W[k] = k a for k = 0 .. 8, T premultiplied by the curve constant. */
  method Precomp(p: ECp, w: array<ECp>, ghost a: Aff)
    requires w.Length == 9 && Distinct(w) && p !in Cells(w)
    requires Sound(C) && Associative(C) && On(C, a) && p.Is(a) && p.HasT(1, a) && p.Unit()
    modifies Cells(w)
    ensures forall k :: 0 <= k < 9 ==> Entry(w[k], k, C.d, a)
  {
    hide V, Mag, Eq, On, Add, Times, Rep, RepT, Entry, Sound;
    SmallEntries(w, p, a);
    EntryDouble(w[4], w[2], 2, a);
    EntryNext(w[5], w[4], w[1], 4, a);
    EntryDouble(w[6], w[3], 3, a);
    EntryNext(w[7], w[6], w[1], 6, a);
    EntryDouble(w[8], w[4], 4, a);
    Premultiply(w[2], 2, a);
    Premultiply(w[3], 3, a);
    Premultiply(w[4], 4, a);
    Premultiply(w[5], 5, a);
    Premultiply(w[6], 6, a);
    Premultiply(w[7], 7, a);
    Premultiply(w[8], 8, a);
  }

  /** The entries for 0 to 3; 2 a comes from the doubling that needs Z = 1. */
  method SmallEntries(w: array<ECp>, p: ECp, ghost a: Aff)
    requires w.Length == 9 && Distinct(w) && p !in Cells(w)
    requires Sound(C) && Associative(C) && On(C, a) && p.Is(a) && p.HasT(1, a) && p.Unit()
    modifies w[0], w[1], w[2], w[3]
    ensures Entry(w[0], 0, C.d, a) && Entry(w[1], 1, C.d, a) && w[1].Unit() && Entry(w[2], 2, 1, a)
      && Entry(w[3], 3, 1, a)
  {
    hide V, Mag, Eq, On, Add, Times, Rep, RepT, Sound;
    TimesZero(C, a);
    TimesOne(C, a);
    w[0].Inf();
    w[1].Copy(p);
    Premultiply(w[1], 1, a);
    w[2].Copy(p);
    w[2].Double1(a);
    TimesAdd(C, 1, 1, a);
    EntryNext(w[3], w[2], w[1], 2, a);
  }

  // ---------------------------------------------------------------- the window loop

  lemma SixteenthTimes(m: int, d: int, a: Aff)
    requires Sound(C) && Associative(C) && On(C, a)
    ensures Sixteenth(Times(C, m, a), Times(C, d, a)) == Times(C, d + 16 * m, a)
  {
    hide Sound, On, Add, Times;
    TimesAdd(C, m, m, a);
    TimesAdd(C, 2 * m, 2 * m, a);
    TimesAdd(C, 4 * m, 4 * m, a);
    TimesAdd(C, 8 * m, 8 * m, a);
    TimesAdd(C, 16 * m, d, a);
  }

  /** The negated table entry of a negative digit. */
  lemma SelectedEntry(q: ECp, e: ECp, d: int, a: Aff)
    requires Sound(C) && Associative(C) && On(C, a) && Entry(e, Abs(d), C.d, a)
    requires q.x == (if d < 0 then NegFe(e.x) else e.x) && q.y == e.y && q.z == e.z
    requires q.t == if d < 0 then NegFe(e.t) else e.t
    ensures q.Is(Times(C, d, a)) && q.HasT(C.d, Times(C, d, a))
  {
    hide V, Mag, Eq, On, Add, Times, NegFe, Rep, RepT, Sound;
    if d < 0 {
      var s := Times(C, -d, a);
      NegCorrect(e.x);
      NegCorrect(e.t);
      TimesOn(C, -d, a);
      NegOn(C, s);
      TimesNeg(C, -d, a);
      NegRep(C, C.d, V(e.x), V(e.y), V(e.z), V(e.t), s, Neg(C, s).x);
    }
  }

  /** The table as the window loop uses it. */
  ghost predicate Loaded(tab: array<ECp>, a: Aff)
    reads tab, if tab.Length == 9 then Cells(tab) else {}
  {
    tab.Length == 9 && forall k :: 0 <= k < 9 ==> tab[k] in Cells(tab) && Entry(tab[k], k, C.d, a)
  }

  /** One turn of the window loop: p = 16 p + d a. */
  method Turn(p: ECp, q: ECp, tab: array<ECp>, d: int, ghost m: int, ghost a: Aff)
    requires Sound(C) && Associative(C) && On(C, a) && -8 <= d <= 8
    requires Loaded(tab, a) && p != q && p !in Cells(tab) && q !in Cells(tab)
    requires p.Is(Times(C, m, a))
    modifies p, q
    ensures p.Is(Times(C, d + 16 * m, a))
  {
    hide V, Mag, Eq, On, Add, Times, Rep, RepT, Sound, Entry, Sixteenth;
    q.Select(tab, d);
    SelectedEntry(q, tab[Abs(d)], d, a);
    TimesOn(C, m, a);
    TimesOn(C, d, a);
    p.Window(q, Times(C, m, a), Times(C, d, a));
    SixteenthTimes(m, d, a);
  }

  /** precomp into fresh locals. */
  method LocalTable(p: ECp, ghost a: Aff) returns (tab: array<ECp>, q: ECp)
    requires Sound(C) && Associative(C) && On(C, a) && p.Is(a) && p.HasT(1, a) && p.Unit()
    ensures Loaded(tab, a) && fresh(tab) && fresh(Cells(tab)) && fresh(q) && q !in Cells(tab)
  {
    hide V, Mag, Eq, On, Add, Times, Rep, RepT, Sound, Entry;
    tab, q := NewTable();
    Precomp(p, tab, a);
  }

  /** Multiply p by the number that the digits denote. */
  method MulToProj(w: array<int>, p: ECp, ghost a: Aff)
    requires w.Length == 64 && SignedDigits(w[..]) && w[63] >= 0
    requires Sound(C) && Associative(C) && On(C, a) && p.Is(a) && p.HasT(1, a) && p.Unit()
    modifies p
    ensures p.Is(Times(C, Horner(w[..]), a))
  {
    hide V, Mag, Eq, On, Add, Times, Rep, RepT, Sound, Entry, Horner, Cells, ECp.Is, ECp.HasT, ECp.Unit;
    ghost var ds := w[..];
    var tab, q := LocalTable(p, a);
    LoadTop(p, tab, w[63], a);
    HornerTop(ds);
    hide Loaded;
    var i := 62;
    while i >= 0
      invariant -1 <= i <= 62
      invariant Loaded(tab, a) && p !in Cells(tab) && q !in Cells(tab)
      invariant p.Is(Times(C, Horner(ds[i + 1..]), a))
    {
      HornerStep(ds, i);
      Turn(p, q, tab, w[i], Horner(ds[i + 1..]), a);
      i := i - 1;
    }
    assert i == -1 && ds[0..] == ds && w[..] == ds;
  }

  /** copy of the table entry of the top digit, T still premultiplied. */
  method LoadTop(p: ECp, tab: array<ECp>, d: int, ghost a: Aff)
    requires 0 <= d <= 8 && Loaded(tab, a) && p !in Cells(tab)
    modifies p
    ensures p.Is(Times(C, d, a))
  {
    hide Mag, Rep, RepT, V, Times;
    p.Copy(tab[d]);
    LoadEntry(p, tab[d], d, a);
  }

  lemma LoadEntry(p: ECp, e: ECp, k: int, a: Aff)
    requires Entry(e, k, C.d, a) && p.x == e.x && p.y == e.y && p.z == e.z
    ensures p.Is(Times(C, k, a))
  {
  }

  /** The uninitialised locals W and Q. */
  method NewTable() returns (w: array<ECp>, q: ECp)
    ensures w.Length == 9 && Distinct(w) && fresh(w) && fresh(Cells(w)) && fresh(q) && q !in Cells(w)
    ensures forall k :: 0 <= k < 9 ==> w[k] in Cells(w)
  {
    var cells: seq<ECp> := [];
    while |cells| < 9
      invariant |cells| <= 9 && fresh(cells)
      invariant forall i, j :: 0 <= i < j < |cells| ==> cells[i] != cells[j]
    {
      var e := new ECp();
      cells := cells + [e];
    }
    w := new ECp[9](i requires 0 <= i < 9 => cells[i]);
    q := new ECp();
  }
}
