/** The signed-window recoding of scalars, shared by the two curve engines. */
module Recoding {
  import opened Bits

  type byte = x: int | 0 <= x < 256

  // ---------------------------------------------------------------- recoding

  /** The number that bytes denote, least significant first. */
  function Bytes(s: seq<int>): int {
    if s == [] then 0 else s[0] + 256 * Bytes(s[1..])
  }

  /** The Horner value of base-16 digits, least significant first. */
  function Horner(s: seq<int>): int {
    if s == [] then 0 else s[0] + 16 * Horner(s[1..])
  }

  ghost predicate SignedDigits(s: seq<int>) {
    forall i :: 0 <= i < |s| ==> -8 <= s[i] <= 7
  }

  function Pow16(n: nat): (p: int) ensures p >= 1 { if n == 0 then 1 else 16 * Pow16(n - 1) }

  /** The scalars that n digits can represent: at most n hexadecimal sevens. */
  predicate Recodable(v: int, n: nat) { 15 * v <= 7 * (Pow16(n) - 1) }

  /** `cy = v >> 3; cy |= cy >> 1; cy &= 1`. */
  function CarryOf(v: int): int {
    And(Or(v / 8, v / 8 / 2), 1)
  }

  lemma CarryTable(v: int)
    requires 0 <= v <= 16
    ensures CarryOf(v) == if v >= 8 then 1 else 0
  {
    FoldCarry(v / 8);
  }

  lemma FoldCarry(c: int)
    requires 0 <= c <= 2
    ensures And(Or(c, c / 2), 1) == if c == 0 then 0 else 1
  {
    if c == 2 {
      assert And(-3, -2) == 2 * And(-2, -1) + 0;
      assert Or(2, 1) == 3;
      assert And(3, 1) == 2 * And(1, 0) + 1;
    }
  }

  lemma {:induction false} HornerAppend(s: seq<int>, d: int)
    ensures Horner(s + [d]) == Horner(s) + Pow16(|s|) * d
  {
    if s == [] {
      assert s + [d] == [d];
      assert [d][1..] == [];
      assert Horner([d]) == d + 16 * Horner([]);
    } else {
      HornerAppend(s[1..], d);
      assert (s + [d])[1..] == s[1..] + [d];
      var q := Pow16(|s| - 1);
      assert 16 * (q * d) == 16 * q * d;
    }
  }

  lemma {:induction false} BytesAppend(s: seq<int>, b: int)
    ensures Bytes(s + [b]) == Bytes(s) + Pow16(2 * |s|) * b
  {
    if s == [] {
      assert s + [b] == [b];
      assert [b][1..] == [];
      assert Bytes([b]) == b + 256 * Bytes([]);
    } else {
      BytesAppend(s[1..], b);
      assert (s + [b])[1..] == s[1..] + [b];
      assert Pow16(2 * |s|) == 16 * (16 * Pow16(2 * (|s| - 1)));
      var q := Pow16(2 * (|s| - 1));
      assert 256 * (q * b) == 256 * q * b;
    }
  }

  /** n signed digits stay strictly inside +-16^n, and at most 7/15 (16^n - 1) above zero. */
  lemma {:induction false} HornerRange(s: seq<int>)
    requires SignedDigits(s)
    ensures -8 * (Pow16(|s|) - 1) <= 15 * Horner(s) <= 7 * (Pow16(|s|) - 1)
  {
    if s != [] { HornerRange(s[1..]); }
  }

  /** Recode n bytes as 2 n digits in [-8, 7]. The carry out of the last digit is lost: the
      digits denote the scalar exactly when it is at most 7 (16^(2 n) - 1) / 15. */
  method Win4(nv: array<byte>, w: array<int>)
    requires w.Length == 2 * nv.Length
    modifies w
    ensures SignedDigits(w[..])
    ensures Horner(w[..]) == Bytes(nv[..]) <==> Recodable(Bytes(nv[..]), w.Length)
    ensures Horner(w[..]) == Bytes(nv[..]) || Horner(w[..]) == Bytes(nv[..]) - Pow16(w.Length)
  {
    hide Bytes, Horner, Pow16;
    var ix, jx, cy := 0, 0, 0;
    RecodedEmpty();
    assert nv[..0] == [] && w[..0] == [];
    while ix < w.Length
      invariant 0 <= ix <= w.Length && ix == 2 * jx && (cy == 0 || cy == 1)
      invariant SignedDigits(w[..ix])
      invariant Recoded(nv[..jx], w[..ix], cy)
    {
      var byt := nv[jx];
      ghost var pre := w[..ix];
      var v, c1 := Digit(cy, byt % 16);
      w[ix] := v;
      var v2, c2 := Digit(c1, byt / 16);
      w[ix + 1] := v2;
      assert nv[..jx + 1] == nv[..jx] + [byt];
      assert w[..ix + 2] == pre + [v] + [v2];
      RecodedStep(nv[..jx], pre, cy, byt, v, c1, v2, c2);
      cy := c2;
      ix, jx := ix + 2, jx + 1;
    }
    assert w[..w.Length] == w[..] && nv[..nv.Length] == nv[..];
    RecodedAll(nv[..], w[..], cy);
  }

  /** The digits made from the first bytes, with the pending carry. */
  ghost predicate Recoded(bs: seq<int>, ds: seq<int>, cy: int) {
    |ds| == 2 * |bs| && Bytes(bs) == Horner(ds) + Pow16(|ds|) * cy
  }

  lemma RecodedEmpty()
    ensures Recoded([], [], 0)
  {
  }

  lemma RecodedStep(bs: seq<int>, ds: seq<int>, cy: int, byt: int, v: int, c1: int, v2: int, c2: int)
    requires Recoded(bs, ds, cy)
    requires v + 16 * c1 == cy + byt % 16 && v2 + 16 * c2 == c1 + byt / 16
    ensures Recoded(bs + [byt], ds + [v] + [v2], c2)
  {
    HornerAppend(ds, v);
    HornerAppend(ds + [v], v2);
    BytesAppend(bs, byt);
    var q := Pow16(|ds|);
    assert Pow16(|ds| + 1) == 16 * q && Pow16(|ds| + 2) == 16 * (16 * q);
    PairStep(Bytes(bs), Horner(ds), q, cy, byt, v, c1, v2, c2);
  }

  lemma RecodedAll(bs: seq<int>, ds: seq<int>, cy: int)
    requires Recoded(bs, ds, cy) && SignedDigits(ds) && (cy == 0 || cy == 1)
    ensures Horner(ds) == Bytes(bs) <==> Recodable(Bytes(bs), |ds|)
    ensures Horner(ds) == Bytes(bs) || Horner(ds) == Bytes(bs) - Pow16(|ds|)
  {
    hide Bytes, Horner, Pow16;
    HornerRange(ds);
  }

  lemma PairStep(n: int, h: int, q: int, c: int, byt: int, v: int, c1: int, v2: int, c2: int)
    requires n == h + q * c && v + 16 * c1 == c + byt % 16 && v2 + 16 * c2 == c1 + byt / 16
    ensures n + q * byt == h + q * v + 16 * q * v2 + 16 * (16 * q) * c2
  {
    assert byt == byt % 16 + 16 * (byt / 16);
    assert v + 16 * v2 + 256 * c2 == c + byt;
    assert q * (v + 16 * v2 + 256 * c2) == q * v + 16 * q * v2 + 256 * q * c2;
    assert q * (c + byt) == q * c + q * byt;
  }

  /** One nibble plus carry, as a signed digit and the next carry. */
  method Digit(cy: int, nibble: int) returns (v: int, c: int)
    requires (cy == 0 || cy == 1) && 0 <= nibble < 16
    ensures -8 <= v <= 7 && (c == 0 || c == 1) && v + 16 * c == cy + nibble
  {
    v := cy + nibble;
    c := v / 8;
    c := Or(c, c / 2);
    c := And(c, 1);
    CarryTable(v);
    v := v - 16 * c;
  }

  lemma HornerTop(s: seq<int>)
    requires s != []
    ensures Horner(s[|s| - 1..]) == s[|s| - 1]
  {
    var t := s[|s| - 1..];
    assert t == [s[|s| - 1]] && t[1..] == [];
    assert Horner([]) == 0;
  }

  lemma HornerStep(s: seq<int>, i: int)
    requires 0 <= i < |s|
    ensures Horner(s[i..]) == s[i] + 16 * Horner(s[i + 1..])
  {
    assert s[i..][1..] == s[i + 1..];
  }

  /** Every scalar below the order of its group can be recoded: the order of Curve1174 is below
      2^252, that of the 336-bit curve below 2^334. */
  lemma ScalarsRecodable(v: int)
    ensures v < 0x1000000000000000000000000000000000000000000000000000000000000000 ==> Recodable(v, 64)
    ensures v < 0x400000000000000000000000000000000000000000000000000000000000000000000000000000000000 ==>
      Recodable(v, 84)
  {
    LargePowers();
    assert Pow16(64) == 16 * Pow16(63) && Pow16(84) == 16 * Pow16(83);
    hide Pow16;
  }

  lemma LargePowers()
    ensures Pow16(63) == 0x1000000000000000000000000000000000000000000000000000000000000000
    ensures Pow16(83) == 0x100000000000000000000000000000000000000000000000000000000000000000000000000000000000
  {
    SmallPowers();
    hide Pow16;
    Pow16Add(9, 9);
    Pow16Add(18, 2);
    Pow16Add(18, 18);
    Pow16Add(36, 18);
    Pow16Add(54, 9);
    Pow16Add(63, 20);
  }

  lemma SmallPowers()
    ensures Pow16(2) == 0x100 && Pow16(9) == 0x1000000000
  {
  }

  lemma {:induction false} Pow16Add(m: nat, n: nat)
    ensures Pow16(m + n) == Pow16(m) * Pow16(n)
  {
    if m > 0 {
      Pow16Add(m - 1, n);
      assert 16 * (Pow16(m - 1) * Pow16(n)) == 16 * Pow16(m - 1) * Pow16(n);
    }
  }

  lemma TopDigit(s: seq<int>)
    requires s != [] && SignedDigits(s) && Horner(s) >= 0
    ensures s[|s| - 1] >= 0
  {
    hide Horner, Pow16;
    var low, d := s[..|s| - 1], s[|s| - 1];
    assert s == low + [d];
    HornerAppend(low, d);
    HornerRange(low);
    TopSign(Pow16(|low|), Horner(low), d);
  }

  lemma TopSign(q: int, low: int, d: int)
    requires q >= 1 && 15 * low <= 7 * (q - 1) && low + q * d >= 0
    ensures d >= 0
  {
    assert d >= 0 || q * (d + 1) <= 0;
  }

  lemma {:induction false} BytesNonNegative(s: seq<int>)
    requires forall i :: 0 <= i < |s| ==> s[i] >= 0
    ensures Bytes(s) >= 0
  {
    if s != [] { BytesNonNegative(s[1..]); }
  }

  /** Recode a scalar for the window loop. */
  method Recode(nv: array<byte>) returns (w: array<int>)
    requires nv.Length > 0 && Recodable(Bytes(nv[..]), 2 * nv.Length)
    ensures fresh(w) && w.Length == 2 * nv.Length && SignedDigits(w[..]) && w[w.Length - 1] >= 0
    ensures Horner(w[..]) == Bytes(nv[..])
  {
    hide Bytes, Horner, Pow16, Recodable;
    w := new int[2 * nv.Length];
    Win4(nv, w);
    BytesNonNegative(nv[..]);
    TopDigit(w[..]);
  }
}
