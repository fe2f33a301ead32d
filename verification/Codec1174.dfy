/** Field elements as four consecutive little-endian 64-bit words. */
module Codec1174 {
  import opened Bits
  import opened Limbs1174
  import WordBuffers = Words

  type uint64 = x: int | 0 <= x < 0x1_0000_0000_0000_0000

  datatype Words = Words(w0: int, w1: int, w2: int, w3: int)

  function W(a: array<uint64>): Words
    requires a.Length == 4
    reads a
  {
    Words(a[0], a[1], a[2], a[3])
  }

  /** The integer that the words denote. */
  function WV(w: Words): int {
    w.w0 + w.w1 * 0x10000000000000000 + w.w2 * 0x100000000000000000000000000000000
      + w.w3 * 0x1000000000000000000000000000000000000000000000000
  }

  /** That is the little-endian number of the buffer. */
  lemma WordsValue(a: array<uint64>)
    requires a.Length == 4
    ensures WV(W(a)) == WordBuffers.LE(a[..])
  {
    var s: seq<WordBuffers.word> := a[..];
    hide WordBuffers.LE;
    WordBuffers.LEFirst(s);
    WordBuffers.LEFirst(s[1..]);
    WordBuffers.LEFirst(s[2..]);
    WordBuffers.LEFirst(s[3..]);
    WordBuffers.LENone(s[4..]);
    assert s[1..][1..] == s[2..] && s[2..][1..] == s[3..] && s[3..][1..] == s[4..];
  }

  predicate Word(x: int) { 0 <= x < 0x1_0000_0000_0000_0000 }

  predicate Proper(w: Words) { Word(w.w0) && Word(w.w1) && Word(w.w2) && Word(w.w3) }

  /** `x << k` on uint64_t, with the shifted-out bits lost. */
  function Shl(x: int, k: nat): int { (x * Pow2(k)) % 0x1_0000_0000_0000_0000 }

  /** `x >> k` on uint64_t. */
  function Shr(x: int, k: nat): int { x / Pow2(k) }

  // ---------------------------------------------------------------- splicing two words

  /** `(t << k) | b` with b below 2^k: the low 64 - k bits of t above b. */
  lemma Splice(t: int, b: int, k: nat)
    requires k <= 64 && Word(t) && 0 <= b < Pow2(k)
    ensures Or(Shl(t, k), b) == b + (t % Pow2(64 - k)) * Pow2(k)
  {
    hide Pow2, Or;
    var m, n := Pow2(k), Pow2(64 - k);
    Pow2Add(k, 64 - k);
    Pow2Of64();
    ShiftedOut(t, n, m);
    MultipleMod(t % n, m);
    OrDisjoint((t % n) * m, b, k);
  }

  lemma ShiftedOut(t: int, n: int, m: int)
    requires t >= 0 && n >= 1 && m >= 1 && n * m == m * n
    ensures (t * m) % (m * n) == (t % n) * m
  {
    var q, r := t / n, t % n;
    ShiftForm(t, n, m, q, r);
    ScaleBelow(r, n, m);
    assert n * m >= 1;
    DivModUnique(t * m, n * m, q, r * m);
  }

  lemma ShiftForm(t: int, n: int, m: int, q: int, r: int)
    requires t == n * q + r
    ensures t * m == (n * m) * q + r * m
  {
  }

  lemma ScaleBelow(r: int, n: int, m: int)
    requires 0 <= r < n && m >= 1
    ensures 0 <= r * m < n * m
  {
  }

  lemma MultipleMod(r: int, m: int)
    requires m >= 1
    ensures (r * m) % m == 0
  {
    DivModUnique(r * m, m, r, 0);
  }

  lemma Pow2Of64()
    ensures Pow2(64) == 0x1_0000_0000_0000_0000
  {
    hide Pow2;
    ByteBits();
    Pow2Add(8, 8);
    Pow2Add(16, 16);
    Pow2Add(32, 32);
  }

  lemma Pow2Table()
    ensures Pow2(12) == 0x1000 && Pow2(13) == 0x2000 && Pow2(25) == 0x2000000 && Pow2(26) == 0x4000000
    ensures Pow2(38) == 0x4000000000 && Pow2(39) == 0x8000000000 && Pow2(51) == 0x8000000000000
      && Pow2(52) == 0x10000000000000
  {
    assert Pow2(6) == 64 && Pow2(1) == 2;
    Pow2Add(6, 6);
    Pow2Add(12, 1);
    Pow2Add(12, 13);
    Pow2Add(13, 13);
    Pow2Add(13, 25);
    Pow2Add(26, 13);
    Pow2Add(38, 13);
    Pow2Add(26, 26);
  }

  // ---------------------------------------------------------------- fetch

  /** The limbs that the source's masks and shifts pick out of four words. */
  function FetchFe(v: Words): Fe {
    Fe(Low51(v.w0), Low51(Or(Shl(v.w1, 13), Shr(v.w0, 51))), Low51(Or(Shl(v.w2, 26), Shr(v.w1, 38))),
       Low51(Or(Shl(v.w3, 39), Shr(v.w2, 25))), Low47(Shr(v.w3, 12)))
  }

  /** Fetching reads the value of the words modulo 2^251 as digits. */
  lemma FetchCorrect(v: Words)
    requires Proper(v)
    ensures Digits(FetchFe(v))
      && V(FetchFe(v)) == WV(v) % 0x800000000000000000000000000000000000000000000000000000000000000
  {
    hide Or, Shl, V, WV;
    Pow2Table();
    var b0, b1, b2 := v.w0 / 0x8000000000000, v.w1 / 0x4000000000, v.w2 / 0x2000000;
    Splice(v.w1, b0, 13);
    Splice(v.w2, b1, 26);
    Splice(v.w3, b2, 39);
    var f := Fe(v.w0 % 0x8000000000000, b0 + (v.w1 % 0x4000000000) * 0x2000, b1 + (v.w2 % 0x2000000) * 0x4000000,
                b2 + (v.w3 % 0x1000) * 0x8000000000, v.w3 / 0x1000 % 0x800000000000);
    FetchLimbs(v, b0, b1, b2, f);
    FetchValue(v, f);
  }

  lemma FetchLimbs(v: Words, b0: int, b1: int, b2: int, f: Fe)
    requires Proper(v) && b0 == v.w0 / 0x8000000000000 && b1 == v.w1 / 0x4000000000 && b2 == v.w2 / 0x2000000
    requires Pow2(51) == 0x8000000000000 && Pow2(38) == 0x4000000000 && Pow2(25) == 0x2000000 && Pow2(12) == 0x1000
    requires Or(Shl(v.w1, 13), b0) == b0 + (v.w1 % 0x8000000000000) * 0x2000
    requires Or(Shl(v.w2, 26), b1) == b1 + (v.w2 % 0x4000000000) * 0x4000000
    requires Or(Shl(v.w3, 39), b2) == b2 + (v.w3 % 0x2000000) * 0x8000000000
    requires f == Fe(v.w0 % 0x8000000000000, b0 + (v.w1 % 0x4000000000) * 0x2000, b1 + (v.w2 % 0x2000000) * 0x4000000,
                b2 + (v.w3 % 0x1000) * 0x8000000000, v.w3 / 0x1000 % 0x800000000000)
    ensures FetchFe(v) == f && Digits(f)
  {
    hide Or, Shl, Pow2;
    Keep51(b0, v.w1, 0x4000000000, 0x2000);
    Keep51(b1, v.w2, 0x2000000, 0x4000000);
    Keep51(b2, v.w3, 0x1000, 0x8000000000);
  }

  /** Masking a splice to 51 bits drops the part of t above bit 51 - k. */
  lemma Keep51(b: int, t: int, n: int, m: int)
    requires n >= 1 && m >= 1 && n * m == 0x8000000000000 && 0 <= b < m && t >= 0
    ensures (b + (t % (8192 * n)) * m) % 0x8000000000000 == b + (t % n) * m
    ensures 0 <= b + (t % n) * m < 0x8000000000000
  {
    var s, r := t % (8192 * n), t % n;
    NestedMod(t, n);
    var q := s / n;
    assert s * m == q * (n * m) + r * m;
    assert (r + 1) * m <= n * m;
    DivModUnique(b + s * m, 0x8000000000000, q, b + r * m);
  }

  lemma NestedMod(t: int, n: int)
    requires n >= 1
    ensures (t % (8192 * n)) % n == t % n
  {
    var a, s := t / (8192 * n), t % (8192 * n);
    var q, r := s / n, s % n;
    assert t == n * (8192 * a + q) + r;
    DivModUnique(t, n, 8192 * a + q, r);
  }

  lemma FetchValue(v: Words, f: Fe)
    requires Proper(v) && Digits(f)
    requires f == Fe(v.w0 % 0x8000000000000, v.w0 / 0x8000000000000 + (v.w1 % 0x4000000000) * 0x2000,
                v.w1 / 0x4000000000 + (v.w2 % 0x2000000) * 0x4000000,
                v.w2 / 0x2000000 + (v.w3 % 0x1000) * 0x8000000000, v.w3 / 0x1000 % 0x800000000000)
    ensures V(f) == WV(v) % 0x800000000000000000000000000000000000000000000000000000000000000
  {
    var top := v.w3 / 0x1000 / 0x800000000000;
    assert WV(v) == top * 0x800000000000000000000000000000000000000000000000000000000000000 + V(f);
    DigitsRange(f);
    DivModUnique(WV(v), 0x800000000000000000000000000000000000000000000000000000000000000, top, V(f));
  }

  method GFetch(pv: array<uint64>, w: array<int64>)
    requires pv.Length == 4 && w.Length == 5
    modifies w
    ensures L(w) == FetchFe(W(pv))
    ensures Digits(L(w)) && V(L(w)) == WV(W(pv)) % 0x800000000000000000000000000000000000000000000000000000000000000
  {
    hide Or, Shl, Shr, V, WV, Low51, Low47;
    ghost var f := FetchFe(W(pv));
    FetchCorrect(W(pv));
    var t1, t2 := pv[0], pv[1];
    w[0] := Low51(t1);
    w[1] := Low51(Or(Shl(t2, 13), Shr(t1, 51)));
    t1 := pv[2];
    w[2] := Low51(Or(Shl(t1, 26), Shr(t2, 38)));
    t2 := pv[3];
    w[3] := Low51(Or(Shl(t2, 39), Shr(t1, 25)));
    w[4] := Low47(Shr(t2, 12));
    assert L(w) == f;
  }

  // ---------------------------------------------------------------- store

  /** The words that the source packs from digits. */
  function PackWords(f: Fe): Words {
    Words(Or(f.a0, Shl(f.a1, 51)), Or(Shr(f.a1, 13), Shl(f.a2, 38)), Or(Shr(f.a2, 26), Shl(f.a3, 25)),
          Or(Shr(f.a3, 39), Shl(f.a4, 12)))
  }

  lemma PackCorrect(f: Fe)
    requires Digits(f)
    ensures Proper(PackWords(f)) && WV(PackWords(f)) == V(f)
  {
    hide Or, Shl, V, WV;
    Pow2Table();
    PackWord(f.a1, f.a0, 51);
    PackWord(f.a2, f.a1 / 0x2000, 38);
    PackWord(f.a3, f.a2 / 0x4000000, 25);
    PackWord(f.a4, f.a3 / 0x8000000000, 12);
    PackValue(f, PackWords(f));
  }

  lemma PackWord(t: int, b: int, k: nat)
    requires k <= 64 && Word(t) && 0 <= b < Pow2(k)
    ensures Or(b, Shl(t, k)) == b + (t % Pow2(64 - k)) * Pow2(k)
  {
    OrComm(b, Shl(t, k));
    Splice(t, b, k);
  }

  lemma PackValue(f: Fe, v: Words)
    requires Digits(f)
    requires v == Words(f.a0 + (f.a1 % 0x2000) * 0x8000000000000, f.a1 / 0x2000 + (f.a2 % 0x4000000) * 0x4000000000,
      f.a2 / 0x4000000 + (f.a3 % 0x8000000000) * 0x2000000, f.a3 / 0x8000000000 + (f.a4 % 0x10000000000000) * 0x1000)
    ensures Proper(v) && WV(v) == V(f)
  {
  }

  /** Storing writes the canonical residue, whatever loose limbs represent it. */
  method GStore(w: array<int64>, pv: array<uint64>)
    requires w.Length == 5 && pv.Length == 4 && Within(L(w), 0x4000_0000_0000_0000)
    modifies pv
    ensures W(pv) == PackWords(NormFe(L(w)))
    ensures WV(W(pv)) == V(L(w)) % 0x7fffffffffffffffffffffffffffffffffffffffffffffffffffffffffffff7
  {
    hide Or, Shl, Shr, V, WV, ScrFe, NormFe;
    ghost var f := L(w);
    NormCorrect(f);
    PackCorrect(NormFe(f));
    var wn := new int64[5];
    GNorm(w, wn);
    var t1, t2 := wn[0], wn[1];
    pv[0] := Or(t1, Shl(t2, 51));
    t1 := wn[2];
    pv[1] := Or(Shr(t2, 13), Shl(t1, 38));
    t2 := wn[3];
    pv[2] := Or(Shr(t1, 26), Shl(t2, 25));
    t1 := wn[4];
    pv[3] := Or(Shr(t2, 39), Shl(t1, 12));
  }

  /** gfetch after gstore is gnorm. */
  lemma FetchAfterStore(f: Fe)
    requires Within(f, 0x4000_0000_0000_0000)
    ensures FetchFe(PackWords(NormFe(f))) == NormFe(f)
  {
    hide Or, Shl, Shr, V, WV, NormFe, FetchFe, PackWords;
    var n := NormFe(f);
    NormCorrect(f);
    PackCorrect(n);
    FetchCorrect(PackWords(n));
    DigitsRange(n);
    DivModUnique(V(n), 0x800000000000000000000000000000000000000000000000000000000000000, 0, V(n));
    DigitsUnique(FetchFe(PackWords(n)), n);
  }

  /** gstore after gfetch reduces any 251-bit input modulo p. */
  lemma StoreAfterFetch(v: Words)
    requires Proper(v) && WV(v) < 0x800000000000000000000000000000000000000000000000000000000000000
    ensures WV(PackWords(NormFe(FetchFe(v)))) ==
      WV(v) % 0x7fffffffffffffffffffffffffffffffffffffffffffffffffffffffffffff7
  {
    hide Or, Shl, Shr, V, NormFe, FetchFe, PackWords;
    FetchCorrect(v);
    NormCorrect(FetchFe(v));
    PackCorrect(NormFe(FetchFe(v)));
    DivModUnique(WV(v), 0x800000000000000000000000000000000000000000000000000000000000000, 0, WV(v));
  }
}
