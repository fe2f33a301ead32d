/** Ed3363 field elements as six consecutive little-endian 64-bit words. The source's store
    normalises into a local that it then does not use: it packs the limbs as they are. */
module Codec3363 {
  import opened Bits
  import opened PrimeField
  import opened Limbs1174
  import opened Codec1174
  import opened Limbs3363
  import WordBuffers = Words

  datatype Words6 = Words6(w0: int, w1: int, w2: int, w3: int, w4: int, w5: int)

  function W6(a: array<uint64>): Words6
    requires a.Length == 6
    reads a
  {
    Words6(a[0], a[1], a[2], a[3], a[4], a[5])
  }

  /** The integer that the words denote. */
  function WV6(w: Words6): int {
    w.w0 + w.w1 * 0x10000000000000000 + w.w2 * 0x100000000000000000000000000000000
      + w.w3 * 0x1000000000000000000000000000000000000000000000000
      + w.w4 * 0x10000000000000000000000000000000000000000000000000000000000000000
      + w.w5 * 0x100000000000000000000000000000000000000000000000000000000000000000000000000000000
  }

  /** That is the little-endian number of the buffer. */
  lemma WordsValue6(a: array<uint64>)
    requires a.Length == 6
    ensures WV6(W6(a)) == WordBuffers.LE(a[..])
  {
    var s: seq<WordBuffers.word> := a[..];
    hide WordBuffers.LE;
    WordBuffers.LEFirst(s);
    WordBuffers.LEFirst(s[1..]);
    WordBuffers.LEFirst(s[2..]);
    WordBuffers.LEFirst(s[3..]);
    WordBuffers.LEFirst(s[4..]);
    WordBuffers.LEFirst(s[5..]);
    WordBuffers.LENone(s[6..]);
    assert s[1..][1..] == s[2..] && s[2..][1..] == s[3..] && s[3..][1..] == s[4..];
    assert s[4..][1..] == s[5..] && s[5..][1..] == s[6..];
  }

  predicate Proper6(w: Words6) { Word(w.w0) && Word(w.w1) && Word(w.w2) && Word(w.w3) && Word(w.w4) && Word(w.w5) }

  lemma Pow2Bytes()
    ensures Pow2(8) == 0x100 && Pow2(16) == 0x10000 && Pow2(24) == 0x1000000 && Pow2(32) == 0x100000000
    ensures Pow2(40) == 0x10000000000 && Pow2(48) == 0x1000000000000 && Pow2(56) == 0x100000000000000
  {
    assert Pow2(8) == 256;
    Pow2Add(8, 8);
    Pow2Add(16, 8);
    Pow2Add(16, 16);
    Pow2Add(32, 8);
    Pow2Add(32, 16);
    Pow2Add(40, 16);
  }

  // ---------------------------------------------------------------- fetch

  function FetchFe6(v: Words6): Fe6 {
    Fe6(Low56(v.w0), Low56(Or(Shl(v.w1, 8), Shr(v.w0, 56))), Low56(Or(Shl(v.w2, 16), Shr(v.w1, 48))),
        Low56(Or(Shl(v.w3, 24), Shr(v.w2, 40))), Low56(Or(Shl(v.w4, 32), Shr(v.w3, 32))),
        Low56(Or(Shl(v.w5, 40), Shr(v.w4, 24))))
  }

  /** Masking a splice to 56 bits drops the part of t above bit 56 - k. */
  lemma Keep56(b: int, t: int, n: int, m: int)
    requires n >= 1 && m >= 1 && n * m == 0x100000000000000 && 0 <= b < m && t >= 0
    ensures Low56(b + (t % (256 * n)) * m) == b + (t % n) * m
    ensures 0 <= b + (t % n) * m < 0x100000000000000
  {
    var s, r := t % (256 * n), t % n;
    NestedMod256(t, n);
    var q := s / n;
    assert s * m == q * (n * m) + r * m;
    assert (r + 1) * m <= n * m;
    DivModUnique(b + s * m, 0x100000000000000, q, b + r * m);
  }

  lemma NestedMod256(t: int, n: int)
    requires n >= 1
    ensures (t % (256 * n)) % n == t % n
  {
    var a, s := t / (256 * n), t % (256 * n);
    var q, r := s / n, s % n;
    assert t == n * (256 * a + q) + r;
    DivModUnique(t, n, 256 * a + q, r);
  }

  /** One limb: the top bits of one word below the low bits of the next. */
  lemma FetchLimb6(t: int, b: int, k: nat, n: int)
    requires 8 <= k <= 56 && Word(t) && 0 <= b < Pow2(k) && n == Pow2(56 - k)
    ensures Low56(Or(Shl(t, k), b)) == b + (t % n) * Pow2(k)
    ensures 0 <= b + (t % n) * Pow2(k) < 0x100000000000000
  {
    hide Or, Shl, Low56;
    Splice(t, b, k);
    Pow2Add(56 - k, k);
    Pow2Bytes();
    Pow2Add(8, 56 - k);
    hide Pow2;
    Keep56(b, t, n, Pow2(k));
  }

  /** Fetching reads the low 336 bits of the words as digits. */
  lemma FetchCorrect6(v: Words6)
    requires Proper6(v)
    ensures Digits6(FetchFe6(v)) && V6(FetchFe6(v)) == WV6(v) % TOP
  {
    hide Or, Shl, V6, WV6, Low56, Pow2;
    Pow2Bytes();
    var b0, b1, b2, b3, b4 :=
      v.w0 / 0x100000000000000, v.w1 / 0x1000000000000, v.w2 / 0x10000000000, v.w3 / 0x100000000, v.w4 / 0x1000000;
    FetchLimb6(v.w1, b0, 8, 0x1000000000000);
    FetchLimb6(v.w2, b1, 16, 0x10000000000);
    FetchLimb6(v.w3, b2, 24, 0x100000000);
    FetchLimb6(v.w4, b3, 32, 0x1000000);
    FetchLimb6(v.w5, b4, 40, 0x10000);
    LowWord(v.w0);
    FetchValue6(v, FetchFe6(v));
  }

  lemma LowWord(t: int)
    ensures Low56(t) == t % 0x100000000000000
  {
  }

  lemma FetchValue6(v: Words6, f: Fe6)
    requires Proper6(v)
    requires f == Fe6(v.w0 % 0x100000000000000, v.w0 / 0x100000000000000 + (v.w1 % 0x1000000000000) * 0x100,
                v.w1 / 0x1000000000000 + (v.w2 % 0x10000000000) * 0x10000,
                v.w2 / 0x10000000000 + (v.w3 % 0x100000000) * 0x1000000,
                v.w3 / 0x100000000 + (v.w4 % 0x1000000) * 0x100000000,
                v.w4 / 0x1000000 + (v.w5 % 0x10000) * 0x10000000000)
    ensures Digits6(f) && V6(f) == WV6(v) % TOP
  {
    FetchDigits6(v, f);
    var top := v.w5 / 0x10000;
    assert WV6(v) == top * 0x1000000000000000000000000000000000000000000000000000000000000000000000000000000000000
      + V6(f);
    DigitsRange6(f);
    DivModUnique(WV6(v), TOP, top, V6(f));
  }

  lemma FetchDigits6(v: Words6, f: Fe6)
    requires Proper6(v)
    requires f == Fe6(v.w0 % 0x100000000000000, v.w0 / 0x100000000000000 + (v.w1 % 0x1000000000000) * 0x100,
                v.w1 / 0x1000000000000 + (v.w2 % 0x10000000000) * 0x10000,
                v.w2 / 0x10000000000 + (v.w3 % 0x100000000) * 0x1000000,
                v.w3 / 0x100000000 + (v.w4 % 0x1000000) * 0x100000000,
                v.w4 / 0x1000000 + (v.w5 % 0x10000) * 0x10000000000)
    ensures Digits6(f)
  {
  }

  method GFetch6(pv: array<uint64>, w: array<int64>)
    requires pv.Length == 6 && w.Length == 6
    modifies w
    ensures L6(w) == FetchFe6(W6(pv))
    ensures Digits6(L6(w)) && V6(L6(w)) == WV6(W6(pv)) % TOP
  {
    hide Or, Shl, Shr, V6, WV6, Low56;
    ghost var f := FetchFe6(W6(pv));
    FetchCorrect6(W6(pv));
    var t1, t2 := pv[0], pv[1];
    w[0] := Low56(t1);
    w[1] := Low56(Or(Shl(t2, 8), Shr(t1, 56)));
    t1 := pv[2];
    w[2] := Low56(Or(Shl(t1, 16), Shr(t2, 48)));
    t2 := pv[3];
    w[3] := Low56(Or(Shl(t2, 24), Shr(t1, 40)));
    t1 := pv[4];
    w[4] := Low56(Or(Shl(t1, 32), Shr(t2, 32)));
    t2 := pv[5];
    w[5] := Low56(Or(Shl(t2, 40), Shr(t1, 24)));
    assert L6(w) == f;
  }

  // ---------------------------------------------------------------- store

  /** An int64_t assigned to a uint64_t. */
  function U64(x: int): (r: int) ensures Word(r) { x % 0x1_0000_0000_0000_0000 }

  /** The words that the source packs from six limbs taken as unsigned. */
  function PackWords6(f: Fe6): Words6 {
    var a0, a1, a2, a3, a4, a5 := U64(f.a0), U64(f.a1), U64(f.a2), U64(f.a3), U64(f.a4), U64(f.a5);
    Words6(Or(a0, Shl(a1, 56)), Or(Shr(a1, 8), Shl(a2, 48)), Or(Shr(a2, 16), Shl(a3, 40)), Or(Shr(a3, 24), Shl(a4, 32)),
           Or(Shr(a4, 32), Shl(a5, 24)), Shr(a5, 40))
  }

  /** What the last fold leaves in limb 0 above its 56 bits: nothing, a one, or the sign byte. */
  function TopByte(a0: int): int { if a0 < 0 then 255 else if a0 < 0x100000000000000 then 0 else 1 }

  /** By how much, in units of 2^56, `|` misplaces that excess over the limb above. */
  function Slip(f: Fe6): int {
    Or(f.a1 % 256, TopByte(f.a0)) - f.a1 % 256 - (if f.a0 < 0 then -1 else TopByte(f.a0))
  }

  /** Limb 0 fits its digit, or overlaps a limb 1 whose low bit is free. */
  predicate Storable(f: Fe6) { 0 <= f.a0 && (f.a0 < 0x100000000000000 || f.a1 % 2 == 0) }

  /** `|` of two numbers with e < 2^k as the low part of one of them. */
  lemma {:induction false} OrHigh(u: int, v: int, e: int, k: nat)
    requires 0 <= e < Pow2(k)
    ensures Or(u * Pow2(k), v * Pow2(k) + e) == Or(u, v) * Pow2(k) + e
    decreases k
  {
    hide Or;
    if k > 0 {
      var m := Pow2(k - 1);
      assert Pow2(k) == 2 * m;
      hide Pow2;
      OrHigh(u, v, e / 2, k - 1);
      OrEven(u * m, v * m + e / 2, e % 2);
      TwiceForms(u, v, m, e);
      TwiceForms(Or(u, v), 0, m, 0);
      OrHighStep(u, v, e, m, Or(u, v));
    } else {
      assert Pow2(k) == 1 && e == 0;
    }
  }

  /** The halves put together. */
  lemma OrHighStep(u: int, v: int, e: int, m: int, w: int)
    requires Or(u * m, v * m + e / 2) == w * m + e / 2
    requires Or(2 * (u * m), 2 * (v * m + e / 2) + e % 2) == 2 * Or(u * m, v * m + e / 2) + e % 2
    requires u * (2 * m) == 2 * (u * m) && v * (2 * m) + e == 2 * (v * m + e / 2) + e % 2 && w * (2 * m) == 2 * (w * m)
    ensures Or(u * (2 * m), v * (2 * m) + e) == w * (2 * m) + e
  {
    hide Or;
  }

  lemma TwiceForms(u: int, v: int, m: int, e: int)
    ensures u * (2 * m) == 2 * (u * m)
    ensures v * (2 * m) + e == 2 * (v * m + e / 2) + e % 2
  {
  }

  /** `|` with 0, 1 and 255 on a byte. */
  lemma OrByte(u: int, v: int)
    requires 0 <= u < 256 && (v == 0 || v == 1 || v == 255)
    ensures v == 0 ==> Or(u, v) == u
    ensures v == 1 ==> Or(u, v) == if u % 2 == 0 then u + 1 else u
    ensures v == 255 ==> Or(u, v) == 255
  {
    if v == 0 {
      OrZero(u);
    } else if v == 1 {
      OrEven(u / 2, 0, 1);
      OrZero(u / 2);
      OrLow(u);
    } else {
      OrOnes(u, 8);
    }
  }

  /** Both operands odd. */
  lemma OrOdd(a: int, b: int)
    ensures Or(2 * a + 1, 2 * b + 1) == 2 * Or(a, b) + 1
  {
    OrComm(2 * a + 1, 2 * b + 1);
    var x, y := -1 - (2 * a + 1), -1 - (2 * b + 1);
    assert x / 2 == -1 - a && y / 2 == -1 - b && x % 2 == 0 && y % 2 == 0;
    assert And(-1 - a, 0) == 0 && And(0, -1 - b) == 0;
  }

  lemma OrLow(u: int)
    requires Or(u / 2, 0) == u / 2
    ensures Or(u, 1) == if u % 2 == 0 then u + 1 else u
  {
    hide Or;
    if u % 2 == 0 { OrEven(u / 2, 0, 1); } else { OrOdd(u / 2, 0); }
  }

  lemma {:induction false} OrOnes(u: int, k: nat)
    requires 0 <= u < Pow2(k)
    ensures Or(u, Pow2(k) - 1) == Pow2(k) - 1
    decreases k
  {
    hide Or;
    if k == 0 {
      assert u == 0;
      OrZero(0);
    } else {
      var m := Pow2(k - 1);
      HalvesBelow(u, u, k);
      OrOnes(u / 2, k - 1);
      hide Pow2;
      if u % 2 == 0 { OrEven(u / 2, m - 1, 1); } else { OrOdd(u / 2, m - 1); }
    }
  }

  /** `|` of two words is a word. */
  lemma {:induction false} OrBound(a: int, b: int, k: nat)
    requires 0 <= a < Pow2(k) && 0 <= b < Pow2(k)
    ensures 0 <= Or(a, b) < Pow2(k)
    decreases k
  {
    hide Or;
    if k == 0 {
      assert a == 0 && b == 0;
      OrZero(0);
    } else {
      HalvesBelow(a, b, k);
      OrBound(a / 2, b / 2, k - 1);
      OrStep(a, b);
    }
  }

  lemma HalvesBelow(a: int, b: int, k: nat)
    requires k > 0 && 0 <= a < Pow2(k) && 0 <= b < Pow2(k)
    ensures Pow2(k) == 2 * Pow2(k - 1) && 0 <= a / 2 < Pow2(k - 1) && 0 <= b / 2 < Pow2(k - 1)
  {
  }

  lemma OrStep(a: int, b: int)
    ensures 2 * Or(a / 2, b / 2) <= Or(a, b) <= 2 * Or(a / 2, b / 2) + 1
  {
    hide Or;
    if a % 2 == 0 {
      OrEven(a / 2, b / 2, b % 2);
    } else if b % 2 == 0 {
      OrComm(a, b);
      OrComm(a / 2, b / 2);
      OrEven(b / 2, a / 2, 1);
    } else {
      OrOdd(a / 2, b / 2);
    }
  }

  lemma OrWord(a: int, b: int)
    requires Word(a) && Word(b)
    ensures Word(Or(a, b))
  {
    hide Or;
    Pow2Of64();
    OrBound(a, b, 64);
  }

  lemma ShiftedWords(t: int, k: nat)
    requires Word(t)
    ensures Word(Shl(t, k)) && Word(Shr(t, k))
  {
    hide Pow2;
    QuotientWord(t, Pow2(k), t / Pow2(k));
  }

  lemma QuotientWord(t: int, p: int, q: int)
    requires Word(t) && p >= 1 && q * p <= t < q * p + p
    ensures Word(q)
  {
    if q < 0 { LeastMultiple(p, q + 1, 0); } else { LeastMultiple(q, 1, p); }
  }

  lemma LeastMultiple(c: int, a: int, b: int)
    requires c >= 0 && a <= b
    ensures c * a <= c * b
  {
  }

  lemma PackProper(f: Fe6)
    ensures Proper6(PackWords6(f))
  {
    hide Or, Shl, Shr, U64, Word;
    var a0, a1, a2, a3, a4, a5 := U64(f.a0), U64(f.a1), U64(f.a2), U64(f.a3), U64(f.a4), U64(f.a5);
    ShiftedWords(a1, 56); ShiftedWords(a1, 8); ShiftedWords(a2, 48); ShiftedWords(a2, 16); ShiftedWords(a3, 40);
    ShiftedWords(a3, 24); ShiftedWords(a4, 32); ShiftedWords(a5, 24); ShiftedWords(a5, 40);
    OrWord(a0, Shl(a1, 56));
    OrWord(Shr(a1, 8), Shl(a2, 48));
    OrWord(Shr(a2, 16), Shl(a3, 40));
    OrWord(Shr(a3, 24), Shl(a4, 32));
    OrWord(Shr(a4, 32), Shl(a5, 24));
  }

  /** Word 0 of a tight element. */
  lemma LowestWord(a0: int, a1: int)
    requires -0x100000 <= a0 < 0x100000000100000 && 0 <= a1 < 0x100000000000000
    ensures var v := TopByte(a0); var e := a0 - (if a0 < 0 then -1 else v) * 0x100000000000000;
      && 0 <= e < 0x100000000000000
      && Or(U64(a0), Shl(a1, 56)) == Or(a1 % 256, v) * 0x100000000000000 + e
  {
    hide Or, Pow2;
    Pow2Bytes();
    Pow2Of64();
    var v := TopByte(a0);
    var e := a0 - (if a0 < 0 then -1 else v) * 0x100000000000000;
    UnsignedLimb(a0, v, e);
    ShiftedOut(a1, 256, 0x100000000000000);
    OrHigh(a1 % 256, v, e, 56);
    OrComm(U64(a0), Shl(a1, 56));
  }

  lemma UnsignedLimb(a0: int, v: int, e: int)
    requires -0x100000 <= a0 < 0x100000000100000 && v == TopByte(a0)
    requires e == a0 - (if a0 < 0 then -1 else v) * 0x100000000000000
    ensures 0 <= e < 0x100000000000000 && U64(a0) == v * 0x100000000000000 + e
  {
    if a0 < 0 {
      DivModUnique(a0, 0x1_0000_0000_0000_0000, -1, a0 + 0x1_0000_0000_0000_0000);
    } else {
      DivModUnique(a0, 0x1_0000_0000_0000_0000, 0, a0);
    }
  }

  /** The packed number misses the limbs' value by the slip alone. */
  lemma PackCorrect6(f: Fe6)
    requires Tight6(f)
    ensures Proper6(PackWords6(f)) && WV6(PackWords6(f)) == V6(f) + Slip(f) * 0x100000000000000
  {
    hide Or, Shl, V6, WV6, Pow2, U64;
    Pow2Bytes();
    LimbIsWord(f.a1); LimbIsWord(f.a2); LimbIsWord(f.a3); LimbIsWord(f.a4); LimbIsWord(f.a5);
    LowestWord(f.a0, f.a1);
    PackWord(f.a2, f.a1 / 0x100, 48);
    PackWord(f.a3, f.a2 / 0x10000, 40);
    PackWord(f.a4, f.a3 / 0x1000000, 32);
    PackWord(f.a5, f.a4 / 0x100000000, 24);
    var u := Or(f.a1 % 256, TopByte(f.a0));
    OrByte(f.a1 % 256, TopByte(f.a0));
    PackValue6(f, PackWords6(f), u);
  }

  lemma LimbIsWord(a: int)
    requires 0 <= a < 0x100000000000000
    ensures U64(a) == a
  {
  }

  lemma PackValue6(f: Fe6, v: Words6, u: int)
    requires Tight6(f) && 0 <= u < 256
    requires v == Words6(u * 0x100000000000000 + f.a0 - (if f.a0 < 0 then -1 else TopByte(f.a0)) * 0x100000000000000,
      f.a1 / 0x100 + (f.a2 % 0x10000) * 0x1000000000000,
      f.a2 / 0x10000 + (f.a3 % 0x1000000) * 0x10000000000, f.a3 / 0x1000000 + (f.a4 % 0x100000000) * 0x100000000,
      f.a4 / 0x100000000 + (f.a5 % 0x10000000000) * 0x1000000, f.a5 / 0x10000000000)
    ensures Proper6(v)
    ensures WV6(v) == V6(f) + (u - f.a1 % 256 - (if f.a0 < 0 then -1 else TopByte(f.a0))) * 0x100000000000000
  {
  }

  lemma SlipZero(f: Fe6)
    requires Tight6(f)
    ensures -1 <= Slip(f) <= 256 && (Slip(f) == 0 <==> Storable(f))
  {
    hide Or;
    var u := f.a1 % 256;
    ByteParity(f.a1);
    OrByte(u, TopByte(f.a0));
    if f.a0 < 0 {
      assert Slip(f) == 256 - u;
    } else if f.a0 < 0x100000000000000 {
      assert Slip(f) == 0;
    } else {
      assert Slip(f) == if u % 2 == 0 then 0 else -1;
    }
  }

  lemma ByteParity(a: int)
    ensures a % 256 % 2 == a % 2
  {
  }

  /** On the limbs that reductions and products leave, the stored words are congruent to the
      element exactly when limb 0 is storable, and canonical exactly when the limbs also
      denote a number below p. */
  lemma StoredIff(f: Fe6)
    requires Tight6(f)
    ensures Eq(WV6(PackWords6(f)), V6(f), Q) <==> Storable(f)
    ensures WV6(PackWords6(f)) == V6(f) % Q <==> Storable(f) && V6(f) < Q
  {
    hide V6, WV6, PackWords6, Storable, Slip;
    PackCorrect6(f);
    SlipZero(f);
    StorableSign(f);
    SlipCongruent(WV6(PackWords6(f)), V6(f), Slip(f));
  }

  lemma StorableSign(f: Fe6)
    requires Tight6(f)
    ensures Storable(f) ==> V6(f) >= 0
  {
  }

  lemma SlipCongruent(w: int, v: int, s: int)
    requires w == v + s * 0x100000000000000 && -1 <= s <= 256
    ensures Eq(w, v, Q) <==> s == 0
    ensures v >= 0 || s != 0 ==> (w == v % Q <==> s == 0 && v < Q)
  {
    if s == 0 {
      EqRefl(v, Q);
      if 0 <= v < Q { DivModUnique(v, Q, 0, v); }
    } else {
      SlipApart(w, v, s);
      EqMod(v, Q);
    }
  }

  lemma SlipApart(w: int, v: int, s: int)
    requires w == v + s * 0x100000000000000 && -1 <= s <= 256 && s != 0
    ensures !Eq(w, v, Q)
  {
    assert Eq(w, v, Q) ==> s * 0x100000000000000 == 0 by {
      if Eq(w, v, Q) {
        var k := EqElim(w, v, Q);
        hide Eq;
      }
    }
  }

  method GStore6(w: array<int64>, pv: array<uint64>)
    requires w.Length == 6 && pv.Length == 6 && Within6(L6(w), 0x4000_0000_0000_0000)
    modifies pv
    ensures W6(pv) == PackWords6(L6(w))
    ensures Tight6(L6(w)) ==> (Eq(WV6(W6(pv)), V6(L6(w)), Q) <==> Storable(L6(w)))
    ensures Tight6(L6(w)) ==>
      (WV6(W6(pv)) == V6(L6(w)) % Q <==> Storable(L6(w)) && V6(L6(w)) < Q)
  {
    hide Or, Shl, Shr, V6, WV6, NormFe6, U64, Eq, Storable, Tight6;
    ghost var f := L6(w);
    if Tight6(f) { StoredIff(f); }
    PackProper(f);
    var wn := new int64[6];
    GNorm6(w, wn);
    var t1, t2 := U64(w[0]), U64(w[1]);
    pv[0] := Or(t1, Shl(t2, 56));
    t1 := U64(w[2]);
    pv[1] := Or(Shr(t2, 8), Shl(t1, 48));
    t2 := U64(w[3]);
    pv[2] := Or(Shr(t1, 16), Shl(t2, 40));
    t1 := U64(w[4]);
    pv[3] := Or(Shr(t2, 24), Shl(t1, 32));
    t2 := U64(w[5]);
    pv[4] := Or(Shr(t1, 32), Shl(t2, 24));
    pv[5] := Shr(t2, 40);
  }

  /** Two elements given by their digits. */
  const SLIP_X: Fe6 := Fe6(0, 0, 0, 0, 0, 1)
  const SLIP_Y: Fe6 :=
    Fe6(0xffffffffffffff, 0xffffffffffffff, 0x55555555555555, 0x55555555555555, 0x55555555555555, 0x55555555555555)

  /** Multiplying by 2^280 moves the limbs up by five. */
  lemma UpColumns(y: Fe6)
    ensures Columns6(Fe6(0, 0, 0, 0, 0, 1), y) == Cols6(0, 0, 0, 0, 0, y.a0, y.a1, y.a2, y.a3, y.a4, y.a5)
  {
    MulUnits(y.a0);
    MulUnits(y.a1);
    MulUnits(y.a2);
    MulUnits(y.a3);
    MulUnits(y.a4);
    MulUnits(y.a5);
    hide Mul;
  }

  lemma MulUnits(a: int)
    ensures Mul(0, a) == 0 && Mul(1, a) == a
  {
  }

  lemma SlipFold()
    ensures FoldFe6(Columns6(SLIP_X, SLIP_Y)) == Fe6(0x2fffffffffffffd, 0xffffffffffffff, 0xffffffffffffff,
      0xffffffffffffff, 0xffffffffffffff, 0xffffffffffffff)
  {
    UpColumns(SLIP_Y);
    hide Columns6;
  }

  /** Every carry in turn: 2 out of limb 0, then 1 out of each limb above. */
  lemma SlipProduct()
    ensures MulFe6(SLIP_X, SLIP_Y) == Fe6(0x100000000000000, 1, 0, 0, 0, 0)
  {
    SlipFold();
    ProductUnfold6(SLIP_X, SLIP_Y);
    var f := FoldFe6(Columns6(SLIP_X, SLIP_Y));
    hide Columns6, FoldFe6, MulFe6, ScrFe6;
    assert Asr56(f.a0) == 2 && Low56(f.a0) == 0xfffffffffffffd;
    assert Asr56(0x100000000000001) == 1 && Low56(0x100000000000001) == 1;
    assert Asr56(0x100000000000000) == 1 && Low56(0x100000000000000) == 0;
    ScrSteps6(f, 0x100000000000001, 0x100000000000000, 0x100000000000000, 0x100000000000000, 0x100000000000000);
  }

  /** gmul on two fetched elements gives a reduced product whose stored words denote another residue:
      limb 0 carries over an odd limb 1. */
  lemma StoreSlips()
    ensures Digits6(SLIP_X) && Digits6(SLIP_Y)
    ensures var f := MulFe6(SLIP_X, SLIP_Y); Tight6(f) && !Eq(WV6(PackWords6(f)), V6(f), Q)
  {
    SlipProduct();
    hide V6, WV6, PackWords6, Eq, MulFe6;
    StoredIff(MulFe6(SLIP_X, SLIP_Y));
  }

  /** gfetch after gstore gives digits back. */
  lemma FetchAfterStore6(f: Fe6)
    requires Digits6(f)
    ensures FetchFe6(PackWords6(f)) == f
  {
    hide V6, WV6, PackWords6, FetchFe6, Slip;
    PackCorrect6(f);
    SlipZero(f);
    FetchCorrect6(PackWords6(f));
    DigitsRange6(f);
    DivModUnique(V6(f), TOP, 0, V6(f));
    DigitsUnique6(FetchFe6(PackWords6(f)), f);
  }

  /** gstore after gfetch gives every 336-bit input back, reduced or not. */
  lemma StoreAfterFetch6(v: Words6)
    requires Proper6(v) && WV6(v) < TOP
    ensures WV6(PackWords6(FetchFe6(v))) == WV6(v)
  {
    hide V6, PackWords6, FetchFe6, Slip;
    FetchCorrect6(v);
    PackCorrect6(FetchFe6(v));
    SlipZero(FetchFe6(v));
    DivModUnique(WV6(v), TOP, 0, WV6(v));
  }
}
