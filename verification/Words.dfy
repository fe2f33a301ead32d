/** Buffers of 64-bit words, least significant word first, as polynomials over GF(2). */
module Words {
  import opened Bits
  import opened Gf2
  import Buffers

  type word = x: int | 0 <= x < 0x1_0000_0000_0000_0000

  /** 2^64. */
  const W: int := 0x1_0000_0000_0000_0000

  lemma WordSize()
    ensures Pow2(64) == W && Pow2(8) == 256
  {
    hide Pow2;
    ByteBits();
    Pow2Add(8, 8);
    Pow2Add(16, 16);
    Pow2Add(32, 32);
  }

  /** The number that the words denote. */
  function LE(s: seq<word>): nat {
    if s == [] then 0 else LEJoin(s[0], LE(s[1..]))
  }

  function LEJoin(x: nat, v: nat): nat { x + 0x1_0000_0000_0000_0000 * v }

  lemma LEFirst(s: seq<word>)
    requires s != []
    ensures LE(s) == s[0] + 0x1_0000_0000_0000_0000 * LE(s[1..])
  {
  }

  lemma LENone(s: seq<word>)
    requires s == []
    ensures LE(s) == 0
  {
  }

  lemma {:induction false} LEConcat(s: seq<word>, t: seq<word>)
    ensures LE(s + t) == LE(s) + Pow2(64 * |s|) * LE(t)
  {
    if s == [] {
      assert s + t == t;
    } else {
      assert (s + t)[1..] == s[1..] + t;
      LEConcat(s[1..], t);
      Pow2Word(|s| - 1);
      hide Pow2, LE;
      Distribute(W, LE(s[1..]), Pow2(64 * (|s| - 1)), LE(t));
    }
  }

  lemma Distribute(w: int, l: int, p: int, t: int)
    ensures w * (l + p * t) == w * l + (w * p) * t
  {
    assert w * (p * t) == (w * p) * t;
  }

  lemma Pow2Word(n: nat)
    ensures Pow2(64 * (n + 1)) == W * Pow2(64 * n)
  {
    WordSize();
    Pow2Add(64, 64 * n);
  }

  lemma {:induction false} LEBound(s: seq<word>)
    ensures LE(s) < Pow2(64 * |s|)
  {
    if s != [] {
      LEBound(s[1..]);
      Pow2Word(|s| - 1);
    }
  }

  function Zeros(n: nat): (s: seq<word>)
    ensures |s| == n && forall i :: 0 <= i < n ==> s[i] == 0
  {
    seq(n, _ => 0)
  }

  lemma {:induction false} LEZeros(n: nat)
    ensures LE(Zeros(n)) == 0
  {
    if n > 0 {
      assert Zeros(n)[1..] == Zeros(n - 1);
      LEZeros(n - 1);
    }
  }

  /** Words determine the buffer. */
  lemma {:induction false} LEUnique(s: seq<word>, t: seq<word>)
    requires |s| == |t| && LE(s) == LE(t)
    ensures s == t
  {
    if s != [] {
      LESplit(s[0], LE(s[1..]));
      LESplit(t[0], LE(t[1..]));
      LEUnique(s[1..], t[1..]);
      assert s == [s[0]] + s[1..] && t == [t[0]] + t[1..];
    }
  }

  lemma LESplit(x: word, v: nat)
    ensures LEJoin(x, v) % W == x && LEJoin(x, v) / W == v
  {
    DivModUnique(LEJoin(x, v), W, v, x);
  }

  lemma {:induction false} LEZeroIff(s: seq<word>)
    ensures LE(s) == 0 <==> forall i :: 0 <= i < |s| ==> s[i] == 0
  {
    if s != [] {
      LEZeroIff(s[1..]);
      assert forall i :: 0 < i < |s| ==> s[i] == s[1..][i - 1];
    }
  }

  /** Zero words at the top leave the value below. */
  lemma LETop(s: seq<word>, j: nat)
    requires j <= |s| && forall i :: j <= i < |s| ==> s[i] == 0
    ensures LE(s) == LE(s[..j]) && LE(s) < Pow2(64 * j)
  {
    assert s == s[..j] + s[j..];
    LEConcat(s[..j], s[j..]);
    LEZeroIff(s[j..]);
    LEBound(s[..j]);
    hide LE, Pow2;
    assert Pow2(64 * j) * 0 == 0;
  }

  /** A non-zero word gives the value its size. */
  lemma LEAtLeast(s: seq<word>, j: nat)
    requires j < |s| && s[j] != 0
    ensures LE(s) >= Pow2(64 * j)
  {
    assert s == s[..j] + s[j..];
    LEConcat(s[..j], s[j..]);
    LEZeroIff(s[j..]);
    assert s[j..][0] == s[j];
    hide LE, Pow2;
    AtLeastTimes(Pow2(64 * j), LE(s[j..]));
  }

  lemma AtLeastTimes(p: int, v: int)
    requires p >= 1 && v >= 1
    ensures p * v >= p
  {
  }

  // ---------------------------------------------------------------- addition

  lemma {:induction false} XorBelow(a: int, b: int, k: nat)
    requires 0 <= a < Pow2(k) && 0 <= b < Pow2(k)
    ensures 0 <= Xor(a, b) < Pow2(k)
    decreases k
  {
    if k > 0 { XorBelow(a / 2, b / 2, k - 1); }
  }

  lemma XorWord(a: word, b: word)
    ensures 0 <= Xor(a, b) < W
  {
    WordSize();
    hide Pow2;
    XorBelow(a, b, 64);
  }

  function XorWords(a: word, b: word): (c: word)
    ensures c == Xor(a, b)
  {
    XorWord(a, b);
    Xor(a, b)
  }

  ghost predicate IsXor(t: seq<word>, r: seq<word>, s: seq<word>) {
    |t| == |r| == |s| && forall i :: 0 <= i < |t| ==> t[i] == Xor(r[i], s[i])
  }

  lemma {:induction false} LEXor(t: seq<word>, r: seq<word>, s: seq<word>)
    requires IsXor(t, r, s)
    ensures LE(t) == Plus(LE(r), LE(s))
  {
    if t == [] {
      PlusRules(0, 0);
    } else {
      LEXor(t[1..], r[1..], s[1..]);
      WordSize();
      hide Xor, Pow2;
      assert t[0] == Plus(r[0], s[0]) by { assert Plus(r[0], s[0]) == Xor(r[0], s[0]); }
      XorJoin(r[0], LE(r[1..]), s[0], LE(s[1..]));
    }
  }

  lemma XorJoin(a: word, c: nat, b: word, d: nat)
    ensures Plus(LEJoin(a, c), LEJoin(b, d)) == LEJoin(Plus(a, b), Plus(c, d))
  {
    WordSize();
    hide Plus, Pow2;
    Buffers.PlusJoin(c, a, d, b, 64);
    JoinForm(a, c);
    JoinForm(b, d);
    JoinForm(Plus(a, b), Plus(c, d));
  }

  lemma JoinForm(x: nat, v: nat)
    ensures LEJoin(x, v) == v * Pow2(64) + x
  {
    WordSize();
  }

  // ---------------------------------------------------------------- shifts

  function Low(x: int, m: int): int { (x * m) % W }

  function High(x: int, r: int): int { if r == 0 then 0 else x / r }

  /** t is s times m = 2^k, with c shifted in at the bottom and the top bits lost; r = 2^(64-k). */
  ghost predicate IsShift(t: seq<word>, s: seq<word>, m: int, r: int, c: int) {
    && |t| == |s|
    && forall i {:trigger t[i]} :: 0 <= i < |s| ==> t[i] == Low(s[i], m) + (if i > 0 then High(s[i - 1], r) else c)
  }

  lemma {:induction false} LEShift(t: seq<word>, s: seq<word>, m: int, r: int, c: int)
    requires IsShift(t, s, m, r, c) && 0 <= c < m && r >= 1 && m * r == W
    ensures LE(t) == (LE(s) * m + c) % Pow2(64 * |s|)
  {
    hide Low, High, Pow2;
    if s == [] {
      assert Pow2(64 * |s|) == 1 && LE(t) == 0 by { EmptyPower(); }
    } else {
      var d := High(s[0], r);
      assert t[0] == Low(s[0], m) + c;
      WordParts(s[0], m, r);
      assert IsShift(t[1..], s[1..], m, r, d);
      LEShift(t[1..], s[1..], m, r, d);
      Pow2Word(|s| - 1);
      hide LE;
      var x := LE(s[1..]) * m + d;
      ShiftJoinWords(LE(s[1..]), s[0], m, r, c, d, Pow2(64 * (|s| - 1)));
    }
  }

  lemma EmptyPower()
    ensures Pow2(0) == 1
  {
  }

  lemma WordParts(x: int, m: int, r: int)
    requires 0 <= x < W && m >= 1 && r >= 1 && m * r == W
    ensures High(x, r) == x / r && 0 <= High(x, r) < m
    ensures Low(x, m) == (x % r) * m && 0 <= (x % r) * m <= W - m
    ensures x * m == W * (x / r) + (x % r) * m
  {
    var q, d := x / r, x % r;
    Buffers.QuotientBound(x, m, r);
    ScaledSum(x, r, q, d, m);
    BelowMultiple(d, r, m);
    DivModUnique(x * m, W, q, d * m);
  }

  lemma ScaledSum(x: int, r: int, q: int, d: int, m: int)
    requires x == r * q + d && m * r == W
    ensures x * m == W * q + d * m
  {
    assert (r * q + d) * m == (m * r) * q + d * m;
  }

  lemma BelowMultiple(d: int, r: int, m: int)
    requires 0 <= d < r && m >= 1
    ensures 0 <= d * m <= m * r - m
  {
    var e := r - 1 - d;
    Buffers.ProductSign(e, m);
    Buffers.ProductSign(d, m);
    assert m * r == m * (e + d + 1) && m * (e + d + 1) == e * m + d * m + m;
  }

  lemma ShiftJoinWords(l: nat, x: int, m: int, r: int, c: int, d: int, p: int)
    requires 0 <= x < W && m >= 1 && r >= 1 && m * r == W && 0 <= c < m && d == High(x, r) && p >= 1
    ensures LEJoin(x, l) * m + c >= 0 && (l * m + d) % p >= 0 && Low(x, m) + c >= 0
    ensures LEJoin(Low(x, m) + c, (l * m + d) % p) == (LEJoin(x, l) * m + c) % (W * p)
  {
    hide Low, High;
    WordParts(x, m, r);
    var v := l * m + d;
    var q, y, low := v / p, v % p, Low(x, m) + c;
    ScaleJoin(x, l, m);
    WordTimes(p, q, y);
    assert v == p * q + y;
    JoinBelow(low, y, p);
    DivModUnique(LEJoin(x, l) * m + c, W * p, q, LEJoin(low, y));
  }

  lemma WordTimes(p: int, q: int, y: int)
    ensures 0x1_0000_0000_0000_0000 * (p * q + y) == (W * p) * q + 0x1_0000_0000_0000_0000 * y
  {
    assert 0x1_0000_0000_0000_0000 * (p * q) == (W * p) * q;
  }

  lemma ScaleJoin(x: int, l: nat, m: int)
    requires x >= 0
    ensures LEJoin(x, l) * m == x * m + 0x1_0000_0000_0000_0000 * (l * m)
  {
  }

  lemma JoinBelow(x: int, y: int, p: int)
    requires 0 <= x < W && 0 <= y < p
    ensures 0 <= x + 0x1_0000_0000_0000_0000 * y < W * p
  {
    assert W * p == 0x1_0000_0000_0000_0000 * p;
  }

  /** `x << k | y >> (64 - k)` on 64-bit words. */
  function Shl(x: word, y: word, k: nat): (r: word)
    requires k < 64
    ensures r == Low(x, Pow2(k)) + High(y, Pow2(64 - k))
  {
    ShlValue(x, y, k);
    Or((x * Pow2(k)) % W, y / Pow2(64 - k))
  }

  lemma ShlValue(x: word, y: word, k: nat)
    requires k < 64
    ensures Or((x * Pow2(k)) % W, y / Pow2(64 - k)) == Low(x, Pow2(k)) + High(y, Pow2(64 - k))
    ensures 0 <= Low(x, Pow2(k)) + High(y, Pow2(64 - k)) < W
  {
    Pow2Add(k, 64 - k);
    WordSize();
    hide Pow2, Or;
    WordParts(x, Pow2(k), Pow2(64 - k));
    WordParts(y, Pow2(k), Pow2(64 - k));
    Buffers.MultipleZero(x % Pow2(64 - k), Pow2(k));
    OrDisjoint(Low(x, Pow2(k)), High(y, Pow2(64 - k)), k);
  }

  /** Whole words shifted out at the top, zeros in at the bottom. */
  lemma LEShiftWords(s: seq<word>, n: nat)
    requires n <= |s|
    ensures LE(Zeros(n) + s[..|s| - n]) == (LE(s) * Pow2(64 * n)) % Pow2(64 * |s|)
  {
    hide LE, Pow2;
    var lo, hi := s[..|s| - n], s[|s| - n..];
    assert s == lo + hi;
    LEConcat(lo, hi);
    LEConcat(Zeros(n), lo);
    LEZeros(n);
    LEBound(lo);
    Pow2Add(64 * |lo|, 64 * n);
    assert 64 * |s| == 64 * |lo| + 64 * n;
    ProductsComm(Pow2(64 * |lo|), LE(hi), Pow2(64 * n), LE(lo));
    Buffers.TopLost(LE(s), LE(hi), LE(lo), Pow2(64 * |lo|), Pow2(64 * n), Pow2(64 * |s|));
  }

  lemma ProductsComm(a: int, b: int, c: int, d: int)
    ensures a * b == b * a && c * d == d * c
  {
  }

  // ---------------------------------------------------------------- bytes

  /** Byte i of the buffer. */
  function Byte(s: seq<word>, i: nat): (b: int)
    requires i < 8 * |s|
  {
    s[i / 8] / Pow2(8 * (i % 8)) % 256
  }

  lemma ByteIs(s: seq<word>, i: nat)
    requires i < 8 * |s|
    ensures Byte(s, i) == LE(s) / Pow2(8 * i) % 256 && 0 <= Byte(s, i) < 256
  {
    var j, b := i / 8, i % 8;
    assert 8 * i == 64 * j + 8 * b;
    WordAt(s, j);
    LEBound(s[..j]);
    Pow2Add(64 * j, 8 * b);
    BytePowers(b);
    hide LE, Pow2;
    ByteDivide(LE(s), LE(s[..j]), Pow2(64 * j), s[j], LE(s[j + 1..]), Pow2(8 * b), Pow2(56 - 8 * b));
  }

  lemma WordAt(s: seq<word>, j: nat)
    requires j < |s|
    ensures LE(s) == LE(s[..j]) + Pow2(64 * j) * LEJoin(s[j], LE(s[j + 1..]))
  {
    assert s == s[..j] + s[j..] && s[j..][1..] == s[j + 1..];
    LEConcat(s[..j], s[j..]);
  }

  lemma BytePowers(b: nat)
    requires b < 8
    ensures Pow2(8 * b) * (256 * Pow2(56 - 8 * b)) == W
  {
    WordSize();
    Pow2Add(8 * b, 64 - 8 * b);
    Pow2Add(8, 56 - 8 * b);
  }

  lemma ByteDivide(v: int, l: int, p: int, x: int, h: nat, q: int, r: int)
    requires p >= 1 && q >= 1 && r >= 1 && q * (256 * r) == W && 0 <= l < p && 0 <= x < W
    requires v == l + p * LEJoin(x, h)
    ensures v / (p * q) % 256 == x / q % 256
  {
    var z := LEJoin(x, h);
    DivModUnique(v, p, z, l);
    DivTwice(v, p, q);
    var k, d := x / q, x % q;
    assert z == q * (256 * (r * h) + k) + d by {
      assert W * h == q * (256 * r) * h; assert q * (256 * r) * h == q * (256 * (r * h));
    }
    DivModUnique(z, q, 256 * (r * h) + k, d);
    ModDrop(k, r * h);
  }

  lemma ModDrop(k: int, h: int)
    ensures (256 * h + k) % 256 == k % 256
  {
  }

  lemma DivTwice(v: int, p: int, q: int)
    requires p >= 1 && q >= 1
    ensures p * q >= 1 && v / (p * q) == v / p / q
  {
    var a, d := v / p, v % p;
    var b, e := a / q, a % q;
    TwoLevels(v, p, q, a, d, b, e);
    AtLeastTimes(p, q);
    DivModUnique(v, p * q, b, p * e + d);
  }

  lemma TwoLevels(v: int, p: int, q: int, a: int, d: int, b: int, e: int)
    requires p >= 1 && v == p * a + d && 0 <= d < p && a == q * b + e && 0 <= e < q
    ensures v == (p * q) * b + (p * e + d) && 0 <= p * e + d < p * q
  {
    Expand(p, q, b, e);
    ScaledBelow(p, q, e, d);
  }

  lemma Expand(p: int, q: int, b: int, e: int)
    ensures p * (q * b + e) == (p * q) * b + p * e
  {
  }

  lemma ScaledBelow(p: int, q: int, e: int, d: int)
    requires p >= 1 && 0 <= e < q && 0 <= d < p
    ensures 0 <= p * e + d < p * q
  {
    Monotone(p, 0, e);
    Monotone(p, e + 1, q);
  }

  lemma Monotone(c: int, a: int, b: int)
    requires c >= 0 && a <= b
    ensures c * a <= c * b
  {
  }
}
