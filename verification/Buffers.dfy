/** Byte buffers, most significant byte first, as polynomials over GF(2). */
module Buffers {
  import opened Bits
  import opened Gf2

  type byte = x: int | 0 <= x < 256

  /** The number that the bytes denote. */
  function BE(s: seq<byte>): nat {
    if s == [] then 0 else 256 * BE(s[..|s| - 1]) + s[|s| - 1]
  }

  lemma {:induction false} BEConcat(s: seq<byte>, t: seq<byte>)
    ensures BE(s + t) == BE(s) * Pow2(8 * |t|) + BE(t)
    decreases |t|
  {
    if t == [] {
      assert s + t == s;
    } else {
      var t', x := t[..|t| - 1], t[|t| - 1];
      BEConcat(s, t');
      assert (s + t)[..|s + t| - 1] == s + t';
      Pow2Byte(|t'|);
      ShiftSum(BE(s), Pow2(8 * |t'|), BE(t'), x);
    }
  }

  lemma ShiftSum(a: int, p: int, b: int, x: int)
    ensures 256 * (a * p + b) + x == a * (256 * p) + (256 * b + x)
  {
  }

  lemma Pow2Byte(n: nat)
    ensures Pow2(8 * (n + 1)) == 256 * Pow2(8 * n)
  {
    assert Pow2(8) == 256;
    Pow2Add(8, 8 * n);
  }

  lemma {:induction false} BEBound(s: seq<byte>)
    ensures BE(s) < Pow2(8 * |s|)
  {
    if s != [] {
      BEBound(s[..|s| - 1]);
      Pow2Byte(|s| - 1);
    }
  }

  /** Bytes determine the buffer. */
  lemma {:induction false} BEUnique(s: seq<byte>, t: seq<byte>)
    requires |s| == |t| && BE(s) == BE(t)
    ensures s == t
  {
    if s != [] {
      var n := |s| - 1;
      assert s[n] == BE(s) % 256 && t[n] == BE(t) % 256;
      BEUnique(s[..n], t[..n]);
      assert s == s[..n] + [s[n]] && t == t[..n] + [t[n]];
    }
  }

  /** The last n bytes of a number. */
  function BytesOf(v: nat, n: nat): (s: seq<byte>)
    ensures |s| == n
  {
    if n == 0 then [] else BytesOf(v / 256, n - 1) + [v % 256]
  }

  lemma {:induction false} BytesOfValue(v: nat, n: nat)
    requires v < Pow2(8 * n)
    ensures BE(BytesOf(v, n)) == v
  {
    if n > 0 {
      Pow2Byte(n - 1);
      hide Pow2;
      BytesOfValue(v / 256, n - 1);
      assert BytesOf(v, n)[..n - 1] == BytesOf(v / 256, n - 1);
      BELast(BytesOf(v, n));
      hide BE;
    } else {
      assert Pow2(0) == 1;
    }
  }

  function Zeros(n: nat): (s: seq<byte>)
    ensures |s| == n && forall i :: 0 <= i < n ==> s[i] == 0
  {
    seq(n, _ => 0)
  }

  lemma {:induction false} BEZeros(n: nat)
    ensures BE(Zeros(n)) == 0
  {
    if n > 0 {
      assert Zeros(n)[..n - 1] == Zeros(n - 1);
      BEZeros(n - 1);
    }
  }

  /** A buffer is zero only when every byte is. */
  lemma {:induction false} BEZeroIff(s: seq<byte>)
    ensures BE(s) == 0 <==> forall i :: 0 <= i < |s| ==> s[i] == 0
  {
    if s != [] { BEZeroIff(s[..|s| - 1]); }
  }

  // ---------------------------------------------------------------- addition

  lemma XorByte(a: int, b: int)
    requires 0 <= a < 256 && 0 <= b < 256
    ensures 0 <= Xor(a, b) < 256
  {
    XorRange(a, b, 8);
    assert Pow2(8) == 256;
  }

  lemma {:induction false} XorRange(a: int, b: int, k: nat)
    requires 0 <= a < Pow2(k) && 0 <= b < Pow2(k)
    ensures 0 <= Xor(a, b) < Pow2(k)
    decreases k
  {
    if k > 0 { XorRange(a / 2, b / 2, k - 1); }
  }

  /** t is the bytewise exclusive-or of r and s. */
  ghost predicate IsXor(t: seq<byte>, r: seq<byte>, s: seq<byte>) {
    |t| == |r| == |s| && forall i :: 0 <= i < |t| ==> t[i] == Xor(r[i], s[i])
  }

  lemma {:induction false} BEXor(t: seq<byte>, r: seq<byte>, s: seq<byte>)
    requires IsXor(t, r, s)
    ensures BE(t) == Plus(BE(r), BE(s))
    decreases |t|
  {
    if t == [] {
      PlusRules(0, 0);
    } else {
      var n := |t| - 1;
      BEXor(t[..n], r[..n], s[..n]);
      assert Pow2(8) == 256;
      BELast(t);
      BELast(r);
      BELast(s);
      assert t[n] == Plus(r[n], s[n]);
      hide Xor, Plus, BE;
      PlusJoin(BE(r[..n]), r[n], BE(s[..n]), s[n], 8);
    }
  }

  lemma BELast(s: seq<byte>)
    requires s != []
    ensures BE(s) == 256 * BE(s[..|s| - 1]) + s[|s| - 1]
  {
  }

  /** Exclusive-or acts on high and low parts separately. */
  lemma {:induction false} PlusJoin(a: nat, b: nat, c: nat, d: nat, k: nat)
    requires b < Pow2(k) && d < Pow2(k)
    ensures a * Pow2(k) + b >= 0 && c * Pow2(k) + d >= 0 && Plus(a, c) * Pow2(k) >= 0
    ensures Plus(a * Pow2(k) + b, c * Pow2(k) + d) == Plus(a, c) * Pow2(k) + Plus(b, d)
    decreases k
  {
    var q := Pow2(k);
    ProductSign(a, q);
    ProductSign(c, q);
    ProductSign(Plus(a, c), q);
    if k == 0 {
      PlusRules(0, 0);
    } else {
      hide Plus;
      var p: nat := Pow2(k - 1);
      PlusJoin(a, b / 2, c, d / 2, k - 1);
      var u: nat, v: nat := a * p + b / 2, c * p + d / 2;
      Halves(a, b, p);
      Halves(c, d, p);
      var x: nat, y: nat := a * q + b, c * q + d;
      PlusHalf(x, y);
      PlusHalf(b, d);
      DoubleProduct(Plus(a, c), p);
    }
  }

  lemma ProductSign(a: nat, p: int)
    requires p >= 1
    ensures a * p >= 0
  {
  }

  lemma Halves(a: int, b: int, p: int)
    ensures (a * (2 * p) + b) / 2 == a * p + b / 2 && (a * (2 * p) + b) % 2 == b % 2
  {
    DoubleProduct(a, p);
    var z := a * p;
    assert (2 * z + b) / 2 == z + b / 2 && (2 * z + b) % 2 == b % 2;
  }

  // ---------------------------------------------------------------- shifts

  /** One byte of a left shift by k < 8: its own low bits and the next byte's high bits. */
  function ShiftByte(b: int, next: int, k: nat): int
  {
    Or((b * Pow2(k)) % 256, next / Pow2(8 - (if k <= 8 then k else 8)))
  }

  lemma ShiftByteValue(b: int, next: int, k: nat)
    requires k <= 8 && 0 <= b < 256 && 0 <= next < 256
    ensures ShiftByte(b, next, k) == (b * Pow2(k)) % 256 + next / Pow2(8 - k)
    ensures 0 <= ShiftByte(b, next, k) < 256
  {
    hide Or, Pow2;
    Pow2Add(k, 8 - k);
    ByteBits();
    var m, n := Pow2(k), Pow2(8 - k);
    QuotientBound(next, m, n);
    LowBits(b, m, n);
    MultipleZero(b % n, m);
    OrDisjoint((b % n) * m, next / n, k);
    RoomBelow(b % n, m, n);
  }

  lemma RoomBelow(r: int, m: int, n: int)
    requires 0 <= r < n && m >= 1 && m * n == 256
    ensures r * m + m <= 256
  {
    assert (n - 1 - r) * m >= 0;
  }

  lemma QuotientBound(x: int, m: int, n: int)
    requires 0 <= x < m * n && n >= 1
    ensures 0 <= x / n < m
  {
    assert (x / n - m) * n < 0;
  }

  lemma MultipleZero(r: int, m: int)
    requires m >= 1
    ensures (r * m) % m == 0
  {
    DivModUnique(r * m, m, r, 0);
  }

  lemma LowBits(b: int, m: int, n: int)
    requires b >= 0 && m >= 1 && n >= 1 && m * n == 256
    ensures (b * m) % 256 == (b % n) * m && 0 <= (b % n) * m
  {
    var q, r := b / n, b % n;
    SplitProduct(q, r, m, n);
    assert n * q + r == b;
    RoomBelow(r, m, n);
    ProductSign(r, m);
    DivModUnique(b * m, 256, q, r * m);
  }

  lemma SplitProduct(q: int, r: int, m: int, n: int)
    requires m * n == 256
    ensures (n * q + r) * m == 256 * q + r * m
  {
    assert (n * q + r) * m == (m * n) * q + r * m;
  }

  function HighPart(b: int, r: int): int { if r == 0 then 0 else b / r }

  function LowPart(b: int, m: int): int { (b * m) % 256 }

  /** t is s times m = 2^k, k <= 8, with c shifted in at the bottom and the top bits lost;
      r = 2^(8-k). */
  ghost predicate IsShift(t: seq<byte>, s: seq<byte>, m: int, r: int, c: int) {
    && |t| == |s|
    && forall i {:trigger t[i]} :: 0 <= i < |s| ==>
      t[i] == LowPart(s[i], m) + (if i + 1 < |s| then HighPart(s[i + 1], r) else c)
  }

  lemma {:induction false} BEShift(t: seq<byte>, s: seq<byte>, m: int, r: int, c: int)
    requires IsShift(t, s, m, r, c) && 0 <= c < m && r >= 1 && m * r == 256
    ensures BE(t) == (BE(s) * m + c) % Pow2(8 * |s|)
    decreases |s|
  {
    hide HighPart, LowPart;
    var n := |s| - 1;
    if s == [] {
      assert Pow2(8 * |s|) == 1 && BE(t) == 0;
      ModOne(BE(s) * m + c);
    } else {
      var c' := HighPart(s[n], r);
      assert t[n] == LowPart(s[n], m) + c;
      BELast(s);
      BELast(t);
      hide BE, Pow2;
      Parts(s[n], m, r);
      assert IsShift(t[..n], s[..n], m, r, c');
      BEShift(t[..n], s[..n], m, r, c');
      Pow2Byte(n);
      assert 8 * |s| == 8 * (n + 1);
      ShiftJoin(BE(s), BE(s[..n]), s[n], m, r, c, c', Pow2(8 * n), Pow2(8 * |s|));
    }
  }

  lemma Parts(b: int, m: int, r: int)
    requires 0 <= b < 256 && m >= 1 && r >= 1 && m * r == 256
    ensures HighPart(b, r) == b / r && 0 <= HighPart(b, r) < m
    ensures LowPart(b, m) == (b % r) * m
  {
    QuotientBound(b, m, r);
    LowBits(b, m, r);
  }

  lemma ModOne(x: int)
    ensures x % 1 == 0
  {
  }

  lemma ShiftJoin(z: int, a: nat, b: int, m: int, r: int, c: int, c': int, p: int, w: int)
    requires m >= 1 && r >= 1 && m * r == 256 && 0 <= b < 256 && 0 <= c < m && c' == b / r && p >= 1
    requires z == 256 * a + b && w == 256 * p
    ensures 256 * ((a * m + c') % p) + ((b % r) * m + c) == (z * m + c) % w
  {
    var x := a * m + c';
    var q, y := x / p, x % p;
    var l := (b % r) * m + c;
    assert (256 * a + b) * m + c == 256 * x + l by { ShiftJoinForm(a, b, m, r, c, c'); }
    assert 0 <= l < 256 by { assert 0 <= (b % r) * m; assert (r - b % r) * m >= m; }
    assert 256 * x + l == (256 * p) * q + (256 * y + l) by { assert 256 * (p * q) == (256 * p) * q; }
    DivModUnique(z * m + c, w, q, 256 * y + l);
  }

  lemma ShiftJoinForm(a: int, b: int, m: int, r: int, c: int, c': int)
    requires m * r == 256 && r >= 1 && c' == b / r
    ensures (256 * a + b) * m + c == 256 * (a * m + c') + ((b % r) * m + c)
  {
    var d := b % r;
    assert b == r * c' + d;
    assert (r * c' + d) * m == (m * r) * c' + d * m;
    assert (256 * a + b) * m == 256 * (a * m) + b * m;
  }

  /** Whole bytes shifted out at the top, zeros in at the bottom. */
  lemma BEShiftBytes(s: seq<byte>, nb: nat)
    requires nb <= |s|
    ensures BE(s[nb..] + Zeros(nb)) == (BE(s) * Pow2(8 * nb)) % Pow2(8 * |s|)
  {
    var hi, lo := s[..nb], s[nb..];
    assert s == hi + lo;
    BEConcat(hi, lo);
    BEConcat(lo, Zeros(nb));
    BEZeros(nb);
    BEBound(lo);
    Pow2Add(8 * |lo|, 8 * nb);
    assert 8 * |s| == 8 * |lo| + 8 * nb;
    hide BE, Pow2;
    TopLost(BE(s), BE(hi), BE(lo), Pow2(8 * |lo|), Pow2(8 * nb), Pow2(8 * |s|));
  }

  lemma TopLost(x: int, h: nat, l: nat, p: int, q: int, m: int)
    requires p >= 1 && q >= 1 && l < p && x == h * p + l && m == p * q && m >= 1
    ensures (x * q) % m == l * q
  {
    assert (h * p + l) * q == (p * q) * h + l * q;
    assert 0 <= l * q && l * q < p * q by { assert (p - l) * q >= 1; }
    DivModUnique(x * q, m, h, l * q);
  }

  // ---------------------------------------------------------------- lengths

  lemma LengthOf(s: seq<byte>, ix: nat, k: nat)
    requires ix < |s| && k < 8 && Pow2(k) <= s[ix] < 2 * Pow2(k)
    requires forall i :: 0 <= i < ix ==> s[i] == 0
    ensures Len(BE(s)) == 8 * (|s| - ix - 1) + k + 1
  {
    hide *;
    var n := |s| - ix - 1;
    SplitAt(s, ix);
    Pow2Add(k, 8 * n);
    Pow2Add(k + 1, 8 * n);
    Pow2Succ(k);
    BetweenPowers(s[ix], Pow2(k), Pow2(8 * n), BE(s[ix + 1..]), BE(s));
    LenBound(BE(s), k + 8 * n);
    LenBound(BE(s), k + 1 + 8 * n);
  }

  /** The value below the zero bytes at the top. */
  lemma SplitAt(s: seq<byte>, ix: nat)
    requires ix < |s| && forall i :: 0 <= i < ix ==> s[i] == 0
    ensures BE(s) == s[ix] * Pow2(8 * (|s| - ix - 1)) + BE(s[ix + 1..])
    ensures BE(s[ix + 1..]) < Pow2(8 * (|s| - ix - 1))
  {
    hide BE, Pow2;
    var hi, lo := s[..ix + 1], s[ix + 1..];
    assert s == hi + lo;
    BEConcat(hi, lo);
    assert hi[..ix] == s[..ix];
    BEZeroIff(s[..ix]);
    BELast(hi);
    assert BE(hi) == s[ix];
    BEBound(lo);
  }

  lemma Pow2Succ(k: nat)
    ensures Pow2(k + 1) == 2 * Pow2(k)
  {
  }

  lemma BetweenPowers(b: int, m: int, p: int, l: int, v: int)
    requires m <= b < 2 * m && 0 <= l < p && v == b * p + l
    ensures m * p <= v < 2 * m * p
  {
    ProductSign(b - m, p);
    ProductSign(2 * m - 1 - b, p);
    SplitExcess(b, m, p);
  }

  lemma SplitExcess(b: int, m: int, p: int)
    ensures (b - m) * p == b * p - m * p && (2 * m - 1 - b) * p == 2 * m * p - p - b * p
  {
  }

  // ---------------------------------------------------------------- bits and powers

  /** `mask & b` with a one-bit mask. */
  lemma {:induction false} BitTest(k: nat, b: int)
    requires b >= 0
    ensures And(Pow2(k), b) == if b / Pow2(k) % 2 == 1 then Pow2(k) else 0
    decreases k
  {
    if k == 0 {
      AndMask(b, 1);
      AndComm(1, b);
      assert Pow2(0) == 1 && Pow2(1) == 2;
    } else {
      BitTest(k - 1, b / 2);
      var p := Pow2(k - 1);
      assert Pow2(k) / 2 == p && Pow2(k) % 2 == 0;
      assert b / (2 * p) == b / 2 / p by { DivDiv(b, p); }
    }
  }

  lemma DivDiv(b: int, p: int)
    requires p >= 1
    ensures b / (2 * p) == b / 2 / p
  {
    var q, r := b / 2 / p, b / 2 % p;
    assert b == (2 * p) * q + (2 * r + b % 2) by { assert b / 2 == p * q + r; assert (2 * p) * q == 2 * (p * q); }
    DivModUnique(b, 2 * p, q, 2 * r + b % 2);
  }

  lemma TopBit(k: nat, b: int, m: int)
    requires m == Pow2(k) && 0 <= b < 2 * m
    ensures b / m % 2 == 1 <==> b >= m
    ensures k > 0 ==> Pow2(k - 1) == m / 2 && 2 * (m / 2) == m
    ensures k == 0 ==> m == 1
  {
    if b >= m { DivModUnique(b, m, 1, b - m); } else { DivModUnique(b, m, 0, b); }
  }

  /** Shifting by whole bytes and then by bits. */
  lemma ShiftCompose(v: nat, p: nat, q: nat, n: nat)
    ensures v * Pow2(p) >= 0 && ((v * Pow2(p)) % Pow2(n) * Pow2(q)) % Pow2(n) == (v * Pow2(p + q)) % Pow2(n)
    ensures q == 0 ==> (v * Pow2(p)) % Pow2(n) == (v * Pow2(p + q)) % Pow2(n)
  {
    Pow2Add(p, q);
    hide Pow2;
    var a, m, w := Pow2(p), Pow2(n), Pow2(q);
    ModScale(v * a, w, m);
    assert v * (a * w) == v * a * w;
  }

  lemma ModScale(x: int, w: int, m: int)
    requires m >= 1
    ensures (x % m * w) % m == (x * w) % m
  {
    var q, r := x / m, x % m;
    var q1, r1 := (r * w) / m, (r * w) % m;
    assert x * w == m * (q * w + q1) + r1 by { assert (m * q + r) * w == m * (q * w) + r * w; }
    DivModUnique(x * w, m, q * w + q1, r1);
  }

  lemma Pow2Small()
    ensures Pow2(2) == 4 && Pow2(3) == 8 && Pow2(5) == 32 && Pow2(8) == 256 && Pow2(10) == 1024
  {
  }

  lemma DivNonNegative(x: int, p: int)
    requires x >= 0 && p >= 1
    ensures x / p >= 0
  {
  }
}
