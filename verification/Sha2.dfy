/** The streaming SHA-256 of sha2.c: a context of counters, chaining state and a block buffer
    updated in place. */
module Sha2 {
  import opened Bits
  import opened Buffers
  import opened Sha256Spec
  import opened Word32

  // ---------------------------------------------------------------- the round macros

  /** ROTR. */
  function RotrMacro(x: word32, n: nat): word32
    requires n <= 32
  {
    Or32(Shr32(x, n), Shl32(x, 32 - n))
  }

  /** F1, the source's form of Ch. */
  function F1(x: word32, y: word32, z: word32): word32 { Xor32(z, And32(x, Xor32(y, z))) }

  /** F0, the source's form of Maj. */
  function F0(x: word32, y: word32, z: word32): word32 { Or32(And32(x, y), And32(z, Or32(x, y))) }

  function S0(x: word32): word32 { Xor32(Xor32(RotrMacro(x, 7), RotrMacro(x, 18)), Shr32(x, 3)) }

  function S1(x: word32): word32 { Xor32(Xor32(RotrMacro(x, 17), RotrMacro(x, 19)), Shr32(x, 10)) }

  function S2(x: word32): word32 { Xor32(Xor32(RotrMacro(x, 2), RotrMacro(x, 13)), RotrMacro(x, 22)) }

  function S3(x: word32): word32 { Xor32(Xor32(RotrMacro(x, 6), RotrMacro(x, 11)), RotrMacro(x, 25)) }

  /** The source's rewritten Boolean functions are the standard's. */
  lemma ChForm(x: word32, y: word32, z: word32)
    ensures F1(x, y, z) == Ch(x, y, z)
  {
    hide Bit, Xor, And;
    forall i | 0 <= i < 32 ensures Bit(F1(x, y, z), i) <==> Bit(Ch(x, y, z), i) {
      BitXor(z, And32(x, Xor32(y, z)), i);
      BitAnd(x, Xor32(y, z), i);
      BitXor(y, z, i);
      BitXor(And32(x, y), And32(Not32(x), z), i);
      BitAnd(x, y, i);
      BitAnd(Not32(x), z, i);
      NotBit(x, i);
    }
    WordExt(F1(x, y, z), Ch(x, y, z));
  }

  lemma MajForm(x: word32, y: word32, z: word32)
    ensures F0(x, y, z) == Maj(x, y, z)
  {
    hide Bit, Xor, And, Or;
    forall i | 0 <= i < 32 ensures Bit(F0(x, y, z), i) <==> Bit(Maj(x, y, z), i) {
      BitOr(And32(x, y), And32(z, Or32(x, y)), i);
      BitAnd(z, Or32(x, y), i);
      BitOr(x, y, i);
      BitXor(Xor32(And32(x, y), And32(x, z)), And32(y, z), i);
      BitXor(And32(x, y), And32(x, z), i);
      BitAnd(x, y, i);
      BitAnd(x, z, i);
      BitAnd(y, z, i);
    }
    WordExt(F0(x, y, z), Maj(x, y, z));
  }

  lemma RotrForm(x: word32, n: nat)
    requires n <= 32
    ensures RotrMacro(x, n) == Rotr(x, n)
  {
    hide Or32, Shr32, Shl32, Rotr;
    RotrShift(x, n);
  }

  lemma SigmaForms(x: word32)
    ensures S0(x) == Small0(x) && S1(x) == Small1(x) && S2(x) == Big0(x) && S3(x) == Big1(x)
  {
    hide RotrMacro, Rotr, Xor32, Shr32;
    RotrForm(x, 7); RotrForm(x, 18); RotrForm(x, 17); RotrForm(x, 19); RotrForm(x, 2);
    RotrForm(x, 13); RotrForm(x, 22); RotrForm(x, 6); RotrForm(x, 11); RotrForm(x, 25);
  }

  lemma RoundForm(s: State, k: word32, w: word32)
    ensures
      var t1 := Sum32(s.h + Big1(s.e) + Ch(s.e, s.f, s.g) + k + w);
      var t2 := Sum32(Big0(s.a) + Maj(s.a, s.b, s.c));
      Round(s, k, w) == State(Sum32(t1 + t2), s.a, s.b, s.c, Sum32(s.d + t1), s.e, s.f, s.g)
  {
    hide Big0, Big1, Ch, Maj, Sum32;
  }

  /** P: one round, leaving the result in d and h. */
  method P(a: word32, b: word32, c: word32, d: word32, e: word32, f: word32, g: word32, h: word32, x: word32, k: word32)
    returns (d': word32, h': word32)
    ensures Round(State(a, b, c, d, e, f, g, h), k, x) == State(h', a, b, c, d', e, f, g)
  {
    hide *;
    RoundForm(State(a, b, c, d, e, f, g, h), k, x);
    SigmaForms(e);
    SigmaForms(a);
    ChForm(e, f, g);
    MajForm(a, b, c);
    var temp1: int := Sum32(h + S3(e) + F1(e, f, g) + k + x);
    var temp2: int := Sum32(S2(a) + F0(a, b, c));
    d' := Sum32(d + temp1);
    h' := Sum32(temp1 + temp2);
  }

  ghost predicate Filled(w: seq<word32>, data: seq<byte>, n: nat)
    requires |data| == 64
  {
    |w| == 64 && n <= 64 && forall i :: 0 <= i < n ==> w[i] == Schedule(data, i)
  }

  lemma ScheduleStep(data: seq<byte>, t: nat)
    requires |data| == 64 && t >= 16
    ensures Schedule(data, t)
         == Sum32(Small1(Schedule(data, t - 2)) + Schedule(data, t - 7) + Small0(Schedule(data, t - 15))
           + Schedule(data, t - 16))
  {
    hide Small0, Small1, Sum32;
  }

  /** R: the next schedule word. */
  method Extend(w: array<word32>, t: nat, ghost data: seq<byte>)
    requires w.Length == 64 && |data| == 64 && 16 <= t < 64 && Filled(w[..], data, t)
    modifies w
    ensures Filled(w[..], data, t + 1)
  {
    hide S0, S1, Small0, Small1, Sum32;
    SigmaForms(w[t - 2]);
    SigmaForms(w[t - 15]);
    ScheduleStep(data, t);
    w[t] := Sum32(S1(w[t - 2]) + w[t - 7] + S0(w[t - 15]) + w[t - 16]);
  }

  lemma RoundIs(st: State, data: seq<byte>, t: nat)
    requires |data| == 64 && t < 64
    ensures Rounds(st, data, t + 1) == Round(Rounds(st, data, t), K(t), Schedule(data, t))
  {
    hide Round, K;
  }

  /** Eight rounds on words of the block; each renames the registers by one place. */
  method FirstRounds(w: array<word32>, t: nat, a0: word32, b0: word32, c0: word32, d0: word32, e0: word32, f0: word32,
    g0: word32, h0: word32, ghost st: State, ghost data: seq<byte>)
    returns (a: word32, b: word32, c: word32, d: word32, e: word32, f: word32, g: word32, h: word32)
    requires w.Length == 64 && |data| == 64 && t + 8 <= 16 && t + 8 <= 64 && Filled(w[..], data, 16)
    requires State(a0, b0, c0, d0, e0, f0, g0, h0) == Rounds(st, data, t)
    ensures State(a, b, c, d, e, f, g, h) == Rounds(st, data, t + 8)
  {
    hide Big0, Big1, Small0, Small1, Ch, Maj, K, Schedule, Rounds;
    a, b, c, d, e, f, g, h := a0, b0, c0, d0, e0, f0, g0, h0;
    d, h := P(a, b, c, d, e, f, g, h, w[t], K(t));
    RoundIs(st, data, t + 0);
    c, g := P(h, a, b, c, d, e, f, g, w[t + 1], K(t + 1));
    RoundIs(st, data, t + 1);
    b, f := P(g, h, a, b, c, d, e, f, w[t + 2], K(t + 2));
    RoundIs(st, data, t + 2);
    a, e := P(f, g, h, a, b, c, d, e, w[t + 3], K(t + 3));
    RoundIs(st, data, t + 3);
    h, d := P(e, f, g, h, a, b, c, d, w[t + 4], K(t + 4));
    RoundIs(st, data, t + 4);
    g, c := P(d, e, f, g, h, a, b, c, w[t + 5], K(t + 5));
    RoundIs(st, data, t + 5);
    f, b := P(c, d, e, f, g, h, a, b, w[t + 6], K(t + 6));
    RoundIs(st, data, t + 6);
    e, a := P(b, c, d, e, f, g, h, a, w[t + 7], K(t + 7));
    RoundIs(st, data, t + 7);
  }

  /** Eight rounds that extend the schedule as they go. */
  method LaterRounds(w: array<word32>, t: nat, a0: word32, b0: word32, c0: word32, d0: word32, e0: word32, f0: word32,
    g0: word32, h0: word32, ghost st: State, ghost data: seq<byte>)
    returns (a: word32, b: word32, c: word32, d: word32, e: word32, f: word32, g: word32, h: word32)
    requires w.Length == 64 && |data| == 64 && 16 <= t && t + 8 <= 64 && Filled(w[..], data, t)
    requires State(a0, b0, c0, d0, e0, f0, g0, h0) == Rounds(st, data, t)
    modifies w
    ensures Filled(w[..], data, t + 8)
    ensures State(a, b, c, d, e, f, g, h) == Rounds(st, data, t + 8)
  {
    hide Big0, Big1, Small0, Small1, Ch, Maj, K, Schedule, Rounds;
    a, b, c, d, e, f, g, h := a0, b0, c0, d0, e0, f0, g0, h0;
    Extend(w, t, data);
    d, h := P(a, b, c, d, e, f, g, h, w[t], K(t));
    RoundIs(st, data, t + 0);
    Extend(w, t + 1, data);
    c, g := P(h, a, b, c, d, e, f, g, w[t + 1], K(t + 1));
    RoundIs(st, data, t + 1);
    Extend(w, t + 2, data);
    b, f := P(g, h, a, b, c, d, e, f, w[t + 2], K(t + 2));
    RoundIs(st, data, t + 2);
    Extend(w, t + 3, data);
    a, e := P(f, g, h, a, b, c, d, e, w[t + 3], K(t + 3));
    RoundIs(st, data, t + 3);
    Extend(w, t + 4, data);
    h, d := P(e, f, g, h, a, b, c, d, w[t + 4], K(t + 4));
    RoundIs(st, data, t + 4);
    Extend(w, t + 5, data);
    g, c := P(d, e, f, g, h, a, b, c, w[t + 5], K(t + 5));
    RoundIs(st, data, t + 5);
    Extend(w, t + 6, data);
    f, b := P(c, d, e, f, g, h, a, b, w[t + 6], K(t + 6));
    RoundIs(st, data, t + 6);
    Extend(w, t + 7, data);
    e, a := P(b, c, d, e, f, g, h, a, w[t + 7], K(t + 7));
    RoundIs(st, data, t + 7);
  }

  /** GET_ULONG_BE. */
  function GetWord(b: seq<byte>, i: nat): word32
    requires i + 4 <= |b|
  {
    Or32(Or32(Or32(Shl32(b[i], 24), Shl32(b[i + 1], 16)), Shl32(b[i + 2], 8)), b[i + 3])
  }

  lemma GetWordIs(b: seq<byte>, i: nat)
    requires 4 * i + 4 <= |b|
    ensures GetWord(b, 4 * i) == Word(b, i)
  {
    hide Or32, Shl32;
    FourBytes(b[4 * i], b[4 * i + 1], b[4 * i + 2], b[4 * i + 3]);
  }

  lemma ScheduleWord(data: seq<byte>, i: nat)
    requires |data| == 64 && i < 16
    ensures Schedule(data, i) == Word(data, i)
  {
  }

  method LoadBlock(data: seq<byte>) returns (w: array<word32>)
    requires |data| == 64
    ensures fresh(w) && w.Length == 64 && Filled(w[..], data, 16)
  {
    hide GetWord, Schedule;
    w := new word32[64];
    LoadEight(data, w, 0);
    LoadEight(data, w, 8);
  }

  /** Eight of the sixteen loads. */
  method LoadEight(data: seq<byte>, w: array<word32>, i: nat)
    requires |data| == 64 && w.Length == 64 && i <= 8 && Filled(w[..], data, i)
    modifies w
    ensures Filled(w[..], data, i + 8)
  {
    hide GetWord, Schedule;
    forall k | 0 <= k < 16 ensures GetWord(data, 4 * k) == Schedule(data, k) {
      GetWordIs(data, k);
      ScheduleWord(data, k);
    }
    var j := 4 * i;
    w[i], w[i + 1], w[i + 2], w[i + 3]
      := GetWord(data, j), GetWord(data, j + 4), GetWord(data, j + 8), GetWord(data, j + 12);
    w[i + 4], w[i + 5], w[i + 6], w[i + 7]
      := GetWord(data, j + 16), GetWord(data, j + 20), GetWord(data, j + 24), GetWord(data, j + 28);
    assert w[i] == Schedule(data, i) && w[i + 1] == Schedule(data, i + 1);
    assert w[i + 2] == Schedule(data, i + 2) && w[i + 3] == Schedule(data, i + 3);
    assert w[i + 4] == Schedule(data, i + 4) && w[i + 5] == Schedule(data, i + 5);
    assert w[i + 6] == Schedule(data, i + 6) && w[i + 7] == Schedule(data, i + 7);
  }

  /** sha2_process: the register-renamed rounds are the standard's compression. */
  method Process(st: State, data: seq<byte>) returns (r: State)
    requires |data| == 64
    ensures r == Compress(st, data)
  {
    hide Round, K, Schedule, Rounds, Filled, Sum32;
    var w := LoadBlock(data);
    var a, b, c, d, e, f, g, h := st.a, st.b, st.c, st.d, st.e, st.f, st.g, st.h;
    NoRounds(st, data);
    assert State(a, b, c, d, e, f, g, h) == Rounds(st, data, 0);
    a, b, c, d, e, f, g, h := FirstRounds(w, 0, a, b, c, d, e, f, g, h, st, data);
    a, b, c, d, e, f, g, h := FirstRounds(w, 8, a, b, c, d, e, f, g, h, st, data);
    a, b, c, d, e, f, g, h := LaterRounds(w, 16, a, b, c, d, e, f, g, h, st, data);
    a, b, c, d, e, f, g, h := LaterRounds(w, 24, a, b, c, d, e, f, g, h, st, data);
    a, b, c, d, e, f, g, h := LaterRounds(w, 32, a, b, c, d, e, f, g, h, st, data);
    a, b, c, d, e, f, g, h := LaterRounds(w, 40, a, b, c, d, e, f, g, h, st, data);
    a, b, c, d, e, f, g, h := LaterRounds(w, 48, a, b, c, d, e, f, g, h, st, data);
    a, b, c, d, e, f, g, h := LaterRounds(w, 56, a, b, c, d, e, f, g, h, st, data);
    r := State(Sum32(st.a + a), Sum32(st.b + b), Sum32(st.c + c), Sum32(st.d + d),
               Sum32(st.e + e), Sum32(st.f + f), Sum32(st.g + g), Sum32(st.h + h));
  }

  lemma NoRounds(st: State, data: seq<byte>)
    requires |data| == 64
    ensures Rounds(st, data, 0) == st
  {
  }

  // ---------------------------------------------------------------- the context

  /** memcpy. */
  method CopyBytes(src: array<byte>, off: nat, dst: array<byte>, at: nat, n: nat)
    requires off + n <= src.Length && at + n <= dst.Length && src != dst
    modifies dst
    ensures dst[..at] == old(dst[..at]) && dst[at..at + n] == src[off..off + n] && dst[at + n..] == old(dst[at + n..])
  {
    ghost var d := dst[..];
    for i := 0 to n
      invariant forall k :: 0 <= k < at ==> dst[k] == d[k]
      invariant forall k :: at <= k < at + i ==> dst[k] == src[off + k - at]
      invariant forall k :: at + i <= k < dst.Length ==> dst[k] == d[k]
    {
      dst[at + i] := src[off + i];
    }
  }

  class Context {
    var total0: word32
    var total1: word32
    var state: State
    var is224: bool
    const buffer: array<byte>
    const ipad: array<byte>
    const opad: array<byte>

    constructor ()
      ensures Valid() && fresh(buffer) && fresh(ipad) && fresh(opad)
    {
      total0, total1, is224 := 0, 0, false;
      state := Initial(false);
      buffer := new byte[64];
      ipad := new byte[64];
      opad := new byte[64];
    }

    ghost predicate Valid() {
      && buffer.Length == 64 && ipad.Length == 64 && opad.Length == 64
      && buffer != ipad && buffer != opad && ipad != opad
    }

    /** The context has taken in m: the counters hold its length modulo 2^64, the chaining state
        its whole blocks, the buffer begins with the bytes left over. */
    ghost predicate Absorbed(m: seq<byte>)
      requires Valid()
      reads this, buffer
    {
      && total0 + 0x1_0000_0000 * total1 == |m| % 0x1_0000_0000_0000_0000
      && state == Fold(Initial(is224), m)
      && buffer[..|m| % 64] == m[|m| / 64 * 64..]
    }

    method Starts(is224: bool)
      requires Valid()
      modifies this
      ensures Absorbed([]) && this.is224 == is224
    {
      total0, total1 := 0, 0;
      if !is224 {
        state := State(0x6A09E667, 0xBB67AE85, 0x3C6EF372, 0xA54FF53A, 0x510E527F, 0x9B05688C, 0x1F83D9AB, 0x5BE0CD19);
      } else {
        state := State(0xC1059ED8, 0x367CD507, 0x3070DD17, 0xF70E5939, 0xFFC00B31, 0x68581511, 0x64F98FA7, 0xBEFA4FA4);
      }
      this.is224 := is224;
    }

    /** The two-word byte counter. */
    method Count(ilen: nat, ghost n: nat)
      requires ilen < 0x8000_0000 && total0 + 0x1_0000_0000 * total1 == n % 0x1_0000_0000_0000_0000
      modifies this`total0, this`total1
      ensures total0 + 0x1_0000_0000 * total1 == (n + ilen) % 0x1_0000_0000_0000_0000
    {
      ghost var v := total0 + 0x1_0000_0000 * total1;
      total0 := (total0 + ilen) % 0x1_0000_0000;
      if total0 < ilen {
        total1 := (total1 + 1) % 0x1_0000_0000;
      }
      ghost var r := total0 + 0x1_0000_0000 * total1;
      assert r == v + ilen || r == v + ilen - 0x1_0000_0000_0000_0000;
      CountModulo(n, ilen, v, r);
    }

    /** k bytes of the input are in, the last left of them waiting in the buffer. */
    ghost predicate Progress(m: seq<byte>, inp: seq<byte>, k: nat, left: nat)
      requires Valid() && k <= |inp|
      reads this`state, this`is224, buffer
    {
      && left == (|m| + k) % 64
      && state == Fold(Initial(is224), m + inp[..k])
      && buffer[..left] == (m + inp[..k])[|m| + k - left..]
    }

    /** Complete and process the block in the buffer. */
    method FillBuffer(input: array<byte>, off: nat, left: nat, fill: nat, ghost m: seq<byte>, ghost inp: seq<byte>)
      requires Valid() && input != buffer && 0 < left && fill == 64 - left && fill <= |inp|
      requires off + |inp| <= input.Length && inp == input[off..off + |inp|] && Progress(m, inp, 0, left)
      modifies this`state, buffer
      ensures Progress(m, inp, fill, 0)
    {
      hide Fold, Compress, Initial;
      assert m + inp[..0] == m;
      assert input[off..off + fill] == inp[..fill];
      CopyBytes(input, off, buffer, left, fill);
      assert buffer[..64] == buffer[..];
      FillBlock(Initial(is224), m, inp, fill, buffer[..]);
      state := Process(state, buffer[..]);
    }

    /** Process whole blocks straight from the input. */
    method WholeBlocks(input: array<byte>, off: nat, ilen: nat, k0: nat, left: nat, ghost m: seq<byte>,
      ghost inp: seq<byte>) returns (k: nat)
      requires |inp| == ilen && Valid() && input != buffer && k0 <= |inp| && (|inp| - k0 >= 64 ==> left == 0)
      requires off + |inp| <= input.Length && inp == input[off..off + |inp|] && Progress(m, inp, k0, left)
      modifies this`state
      ensures k <= |inp| && |inp| - k < 64 && Progress(m, inp, k, left) && (k > k0 ==> left == 0)
    {
      hide Fold, Compress, Initial;
      k := k0;
      while ilen - k >= 64
        invariant k0 <= k <= |inp| && Progress(m, inp, k, left) && (k > k0 ==> left == 0)
      {
        NextBlock(Initial(is224), m, inp, k);
        assert input[off + k..off + k + 64] == inp[k..k + 64];
        state := Process(state, input[off + k..off + k + 64]);
        k := k + 64;
      }
    }

    /** Keep the rest, less than a block, for the next call. */
    method KeepRest(input: array<byte>, off: nat, k: nat, left: nat, ghost m: seq<byte>, ghost inp: seq<byte>,
      rest: nat)
      requires Valid() && input != buffer && k + rest == |inp| && left + rest < 64
      requires off + |inp| <= input.Length && inp == input[off..off + |inp|] && Progress(m, inp, k, left)
      modifies buffer
      ensures Progress(m, inp, |inp|, left + rest)
    {
      hide Fold, Compress, Initial;
      LastBytes(Initial(is224), m, inp, k, left);
      TailGrows(m, inp, k, left);
      assert inp[..|inp|] == inp;
      if rest > 0 {
        assert input[off + k..off + k + rest] == inp[k..];
        CopyBytes(input, off + k, buffer, left, rest);
      }
      assert buffer[..left + rest] == buffer[..left] + inp[k..];
    }

    lemma Begin(m: seq<byte>, inp: seq<byte>)
      requires Valid() && Absorbed(m)
      ensures Progress(m, inp, 0, total0 % 64)
      ensures total0 + 0x1_0000_0000 * total1 == |m| % 0x1_0000_0000_0000_0000
    {
      hide Fold, Compress, Initial;
      Remainder(|m|);
      assert m + inp[..0] == m;
    }

    lemma Done(m: seq<byte>, inp: seq<byte>, left: nat)
      requires Valid() && Progress(m, inp, |inp|, left)
      requires total0 + 0x1_0000_0000 * total1 == |m + inp| % 0x1_0000_0000_0000_0000
      ensures Absorbed(m + inp)
    {
      hide Fold, Compress, Initial;
      assert inp[..|inp|] == inp;
    }

    /** Append ilen bytes of input, a length of zero or less being ignored. */
    method Update(input: array<byte>, off: nat, ilen: int, ghost m: seq<byte>, ghost all: seq<byte>)
      requires Valid() && Absorbed(m) && input != buffer
      requires ilen < 0x8000_0000 && (ilen > 0 ==> off + ilen <= input.Length)
      requires all == m + if ilen <= 0 then [] else input[off..off + ilen]
      modifies this`total0, this`total1, this`state, buffer
      ensures Absorbed(all)
    {
      hide Fold, Compress, Initial, Absorbed, Progress;
      if ilen <= 0 {
        assert m + [] == m;
        return;
      }
      ghost var inp := input[off..off + ilen];
      Begin(m, inp);
      var left := total0 % 64;
      var fill := 64 - left;
      Count(ilen, |m|);
      var k := 0;
      if left != 0 && ilen >= fill {
        FillBuffer(input, off, left, fill, m, inp);
        k := fill;
        left := 0;
      }
      k := WholeBlocks(input, off, ilen, k, left, m, inp);
      KeepRest(input, off, k, left, m, inp, ilen - k);
      Done(m, inp, left + (ilen - k));
    }

    /** Append the padding and the length. */
    method PadMessage(ghost m: seq<byte>)
      requires Valid() && Absorbed(m) && |m| < 0x2000_0000_0000_0000
      modifies this`total0, this`total1, this`state, buffer
      ensures state == Fold(Initial(is224), Pad(m))
    {
      hide Fold, Compress, Initial, Absorbed, WordBytes, Pad, Field64, Or32, Shr32, Shl32;
      Begin(m, []);
      Remainder(|m|);
      var high := Or32(Shr32(total0, 29), Shl32(total1, 3));
      var low := Shl32(total0, 3);
      LengthField(total0, total1, |m|);
      var msglen := new byte[8];
      PutWord(msglen, 0, high);
      PutWord(msglen, 4, low);
      assert msglen[0..8] == msglen[0..4] + msglen[4..8];
      var last := total0 % 64;
      var padn := if last < 56 then 56 - last else 120 - last;
      var padding := new byte[64](i => if i == 0 then 0x80 else 0);
      PadForm(m, padding[0..padn]);
      ghost var padded := m + padding[0..padn];
      Update(padding, 0, padn, m, padded);
      Update(msglen, 0, 8, padded, Pad(m));
      StateIs(Pad(m));
    }

    /** Pad, process the rest, and write the digest: 32 bytes, or 28 for SHA-224. */
    method Finish(output: array<byte>, ghost m: seq<byte>)
      requires Valid() && Absorbed(m) && |m| < 0x2000_0000_0000_0000 && output.Length == 32 && output != buffer
      modifies this`total0, this`total1, this`state, buffer, output
      ensures output[..|Hash(m, is224)|] == Hash(m, is224)
      ensures output[|Hash(m, is224)|..] == old(output[|Hash(m, is224)|..])
    {
      hide Fold, Compress, Initial, Absorbed, WordBytes, Pad;
      PadMessage(m);
      WriteState(output, state);
      if !is224 { PutWord(output, 28, state.h); }
      assert output[..32] == output[..28] + output[28..];
    }

    // ---------------------------------------------------------------- HMAC

    /** The inner and outer keys are in place. */
    ghost predicate Keyed(key: seq<byte>)
      requires Valid()
      reads this`is224, ipad, opad
    {
      ipad[..] == XorWith(BlockKey(key, is224), 0x36) && opad[..] == XorWith(BlockKey(key, is224), 0x5C)
    }

    /** Set up the keys, hashing a key longer than a block, and absorb the inner one. */
    method HmacStarts(key0: array<byte>, keylen0: nat, is224: bool)
      requires Valid() && keylen0 <= key0.Length && keylen0 < 0x8000_0000
      requires key0 != buffer && key0 != ipad && key0 != opad
      modifies this, buffer, ipad, opad
      ensures this.is224 == is224 && Keyed(old(key0[..keylen0]))
      ensures Absorbed(XorWith(BlockKey(old(key0[..keylen0]), is224), 0x36))
    {
      hide Fold, Compress, Initial, Pad, Absorbed, BlockKey, Hash, XorWith;
      FillPads(key0, keylen0, ipad, opad, is224);
      Starts(is224);
      assert [] + ipad[0..64] == ipad[..];
      Update(ipad, 0, 64, [], ipad[..]);
    }

    method HmacFinish(output: array<byte>, ghost key: seq<byte>, ghost m: seq<byte>)
      requires Valid() && Keyed(key) && output.Length == 32 && output != buffer && output != ipad && output != opad
      requires Absorbed(XorWith(BlockKey(key, is224), 0x36) + m) && |m| < 0x1FFF_FFFF_FFFF_FF00
      modifies this, buffer, output
      ensures is224 == old(is224) && Keyed(key)
      ensures output[..|Hmac(key, m, is224)|] == Hmac(key, m, is224)
    {
      hide Fold, Compress, Initial, Pad, Absorbed, BlockKey, Hash, XorWith;
      ghost var inner := XorWith(BlockKey(key, is224), 0x36) + m;
      var hlen := if is224 then 28 else 32;
      var tmpbuf := new byte[32];
      Finish(tmpbuf, inner);
      Starts(is224);
      assert [] + opad[0..64] == opad[..];
      Update(opad, 0, 64, [], opad[..]);
      assert tmpbuf[0..hlen] == Hash(inner, is224);
      Update(tmpbuf, 0, hlen, opad[..], opad[..] + Hash(inner, is224));
      Finish(output, opad[..] + Hash(inner, is224));
    }

    lemma StateIs(m: seq<byte>)
      requires Valid() && Absorbed(m)
      ensures state == Fold(Initial(is224), m)
    {
    }
  }

  /** sha2: the digest of a whole buffer. */
  method HashBuffer(input: array<byte>, ilen: nat, output: array<byte>, is224: bool)
    requires ilen <= input.Length && ilen < 0x8000_0000 && output.Length == 32
    modifies output
    ensures output[..DigestLength(is224)] == Hash(old(input[..ilen]), is224)
    ensures output[DigestLength(is224)..] == old(output[DigestLength(is224)..])
  {
    hide Fold, Compress, Initial, Pad, Hash, Context.Absorbed;
    var ctx := new Context();
    ctx.Starts(is224);
    FirstPiece(input[..], ilen);
    ctx.Update(input, 0, ilen, [], input[..ilen]);
    ctx.Finish(output, input[..ilen]);
  }

  lemma FirstPiece(s: seq<byte>, n: nat)
    requires n <= |s|
    ensures s[..n] == [] + if n <= 0 then [] else s[0..n]
  {
  }

  /** The bytes of all pieces, in order. */
  ghost function Joined(pieces: seq<array<byte>>): seq<byte>
    reads pieces
  {
    if pieces == [] then [] else Joined(pieces[..|pieces| - 1]) + pieces[|pieces| - 1][..]
  }

  /** sha2_file: however a message is cut into pieces, its digest is that of the whole. */
  method HashPieces(pieces: seq<array<byte>>, output: array<byte>, is224: bool)
    requires forall i :: 0 <= i < |pieces| ==> pieces[i].Length < 0x8000_0000
    requires |Joined(pieces)| < 0x2000_0000_0000_0000 && output.Length == 32
    modifies output
    ensures output[..DigestLength(is224)] == Hash(old(Joined(pieces)), is224)
  {
    hide Fold, Compress, Initial, Pad, Hash, Context.Absorbed;
    var ctx := new Context();
    ctx.Starts(is224);
    for i := 0 to |pieces|
      invariant ctx.Valid() && fresh(ctx) && fresh(ctx.buffer) && ctx.is224 == is224
      invariant ctx.Absorbed(Joined(pieces[..i])) && unchanged(pieces)
    {
      PiecesNext(pieces, i);
      ctx.Update(pieces[i], 0, pieces[i].Length, Joined(pieces[..i]), Joined(pieces[..i + 1]));
    }
    assert pieces[..|pieces|] == pieces;
    ctx.Finish(output, Joined(pieces));
  }

  lemma PiecesNext(pieces: seq<array<byte>>, i: nat)
    requires i < |pieces|
    ensures Joined(pieces[..i + 1]) == Joined(pieces[..i]) + pieces[i][..]
    ensures pieces[i].Length > 0 ==> pieces[i][0..pieces[i].Length] == pieces[i][..]
    ensures pieces[i].Length == 0 ==> pieces[i][..] == []
  {
    assert pieces[..i + 1][..i] == pieces[..i];
  }

  lemma BlockKeyIs(k: seq<byte>, is224: bool, key: seq<byte>)
    requires key == if |k| > 64 then Hash(k, is224) else k
    ensures BlockKey(k, is224) == key + Zeros(64 - |key|)
  {
  }

  /** memset, then exclusive-or of the key bytes in place. */
  method MixKey(key: array<byte>, keylen: nat, pad: array<byte>, c: byte)
    requires keylen <= 64 && keylen <= key.Length && pad.Length == 64 && key != pad
    modifies pad
    ensures pad[..] == XorWith(key[..keylen] + Zeros(64 - keylen), c)
  {
    hide Xor;
    for i := 0 to 64
      invariant forall j :: 0 <= j < i ==> pad[j] == c
    {
      pad[i] := c;
    }
    for i := 0 to keylen
      invariant forall j :: 0 <= j < i ==> pad[j] == Sha256Spec.XorByte(c, key[j])
      invariant forall j :: i <= j < 64 ==> pad[j] == c
    {
      pad[i] := Sha256Spec.XorByte(pad[i], key[i]);
    }
    XorNothing(c);
  }

  /** Both pads from the key, or from its digest when it is longer than a block. */
  method FillPads(key0: array<byte>, keylen0: nat, ipad: array<byte>, opad: array<byte>, is224: bool)
    requires keylen0 <= key0.Length && keylen0 < 0x8000_0000 && ipad.Length == 64 && opad.Length == 64
    requires key0 != ipad && key0 != opad && ipad != opad
    modifies ipad, opad
    ensures ipad[..] == XorWith(BlockKey(old(key0[..keylen0]), is224), 0x36)
    ensures opad[..] == XorWith(BlockKey(old(key0[..keylen0]), is224), 0x5C)
  {
    hide BlockKey, Hash, XorWith, Pad, Fold;
    var key, keylen := key0, keylen0;
    ghost var k := key0[..keylen0];
    if keylen > 64 {
      var sum := new byte[32];
      HashBuffer(key, keylen, sum, is224);
      keylen := if is224 then 28 else 32;
      key := sum;
    }
    BlockKeyIs(k, is224, key[..keylen]);
    MixKey(key, keylen, ipad, 0x36);
    MixKey(key, keylen, opad, 0x5C);
  }

  lemma XorNothing(c: byte)
    ensures Sha256Spec.XorByte(c, 0) == c
  {
  }

  /** PUT_ULONG_BE. */
  method PutWord(b: array<byte>, i: nat, n: word32)
    requires i + 4 <= b.Length
    modifies b
    ensures b[i..i + 4] == WordBytes(n) && b[..i] == old(b[..i])
    ensures forall k :: i + 4 <= k < b.Length ==> b[k] == old(b[k])
  {
    b[i] := n / 0x100_0000 % 256;
    b[i + 1] := n / 0x1_0000 % 256;
    b[i + 2] := n / 0x100 % 256;
    b[i + 3] := n % 256;
  }

  /** The first seven words. */
  method WriteState(b: array<byte>, s: State)
    requires b.Length == 32
    modifies b
    ensures b[..28] == Digest(s, true) && b[28..] == old(b[28..])
  {
    hide WordBytes;
    PutWord(b, 0, s.a);
    PutWord(b, 4, s.b);
    assert b[..8] == WordBytes(s.a) + WordBytes(s.b);
    PutWord(b, 8, s.c);
    assert b[..12] == b[..8] + b[8..12];
    PutWord(b, 12, s.d);
    assert b[..16] == b[..12] + b[12..16];
    PutWord(b, 16, s.e);
    assert b[..20] == b[..16] + b[16..20];
    PutWord(b, 20, s.f);
    assert b[..24] == b[..20] + b[20..24];
    PutWord(b, 24, s.g);
    assert b[..28] == b[..24] + b[24..28];
  }

  /** The two words hold eight times the byte count. */
  lemma LengthField(t0: word32, t1: word32, n: nat)
    requires n < 0x2000_0000_0000_0000 && t0 + 0x1_0000_0000 * t1 == n % 0x1_0000_0000_0000_0000
    ensures WordBytes(Or32(Shr32(t0, 29), Shl32(t1, 3))) + WordBytes(Shl32(t0, 3)) == Field64(8 * n)
  {
    hide WordBytes;
    LengthWords(t0, t1, n);
  }

  lemma LengthWords(t0: word32, t1: word32, n: nat)
    requires n < 0x2000_0000_0000_0000 && t0 + 0x1_0000_0000 * t1 == n % 0x1_0000_0000_0000_0000
    ensures Or32(Shr32(t0, 29), Shl32(t1, 3)) == 8 * n / 0x1_0000_0000 % 0x1_0000_0000
    ensures Shl32(t0, 3) == 8 * n % 0x1_0000_0000
  {
    ShiftPowers();
    hide Pow2, Or;
    var hi, lo := Shl32(t1, 3), Shr32(t0, 29);
    assert t1 < 0x2000_0000 && hi == 8 * t1;
    OrComm(lo, hi);
    OrDisjoint(hi, lo, 3);
    EightTimes(t0, t1, lo);
  }

  lemma ShiftPowers()
    ensures Pow2(29) == 0x2000_0000 && Pow2(3) == 8
  {
    Size();
    Pow2Add(16, 13);
    Pow2Add(8, 5);
    assert Pow2(5) == 32;
  }

  lemma EightTimes(t0: int, t1: int, lo: int)
    requires 0 <= t0 < 0x1_0000_0000 && 0 <= t1 < 0x2000_0000 && lo == t0 / 0x2000_0000
    ensures 8 * (t0 + 0x1_0000_0000 * t1) / 0x1_0000_0000 % 0x1_0000_0000 == 8 * t1 + lo
    ensures 8 * (t0 + 0x1_0000_0000 * t1) % 0x1_0000_0000 == t0 * 8 % 0x1_0000_0000
  {
    var r := t0 % 0x2000_0000;
    assert 8 * (t0 + 0x1_0000_0000 * t1) == 0x1_0000_0000 * (8 * t1 + lo) + 8 * r;
    DivModUnique(8 * (t0 + 0x1_0000_0000 * t1), 0x1_0000_0000, 8 * t1 + lo, 8 * r);
    DivModUnique(t0 * 8, 0x1_0000_0000, lo, 8 * r);
  }

  /** The padding the source appends is the standard's. */
  lemma PadForm(m: seq<byte>, pad: seq<byte>)
    requires |pad| == if |m| % 64 < 56 then 56 - |m| % 64 else 120 - |m| % 64
    requires forall i :: 0 <= i < |pad| ==> pad[i] == if i == 0 then 0x80 else 0
    ensures m + pad + Field64(8 * |m|) == Pad(m)
  {
    assert pad == [0x80] + Zeros((119 - |m| % 64) % 64);
    assert m + pad == m + [0x80] + Zeros((119 - |m| % 64) % 64);
  }

  lemma CountModulo(n: nat, ilen: nat, v: int, r: int)
    requires v == n % 0x1_0000_0000_0000_0000 && 0 <= r < 0x1_0000_0000_0000_0000
    requires r == v + ilen || r == v + ilen - 0x1_0000_0000_0000_0000
    ensures r == (n + ilen) % 0x1_0000_0000_0000_0000
  {
    var q := n / 0x1_0000_0000_0000_0000;
    DivModUnique(n + ilen, 0x1_0000_0000_0000_0000, if r == v + ilen then q else q + 1, r);
  }

  lemma Remainder(n: nat)
    ensures n % 0x1_0000_0000_0000_0000 % 0x1_0000_0000 % 64 == n % 64
  {
  }

  /** The buffered bytes and the first of the input make a block. */
  lemma FillBlock(init: State, m: seq<byte>, inp: seq<byte>, fill: nat, block: seq<byte>)
    requires |m| % 64 != 0 && fill == 64 - |m| % 64 && fill <= |inp| && |block| == 64
    requires block[..|m| % 64] == m[|m| / 64 * 64..] && block[|m| % 64..] == inp[..fill]
    ensures Fold(init, m + inp[..fill]) == Compress(Fold(init, m), block)
  {
    hide Fold, Compress;
    var w := m[..|m| / 64 * 64];
    assert m + inp[..fill] == w + block;
    FoldTail(init, m);
    FoldBlock(init, w, block);
  }

  lemma NextBlock(init: State, m: seq<byte>, inp: seq<byte>, k: nat)
    requires k + 64 <= |inp| && (|m| + k) % 64 == 0
    ensures Fold(init, m + inp[..k + 64]) == Compress(Fold(init, m + inp[..k]), inp[k..k + 64])
  {
    hide Fold, Compress;
    assert m + inp[..k + 64] == (m + inp[..k]) + inp[k..k + 64];
    FoldBlock(init, m + inp[..k], inp[k..k + 64]);
  }

  /** What is left over does not complete a block. */
  lemma TailGrows(m: seq<byte>, inp: seq<byte>, k: nat, left: nat)
    requires k <= |inp| && left <= |m| + k
    ensures (m + inp)[|m| + k - left..] == (m + inp[..k])[|m| + k - left..] + inp[k..]
  {
    assert m + inp == (m + inp[..k]) + inp[k..];
  }

  lemma LastBytes(init: State, m: seq<byte>, inp: seq<byte>, k: nat, left: nat)
    requires k <= |inp| && left == (|m| + k) % 64 && left + |inp| - k < 64
    ensures Fold(init, m + inp[..k]) == Fold(init, m + inp)
    ensures |m + inp| % 64 == left + |inp| - k && |m + inp| / 64 * 64 == |m| + k - left
  {
    hide Fold;
    var a, b := m + inp[..k], m + inp;
    FoldTail(init, a);
    FoldTail(init, b);
    assert a[..|a| / 64 * 64] == b[..|b| / 64 * 64];
  }
}
