/** AES as aes.c computes it: key schedules, ECB and CBC on 32-bit words and byte buffers. */
module Aes {
  import opened Bits
  import opened Buffers
  import opened PackedBytes
  import opened Word32
  import opened AesSpec
  import opened AesColumns
  import opened AesCipher
  import opened AesTables
  import AesBytes

  // ---------------------------------------------------------------- the key expansion of section 5.2

  ghost function RotCol(x: Col): Col { Col(x.b1, x.b2, x.b3, x.b0) }

  /** Word i of the expanded key, for a key of nk words. */
  ghost function KeyWord(key: seq<Col>, i: nat): Col
    requires |key| > 0
  {
    var nk := |key|;
    if i < nk then key[i]
    else
      var t := KeyWord(key, i - 1);
      AddCol(KeyWord(key, i - nk),
        if i % nk == 0 then AddCol(Col(Rcon(i / nk - 1), 0, 0, 0), SubCol(RotCol(t)))
        else if nk > 6 && i % nk == 4 then SubCol(t)
        else t)
  }

  /** The key bytes as columns. */
  function KeyCols(key: seq<byte>): (c: seq<Col>)
    ensures |c| == |key| / 4
  {
    seq(|key| / 4, i requires 0 <= i < |key| / 4 => Col(key[4 * i], key[4 * i + 1], key[4 * i + 2], key[4 * i + 3]))
  }

  ghost function RoundKeys(key: seq<Col>, nr: nat): (k: seq<Block>)
    requires |key| > 0
    ensures |k| == nr + 1
  {
    seq(nr + 1, r requires 0 <= r <= nr =>
      Block(KeyWord(key, 4 * r), KeyWord(key, 4 * r + 1), KeyWord(key, 4 * r + 2), KeyWord(key, 4 * r + 3)))
  }

  /** The columns of the expanded key and its bytes. */
  lemma {:induction false} KeyBytes(key: seq<byte>, nk: nat, i: nat)
    requires nk > 0 && |key| == 4 * nk
    ensures KeyWord(KeyCols(key), i) == WordBytes(key, nk, i)
    decreases i
  {
    hide KeyWord, WordBytes, KeyCols, AddCol, SubCol, RotCol, Rcon;
    if i < nk {
      KeyGiven(key, nk, i);
    } else {
      KeyBytes(key, nk, i - nk);
      KeyBytes(key, nk, i - 1);
      if i % nk == 0 {
        WholeTurns(i, nk);
        FirstIs(KeyCols(key), i, AesBytes.Turn(i, nk));
        FirstBytes(key, nk, i);
      } else {
        OtherIs(KeyCols(key), i);
        OtherBytes(key, nk, i);
      }
    }
  }

  ghost function WordBytes(key: seq<byte>, nk: nat, i: nat): Col
    requires nk > 0 && |key| == 4 * nk
  {
    Col(AesBytes.KeyByte(key, nk, i, 0), AesBytes.KeyByte(key, nk, i, 1), AesBytes.KeyByte(key, nk, i, 2),
      AesBytes.KeyByte(key, nk, i, 3))
  }

  lemma WholeTurns(i: nat, nk: nat)
    requires i >= nk > 0 && i % nk == 0
    ensures i == nk * (AesBytes.Turn(i, nk) + 1)
  {
  }

  lemma KeyGiven(key: seq<byte>, nk: nat, i: nat)
    requires nk > 0 && |key| == 4 * nk && i < nk
    ensures KeyWord(KeyCols(key), i) == WordBytes(key, nk, i)
  {
  }

  lemma FirstBytes(key: seq<byte>, nk: nat, i: nat)
    requires i >= nk > 0 && |key| == 4 * nk && i % nk == 0
    ensures WordBytes(key, nk, i) == AddCol(WordBytes(key, nk, i - nk),
      AddCol(Col(Rcon(AesBytes.Turn(i, nk)), 0, 0, 0), SubCol(RotCol(WordBytes(key, nk, i - 1)))))
  {
    hide Sbox, Rcon, Add8;
    var t := WordBytes(key, nk, i - 1);
    AddRules(Sbox(t.b1), Rcon(AesBytes.Turn(i, nk)), 0);
    AddRules(Sbox(t.b2), 0, 0);
    AddRules(Sbox(t.b3), 0, 0);
    AddRules(Sbox(t.b0), 0, 0);
  }

  lemma OtherBytes(key: seq<byte>, nk: nat, i: nat)
    requires i >= nk > 0 && |key| == 4 * nk && i % nk != 0
    ensures WordBytes(key, nk, i) == AddCol(WordBytes(key, nk, i - nk),
      if nk > 6 && i % nk == 4 then SubCol(WordBytes(key, nk, i - 1)) else WordBytes(key, nk, i - 1))
  {
    hide Sbox, Rcon, Add8;
  }

  /** The first n words of the buffer are those of the expanded key, byte by byte. */
  ghost predicate Schedule(buf: seq<word32>, key: seq<byte>, nk: nat, n: nat)
    requires nk > 0 && |key| == 4 * nk && n <= |buf|
  {
    forall i, j :: 0 <= i < n && 0 <= j < 4 ==> buf[i] / Pow2(8 * j) % 256 == AesBytes.KeyByte(key, nk, i, j)
  }

  // ---------------------------------------------------------------- the context

  const AES_ENCRYPT := 1
  const AES_DECRYPT := 0
  const ERR_INVALID_KEY_LENGTH := -0x0800
  const ERR_INVALID_INPUT_LENGTH := -0x0810

  class Context {
    var nr: int
    const buf: array<word32>

    constructor ()
      ensures buf.Length == 68 && fresh(buf)
    {
      nr := 0;
      buf := new word32[68];
    }

    /** The round keys in place. */
    ghost predicate Holds(keys: seq<Block>)
      reads this, buf
    {
      buf.Length == 68 && 2 <= |keys| <= 15 && nr == |keys| - 1 && nr % 2 == 0 && InPlace(buf[..], keys)
    }
  }

  ghost predicate InPlace(buf: seq<word32>, keys: seq<Block>) {
    4 * |keys| <= |buf| && forall r :: 0 <= r < |keys| ==> KeyAt(buf, r, keys[r])
  }

  /** Round key r occupies words 4 r to 4 r + 3. */
  ghost predicate KeyAt(buf: seq<word32>, r: nat, k: Block)
    requires 4 * r + 4 <= |buf|
  {
    && Unpack(buf[4 * r]) == k.c0 && Unpack(buf[4 * r + 1]) == k.c1
    && Unpack(buf[4 * r + 2]) == k.c2 && Unpack(buf[4 * r + 3]) == k.c3
  }

  /** GET_ULONG_LE. */
  function GetWord(b: seq<byte>, i: nat): (w: word32)
    requires i + 4 <= |b|
    ensures Unpack(w) == Col(b[i], b[i + 1], b[i + 2], b[i + 3])
  {
    GetWordIs(b[i], b[i + 1], b[i + 2], b[i + 3]);
    Or32(Or32(Or32(b[i], Shl32(b[i + 1], 8)), Shl32(b[i + 2], 16)), Shl32(b[i + 3], 24))
  }

  lemma GetWordIs(a: byte, b: byte, c: byte, d: byte)
    ensures Unpack(Or32(Or32(Or32(a, Shl32(b, 8)), Shl32(c, 16)), Shl32(d, 24))) == Col(a, b, c, d)
  {
    hide Unpack, Or, Shl32;
    Places(b, c, d);
    OrAbove(a, 0x100 * b, 8);
    OrAbove(a + 0x100 * b, 0x1_0000 * c, 16);
    OrAbove(a + 0x100 * b + 0x1_0000 * c, 0x100_0000 * d, 24);
    UnpackIs(a + 0x100 * b + 0x1_0000 * c + 0x100_0000 * d, a, b, c, d);
  }

  lemma Places(b: byte, c: byte, d: byte)
    ensures Shl32(b, 8) == 0x100 * b && Shl32(c, 16) == 0x1_0000 * c && Shl32(d, 24) == 0x100_0000 * d
    ensures Pow2(8) == 0x100 && Pow2(16) == 0x1_0000 && Pow2(24) == 0x100_0000
  {
    Size();
    Pow2Add(16, 8);
  }

  lemma OrAbove(lo: int, hi: int, k: nat)
    requires 0 <= lo < Pow2(k) && hi % Pow2(k) == 0
    ensures Or(lo, hi) == lo + hi
  {
    OrComm(lo, hi);
    OrDisjoint(hi, lo, k);
  }

  /** `FSb[b1] ^ FSb[b2] << 8 ^ FSb[b3] << 16 ^ FSb[b0] << 24` joined to a word. */
  method AddBytes(w: word32, a: byte, b: byte, c: byte, d: byte) returns (r: word32)
    ensures Unpack(r) == AddCol(Unpack(w), Col(a, b, c, d))
  {
    hide Unpack, Xor, Shl32, Add8;
    r := Xor32(Xor32(Xor32(Xor32(w, a), Shl32(b, 8)), Shl32(c, 16)), Shl32(d, 24));
    Placed(a);
    Placed(b);
    Placed(c);
    Placed(d);
    UnpackXor(w, a);
    UnpackXor(Xor32(w, a), Shl32(b, 8));
    UnpackXor(Xor32(Xor32(w, a), Shl32(b, 8)), Shl32(c, 16));
    UnpackXor(Xor32(Xor32(Xor32(w, a), Shl32(b, 8)), Shl32(c, 16)), Shl32(d, 24));
    var x := Unpack(w);
    AddZeros(x.b0, a);
    AddZeros(x.b1, b);
    AddZeros(x.b2, c);
    AddZeros(x.b3, d);
  }

  lemma AddZeros(x: byte, a: byte)
    ensures Add8(x, 0) == x && Add8(Add8(x, a), 0) == Add8(x, a)
  {
    AddRules(x, 0, 0);
    AddRules(Add8(x, a), 0, 0);
  }

  // ---------------------------------------------------------------- encryption key schedule

  ghost predicate Expanded(buf: seq<word32>, key: seq<Col>, n: nat)
    requires |key| > 0
  {
    n <= |buf| && forall j :: 0 <= j < n ==> Unpack(buf[j]) == KeyWord(key, j)
  }

  /** No table is the given array. */
  ghost predicate Apart(t: Tables, a: array<word32>) {
    && a != t.ft0 && a != t.ft1 && a != t.ft2 && a != t.ft3
    && a != t.rt0 && a != t.rt1 && a != t.rt2 && a != t.rt3 && a != t.rcon
  }

  lemma FirstIs(key: seq<Col>, at: nat, i: nat)
    requires |key| > 0 && at == |key| * (i + 1) && at >= |key|
    ensures KeyWord(key, at) ==
      AddCol(KeyWord(key, at - |key|), AddCol(Col(Rcon(i), 0, 0, 0), SubCol(RotCol(KeyWord(key, at - 1)))))
  {
    hide Rcon, AddCol, SubCol, RotCol;
    DivModUnique(at, |key|, i + 1, 0);
  }

  lemma OtherIs(key: seq<Col>, at: nat)
    requires |key| > 0 && at >= |key| && at % |key| != 0
    ensures KeyWord(key, at) == AddCol(KeyWord(key, at - |key|),
      if |key| > 6 && at % |key| == 4 then SubCol(KeyWord(key, at - 1)) else KeyWord(key, at - 1))
  {
    hide Rcon, AddCol, SubCol, RotCol;
  }

  lemma OneMore(buf: seq<word32>, after: seq<word32>, key: seq<Col>, at: nat)
    requires |key| > 0 && Expanded(buf, key, at) && at < |buf| == |after| && Unpack(after[at]) == KeyWord(key, at)
    requires forall j :: 0 <= j < at ==> after[j] == buf[j]
    ensures Expanded(after, key, at + 1)
  {
    hide Unpack, KeyWord;
  }

  lemma SubTable(t: Tables, x: byte)
    requires t.Ready()
    ensures t.fsb.Length == 256 && t.fsb[x] == Sbox(x) && t.rsb.Length == 256 && t.rsb[x] == InvSbox(x)
  {
    hide Sbox, InvSbox, Forward, Reverse, Rcon;
    assert t.fsb[..][x] == Sbox(x) && t.rsb[..][x] == InvSbox(x);
  }

  lemma RconTable(t: Tables, i: nat)
    requires t.Ready() && i < 10
    ensures t.rcon.Length == 10 && t.rcon[i] == Rcon(i)
  {
    hide Boxes, Forward, Reverse, Rcon;
  }

  /** RK[nk] = RK[0] ^ RCON[i] ^ the rotated and substituted RK[nk - 1]. */
  method FirstWord(t: Tables, rk: array<word32>, nk: nat, at: nat, i: nat, ghost key: seq<Col>)
    requires t.Ready() && Apart(t, rk) && |key| == nk > 0 && i < 10 && at == nk * (i + 1) && at < rk.Length
    requires Expanded(rk[..], key, at)
    modifies rk
    ensures Expanded(rk[..], key, at + 1)
  {
    hide Unpack, Sbox, InvSbox, Rcon, KeyWord, AddCol, Xor, Tables.Ready;
    ghost var before := rk[..];
    assert at >= nk by { Stride(nk, i); }
    var w := rk[at - 1];
    SubTable(t, Byte1(w));
    SubTable(t, Byte2(w));
    SubTable(t, Byte3(w));
    SubTable(t, Byte0(w));
    RconTable(t, i);
    var r := Xor32(rk[at - nk], t.rcon[i]);
    UnpackXor(rk[at - nk], t.rcon[i]);
    Placed(Rcon(i));
    r := AddBytes(r, t.fsb[Byte1(w)], t.fsb[Byte2(w)], t.fsb[Byte3(w)], t.fsb[Byte0(w)]);
    FirstIs(key, at, i);
    AddColAssoc(KeyWord(key, at - nk), Col(Rcon(i), 0, 0, 0), SubCol(RotCol(KeyWord(key, at - 1))));
    rk[at] := r;
    OneMore(before, rk[..], key, at);
  }

  lemma Stride(nk: nat, i: nat)
    ensures nk * (i + 1) >= nk
  {
  }

  /** RK[j] = RK[j - nk] ^ RK[j - 1]. */
  method NextWord(rk: array<word32>, nk: nat, at: nat, ghost key: seq<Col>)
    requires |key| == nk > 0 && nk <= at < rk.Length && at % nk != 0 && !(nk > 6 && at % nk == 4)
    requires Expanded(rk[..], key, at)
    modifies rk
    ensures Expanded(rk[..], key, at + 1)
  {
    hide Unpack, KeyWord, AddCol, Xor;
    ghost var before := rk[..];
    UnpackXor(rk[at - nk], rk[at - 1]);
    OtherIs(key, at);
    rk[at] := Xor32(rk[at - nk], rk[at - 1]);
    OneMore(before, rk[..], key, at);
  }

  /** RK[12] = RK[4] ^ the substituted RK[11], for 256-bit keys. */
  method MiddleWord(t: Tables, rk: array<word32>, at: nat, ghost key: seq<Col>)
    requires t.Ready() && Apart(t, rk) && |key| == 8 && 8 <= at < rk.Length && at % 8 == 4
    requires Expanded(rk[..], key, at)
    modifies rk
    ensures Expanded(rk[..], key, at + 1)
  {
    hide Unpack, Sbox, InvSbox, KeyWord, AddCol, Xor, Tables.Ready;
    ghost var before := rk[..];
    var w := rk[at - 1];
    SubTable(t, Byte0(w));
    SubTable(t, Byte1(w));
    SubTable(t, Byte2(w));
    SubTable(t, Byte3(w));
    var r := AddBytes(rk[at - 8], t.fsb[Byte0(w)], t.fsb[Byte1(w)], t.fsb[Byte2(w)], t.fsb[Byte3(w)]);
    OtherIs(key, at);
    rk[at] := r;
    OneMore(before, rk[..], key, at);
  }

  method Expand4(t: Tables, rk: array<word32>, ghost key: seq<Col>)
    requires t.Ready() && Apart(t, rk) && |key| == 4 && rk.Length == 68 && Expanded(rk[..], key, 4)
    modifies rk
    ensures Expanded(rk[..], key, 44)
  {
    hide Expanded, Tables.Ready;
    for i := 0 to 10
      invariant t.Ready() && Expanded(rk[..], key, 4 * i + 4)
    {
      FirstWord(t, rk, 4, 4 * i + 4, i, key);
      NextWord(rk, 4, 4 * i + 5, key);
      NextWord(rk, 4, 4 * i + 6, key);
      NextWord(rk, 4, 4 * i + 7, key);
    }
  }

  method Expand6(t: Tables, rk: array<word32>, ghost key: seq<Col>)
    requires t.Ready() && Apart(t, rk) && |key| == 6 && rk.Length == 68 && Expanded(rk[..], key, 6)
    modifies rk
    ensures Expanded(rk[..], key, 54)
  {
    hide Expanded, Tables.Ready;
    for i := 0 to 8
      invariant t.Ready() && Expanded(rk[..], key, 6 * i + 6)
    {
      FirstWord(t, rk, 6, 6 * i + 6, i, key);
      NextWord(rk, 6, 6 * i + 7, key);
      NextWord(rk, 6, 6 * i + 8, key);
      NextWord(rk, 6, 6 * i + 9, key);
      NextWord(rk, 6, 6 * i + 10, key);
      NextWord(rk, 6, 6 * i + 11, key);
    }
  }

  method Expand8(t: Tables, rk: array<word32>, ghost key: seq<Col>)
    requires t.Ready() && Apart(t, rk) && |key| == 8 && rk.Length == 68 && Expanded(rk[..], key, 8)
    modifies rk
    ensures Expanded(rk[..], key, 64)
  {
    hide Expanded, Tables.Ready;
    for i := 0 to 7
      invariant t.Ready() && Expanded(rk[..], key, 8 * i + 8)
    {
      FirstWord(t, rk, 8, 8 * i + 8, i, key);
      NextWord(rk, 8, 8 * i + 9, key);
      NextWord(rk, 8, 8 * i + 10, key);
      NextWord(rk, 8, 8 * i + 11, key);
      MiddleWord(t, rk, 8 * i + 12, key);
      NextWord(rk, 8, 8 * i + 13, key);
      NextWord(rk, 8, 8 * i + 14, key);
      NextWord(rk, 8, 8 * i + 15, key);
    }
  }

  predicate KeySize(keysize: int) { keysize == 128 || keysize == 192 || keysize == 256 }

  function NumRounds(keysize: int): nat { if keysize == 128 then 10 else if keysize == 192 then 12 else 14 }

  /** The round keys that a key of keysize bits stands for. */
  ghost function KeysOf(key: seq<byte>, keysize: int): (k: seq<Block>)
    requires KeySize(keysize) && 8 * |key| >= keysize
    ensures |k| == NumRounds(keysize) + 1
  {
    RoundKeys(KeyCols(key[..keysize / 8]), NumRounds(keysize))
  }

  lemma ScheduleIs(buf: seq<word32>, key: seq<byte>, nk: nat, n: nat, m: nat)
    requires nk > 0 && |key| == 4 * nk && |KeyCols(key)| > 0 && Expanded(buf, KeyCols(key), m) && n <= m
    ensures Schedule(buf, key, nk, n)
  {
    hide KeyWord, KeyCols, Pow2, AesBytes.KeyByte;
    forall i, j | 0 <= i < n && 0 <= j < 4
      ensures buf[i] / Pow2(8 * j) % 256 == AesBytes.KeyByte(key, nk, i, j)
    {
      KeyBytes(key, nk, i);
      assert Unpack(buf[i]) == WordBytes(key, nk, i);
      WordByte(buf[i], j);
    }
  }

  lemma WordByte(w: word32, j: nat)
    requires j < 4
    ensures w / Pow2(8 * j) % 256 ==
      if j == 0 then Unpack(w).b0 else if j == 1 then Unpack(w).b1 else if j == 2 then Unpack(w).b2 else Unpack(w).b3
  {
    Places(0, 0, 0);
    assert Pow2(0) == 1;
  }

  lemma HoldsExpanded(buf: seq<word32>, key: seq<Col>, nr: nat, n: nat)
    requires |key| > 0 && Expanded(buf, key, n) && 4 * nr + 4 <= n
    ensures InPlace(buf, RoundKeys(key, nr))
  {
    hide Unpack, KeyWord;
    forall r | 0 <= r <= nr ensures KeyAt(buf, r, RoundKeys(key, nr)[r]) {
      assert Unpack(buf[4 * r]) == KeyWord(key, 4 * r) && Unpack(buf[4 * r + 1]) == KeyWord(key, 4 * r + 1);
      assert Unpack(buf[4 * r + 2]) == KeyWord(key, 4 * r + 2) && Unpack(buf[4 * r + 3]) == KeyWord(key, 4 * r + 3);
    }
  }

  /** aes_setkey_enc. */
  method SetKeyEnc(t: Tables, ctx: Context, key: array<byte>, keysize: int) returns (ret: int)
    requires t.Ready() && Apart(t, ctx.buf) && ctx.buf.Length == 68 && 8 * key.Length >= keysize
    modifies ctx, ctx.buf
    ensures ret == (if keysize == 128 || keysize == 192 || keysize == 256 then 0 else -0x0800)
    ensures KeySize(keysize) ==> ctx.Holds(KeysOf(key[..], keysize))
    ensures KeySize(keysize) ==>
      var nk := keysize / 32;
      ctx.nr == nk + 6 && Schedule(ctx.buf[..], key[..keysize / 8], nk, 4 * (nk + 7))
    ensures !KeySize(keysize) ==> ctx.nr == old(ctx.nr) && ctx.buf[..] == old(ctx.buf[..])
  {
    hide Unpack, KeyWord, Tables.Ready, Expanded, RoundKeys, InPlace, Schedule;
    if keysize == 128 {
      ctx.nr := 10;
    } else if keysize == 192 {
      ctx.nr := 12;
    } else if keysize == 256 {
      ctx.nr := 14;
    } else {
      return ERR_INVALID_KEY_LENGTH;
    }
    ghost var cols := KeyCols(key[..keysize / 8]);
    LoadKey(ctx.buf, key, keysize / 32);
    if ctx.nr == 10 {
      Expand4(t, ctx.buf, cols);
      HoldsExpanded(ctx.buf[..], cols, 10, 44);
      ScheduleIs(ctx.buf[..], key[..16], 4, 44, 44);
    } else if ctx.nr == 12 {
      Expand6(t, ctx.buf, cols);
      HoldsExpanded(ctx.buf[..], cols, 12, 54);
      ScheduleIs(ctx.buf[..], key[..24], 6, 52, 54);
    } else {
      Expand8(t, ctx.buf, cols);
      HoldsExpanded(ctx.buf[..], cols, 14, 64);
      ScheduleIs(ctx.buf[..], key[..32], 8, 60, 64);
    }
    ret := 0;
  }

  method LoadKey(rk: array<word32>, key: array<byte>, nk: nat)
    requires rk.Length == 68 && 0 < nk <= 8 && key.Length >= 4 * nk
    modifies rk
    ensures Expanded(rk[..], KeyCols(key[..4 * nk]), nk)
  {
    hide Unpack, GetWord;
    for i := 0 to nk
      invariant forall j {:trigger rk[j]} :: 0 <= j < i ==>
        Unpack(rk[j]) == Col(key[4 * j], key[4 * j + 1], key[4 * j + 2], key[4 * j + 3])
    {
      rk[i] := GetWord(key[..], 4 * i);
    }
  }

  // ---------------------------------------------------------------- decryption key schedule

  lemma ReverseTables(t: Tables, a: byte, b: byte, c: byte, d: byte)
    requires t.Ready()
    ensures t.rt0.Length == 256 && t.rt1.Length == 256 && t.rt2.Length == 256 && t.rt3.Length == 256
    ensures Unpack(t.rt0[a]) == InvMixColumn(Single(InvSbox(a), 0))
      && Unpack(t.rt1[b]) == InvMixColumn(Single(InvSbox(b), 1))
    ensures Unpack(t.rt2[c]) == InvMixColumn(Single(InvSbox(c), 2))
      && Unpack(t.rt3[d]) == InvMixColumn(Single(InvSbox(d), 3))
  {
    hide Boxes, Forward, Unpack, InvMixColumn, Single, InvSbox, Rcon;
    assert Unpack(t.rt0[..][a]) == InvMixColumn(Single(InvSbox(a), 0));
    assert Unpack(t.rt1[..][b]) == InvMixColumn(Single(InvSbox(b), 1));
    assert Unpack(t.rt2[..][c]) == InvMixColumn(Single(InvSbox(c), 2));
    assert Unpack(t.rt3[..][d]) == InvMixColumn(Single(InvSbox(d), 3));
  }

  lemma ForwardTables(t: Tables, a: byte, b: byte, c: byte, d: byte)
    requires t.Ready()
    ensures t.ft0.Length == 256 && t.ft1.Length == 256 && t.ft2.Length == 256 && t.ft3.Length == 256
    ensures Unpack(t.ft0[a]) == MixColumn(Single(Sbox(a), 0)) && Unpack(t.ft1[b]) == MixColumn(Single(Sbox(b), 1))
    ensures Unpack(t.ft2[c]) == MixColumn(Single(Sbox(c), 2)) && Unpack(t.ft3[d]) == MixColumn(Single(Sbox(d), 3))
  {
    hide Boxes, Reverse, Unpack, MixColumn, Single, Sbox, Rcon;
    assert Unpack(t.ft0[..][a]) == MixColumn(Single(Sbox(a), 0));
    assert Unpack(t.ft1[..][b]) == MixColumn(Single(Sbox(b), 1));
    assert Unpack(t.ft2[..][c]) == MixColumn(Single(Sbox(c), 2));
    assert Unpack(t.ft3[..][d]) == MixColumn(Single(Sbox(d), 3));
  }

  /** A column is the sum of its single bytes. */
  lemma Singles(x: Col)
    ensures AddCol(AddCol(AddCol(Single(x.b0, 0), Single(x.b1, 1)), Single(x.b2, 2)), Single(x.b3, 3)) == x
  {
    hide Add8;
    AddRules(x.b0, 0, 0);
    AddRules(x.b1, 0, 0);
    AddRules(x.b2, 0, 0);
    AddRules(x.b3, 0, 0);
    AddRules(0, 0, 0);
  }

  lemma InvMixSingles(x: Col)
    ensures InvMixColumn(x) == AddCol(AddCol(AddCol(InvMixColumn(Single(x.b0, 0)), InvMixColumn(Single(x.b1, 1))),
                                             InvMixColumn(Single(x.b2, 2))), InvMixColumn(Single(x.b3, 3)))
  {
    hide AddCol, InvMixColumn, Single;
    Singles(x);
    var a, b, c, d := Single(x.b0, 0), Single(x.b1, 1), Single(x.b2, 2), Single(x.b3, 3);
    InvMixAdd(AddCol(AddCol(a, b), c), d);
    InvMixAdd(AddCol(a, b), c);
    InvMixAdd(a, b);
  }

  lemma MixAdd(x: Col, y: Col)
    ensures MixColumn(AddCol(x, y)) == AddCol(MixColumn(x), MixColumn(y))
  {
    hide Dot, Add8;
    DotAdd(2, 3, 1, 1, x, y);
    DotAdd(1, 2, 3, 1, x, y);
    DotAdd(1, 1, 2, 3, x, y);
    DotAdd(3, 1, 1, 2, x, y);
  }

  lemma MixSingles(x: Col)
    ensures MixColumn(x) == AddCol(AddCol(AddCol(MixColumn(Single(x.b0, 0)), MixColumn(Single(x.b1, 1))),
                                          MixColumn(Single(x.b2, 2))), MixColumn(Single(x.b3, 3)))
  {
    hide AddCol, MixColumn, Single;
    Singles(x);
    var a, b, c, d := Single(x.b0, 0), Single(x.b1, 1), Single(x.b2, 2), Single(x.b3, 3);
    MixAdd(AddCol(AddCol(a, b), c), d);
    MixAdd(AddCol(a, b), c);
    MixAdd(a, b);
  }

  /** The decryption tables indexed by substituted bytes apply InvMixColumn to a key word. */
  method UnmixWord(t: Tables, w: word32) returns (r: word32)
    requires t.Ready()
    ensures Unpack(r) == InvMixColumn(Unpack(w))
  {
    hide Unpack, Sbox, InvSbox, InvMixColumn, AddCol, Single, Xor, Tables.Ready;
    var c := Unpack(w);
    SubTable(t, c.b0);
    SubTable(t, c.b1);
    SubTable(t, c.b2);
    SubTable(t, c.b3);
    ReverseTables(t, Sbox(c.b0), Sbox(c.b1), Sbox(c.b2), Sbox(c.b3));
    SboxInverse(c.b0);
    SboxInverse(c.b1);
    SboxInverse(c.b2);
    SboxInverse(c.b3);
    var a, b, d, e := t.rt0[t.fsb[Byte0(w)]], t.rt1[t.fsb[Byte1(w)]], t.rt2[t.fsb[Byte2(w)]], t.rt3[t.fsb[Byte3(w)]];
    r := Xor32(Xor32(Xor32(a, b), d), e);
    UnpackXor(a, b);
    UnpackXor(Xor32(a, b), d);
    UnpackXor(Xor32(Xor32(a, b), d), e);
    InvMixSingles(c);
  }

  /** Round key r of the inverse schedule, from round key i of the schedule sk. */
  method CopyKey(sk: array<word32>, i: nat, rk: array<word32>, r: nat, ghost k: Block, ghost before: seq<Block>)
    requires sk != rk && 4 * i + 4 <= sk.Length && 4 * r + 4 <= rk.Length && KeyAt(sk[..], i, k)
    requires |before| == r && InPlace(rk[..], before)
    modifies rk
    ensures InPlace(rk[..], before + [k])
  {
    hide Unpack;
    ghost var s := rk[..];
    rk[4 * r] := sk[4 * i];
    rk[4 * r + 1] := sk[4 * i + 1];
    rk[4 * r + 2] := sk[4 * i + 2];
    rk[4 * r + 3] := sk[4 * i + 3];
    KeyAppended(s, rk[..], before, k);
  }

  method UnmixKey(t: Tables, sk: array<word32>, i: nat, rk: array<word32>, r: nat, ghost k: Block,
    ghost before: seq<Block>)
    requires t.Ready() && Apart(t, rk) && sk != rk && 4 * i + 4 <= sk.Length && 4 * r + 4 <= rk.Length
      && KeyAt(sk[..], i, k)
    requires |before| == r && InPlace(rk[..], before)
    modifies rk
    ensures InPlace(rk[..], before + [InvMixColumns(k)])
  {
    hide Unpack, InvMixColumn, Tables.Ready;
    ghost var s := rk[..];
    for j := 0 to 4
      invariant t.Ready()
      invariant forall n :: 0 <= n < rk.Length && n < 4 * r ==> rk[n] == s[n]
      invariant forall n {:trigger rk[n]} :: 4 * r <= n < 4 * r + j ==>
        Unpack(rk[n]) == InvMixColumn(Unpack(sk[4 * i + n - 4 * r]))
    {
      var w := UnmixWord(t, sk[4 * i + j]);
      rk[4 * r + j] := w;
    }
    assert Unpack(rk[4 * r]) == InvMixColumn(Unpack(sk[4 * i]))
      && Unpack(rk[4 * r + 1]) == InvMixColumn(Unpack(sk[4 * i + 1]));
    assert Unpack(rk[4 * r + 2]) == InvMixColumn(Unpack(sk[4 * i + 2]))
      && Unpack(rk[4 * r + 3]) == InvMixColumn(Unpack(sk[4 * i + 3]));
    KeyAppended(s, rk[..], before, InvMixColumns(k));
  }

  lemma KeyAppended(s: seq<word32>, u: seq<word32>, before: seq<Block>, k: Block)
    requires |s| == |u| && 4 * |before| + 4 <= |u| && InPlace(s, before) && KeyAt(u, |before|, k)
    requires forall n :: 0 <= n < 4 * |before| ==> u[n] == s[n]
    ensures InPlace(u, before + [k])
  {
    hide Unpack;
    var all := before + [k];
    forall r | 0 <= r < |all| ensures KeyAt(u, r, all[r]) {
      if r < |before| { assert KeyAt(s, r, before[r]); }
    }
  }

  /** aes_setkey_dec: the round keys of the equivalent inverse cipher. */
  method SetKeyDec(t: Tables, ctx: Context, key: array<byte>, keysize: int) returns (ret: int)
    requires t.Ready() && Apart(t, ctx.buf) && ctx.buf.Length == 68 && 8 * key.Length >= keysize
    modifies ctx, ctx.buf
    ensures ret == (if keysize == 128 || keysize == 192 || keysize == 256 then 0 else -0x0800)
    ensures KeySize(keysize) ==> ctx.Holds(InverseKeys(KeysOf(key[..], keysize)))
    ensures !KeySize(keysize) ==> ctx.nr == old(ctx.nr) && ctx.buf[..] == old(ctx.buf[..])
  {
    hide Unpack, Tables.Ready, KeysOf, InvMixColumns, InPlace, KeyAt;
    if keysize == 128 {
      ctx.nr := 10;
    } else if keysize == 192 {
      ctx.nr := 12;
    } else if keysize == 256 {
      ctx.nr := 14;
    } else {
      return ERR_INVALID_KEY_LENGTH;
    }
    var cty := new Context();
    ret := SetKeyEnc(t, cty, key, keysize);
    if ret != 0 {
      return;
    }
    InvertKeys(t, cty, ctx.buf, ctx.nr, KeysOf(key[..], keysize));
  }

  /** The loop of the inverse schedule. */
  method InvertKeys(t: Tables, cty: Context, rk: array<word32>, nr: nat, ghost keys: seq<Block>)
    requires t.Ready() && Apart(t, rk) && cty.Holds(keys) && cty.nr == nr && rk.Length == 68 && rk != cty.buf
    modifies rk
    ensures InPlace(rk[..], InverseKeys(keys))
  {
    hide Unpack, Tables.Ready, InvMixColumns, KeyAt;
    ghost var dk, sk := InverseKeys(keys), cty.buf[..];
    NoKeys(rk[..]);
    assert KeyAt(sk, nr, keys[nr]);
    hide InPlace;
    CopyKey(cty.buf, nr, rk, 0, keys[nr], []);
    assert [] + [keys[nr]] == dk[..1];
    var i := nr - 1;
    while i > 0
      invariant 0 <= i <= nr - 1 && t.Ready() && cty.buf[..] == sk
      invariant InPlace(rk[..], dk[..nr - i])
    {
      KeyIn(sk, keys, i);
      UnmixKey(t, cty.buf, i, rk, nr - i, keys[i], dk[..nr - i]);
      assert dk[..nr - i] + [InvMixColumns(keys[i])] == dk[..nr - i + 1];
      i := i - 1;
    }
    KeyIn(sk, keys, 0);
    CopyKey(cty.buf, 0, rk, nr, keys[0], dk[..nr]);
    assert dk[..nr] + [keys[0]] == dk;
  }

  lemma NoKeys(s: seq<word32>)
    ensures InPlace(s, [])
  {
  }

  lemma KeyIn(s: seq<word32>, keys: seq<Block>, r: nat)
    requires InPlace(s, keys) && r < |keys|
    ensures 4 * r + 4 <= |s| && KeyAt(s, r, keys[r])
  {
    hide KeyAt;
  }

  // ---------------------------------------------------------------- rounds on words

  ghost function Words(x0: word32, x1: word32, x2: word32, x3: word32): Block {
    Block(Unpack(x0), Unpack(x1), Unpack(x2), Unpack(x3))
  }

  /** k + a + b + c + d, added in that order. */
  lemma FiveSum(k: Col, a: Col, b: Col, c: Col, d: Col)
    ensures AddCol(AddCol(AddCol(AddCol(k, a), b), c), d) == AddCol(AddCol(AddCol(AddCol(a, b), c), d), k)
  {
    hide AddCol;
    AddColAssoc(k, a, b);
    AddColAssoc(k, AddCol(a, b), c);
    AddColAssoc(k, AddCol(AddCol(a, b), c), d);
    AddColAssoc(k, AddCol(AddCol(AddCol(a, b), c), d), k);
  }

  method SumWords(k: word32, a: word32, b: word32, c: word32, d: word32) returns (x: word32)
    ensures Unpack(x) == AddCol(AddCol(AddCol(AddCol(Unpack(a), Unpack(b)), Unpack(c)), Unpack(d)), Unpack(k))
  {
    hide Unpack, AddCol, Xor;
    x := Xor32(Xor32(Xor32(Xor32(k, a), b), c), d);
    UnpackXor(k, a);
    UnpackXor(Xor32(k, a), b);
    UnpackXor(Xor32(Xor32(k, a), b), c);
    UnpackXor(Xor32(Xor32(Xor32(k, a), b), c), d);
    FiveSum(Unpack(k), Unpack(a), Unpack(b), Unpack(c), Unpack(d));
  }

  /** One output word of AES_FROUND. */
  method ForwardWord(t: Tables, k: word32, y0: word32, y1: word32, y2: word32, y3: word32) returns (x: word32)
    requires t.Ready()
    ensures Unpack(x) ==
      AddCol(MixColumn(SubCol(Col(Unpack(y0).b0, Unpack(y1).b1, Unpack(y2).b2, Unpack(y3).b3))), Unpack(k))
  {
    hide Unpack, Sbox, InvSbox, MixColumn, AddCol, Single, Tables.Ready;
    ForwardTables(t, Byte0(y0), Byte1(y1), Byte2(y2), Byte3(y3));
    MixSingles(SubCol(Col(Unpack(y0).b0, Unpack(y1).b1, Unpack(y2).b2, Unpack(y3).b3)));
    x := SumWords(k, t.ft0[Byte0(y0)], t.ft1[Byte1(y1)], t.ft2[Byte2(y2)], t.ft3[Byte3(y3)]);
  }

  /** One output word of AES_RROUND. */
  method ReverseWord(t: Tables, k: word32, y0: word32, y1: word32, y2: word32, y3: word32) returns (x: word32)
    requires t.Ready()
    ensures Unpack(x) ==
      AddCol(InvMixColumn(InvSubCol(Col(Unpack(y0).b0, Unpack(y1).b1, Unpack(y2).b2, Unpack(y3).b3))), Unpack(k))
  {
    hide Unpack, Sbox, InvSbox, InvMixColumn, AddCol, Single, Tables.Ready;
    ReverseTables(t, Byte0(y0), Byte1(y1), Byte2(y2), Byte3(y3));
    InvMixSingles(InvSubCol(Col(Unpack(y0).b0, Unpack(y1).b1, Unpack(y2).b2, Unpack(y3).b3)));
    x := SumWords(k, t.rt0[Byte0(y0)], t.rt1[Byte1(y1)], t.rt2[Byte2(y2)], t.rt3[Byte3(y3)]);
  }

  /** One output word of the last round. */
  method ForwardLast(t: Tables, k: word32, y0: word32, y1: word32, y2: word32, y3: word32) returns (x: word32)
    requires t.Ready()
    ensures Unpack(x) == AddCol(SubCol(Col(Unpack(y0).b0, Unpack(y1).b1, Unpack(y2).b2, Unpack(y3).b3)), Unpack(k))
  {
    hide Unpack, Sbox, InvSbox, AddCol, Tables.Ready;
    SubTable(t, Byte0(y0));
    SubTable(t, Byte1(y1));
    SubTable(t, Byte2(y2));
    SubTable(t, Byte3(y3));
    x := AddBytes(k, t.fsb[Byte0(y0)], t.fsb[Byte1(y1)], t.fsb[Byte2(y2)], t.fsb[Byte3(y3)]);
    AddColAssoc(Unpack(k), SubCol(Col(Unpack(y0).b0, Unpack(y1).b1, Unpack(y2).b2, Unpack(y3).b3)), Unpack(k));
  }

  method ReverseLast(t: Tables, k: word32, y0: word32, y1: word32, y2: word32, y3: word32) returns (x: word32)
    requires t.Ready()
    ensures Unpack(x) == AddCol(InvSubCol(Col(Unpack(y0).b0, Unpack(y1).b1, Unpack(y2).b2, Unpack(y3).b3)), Unpack(k))
  {
    hide Unpack, Sbox, InvSbox, AddCol, Tables.Ready;
    SubTable(t, Byte0(y0));
    SubTable(t, Byte1(y1));
    SubTable(t, Byte2(y2));
    SubTable(t, Byte3(y3));
    x := AddBytes(k, t.rsb[Byte0(y0)], t.rsb[Byte1(y1)], t.rsb[Byte2(y2)], t.rsb[Byte3(y3)]);
    AddColAssoc(Unpack(k), InvSubCol(Col(Unpack(y0).b0, Unpack(y1).b1, Unpack(y2).b2, Unpack(y3).b3)), Unpack(k));
  }

  /** AES_FROUND. */
  method ForwardRound(t: Tables, rk: array<word32>, r: nat, y0: word32, y1: word32, y2: word32, y3: word32,
    ghost key: Block)
    returns (x0: word32, x1: word32, x2: word32, x3: word32)
    requires t.Ready() && 4 * r + 4 <= rk.Length && KeyAt(rk[..], r, key)
    ensures Words(x0, x1, x2, x3) == Round(Words(y0, y1, y2, y3), key)
  {
    hide Unpack, Sbox, InvSbox, MixColumn, InvMixColumn, AddCol, Tables.Ready;
    x0 := ForwardWord(t, rk[4 * r + 0], y0, y1, y2, y3);
    x1 := ForwardWord(t, rk[4 * r + 1], y1, y2, y3, y0);
    x2 := ForwardWord(t, rk[4 * r + 2], y2, y3, y0, y1);
    x3 := ForwardWord(t, rk[4 * r + 3], y3, y0, y1, y2);
  }

  /** AES_RROUND. */
  method ReverseRound(t: Tables, rk: array<word32>, r: nat, y0: word32, y1: word32, y2: word32, y3: word32,
    ghost key: Block)
    returns (x0: word32, x1: word32, x2: word32, x3: word32)
    requires t.Ready() && 4 * r + 4 <= rk.Length && KeyAt(rk[..], r, key)
    ensures Words(x0, x1, x2, x3) == InvRound(Words(y0, y1, y2, y3), key)
  {
    hide Unpack, Sbox, InvSbox, MixColumn, InvMixColumn, AddCol, Tables.Ready;
    x0 := ReverseWord(t, rk[4 * r + 0], y0, y3, y2, y1);
    x1 := ReverseWord(t, rk[4 * r + 1], y1, y0, y3, y2);
    x2 := ReverseWord(t, rk[4 * r + 2], y2, y1, y0, y3);
    x3 := ReverseWord(t, rk[4 * r + 3], y3, y2, y1, y0);
  }

  /** The last round of encryption. */
  method ForwardFinal(t: Tables, rk: array<word32>, r: nat, y0: word32, y1: word32, y2: word32, y3: word32,
    ghost key: Block)
    returns (x0: word32, x1: word32, x2: word32, x3: word32)
    requires t.Ready() && 4 * r + 4 <= rk.Length && KeyAt(rk[..], r, key)
    ensures Words(x0, x1, x2, x3) == AddBlock(ShiftRows(SubBytes(Words(y0, y1, y2, y3))), key)
  {
    hide Unpack, Sbox, InvSbox, AddCol, Tables.Ready;
    x0 := ForwardLast(t, rk[4 * r + 0], y0, y1, y2, y3);
    x1 := ForwardLast(t, rk[4 * r + 1], y1, y2, y3, y0);
    x2 := ForwardLast(t, rk[4 * r + 2], y2, y3, y0, y1);
    x3 := ForwardLast(t, rk[4 * r + 3], y3, y0, y1, y2);
  }

  /** The last round of decryption. */
  method ReverseFinal(t: Tables, rk: array<word32>, r: nat, y0: word32, y1: word32, y2: word32, y3: word32,
    ghost key: Block)
    returns (x0: word32, x1: word32, x2: word32, x3: word32)
    requires t.Ready() && 4 * r + 4 <= rk.Length && KeyAt(rk[..], r, key)
    ensures Words(x0, x1, x2, x3) == AddBlock(InvShiftRows(InvSubBytes(Words(y0, y1, y2, y3))), key)
  {
    hide Unpack, Sbox, InvSbox, AddCol, Tables.Ready;
    x0 := ReverseLast(t, rk[4 * r + 0], y0, y3, y2, y1);
    x1 := ReverseLast(t, rk[4 * r + 1], y1, y0, y3, y2);
    x2 := ReverseLast(t, rk[4 * r + 2], y2, y1, y0, y3);
    x3 := ReverseLast(t, rk[4 * r + 3], y3, y2, y1, y0);
  }

  // ---------------------------------------------------------------- blocks

  function ToBlock(b: seq<byte>): Block
    requires |b| == 16
  {
    Block(Col(b[0], b[1], b[2], b[3]), Col(b[4], b[5], b[6], b[7]), Col(b[8], b[9], b[10], b[11]),
      Col(b[12], b[13], b[14], b[15]))
  }

  function ColBytes(c: Col): (b: seq<byte>)
    ensures |b| == 4
  {
    [c.b0, c.b1, c.b2, c.b3]
  }

  function FromBlock(x: Block): (b: seq<byte>)
    ensures |b| == 16
  {
    ColBytes(x.c0) + ColBytes(x.c1) + ColBytes(x.c2) + ColBytes(x.c3)
  }

  lemma BlockBytes(b: seq<byte>, x: Block)
    ensures |b| == 16 ==> FromBlock(ToBlock(b)) == b
    ensures ToBlock(FromBlock(x)) == x
  {
  }

  /** The four words of a block, with the first round key added. */
  method LoadBlock(input: seq<byte>, rk: array<word32>, ghost key: Block)
    returns (x0: word32, x1: word32, x2: word32, x3: word32)
    requires |input| == 16 && rk.Length >= 4 && KeyAt(rk[..], 0, key)
    ensures Words(x0, x1, x2, x3) == AddBlock(ToBlock(input), key)
  {
    hide Unpack, AddCol, Xor, GetWord;
    x0 := Xor32(GetWord(input, 0), rk[0]);
    x1 := Xor32(GetWord(input, 4), rk[1]);
    x2 := Xor32(GetWord(input, 8), rk[2]);
    x3 := Xor32(GetWord(input, 12), rk[3]);
    UnpackXor(GetWord(input, 0), rk[0]);
    UnpackXor(GetWord(input, 4), rk[1]);
    UnpackXor(GetWord(input, 8), rk[2]);
    UnpackXor(GetWord(input, 12), rk[3]);
  }

  /** PUT_ULONG_LE. */
  method PutWord(b: array<byte>, i: nat, w: word32)
    requires i + 4 <= b.Length
    modifies b
    ensures b[i..i + 4] == ColBytes(Unpack(w))
      && forall k :: 0 <= k < b.Length && !(i <= k < i + 4) ==> b[k] == old(b[k])
  {
    hide Unpack;
    b[i] := Byte0(w);
    b[i + 1] := Byte1(w);
    b[i + 2] := Byte2(w);
    b[i + 3] := Byte3(w);
  }

  method StoreBlock(b: array<byte>, at: nat, x0: word32, x1: word32, x2: word32, x3: word32)
    requires at + 16 <= b.Length
    modifies b
    ensures b[at..at + 16] == FromBlock(Words(x0, x1, x2, x3))
    ensures forall k :: 0 <= k < b.Length && !(at <= k < at + 16) ==> b[k] == old(b[k])
  {
    hide Unpack, ColBytes;
    PutWord(b, at, x0);
    PutWord(b, at + 4, x1);
    assert b[at..at + 4] == ColBytes(Unpack(x0));
    PutWord(b, at + 8, x2);
    assert b[at..at + 4] == ColBytes(Unpack(x0));
    assert b[at + 4..at + 8] == ColBytes(Unpack(x1));
    PutWord(b, at + 12, x3);
    assert b[at..at + 4] == ColBytes(Unpack(x0));
    assert b[at + 4..at + 8] == ColBytes(Unpack(x1));
    assert b[at + 8..at + 12] == ColBytes(Unpack(x2));
    assert b[at..at + 16] == b[at..at + 4] + b[at + 4..at + 8] + b[at + 8..at + 12] + b[at + 12..at + 16];
  }

  /** The two rounds of each turn of the loop, then one more: nr - 1 in all. */
  method ForwardRounds(t: Tables, ctx: Context, a0: word32, a1: word32, a2: word32, a3: word32,
                       ghost keys: seq<Block>, ghost x: Block)
    returns (y0: word32, y1: word32, y2: word32, y3: word32)
    requires t.Ready() && ctx.Holds(keys) && Words(a0, a1, a2, a3) == Rounds(keys, x, 0)
    ensures |keys| >= 2 && Words(y0, y1, y2, y3) == Rounds(keys, x, |keys| - 2)
  {
    hide Words, Round, Tables.Ready, InPlace, KeyAt;
    var x0, x1, x2, x3, r := a0, a1, a2, a3, 1;
    var i := ctx.nr / 2 - 1;
    HoldsBound(ctx, keys);
    while i > 0
      invariant 0 <= i <= ctx.nr / 2 - 1 && r == ctx.nr - 2 * i - 1
      invariant Words(x0, x1, x2, x3) == Rounds(keys, x, r - 1)
    {
      KeyIn(ctx.buf[..], keys, r);
      y0, y1, y2, y3 := ForwardRound(t, ctx.buf, r, x0, x1, x2, x3, keys[r]);
      KeyIn(ctx.buf[..], keys, r + 1);
      x0, x1, x2, x3 := ForwardRound(t, ctx.buf, r + 1, y0, y1, y2, y3, keys[r + 1]);
      r, i := r + 2, i - 1;
    }
    KeyIn(ctx.buf[..], keys, r);
    y0, y1, y2, y3 := ForwardRound(t, ctx.buf, r, x0, x1, x2, x3, keys[r]);
  }

  method ReverseRounds(t: Tables, ctx: Context, a0: word32, a1: word32, a2: word32, a3: word32,
                       ghost keys: seq<Block>, ghost x: Block)
    returns (y0: word32, y1: word32, y2: word32, y3: word32)
    requires t.Ready() && ctx.Holds(keys) && Words(a0, a1, a2, a3) == InvRounds(keys, x, 0)
    ensures |keys| >= 2 && Words(y0, y1, y2, y3) == InvRounds(keys, x, |keys| - 2)
  {
    hide Words, InvRound, Tables.Ready, InPlace, KeyAt;
    var x0, x1, x2, x3, r := a0, a1, a2, a3, 1;
    var i := ctx.nr / 2 - 1;
    HoldsBound(ctx, keys);
    while i > 0
      invariant 0 <= i <= ctx.nr / 2 - 1 && r == ctx.nr - 2 * i - 1
      invariant Words(x0, x1, x2, x3) == InvRounds(keys, x, r - 1)
    {
      KeyIn(ctx.buf[..], keys, r);
      y0, y1, y2, y3 := ReverseRound(t, ctx.buf, r, x0, x1, x2, x3, keys[r]);
      KeyIn(ctx.buf[..], keys, r + 1);
      x0, x1, x2, x3 := ReverseRound(t, ctx.buf, r + 1, y0, y1, y2, y3, keys[r + 1]);
      r, i := r + 2, i - 1;
    }
    KeyIn(ctx.buf[..], keys, r);
    y0, y1, y2, y3 := ReverseRound(t, ctx.buf, r, x0, x1, x2, x3, keys[r]);
  }

  lemma HoldsBound(ctx: Context, keys: seq<Block>)
    requires ctx.Holds(keys)
    ensures ctx.nr >= 2
  {
  }

  method EncryptWords(t: Tables, ctx: Context, input: seq<byte>, ghost keys: seq<Block>)
    returns (x0: word32, x1: word32, x2: word32, x3: word32)
    requires t.Ready() && ctx.Holds(keys) && |input| == 16
    ensures Words(x0, x1, x2, x3) == Cipher(keys, ToBlock(input))
  {
    hide Words, Tables.Ready, InPlace, KeyAt, ToBlock, AddBlock, SubBytes, ShiftRows, InvSubBytes, InvShiftRows, Round,
      InvRound;
    var nr := ctx.nr;
    HoldsBound(ctx, keys);
    KeyIn(ctx.buf[..], keys, 0);
    x0, x1, x2, x3 := LoadBlock(input, ctx.buf, keys[0]);
    x0, x1, x2, x3 := ForwardRounds(t, ctx, x0, x1, x2, x3, keys, ToBlock(input));
    KeyIn(ctx.buf[..], keys, nr);
    x0, x1, x2, x3 := ForwardFinal(t, ctx.buf, nr, x0, x1, x2, x3, keys[nr]);
  }

  /** aes_crypt_ecb in encrypt mode: the cipher on 16 bytes; the buffers may be the same. */
  method EncryptBlock(t: Tables, ctx: Context, input: array<byte>, from: nat, output: array<byte>, at: nat,
    ghost keys: seq<Block>)
    requires t.Ready() && ctx.Holds(keys) && from + 16 <= input.Length && at + 16 <= output.Length
    modifies output
    ensures output[at..at + 16] == FromBlock(Cipher(keys, ToBlock(old(input[from..from + 16]))))
    ensures forall k :: 0 <= k < output.Length && !(at <= k < at + 16) ==> output[k] == old(output[k])
  {
    hide Words, Tables.Ready, FromBlock, ToBlock, Cipher, Context.Holds;
    var x0, x1, x2, x3 := EncryptWords(t, ctx, input[from..from + 16], keys);
    StoreBlock(output, at, x0, x1, x2, x3);
  }

  method DecryptWords(t: Tables, ctx: Context, input: seq<byte>, ghost keys: seq<Block>)
    returns (x0: word32, x1: word32, x2: word32, x3: word32)
    requires t.Ready() && ctx.Holds(keys) && |input| == 16
    ensures Words(x0, x1, x2, x3) == InvCipher(keys, ToBlock(input))
  {
    hide Words, Tables.Ready, InPlace, KeyAt, ToBlock, AddBlock, SubBytes, ShiftRows, InvSubBytes, InvShiftRows, Round,
      InvRound;
    var nr := ctx.nr;
    HoldsBound(ctx, keys);
    KeyIn(ctx.buf[..], keys, 0);
    x0, x1, x2, x3 := LoadBlock(input, ctx.buf, keys[0]);
    x0, x1, x2, x3 := ReverseRounds(t, ctx, x0, x1, x2, x3, keys, ToBlock(input));
    KeyIn(ctx.buf[..], keys, nr);
    x0, x1, x2, x3 := ReverseFinal(t, ctx.buf, nr, x0, x1, x2, x3, keys[nr]);
  }

  /** aes_crypt_ecb in decrypt mode: the equivalent inverse cipher. */
  method DecryptBlock(t: Tables, ctx: Context, input: array<byte>, from: nat, output: array<byte>, at: nat,
    ghost keys: seq<Block>)
    requires t.Ready() && ctx.Holds(keys) && from + 16 <= input.Length && at + 16 <= output.Length
    modifies output
    ensures output[at..at + 16] == FromBlock(InvCipher(keys, ToBlock(old(input[from..from + 16]))))
    ensures forall k :: 0 <= k < output.Length && !(at <= k < at + 16) ==> output[k] == old(output[k])
  {
    hide Words, Tables.Ready, FromBlock, ToBlock, InvCipher, Context.Holds;
    var x0, x1, x2, x3 := DecryptWords(t, ctx, input[from..from + 16], keys);
    StoreBlock(output, at, x0, x1, x2, x3);
  }

  /** Under the two schedules of one key, decryption undoes encryption. */
  lemma BlockRoundTrip(key: seq<byte>, keysize: int, b: seq<byte>)
    requires KeySize(keysize) && 8 * |key| >= keysize && |b| == 16
    ensures
      var keys := KeysOf(key, keysize);
      FromBlock(InvCipher(InverseKeys(keys), ToBlock(FromBlock(Cipher(keys, ToBlock(b)))))) == b
  {
    hide ToBlock, FromBlock, Cipher, InvCipher, InverseKeys, KeysOf;
    var keys := KeysOf(key, keysize);
    BlockBytes(b, Cipher(keys, ToBlock(b)));
    CipherUndone(keys, ToBlock(b));
  }
}
