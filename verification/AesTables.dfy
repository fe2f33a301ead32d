/** The tables that aes.c generates, and its columns packed into 32-bit words. */
module AesTables {
  import opened Bits
  import opened Buffers
  import opened PackedBytes
  import opened Gf256
  import opened Word32
  import opened AesSpec
  import opened AesColumns

  // ---------------------------------------------------------------- logarithms

  ghost predicate PowLog(pow: seq<int>, log: seq<int>) {
    && |pow| == 256 && |log| == 256
    && (forall i :: 0 <= i < 256 ==> pow[i] == Pow3(i))
    && (forall x :: 1 <= x < 256 ==> log[x] == Log(x))
  }

  lemma FirstPower()
    ensures Pow3(0) == 1
  {
  }

  lemma DistinctFrom1(i: nat, j: nat)
    requires 1 <= i < j <= 255
    ensures Pow3(i) != Pow3(j)
  {
    hide Pow3;
    KeyPowers();
    FirstPower();
    if j < 255 { Pow3Distinct(i, j); } else { Pow3Order(i); }
  }

  /** The power and logarithm tables; the entry of 1 is written twice, last with 255. */
  method GenPowLog(pow: array<int>, log: array<int>)
    requires pow.Length == 256 && log.Length == 256 && pow != log
    modifies pow, log
    ensures PowLog(pow[..], log[..])
  {
    hide Pow3, Log, Mul8, Xor, And;
    FirstPower();
    KeyPowers();
    var x: byte := 1;
    for i := 0 to 256
      invariant x == Pow3(i)
      invariant forall k :: 0 <= k < i ==> pow[k] == Pow3(k)
      invariant forall k :: 1 <= k < i ==> log[Pow3(k)] == k
    {
      if i < 255 {
        forall k | 1 <= k < i ensures Pow3(k) != x { Pow3Distinct(k, i); }
      } else {
        forall k | 1 <= k < i ensures Pow3(k) != x { DistinctFrom1(k, i); }
      }
      pow[i] := x;
      log[x] := i;
      PowerStep(i);
      x := And(Xor(x, XtimeRaw(x)), 0xFF);
    }
    forall y | 1 <= y < 256 ensures log[y] == Log(y) {
      assert log[Pow3(Log(y))] == Log(y);
    }
  }

  lemma PowerStep(i: nat)
    ensures And(Xor(Pow3(i), XtimeRaw(Pow3(i))), 0xFF) == Pow3(i + 1)
  {
    hide Mul8, XtimeRaw;
    ThreeMasked(Pow3(i));
  }

  /** MUL: the product by logarithms. */
  function MulTable(pow: seq<int>, log: seq<int>, x: byte, y: byte): (r: byte)
    requires PowLog(pow, log)
    ensures r == Mul8(x, y)
  {
    hide Pow3, Mul8, Log;
    Mul8Units(x);
    Mul8Units(y);
    if x != 0 && y != 0 then
      ProductOfPowers(x, y);
      pow[(log[x] + log[y]) % 255]
    else 0
  }

  lemma ProductOfPowers(x: byte, y: byte)
    requires x != 0 && y != 0
    ensures Pow3((Log(x) + Log(y)) % 255) == Mul8(x, y)
  {
    hide Pow3, Mul8, Log;
    KeyPowers();
    Pow3Period(255, Log(x) + Log(y));
    Pow3Add(Log(x), Log(y));
  }

  // ---------------------------------------------------------------- round constants

  /** x^i in GF(2^8). */
  function Rcon(i: nat): byte {
    if i == 0 then 1 else Xt(Rcon(i - 1))
  }

  method GenRcon(rcon: array<word32>)
    requires rcon.Length == 10
    modifies rcon
    ensures forall i :: 0 <= i < 10 ==> rcon[i] == Rcon(i)
  {
    hide Xt, Rcon;
    var x: byte := 1;
    RconStep(0);
    for i := 0 to 10
      invariant x == Rcon(i)
      invariant forall k :: 0 <= k < i ==> rcon[k] == Rcon(k)
    {
      rcon[i] := x;
      RconStep(i);
      x := Xt(x);
    }
  }

  lemma RconStep(i: nat)
    ensures Rcon(0) == 1 && Rcon(i + 1) == Xt(Rcon(i))
  {
    hide Xt;
  }

  // ---------------------------------------------------------------- the S-boxes

  ghost predicate Boxes(fsb: seq<byte>, rsb: seq<byte>) {
    && |fsb| == 256 && |rsb| == 256
    && (forall x :: 0 <= x < 256 ==> fsb[x] == Sbox(x))
    && (forall x :: 0 <= x < 256 ==> rsb[x] == InvSbox(x))
  }

  method GenBoxes(pow: array<int>, log: array<int>, fsb: array<byte>, rsb: array<byte>)
    requires PowLog(pow[..], log[..]) && fsb.Length == 256 && rsb.Length == 256 && fsb != rsb
    modifies fsb, rsb
    ensures Boxes(fsb[..], rsb[..])
  {
    hide Pow3, Log, Rotl8, Add8, Sbox, InvSbox;
    SboxZero();
    fsb[0] := 0x63;
    rsb[0x63] := 0;
    for i := 1 to 256
      invariant forall k :: 0 <= k < i ==> fsb[k] == Sbox(k)
      invariant forall k :: 0 <= k < i ==> rsb[Sbox(k)] == k
    {
      ghost var s := pow[..];
      assert log[..][i] == Log(i) && s[255 - Log(i)] == Pow3(255 - Log(i));
      InverseByLog(i);
      var x := BoxEntry(pow[255 - log[i]]);
      SboxForm(i);
      SboxDistinct(i);
      fsb[i] := x;
      rsb[x] := i;
    }
    ReverseBox(rsb[..]);
  }

  /** Where the forward box sends every byte, the reverse one finds it. */
  lemma ReverseBox(r: seq<byte>)
    requires |r| == 256 && forall k :: 0 <= k < 256 ==> r[Sbox(k)] == k
    ensures forall x :: 0 <= x < 256 ==> r[x] == InvSbox(x)
  {
    hide Sbox, InvSbox;
    forall x | 0 <= x < 256 ensures r[x] == InvSbox(x) {
      SboxInverse(x);
      assert r[Sbox(InvSbox(x))] == InvSbox(x);
    }
  }

  lemma SboxDistinct(i: byte)
    ensures forall k: byte :: k != i ==> Sbox(k) != Sbox(i)
  {
    hide Sbox, InvSbox;
    forall k: byte | k != i ensures Sbox(k) != Sbox(i) {
      SboxInverse(k);
      SboxInverse(i);
    }
  }

  /** The affine map of one entry. */
  method BoxEntry(x0: byte) returns (x: byte)
    ensures x == Affine(x0)
  {
    hide Rotl8, Add8;
    x := x0;
    var y := x;
    y := Rotl8(y);
    x := Add8(x, y);
    y := Rotl8(y);
    x := Add8(x, y);
    y := Rotl8(y);
    x := Add8(x, y);
    y := Rotl8(y);
    x := Add8(x, Add8(y, 0x63));
  }

  lemma InverseByLog(i: byte)
    requires i != 0
    ensures Inverse8(i) == Pow3(255 - Log(i))
  {
  }

  lemma SboxForm(i: byte)
    ensures Sbox(i) == Affine(Inverse8(i))
  {
  }

  // ---------------------------------------------------------------- the round tables

  /** Table t gives, for each byte, the mixed column of its substitute in row j. */
  ghost predicate Forward(t: seq<word32>, j: nat)
    requires j < 4
  {
    |t| == 256 && forall x :: 0 <= x < 256 ==> Unpack(t[x]) == MixColumn(Single(Sbox(x), j))
  }

  ghost predicate Reverse(t: seq<word32>, j: nat)
    requires j < 4
  {
    |t| == 256 && forall x :: 0 <= x < 256 ==> Unpack(t[x]) == InvMixColumn(Single(InvSbox(x), j))
  }

  /** A column with one byte, in row j. */
  function Single(x: byte, j: nat): Col
    requires j < 4
  {
    if j == 0 then Col(x, 0, 0, 0) else if j == 1 then Col(0, x, 0, 0) else if j == 2 then Col(0, 0, x, 0)
      else Col(0, 0, 0, x)
  }

  lemma SingleMixed(x: byte)
    ensures var y, z := Xt(x), Add8(Xt(x), x);
      && MixColumn(Single(x, 0)) == Col(y, x, x, z) && MixColumn(Single(x, 1)) == Col(z, y, x, x)
      && MixColumn(Single(x, 2)) == Col(x, z, y, x) && MixColumn(Single(x, 3)) == Col(x, x, z, y)
  {
    hide Mul8, Add8, Xt;
    Three(x);
    AddRules(x, Xt(x), 0);
    Mul8Units(x);
    Mul8Units(2);
    Mul8Units(3);
    Mul8Units(1);
    AddRules(0, 0, 0);
    AddRules(Mul8(2, x), 0, 0);
    AddRules(Mul8(3, x), 0, 0);
    AddRules(x, 0, 0);
  }

  lemma SingleUnmixed(x: byte)
    ensures var e, b, d, n := Mul8(0x0E, x), Mul8(0x0B, x), Mul8(0x0D, x), Mul8(9, x);
      && InvMixColumn(Single(x, 0)) == Col(e, n, d, b) && InvMixColumn(Single(x, 1)) == Col(b, e, n, d)
      && InvMixColumn(Single(x, 2)) == Col(d, b, e, n) && InvMixColumn(Single(x, 3)) == Col(n, d, b, e)
  {
    hide Mul8, Add8;
    Mul8Units(0x0E);
    Mul8Units(0x0B);
    Mul8Units(0x0D);
    Mul8Units(9);
    AddRules(0, 0, 0);
    AddRules(Mul8(0x0E, x), 0, 0);
    AddRules(Mul8(0x0B, x), 0, 0);
    AddRules(Mul8(0x0D, x), 0, 0);
    AddRules(Mul8(9, x), 0, 0);
  }

  /** Table entries of one byte, each rotated from the one before. */
  method ForwardEntry(x: byte) returns (w0: word32, w1: word32, w2: word32, w3: word32)
    ensures Unpack(w0) == MixColumn(Single(x, 0)) && Unpack(w1) == MixColumn(Single(x, 1))
    ensures Unpack(w2) == MixColumn(Single(x, 2)) && Unpack(w3) == MixColumn(Single(x, 3))
  {
    hide Unpack, MixColumn, Xt, Add8, Mul8, Pack, RotlWord;
    SingleMixed(x);
    var y := Xt(x);
    var z := Add8(y, x);
    w0 := Pack(y, x, x, z);
    w1 := RotlWord(w0);
    w2 := RotlWord(w1);
    w3 := RotlWord(w2);
  }

  method ReverseEntry(pow: array<int>, log: array<int>, x: byte)
    returns (w0: word32, w1: word32, w2: word32, w3: word32)
    requires PowLog(pow[..], log[..])
    ensures Unpack(w0) == InvMixColumn(Single(x, 0)) && Unpack(w1) == InvMixColumn(Single(x, 1))
    ensures Unpack(w2) == InvMixColumn(Single(x, 2)) && Unpack(w3) == InvMixColumn(Single(x, 3))
  {
    hide Unpack, InvMixColumn, Mul8, Pack, RotlWord, PowLog, MulTable;
    SingleUnmixed(x);
    w0 := Pack(MulTable(pow[..], log[..], 0x0E, x), MulTable(pow[..], log[..], 9, x),
               MulTable(pow[..], log[..], 0x0D, x), MulTable(pow[..], log[..], 0x0B, x));
    w1 := RotlWord(w0);
    w2 := RotlWord(w1);
    w3 := RotlWord(w2);
  }

  /** The static tables. */
  class Tables {
    const fsb: array<byte>
    const rsb: array<byte>
    const ft0: array<word32>
    const ft1: array<word32>
    const ft2: array<word32>
    const ft3: array<word32>
    const rt0: array<word32>
    const rt1: array<word32>
    const rt2: array<word32>
    const rt3: array<word32>
    const rcon: array<word32>

    constructor ()
      ensures Shape() && fresh(fsb) && fresh(rsb)
    {
      fsb := new byte[256];
      rsb := new byte[256];
      ft0 := new word32[256];
      ft1 := new word32[256];
      ft2 := new word32[256];
      ft3 := new word32[256];
      rt0 := new word32[256];
      rt1 := new word32[256];
      rt2 := new word32[256];
      rt3 := new word32[256];
      rcon := new word32[10];
    }

    /** The static arrays of the source: eleven of them, all different. */
    ghost predicate Shape() {
      && fsb.Length == 256 && rsb.Length == 256 && rcon.Length == 10 && fsb != rsb
      && ft0.Length == 256 && ft1.Length == 256 && ft2.Length == 256 && ft3.Length == 256
      && rt0.Length == 256 && rt1.Length == 256 && rt2.Length == 256 && rt3.Length == 256
      && ft0 != ft1 && ft0 != ft2 && ft0 != ft3 && ft1 != ft2 && ft1 != ft3 && ft2 != ft3
      && rt0 != rt1 && rt0 != rt2 && rt0 != rt3 && rt1 != rt2 && rt1 != rt3 && rt2 != rt3
      && {ft0, ft1, ft2, ft3} !! {rt0, rt1, rt2, rt3} && rcon !in {ft0, ft1, ft2, ft3, rt0, rt1, rt2, rt3}
    }

    /** aes_gen_tables. */
    method Generate()
      requires Shape()
      modifies fsb, rsb, ft0, ft1, ft2, ft3, rt0, rt1, rt2, rt3, rcon
      ensures Ready()
    {
      hide Boxes, Forward, Reverse, PowLog, Rcon;
      var pow := new int[256];
      var log := new int[256];
      GenPowLog(pow, log);
      GenRcon(rcon);
      GenBoxes(pow, log, fsb, rsb);
      GenForward(fsb, rsb[..], ft0, ft1, ft2, ft3);
      GenReverse(pow, log, fsb, rsb, rt0, rt1, rt2, rt3);
    }

    ghost predicate Ready()
      reads fsb, rsb, ft0, ft1, ft2, ft3, rt0, rt1, rt2, rt3, rcon
    {
      && Boxes(fsb[..], rsb[..])
      && Forward(ft0[..], 0) && Forward(ft1[..], 1) && Forward(ft2[..], 2) && Forward(ft3[..], 3)
      && Reverse(rt0[..], 0) && Reverse(rt1[..], 1) && Reverse(rt2[..], 2) && Reverse(rt3[..], 3)
      && rcon.Length == 10 && forall i :: 0 <= i < 10 ==> rcon[i] == Rcon(i)
    }
  }

  method GenForward(fsb: array<byte>, ghost rsb: seq<byte>, t0: array<word32>, t1: array<word32>, t2: array<word32>,
    t3: array<word32>)
    requires fsb.Length == 256 && Boxes(fsb[..], rsb)
    requires t0.Length == 256 && t1.Length == 256 && t2.Length == 256 && t3.Length == 256
    requires t0 != t1 && t0 != t2 && t0 != t3 && t1 != t2 && t1 != t3 && t2 != t3
    modifies t0, t1, t2, t3
    ensures Forward(t0[..], 0) && Forward(t1[..], 1) && Forward(t2[..], 2) && Forward(t3[..], 3)
  {
    hide Sbox, Unpack, MixColumn, Single;
    for i := 0 to 256
      invariant fsb[..] == old(fsb[..])
      invariant forall x :: 0 <= x < i ==> Unpack(t0[x]) == MixColumn(Single(Sbox(x), 0))
      invariant forall x :: 0 <= x < i ==> Unpack(t1[x]) == MixColumn(Single(Sbox(x), 1))
      invariant forall x :: 0 <= x < i ==> Unpack(t2[x]) == MixColumn(Single(Sbox(x), 2))
      invariant forall x :: 0 <= x < i ==> Unpack(t3[x]) == MixColumn(Single(Sbox(x), 3))
    {
      assert fsb[..][i] == Sbox(i);
      var w0, w1, w2, w3 := ForwardEntry(fsb[i]);
      t0[i] := w0;
      t1[i] := w1;
      t2[i] := w2;
      t3[i] := w3;
    }
  }

  method GenReverse(pow: array<int>, log: array<int>, fsb: array<byte>, rsb: array<byte>,
                    t0: array<word32>, t1: array<word32>, t2: array<word32>, t3: array<word32>)
    requires PowLog(pow[..], log[..]) && Boxes(fsb[..], rsb[..])
    requires t0.Length == 256 && t1.Length == 256 && t2.Length == 256 && t3.Length == 256
    requires t0 != t1 && t0 != t2 && t0 != t3 && t1 != t2 && t1 != t3 && t2 != t3
    requires rsb.Length == 256 && fsb.Length == 256
    modifies t0, t1, t2, t3
    ensures Reverse(t0[..], 0) && Reverse(t1[..], 1) && Reverse(t2[..], 2) && Reverse(t3[..], 3)
  {
    hide InvSbox, Sbox, Unpack, InvMixColumn, Single, PowLog;
    ghost var r := rsb[..];
    for i := 0 to 256
      invariant rsb[..] == r
      invariant forall x :: 0 <= x < i ==> Unpack(t0[x]) == InvMixColumn(Single(InvSbox(x), 0))
      invariant forall x :: 0 <= x < i ==> Unpack(t1[x]) == InvMixColumn(Single(InvSbox(x), 1))
      invariant forall x :: 0 <= x < i ==> Unpack(t2[x]) == InvMixColumn(Single(InvSbox(x), 2))
      invariant forall x :: 0 <= x < i ==> Unpack(t3[x]) == InvMixColumn(Single(InvSbox(x), 3))
    {
      assert r[i] == InvSbox(i);
      var w0, w1, w2, w3 := ReverseEntry(pow, log, rsb[i]);
      t0[i] := w0;
      t1[i] := w1;
      t2[i] := w2;
      t3[i] := w3;
    }
  }
}
