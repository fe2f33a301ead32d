/** AES on bytes, in the indices of FIPS 197: byte r + 4 c is row r and column c of the state, and the
    expanded key is a string of bytes. An account of the cipher beside the one on columns, which the
    implementation is proved against. */
module AesBytes {
  import opened Bits
  import opened Gf2
  import opened Gf2Field
  import opened GfRing
  import opened Buffers
  import opened PackedBytes
  import opened Gf256
  import opened AesSpec
  import opened AesTables

  // ---------------------------------------------------------------- bytes

  /** Multiplication is that of polynomials modulo x^8 + x^4 + x^3 + x + 1. */
  lemma FieldIs(a: byte, b: byte)
    ensures IsProduct(Mul8(a, b), a, b, Pow2(8) + Pow2(4) + Pow2(3) + Pow2(1) + 1)
  {
    hide MulMod;
    ByteShort(a);
    Powers();
  }

  lemma Powers()
    ensures Pow2(8) == 256 && Pow2(4) == 16 && Pow2(3) == 8 && Pow2(1) == 2
  {
  }

  /** Section 5.1.1: bit i is the sum of bits i, i + 4, i + 5, i + 6 and i + 7 of the inverse and bit i
      of 63. */
  lemma SboxIs(x: byte, y: byte, i: nat)
    requires i < 8 && (if x == 0 then y == 0 else Mul8(x, y) == 1)
    ensures Bit(Sbox(x), i) <==>
      (Bit(y, i) != (Bit(y, (i + 4) % 8) != (Bit(y, (i + 5) % 8) != (Bit(y, (i + 6) % 8) !=
      (Bit(y, (i + 7) % 8) != (i == 0 || i == 1 || i == 5 || i == 6))))))
  {
    hide Mul8, Inverse8, Bit, Affine;
    InverseOnly(x, y);
    AffineBits(y);
    ConstantBits();
    assert i == 0 || i == 1 || i == 2 || i == 3 || i == 4 || i == 5 || i == 6 || i == 7;
  }

  lemma InverseOnly(x: byte, y: byte)
    requires if x == 0 then y == 0 else Mul8(x, y) == 1
    ensures y == Inverse8(x)
  {
    hide Mul8, Inverse8;
    var r := Inverse8(x);
    if x != 0 {
      // y = (x r) y = r (x y) = r
      Mul8Comm(x, r);
      Mul8Assoc(r, x, y);
      Mul8Units(y);
      Mul8Units(r);
    }
  }

  lemma ConstantBits()
    ensures Bit(0x63, 0) && Bit(0x63, 1) && !Bit(0x63, 2) && !Bit(0x63, 3)
    ensures !Bit(0x63, 4) && Bit(0x63, 5) && Bit(0x63, 6) && !Bit(0x63, 7)
  {
  }

  /** The ten round constants. */
  lemma RconIs()
    ensures Rcon(0) == 1 && Rcon(1) == 2 && Rcon(2) == 4 && Rcon(3) == 8 && Rcon(4) == 0x10
    ensures Rcon(5) == 0x20 && Rcon(6) == 0x40 && Rcon(7) == 0x80 && Rcon(8) == 0x1B && Rcon(9) == 0x36
  {
    hide Xt, Rcon;
    RconStep(0);
    RconNext(0); RconNext(1); RconNext(2); RconNext(3); RconNext(4);
    RconNext(5); RconNext(6); RconNext(7); RconNext(8);
  }

  lemma RconNext(i: nat)
    ensures Rcon(i + 1) == if Rcon(i) < 128 then 2 * Rcon(i) else Plus(2 * Rcon(i) - 256, 0x1B)
    ensures Plus(0, 0x1B) == 0x1B
  {
    hide Mul8, Plus, Rcon;
    RconStep(i);
    Mul8Comm(2, Rcon(i));
    Doubled(Rcon(i));
    PlusRules(0x1B, 0);
  }

  // ---------------------------------------------------------------- section 5.2

  /** Byte j of word i of the expanded key, for a key of nk words. */
  ghost function KeyByte(key: seq<byte>, nk: nat, i: nat, j: nat): byte
    requires nk > 0 && |key| == 4 * nk && j < 4
    decreases i
  {
    if i < nk then key[4 * i + j]
    else
      var turn := Turn(i, nk);
      Add8(KeyByte(key, nk, i - nk, j),
        if i % nk == 0 then Add8(Sbox(KeyByte(key, nk, i - 1, (j + 1) % 4)), if j == 0 then Rcon(turn) else 0)
        else if nk > 6 && i % nk == 4 then Sbox(KeyByte(key, nk, i - 1, j))
        else KeyByte(key, nk, i - 1, j))
  }

  function Turn(i: nat, nk: nat): nat
    requires i >= nk > 0
  {
    i / nk - 1
  }

  /** The expanded key of nr + 1 blocks. */
  ghost function Expansion(key: seq<byte>, nk: nat, nr: nat): (w: seq<byte>)
    requires nk > 0 && |key| == 4 * nk
    ensures |w| == 16 * nr + 16
  {
    seq(16 * nr + 16, n requires 0 <= n < 16 * nr + 16 => KeyByte(key, nk, n / 4, n % 4))
  }

  // ---------------------------------------------------------------- section 5.1

  /** SubBytes and ShiftRows: row r, column c comes from column c + r. */
  ghost function Shifted(s: seq<byte>, r: nat, c: nat): byte
    requires |s| == 16 && r < 4 && c < 4
  {
    Sbox(s[r + 4 * ((c + r) % 4)])
  }

  /** MixColumns of that. */
  ghost function Mixed(s: seq<byte>, r: nat, c: nat): byte
    requires |s| == 16 && r < 4 && c < 4
  {
    Add8(Add8(Mul8(2, Shifted(s, r, c)), Mul8(3, Shifted(s, (r + 1) % 4, c))),
         Add8(Shifted(s, (r + 2) % 4, c), Shifted(s, (r + 3) % 4, c)))
  }

  /** The state after n rounds under the expanded key w. */
  ghost function State(s: seq<byte>, w: seq<byte>, n: nat): (t: seq<byte>)
    requires |s| == 16 && 16 * n + 16 <= |w|
    ensures |t| == 16
  {
    hide Mixed, Add8;
    if n == 0 then seq(16, i requires 0 <= i < 16 => Add8(s[i], w[i]))
    else
      var t := State(s, w, n - 1);
      seq(16, i requires 0 <= i < 16 => Add8(Mixed(t, i % 4, i / 4), w[16 * n + i]))
  }

  /** The cipher of nr rounds; the last one does not mix. */
  ghost function Ciphertext(s: seq<byte>, w: seq<byte>, nr: nat): (c: seq<byte>)
    requires |s| == 16 && nr > 0 && 16 * nr + 16 <= |w|
    ensures |c| == 16
  {
    hide Shifted, Add8, State;
    var t := State(s, w, nr - 1);
    seq(16, i requires 0 <= i < 16 => Add8(Shifted(t, i % 4, i / 4), w[16 * nr + i]))
  }

  /** Encryption of a block under a key of nk words, in nk + 6 rounds. */
  ghost function Encryption(key: seq<byte>, nk: nat, s: seq<byte>): (c: seq<byte>)
    requires nk > 0 && |key| == 4 * nk && |s| == 16
    ensures |c| == 16
  {
    Ciphertext(s, Expansion(key, nk, nk + 6), nk + 6)
  }
}
