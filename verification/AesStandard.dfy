/** The cipher on columns is the cipher on bytes of FIPS 197. */
module AesStandard {
  import opened Buffers
  import opened PackedBytes
  import opened Gf256
  import opened AesSpec
  import opened AesColumns
  import opened AesCipher
  import opened AesBytes
  import opened Aes

  /** Byte r + 4 c of a block. */
  function Place(x: Block, r: nat, c: nat): byte
    requires r < 4 && c < 4
  {
    RowOf(if c == 0 then x.c0 else if c == 1 then x.c1 else if c == 2 then x.c2 else x.c3, r)
  }

  function RowOf(k: Col, r: nat): byte
    requires r < 4
  {
    if r == 0 then k.b0 else if r == 1 then k.b1 else if r == 2 then k.b2 else k.b3
  }

  lemma PlaceIs(x: Block, i: nat)
    requires i < 16
    ensures FromBlock(x)[i] == Place(x, i % 4, i / 4)
  {
    assert i == 0 || i == 1 || i == 2 || i == 3 || i == 4 || i == 5 || i == 6 || i == 7 || i == 8 || i == 9 || i == 10
      || i == 11 || i == 12 || i == 13 || i == 14 || i == 15;
  }

  lemma ShiftedIs(x: Block, r: nat, c: nat)
    requires r < 4 && c < 4
    ensures Place(ShiftRows(SubBytes(x)), r, c) == Shifted(FromBlock(x), r, c)
  {
    hide Sbox, FromBlock, Place;
    var d := (c + r) % 4;
    PlaceIs(x, r + 4 * d);
    assert (r + 4 * d) % 4 == r && (r + 4 * d) / 4 == d;
    ShiftedPlace(x, r, c);
  }

  lemma ShiftedPlace(x: Block, r: nat, c: nat)
    requires r < 4 && c < 4
    ensures Place(ShiftRows(SubBytes(x)), r, c) == Sbox(Place(x, r, (c + r) % 4))
  {
    hide Sbox;
    assert r == 0 || r == 1 || r == 2 || r == 3;
    assert c == 0 || c == 1 || c == 2 || c == 3;
  }

  /** The mixed column, its rows taken in turn. */
  lemma MixedPlace(y: Block, r: nat, c: nat)
    requires r < 4 && c < 4
    ensures Place(MixColumns(y), r, c) ==
      Add8(Add8(Mul8(2, Place(y, r, c)), Mul8(3, Place(y, (r + 1) % 4, c))),
           Add8(Place(y, (r + 2) % 4, c), Place(y, (r + 3) % 4, c)))
  {
    hide Mul8, Add8, MixColumn, RowOf;
    MixedRow(if c == 0 then y.c0 else if c == 1 then y.c1 else if c == 2 then y.c2 else y.c3, r);
  }

  lemma MixedRow(x: Col, r: nat)
    requires r < 4
    ensures RowOf(MixColumn(x), r) ==
      Add8(Add8(Mul8(2, RowOf(x, r)), Mul8(3, RowOf(x, (r + 1) % 4))),
           Add8(RowOf(x, (r + 2) % 4), RowOf(x, (r + 3) % 4)))
  {
    hide Mul8, Add8, MixColumn;
    MixRows(x);
    Turned(r);
  }

  lemma Turned(r: nat)
    requires r < 4
    ensures (r + 1) % 4 == if r < 3 then r + 1 else 0
    ensures (r + 2) % 4 == if r < 2 then r + 2 else r - 2
    ensures (r + 3) % 4 == if r < 1 then r + 3 else r - 1
  {
  }

  lemma MixRows(x: Col)
    ensures MixColumn(x) == Col(
      Add8(Add8(Mul8(2, x.b0), Mul8(3, x.b1)), Add8(x.b2, x.b3)),
      Add8(Add8(Mul8(2, x.b1), Mul8(3, x.b2)), Add8(x.b3, x.b0)),
      Add8(Add8(Mul8(2, x.b2), Mul8(3, x.b3)), Add8(x.b0, x.b1)),
      Add8(Add8(Mul8(2, x.b3), Mul8(3, x.b0)), Add8(x.b1, x.b2)))
  {
    hide Mul8, Add8;
    Mul8Units(x.b0);
    Mul8Units(x.b1);
    Mul8Units(x.b2);
    Mul8Units(x.b3);
    RowTurned(x.b0, Mul8(2, x.b1), Mul8(3, x.b2), x.b3);
    RowTurned(x.b1, Mul8(2, x.b2), Mul8(3, x.b3), x.b0);
    AddRules(Add8(x.b0, x.b1), Add8(Mul8(2, x.b2), Mul8(3, x.b3)), 0);
    RowTurned(Mul8(3, x.b0), x.b1, x.b2, Mul8(2, x.b3));
    AddRules(Mul8(2, x.b3), Mul8(3, x.b0), 0);
    AddRules(Add8(x.b1, x.b2), Add8(Mul8(3, x.b0), Mul8(2, x.b3)), 0);
  }

  /** (a + b) + (c + d) = (b + c) + (d + a) = (b + c) + (a + d). */
  lemma RowTurned(a: byte, b: byte, c: byte, d: byte)
    ensures Add8(Add8(a, b), Add8(c, d)) == Add8(Add8(b, c), Add8(d, a))
    ensures Add8(Add8(a, b), Add8(c, d)) == Add8(Add8(b, c), Add8(a, d))
  {
    hide Add8;
    AddRules(a, b, 0);
    AddExchange(b, a, c, d);
    AddRules(a, d, 0);
  }

  lemma AddPlace(x: Block, y: Block, r: nat, c: nat)
    requires r < 4 && c < 4
    ensures Place(AddBlock(x, y), r, c) == Add8(Place(x, r, c), Place(y, r, c))
  {
    hide Add8;
  }

  /** Round keys and the bytes of the expanded key. */
  ghost predicate SameKeys(keys: seq<Block>, w: seq<byte>) {
    |w| == 16 * |keys| && forall r, i :: 0 <= r < |keys| && 0 <= i < 16 ==> FromBlock(keys[r])[i] == w[16 * r + i]
  }

  lemma RoundIs(x: Block, key: Block, i: nat)
    requires i < 16
    ensures FromBlock(Round(x, key))[i] == Add8(Mixed(FromBlock(x), i % 4, i / 4), FromBlock(key)[i])
  {
    hide FromBlock, ShiftRows, SubBytes, MixColumns, AddBlock, Shifted, Add8, Mul8, Place;
    var r, c, y := i % 4, i / 4, ShiftRows(SubBytes(x));
    PlaceIs(Round(x, key), i);
    PlaceIs(key, i);
    AddPlace(MixColumns(y), key, r, c);
    MixedPlace(y, r, c);
    ShiftedIs(x, r, c);
    ShiftedIs(x, (r + 1) % 4, c);
    ShiftedIs(x, (r + 2) % 4, c);
    ShiftedIs(x, (r + 3) % 4, c);
  }

  lemma {:induction false} StateIs(keys: seq<Block>, w: seq<byte>, x: Block, n: nat)
    requires SameKeys(keys, w) && n < |keys|
    ensures FromBlock(Rounds(keys, x, n)) == State(FromBlock(x), w, n)
    decreases n
  {
    hide FromBlock, Round, Add8, Mixed;
    if n == 0 {
      forall i | 0 <= i < 16 ensures FromBlock(AddBlock(x, keys[0]))[i] == Add8(FromBlock(x)[i], w[i]) {
        SumByte(x, keys[0], i);
        assert FromBlock(keys[0])[i] == w[16 * 0 + i];
      }
    } else {
      StateIs(keys, w, x, n - 1);
      var y := Rounds(keys, x, n - 1);
      forall i | 0 <= i < 16
        ensures FromBlock(Round(y, keys[n]))[i] == Add8(Mixed(FromBlock(y), i % 4, i / 4), w[16 * n + i])
      {
        RoundIs(y, keys[n], i);
      }
    }
  }

  lemma SumByte(x: Block, y: Block, i: nat)
    requires i < 16
    ensures FromBlock(AddBlock(x, y))[i] == Add8(FromBlock(x)[i], FromBlock(y)[i])
  {
    hide FromBlock, AddBlock, Add8, Place;
    PlaceIs(AddBlock(x, y), i);
    PlaceIs(x, i);
    PlaceIs(y, i);
    AddPlace(x, y, i % 4, i / 4);
  }

  /** For any round keys of at least two. */
  lemma CipherIs(keys: seq<Block>, w: seq<byte>, x: Block)
    requires |keys| >= 2 && SameKeys(keys, w)
    ensures FromBlock(Cipher(keys, x)) == Ciphertext(FromBlock(x), w, |keys| - 1)
  {
    hide FromBlock, ShiftRows, SubBytes, AddBlock, Add8, Shifted, Place, Rounds, State;
    var nr := |keys| - 1;
    StateIs(keys, w, x, nr - 1);
    var y := Rounds(keys, x, nr - 1);
    var z := ShiftRows(SubBytes(y));
    forall i | 0 <= i < 16
      ensures FromBlock(AddBlock(z, keys[nr]))[i] == Add8(Shifted(FromBlock(y), i % 4, i / 4), w[16 * nr + i])
    {
      SumByte(z, keys[nr], i);
      PlaceIs(z, i);
      ShiftedIs(y, i % 4, i / 4);
    }
  }

  /** The expanded key, as round keys and as bytes; there are nk + 6 rounds. */
  lemma KeysAre(key: seq<byte>, nk: nat)
    requires (nk == 4 || nk == 6 || nk == 8) && |key| >= 4 * nk
    ensures |KeysOf(key, 32 * nk)| == nk + 7 && SameKeys(KeysOf(key, 32 * nk), Expansion(key[..4 * nk], nk, nk + 6))
  {
    hide FromBlock, KeyWord, KeyCols, KeyByte, WordBytes, Place;
    var k := key[..4 * nk];
    var keys, w := KeysOf(key, 32 * nk), Expansion(k, nk, nk + 6);
    forall r, i | 0 <= r < nk + 7 && 0 <= i < 16
      ensures FromBlock(keys[r])[i] == w[16 * r + i]
    {
      PlaceIs(keys[r], i);
      KeyPlace(k, nk, keys[r], r, i % 4, i / 4);
      assert (16 * r + i) / 4 == 4 * r + i / 4 && (16 * r + i) % 4 == i % 4;
    }
  }

  lemma KeyPlace(key: seq<byte>, nk: nat, x: Block, n: nat, r: nat, c: nat)
    requires nk > 0 && |key| == 4 * nk && r < 4 && c < 4
    requires x == RoundKeys(KeyCols(key), n)[n]
    ensures Place(x, r, c) == KeyByte(key, nk, 4 * n + c, r)
  {
    hide KeyWord, KeyCols, KeyByte;
    KeyBytes(key, nk, 4 * n + c);
  }

  /** Encryption of 16 bytes under a key of nk words. */
  lemma EncryptionIs(key: seq<byte>, nk: nat, s: seq<byte>)
    requires (nk == 4 || nk == 6 || nk == 8) && |key| >= 4 * nk && |s| == 16
    ensures |KeysOf(key, 32 * nk)| == nk + 7
    ensures FromBlock(Cipher(KeysOf(key, 32 * nk), ToBlock(s))) == Encryption(key[..4 * nk], nk, s)
  {
    hide FromBlock, ToBlock, Cipher, KeysOf, Expansion, Ciphertext, SameKeys;
    KeysAre(key, nk);
    BlockBytes(s, ToBlock(s));
    CipherIs(KeysOf(key, 32 * nk), Expansion(key[..4 * nk], nk, nk + 6), ToBlock(s));
  }
}
