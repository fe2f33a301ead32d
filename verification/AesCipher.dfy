/** The AES cipher and its equivalent inverse, sections 5.1 and 5.3.5 of FIPS 197. */
module AesCipher {
  import opened PackedBytes
  import opened AesSpec
  import opened AesColumns

  datatype Block = Block(c0: Col, c1: Col, c2: Col, c3: Col)

  function AddBlock(x: Block, y: Block): Block {
    Block(AddCol(x.c0, y.c0), AddCol(x.c1, y.c1), AddCol(x.c2, y.c2), AddCol(x.c3, y.c3))
  }

  ghost function SubCol(x: Col): Col { Col(Sbox(x.b0), Sbox(x.b1), Sbox(x.b2), Sbox(x.b3)) }

  ghost function InvSubCol(x: Col): Col { Col(InvSbox(x.b0), InvSbox(x.b1), InvSbox(x.b2), InvSbox(x.b3)) }

  ghost function SubBytes(x: Block): Block { Block(SubCol(x.c0), SubCol(x.c1), SubCol(x.c2), SubCol(x.c3)) }

  ghost function InvSubBytes(x: Block): Block {
    Block(InvSubCol(x.c0), InvSubCol(x.c1), InvSubCol(x.c2), InvSubCol(x.c3))
  }

  /** Row i moves left by i places. */
  function ShiftRows(x: Block): Block {
    Block(Col(x.c0.b0, x.c1.b1, x.c2.b2, x.c3.b3), Col(x.c1.b0, x.c2.b1, x.c3.b2, x.c0.b3),
          Col(x.c2.b0, x.c3.b1, x.c0.b2, x.c1.b3), Col(x.c3.b0, x.c0.b1, x.c1.b2, x.c2.b3))
  }

  function InvShiftRows(x: Block): Block {
    Block(Col(x.c0.b0, x.c3.b1, x.c2.b2, x.c1.b3), Col(x.c1.b0, x.c0.b1, x.c3.b2, x.c2.b3),
          Col(x.c2.b0, x.c1.b1, x.c0.b2, x.c3.b3), Col(x.c3.b0, x.c2.b1, x.c1.b2, x.c0.b3))
  }

  function MixColumns(x: Block): Block {
    Block(MixColumn(x.c0), MixColumn(x.c1), MixColumn(x.c2), MixColumn(x.c3))
  }

  function InvMixColumns(x: Block): Block {
    Block(InvMixColumn(x.c0), InvMixColumn(x.c1), InvMixColumn(x.c2), InvMixColumn(x.c3))
  }

  // ---------------------------------------------------------------- the cipher

  ghost function Round(x: Block, key: Block): Block { AddBlock(MixColumns(ShiftRows(SubBytes(x))), key) }

  /** The state after the initial key addition and r full rounds. */
  ghost function Rounds(keys: seq<Block>, x: Block, r: nat): Block
    requires r < |keys|
  {
    if r == 0 then AddBlock(x, keys[0]) else Round(Rounds(keys, x, r - 1), keys[r])
  }

  /** All rounds, the last one without mixing. */
  ghost function Cipher(keys: seq<Block>, x: Block): Block
    requires |keys| >= 2
  {
    var nr := |keys| - 1;
    AddBlock(ShiftRows(SubBytes(Rounds(keys, x, nr - 1))), keys[nr])
  }

  // ---------------------------------------------------------------- the equivalent inverse cipher

  /** The round keys in reverse, the inner ones passed through InvMixColumns. */
  function InverseKeys(keys: seq<Block>): (dk: seq<Block>)
    ensures |dk| == |keys|
  {
    seq(|keys|, r requires 0 <= r < |keys| =>
      if r == 0 || r == |keys| - 1 then keys[|keys| - 1 - r] else InvMixColumns(keys[|keys| - 1 - r]))
  }

  ghost function InvRound(x: Block, key: Block): Block { AddBlock(InvMixColumns(InvShiftRows(InvSubBytes(x))), key) }

  ghost function InvRounds(dk: seq<Block>, x: Block, r: nat): Block
    requires r < |dk|
  {
    if r == 0 then AddBlock(x, dk[0]) else InvRound(InvRounds(dk, x, r - 1), dk[r])
  }

  ghost function InvCipher(dk: seq<Block>, x: Block): Block
    requires |dk| >= 2
  {
    var nr := |dk| - 1;
    AddBlock(InvShiftRows(InvSubBytes(InvRounds(dk, x, nr - 1))), dk[nr])
  }

  // ---------------------------------------------------------------- each layer undone

  lemma AddTwice(x: Block, k: Block)
    ensures AddBlock(AddBlock(x, k), k) == x
  {
    hide AddCol;
    AddColCancel(x.c0, k.c0);
    AddColCancel(x.c1, k.c1);
    AddColCancel(x.c2, k.c2);
    AddColCancel(x.c3, k.c3);
  }

  lemma SubColUndone(x: Col)
    ensures InvSubCol(SubCol(x)) == x && SubCol(InvSubCol(x)) == x
  {
    hide Sbox, InvSbox;
    SboxInverse(x.b0);
    SboxInverse(x.b1);
    SboxInverse(x.b2);
    SboxInverse(x.b3);
  }

  lemma SubUndone(x: Block)
    ensures InvShiftRows(InvSubBytes(ShiftRows(SubBytes(x)))) == x
  {
    hide Sbox, InvSbox;
    var y := ShiftRows(SubBytes(x));
    assert y == SubBytes(ShiftRows(x));
    var z := ShiftRows(x);
    SubColUndone(z.c0);
    SubColUndone(z.c1);
    SubColUndone(z.c2);
    SubColUndone(z.c3);
    assert InvSubBytes(y) == z;
  }

  /** One inverse round under the transformed key undoes the mixing of a round. */
  lemma MixUndone(x: Block, k: Block)
    ensures AddBlock(InvMixColumns(AddBlock(MixColumns(x), k)), InvMixColumns(k)) == x
  {
    hide MixColumn, InvMixColumn, AddCol;
    ColumnUndone(x.c0, k.c0);
    ColumnUndone(x.c1, k.c1);
    ColumnUndone(x.c2, k.c2);
    ColumnUndone(x.c3, k.c3);
  }

  lemma ColumnUndone(x: Col, k: Col)
    ensures AddCol(InvMixColumn(AddCol(MixColumn(x), k)), InvMixColumn(k)) == x
  {
    hide MixColumn, InvMixColumn, AddCol;
    InvMixAdd(MixColumn(x), k);
    MixInverse(x);
    AddColCancel(x, InvMixColumn(k));
  }

  /** After r inverse rounds the state is what the cipher had nr - r rounds in, before mixing. */
  lemma {:induction false} RoundsUndone(keys: seq<Block>, x: Block, r: nat)
    requires |keys| >= 2 && r <= |keys| - 2
    ensures InvRounds(InverseKeys(keys), Cipher(keys, x), r) == ShiftRows(SubBytes(Rounds(keys, x, |keys| - 2 - r)))
    decreases r
  {
    hide AddBlock, ShiftRows, SubBytes, MixColumns, InvMixColumns, InvShiftRows, InvSubBytes;
    var nr, dk := |keys| - 1, InverseKeys(keys);
    if r == 0 {
      AddTwice(ShiftRows(SubBytes(Rounds(keys, x, nr - 1))), keys[nr]);
    } else {
      RoundsUndone(keys, x, r - 1);
      var s := Rounds(keys, x, nr - r);
      var t := ShiftRows(SubBytes(Rounds(keys, x, nr - r - 1)));
      assert s == AddBlock(MixColumns(t), keys[nr - r]);
      SubUndone(s);
      MixUndone(t, keys[nr - r]);
    }
  }

  /** Decryption under the inverse keys undoes encryption, for any round keys. */
  lemma CipherUndone(keys: seq<Block>, x: Block)
    requires |keys| >= 2
    ensures InvCipher(InverseKeys(keys), Cipher(keys, x)) == x
  {
    hide AddBlock, ShiftRows, SubBytes, MixColumns, InvMixColumns, InvShiftRows, InvSubBytes, Cipher, InvRounds;
    RoundsUndone(keys, x, |keys| - 2);
    SubUndone(Rounds(keys, x, 0));
    AddTwice(x, keys[0]);
  }
}
