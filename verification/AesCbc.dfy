/** aes_crypt_cbc: cipher block chaining, section 6.2 of NIST SP 800-38A, in place or not. */
module AesCbc {
  import opened Buffers
  import opened PackedBytes
  import opened AesCipher
  import opened AesTables
  import opened Aes

  ghost function Encipher(keys: seq<Block>, b: seq<byte>): (c: seq<byte>)
    requires |keys| >= 2 && |b| == 16
    ensures |c| == 16
  {
    FromBlock(Cipher(keys, ToBlock(b)))
  }

  ghost function Decipher(dk: seq<Block>, b: seq<byte>): (c: seq<byte>)
    requires |dk| >= 2 && |b| == 16
    ensures |c| == 16
  {
    FromBlock(InvCipher(dk, ToBlock(b)))
  }

  lemma DecipherEncipher(keys: seq<Block>, b: seq<byte>)
    requires |keys| >= 2 && |b| == 16
    ensures Decipher(InverseKeys(keys), Encipher(keys, b)) == b
  {
    hide ToBlock, FromBlock, Cipher, InvCipher, InverseKeys;
    BlockBytes(b, Cipher(keys, ToBlock(b)));
    CipherUndone(keys, ToBlock(b));
  }

  function XorBytes(a: seq<byte>, b: seq<byte>): (c: seq<byte>)
    requires |a| == |b|
    ensures |c| == |a|
  {
    seq(|a|, i requires 0 <= i < |a| => Add8(a[i], b[i]))
  }

  lemma XorTwice(a: seq<byte>, b: seq<byte>)
    requires |a| == |b|
    ensures XorBytes(XorBytes(a, b), b) == a
  {
    hide Add8;
    forall i | 0 <= i < |a| ensures Add8(Add8(a[i], b[i]), b[i]) == a[i] { AddCancel(a[i], b[i]); }
  }

  // ---------------------------------------------------------------- the mode

  /** CBC encryption of n blocks. */
  ghost function CbcEncrypt(keys: seq<Block>, iv: seq<byte>, p: seq<byte>, n: nat): (c: seq<byte>)
    requires |keys| >= 2 && |iv| == 16 && |p| == 16 * n
    ensures |c| == 16 * n
    decreases n
  {
    hide Encipher, XorBytes;
    if n == 0 then []
    else
      var c := Encipher(keys, XorBytes(p[..16], iv));
      c + CbcEncrypt(keys, c, p[16..], n - 1)
  }

  ghost function CbcDecrypt(dk: seq<Block>, iv: seq<byte>, c: seq<byte>, n: nat): (p: seq<byte>)
    requires |dk| >= 2 && |iv| == 16 && |c| == 16 * n
    ensures |p| == 16 * n
    decreases n
  {
    hide Decipher, XorBytes;
    if n == 0 then []
    else XorBytes(Decipher(dk, c[..16]), iv) + CbcDecrypt(dk, c[..16], c[16..], n - 1)
  }

  /** The chaining value after the ciphertext c. */
  function Chain(iv: seq<byte>, c: seq<byte>): (r: seq<byte>)
    requires |iv| == 16 && (c == [] || |c| >= 16)
    ensures |r| == 16
  {
    if c == [] then iv else c[|c| - 16..]
  }

  /** Decryption undoes encryption, for any number of blocks. */
  lemma {:induction false} CbcRoundTrip(keys: seq<Block>, iv: seq<byte>, p: seq<byte>, n: nat)
    requires |keys| >= 2 && |iv| == 16 && |p| == 16 * n
    ensures CbcDecrypt(InverseKeys(keys), iv, CbcEncrypt(keys, iv, p, n), n) == p
    decreases n
  {
    hide Encipher, Decipher, XorBytes, InverseKeys;
    if n > 0 {
      var x := XorBytes(p[..16], iv);
      var c := Encipher(keys, x);
      var rest := CbcEncrypt(keys, c, p[16..], n - 1);
      assert (c + rest)[..16] == c && (c + rest)[16..] == rest;
      DecipherEncipher(keys, x);
      XorTwice(p[..16], iv);
      CbcRoundTrip(keys, c, p[16..], n - 1);
    }
  }

  /** Block i of a string, and the block before it, the vector for the first. */
  function BlockAt(s: seq<byte>, i: nat): (b: seq<byte>)
    requires 16 * i + 16 <= |s|
    ensures |b| == 16
  {
    s[16 * i..16 * i + 16]
  }

  function Before(iv: seq<byte>, s: seq<byte>, i: nat): (b: seq<byte>)
    requires |iv| == 16 && 16 * i + 16 <= |s|
    ensures |b| == 16
  {
    if i == 0 then iv else s[16 * i - 16..16 * i]
  }

  lemma BlockOfTail(first: seq<byte>, rest: seq<byte>, i: nat)
    requires |first| == 16 && 16 * i + 16 <= |rest|
    ensures BlockAt(first + rest, i + 1) == BlockAt(rest, i) && BlockAt(first + rest, 0) == first
    ensures forall iv: seq<byte> :: |iv| == 16 ==> Before(iv, first + rest, i + 1) == Before(first, rest, i)
  {
    if i > 0 { assert (first + rest)[16 * i..16 * i + 16] == rest[16 * i - 16..16 * i]; }
  }

  /** Block i of the result is the encrypted sum of block i and the block of the result before it. */
  lemma {:induction false} EncryptedBlock(keys: seq<Block>, iv: seq<byte>, p: seq<byte>, n: nat, i: nat)
    requires |keys| >= 2 && |iv| == 16 && |p| == 16 * n && i < n
    ensures
      var c := CbcEncrypt(keys, iv, p, n);
      BlockAt(c, i) == Encipher(keys, XorBytes(BlockAt(p, i), Before(iv, c, i)))
    decreases n
  {
    hide Encipher, XorBytes;
    var first := Encipher(keys, XorBytes(p[..16], iv));
    var rest := CbcEncrypt(keys, first, p[16..], n - 1);
    if i > 0 {
      EncryptedBlock(keys, first, p[16..], n - 1, i - 1);
      BlockOfTail(first, rest, i - 1);
      BlockOfTail(p[..16], p[16..], i - 1);
      assert p == p[..16] + p[16..];
      hide BlockAt, Before;
    }
  }

  /** Block i of what is decrypted is the decrypted block i plus the block of the input before it. */
  lemma {:induction false} DecryptedBlock(dk: seq<Block>, iv: seq<byte>, c: seq<byte>, n: nat, i: nat)
    requires |dk| >= 2 && |iv| == 16 && |c| == 16 * n && i < n
    ensures BlockAt(CbcDecrypt(dk, iv, c, n), i) == XorBytes(Decipher(dk, BlockAt(c, i)), Before(iv, c, i))
    decreases n
  {
    hide Decipher, XorBytes;
    var first := XorBytes(Decipher(dk, c[..16]), iv);
    var rest := CbcDecrypt(dk, c[..16], c[16..], n - 1);
    if i > 0 {
      DecryptedBlock(dk, c[..16], c[16..], n - 1, i - 1);
      BlockOfTail(first, rest, i - 1);
      BlockOfTail(c[..16], c[16..], i - 1);
      assert c == c[..16] + c[16..];
      hide BlockAt, Before;
    }
  }

  /** One block more. */
  lemma {:induction false} EncryptAppend(keys: seq<Block>, iv: seq<byte>, p: seq<byte>, n: nat, b: seq<byte>)
    requires |keys| >= 2 && |iv| == 16 && |p| == 16 * n && |b| == 16
    ensures CbcEncrypt(keys, iv, p + b, n + 1)
         == CbcEncrypt(keys, iv, p, n) + Encipher(keys, XorBytes(b, Chain(iv, CbcEncrypt(keys, iv, p, n))))
    decreases n
  {
    hide Encipher, XorBytes;
    if n == 0 {
      assert p + b == b && b[..16] == b && b[16..] == [];
      assert CbcEncrypt(keys, Encipher(keys, XorBytes(b, iv)), [], 0) == [];
    } else {
      var c := Encipher(keys, XorBytes(p[..16], iv));
      var rest := CbcEncrypt(keys, c, p[16..], n - 1);
      assert (p + b)[..16] == p[..16] && (p + b)[16..] == p[16..] + b;
      EncryptAppend(keys, c, p[16..], n - 1, b);
      ChainSplit(iv, c, rest);
    }
  }

  lemma ChainSplit(iv: seq<byte>, c: seq<byte>, rest: seq<byte>)
    requires |iv| == 16 && |c| == 16 && (rest == [] || |rest| >= 16)
    ensures Chain(iv, c + rest) == Chain(c, rest)
  {
  }

  ghost function LastBlock(dk: seq<Block>, chain: seq<byte>, b: seq<byte>): seq<byte>
    requires |dk| >= 2 && |chain| == 16 && |b| == 16
  {
    XorBytes(Decipher(dk, b), chain)
  }

  lemma {:induction false} DecryptAppend(dk: seq<Block>, iv: seq<byte>, c: seq<byte>, n: nat, b: seq<byte>)
    requires |dk| >= 2 && |iv| == 16 && |c| == 16 * n && |b| == 16
    ensures CbcDecrypt(dk, iv, c + b, n + 1) == CbcDecrypt(dk, iv, c, n) + LastBlock(dk, Chain(iv, c), b)
    decreases n
  {
    hide Decipher, XorBytes;
    if n == 0 {
      assert c + b == b && b[..16] == b && b[16..] == [];
      assert CbcDecrypt(dk, b, [], 0) == [];
    } else {
      assert (c + b)[..16] == c[..16] && (c + b)[16..] == c[16..] + b;
      DecryptAppend(dk, c[..16], c[16..], n - 1, b);
      assert c == c[..16] + c[16..];
      ChainSplit(iv, c[..16], c[16..]);
    }
  }

  // ---------------------------------------------------------------- the buffers

  /** memcpy of 16 bytes between different buffers. */
  method Copy16(src: array<byte>, from: nat, dst: array<byte>, at: nat)
    requires from + 16 <= src.Length && at + 16 <= dst.Length && src != dst
    modifies dst
    ensures dst[at..at + 16] == src[from..from + 16]
    ensures forall k :: 0 <= k < dst.Length && !(at <= k < at + 16) ==> dst[k] == old(dst[k])
  {
    ghost var s := src[from..from + 16];
    for i := 0 to 16
      invariant forall k :: at <= k < at + i ==> dst[k] == s[k - at]
      invariant forall k :: 0 <= k < dst.Length && !(at <= k < at + i) ==> dst[k] == old(dst[k])
    {
      dst[at + i] := src[from + i];
    }
  }

  /** output[i] = input[i] ^ iv[i], the buffers distinct or aligned. */
  method XorInto(input: array<byte>, from: nat, iv: array<byte>, output: array<byte>, at: nat)
    requires from + 16 <= input.Length && at + 16 <= output.Length && iv.Length == 16 && iv != output
    requires input != output || from == at
    modifies output
    ensures output[at..at + 16] == XorBytes(old(input[from..from + 16]), iv[..])
    ensures forall k :: 0 <= k < output.Length && !(at <= k < at + 16) ==> output[k] == old(output[k])
  {
    hide Add8;
    ghost var b := input[from..from + 16];
    for i := 0 to 16
      invariant forall k :: at <= k < at + i ==> output[k] == Add8(b[k - at], iv[k - at])
      invariant forall k :: i <= k < 16 ==> input[from + k] == b[k]
      invariant forall k :: 0 <= k < output.Length && !(at <= k < at + i) ==> output[k] == old(output[k])
    {
      output[at + i] := Add8(input[from + i], iv[i]);
    }
  }

  /** Buffers that a call may work on without touching the tables or the keys. */
  ghost predicate Separate(t: Tables, a: array<byte>) {
    a != t.fsb && a != t.rsb
  }

  /** One block of encryption. */
  method EncryptStep(t: Tables, ctx: Context, iv: array<byte>, input: array<byte>, from: nat, output: array<byte>,
    at: nat, ghost keys: seq<Block>)
    requires t.Ready() && ctx.Holds(keys) && iv.Length == 16 && iv != output && iv != input
    requires from + 16 <= input.Length && at + 16 <= output.Length && (input != output || from == at)
    requires Separate(t, output) && Separate(t, iv)
    modifies output, iv
    ensures t.Ready() && ctx.Holds(keys)
    ensures output[at..at + 16] == Encipher(keys, XorBytes(old(input[from..from + 16]), old(iv[..])))
    ensures iv[..] == output[at..at + 16]
    ensures forall k :: 0 <= k < output.Length && !(at <= k < at + 16) ==> output[k] == old(output[k])
  {
    hide Tables.Ready, FromBlock, ToBlock, Cipher, XorBytes, Context.Holds;
    XorInto(input, from, iv, output, at);
    EncryptBlock(t, ctx, output, at, output, at, keys);
    Copy16(output, at, iv, 0);
    assert iv[0..16] == iv[..];
  }

  /** One block of decryption. */
  method DecryptStep(t: Tables, ctx: Context, iv: array<byte>, input: array<byte>, from: nat, output: array<byte>,
    at: nat, ghost dk: seq<Block>)
    requires t.Ready() && ctx.Holds(dk) && iv.Length == 16 && iv != output && iv != input
    requires from + 16 <= input.Length && at + 16 <= output.Length && (input != output || from == at)
    requires Separate(t, output) && Separate(t, iv)
    modifies output, iv
    ensures t.Ready() && ctx.Holds(dk)
    ensures output[at..at + 16] == XorBytes(Decipher(dk, old(input[from..from + 16])), old(iv[..]))
    ensures iv[..] == old(input[from..from + 16])
    ensures forall k :: 0 <= k < output.Length && !(at <= k < at + 16) ==> output[k] == old(output[k])
  {
    hide Tables.Ready, FromBlock, ToBlock, InvCipher, XorBytes, Context.Holds;
    var temp := new byte[16];
    Copy16(input, from, temp, 0);
    DecryptBlock(t, ctx, input, from, output, at, dk);
    XorInto(output, at, iv, output, at);
    Copy16(temp, 0, iv, 0);
    assert iv[0..16] == iv[..];
  }

  /** What the buffers hold after n blocks, in either direction. */
  ghost predicate Encrypted(keys: seq<Block>, iv0: seq<byte>, p: seq<byte>, n: nat, out: seq<byte>, iv: seq<byte>)
    requires |keys| >= 2 && |iv0| == 16 && 16 * n <= |p|
  {
    out == CbcEncrypt(keys, iv0, p[..16 * n], n) && iv == Chain(iv0, out)
  }

  ghost predicate Decrypted(dk: seq<Block>, iv0: seq<byte>, c: seq<byte>, n: nat, out: seq<byte>, iv: seq<byte>)
    requires |dk| >= 2 && |iv0| == 16 && 16 * n <= |c|
  {
    out == CbcDecrypt(dk, iv0, c[..16 * n], n) && iv == Chain(iv0, c[..16 * n])
  }

  lemma EncryptedNext(keys: seq<Block>, iv0: seq<byte>, p: seq<byte>, n: nat, out: seq<byte>, iv: seq<byte>,
    e: seq<byte>)
    requires |keys| >= 2 && |iv0| == 16 && 16 * n + 16 <= |p| && |iv| == 16 && Encrypted(keys, iv0, p, n, out, iv)
    requires e == Encipher(keys, XorBytes(p[16 * n..16 * n + 16], iv))
    ensures Encrypted(keys, iv0, p, n + 1, out + e, e)
  {
    hide Encipher, XorBytes, CbcEncrypt;
    var b := p[16 * n..16 * n + 16];
    assert p[..16 * (n + 1)] == p[..16 * n] + b;
    EncryptAppend(keys, iv0, p[..16 * n], n, b);
  }

  lemma DecryptedNext(dk: seq<Block>, iv0: seq<byte>, c: seq<byte>, n: nat, out: seq<byte>, iv: seq<byte>, e: seq<byte>)
    requires |dk| >= 2 && |iv0| == 16 && 16 * n + 16 <= |c| && |iv| == 16 && Decrypted(dk, iv0, c, n, out, iv)
    requires e == XorBytes(Decipher(dk, c[16 * n..16 * n + 16]), iv)
    ensures Decrypted(dk, iv0, c, n + 1, out + e, c[16 * n..16 * n + 16])
  {
    hide Decipher, XorBytes, CbcDecrypt;
    var b := c[16 * n..16 * n + 16];
    assert c[..16 * (n + 1)] == c[..16 * n] + b;
    DecryptAppend(dk, iv0, c[..16 * n], n, b);
  }

  /** What aes_crypt_cbc leaves in the output and the chaining buffer. */
  ghost predicate CbcDone(mode: int, keys: seq<Block>, iv0: seq<byte>, data: seq<byte>, out: seq<byte>, iv: seq<byte>)
    requires |keys| >= 2 && |iv0| == 16 && |data| % 16 == 0
  {
    var n := |data| / 16;
    if mode == 0 then Decrypted(keys, iv0, data, n, out, iv) else Encrypted(keys, iv0, data, n, out, iv)
  }

  /** How many bytes a length asks for: the loops stop at once for a negative one. */
  function Count(length: int): nat { if length < 0 then 0 else length }

  /** aes_crypt_cbc on length bytes; output may be input. */
  method CryptCbc(t: Tables, ctx: Context, mode: int, length: int, iv: array<byte>, input: array<byte>,
                  output: array<byte>, ghost keys: seq<Block>) returns (ret: int)
    requires t.Ready() && ctx.Holds(keys) && |keys| >= 2 && iv.Length == 16 && iv != output && iv != input
    requires length <= input.Length && length <= output.Length
    requires Separate(t, output) && Separate(t, iv)
    modifies output, iv
    ensures ret == (if length % 16 != 0 then -0x0810 else 0)
    ensures ret != 0 ==> output[..] == old(output[..]) && iv[..] == old(iv[..])
    ensures length % 16 == 0 ==>
      var n := Count(length); CbcDone(mode, keys, old(iv[..]), old(input[..n]), output[..n], iv[..])
    ensures forall k :: Count(length) <= k < output.Length ==> output[k] == old(output[k])
  {
    hide Tables.Ready, Context.Holds, Encrypted, Decrypted, Encipher, Decipher, XorBytes;
    if length % 16 != 0 {
      return ERR_INVALID_INPUT_LENGTH;
    }
    if mode == AES_DECRYPT {
      DecryptAll(t, ctx, length, iv, input, output, keys);
    } else {
      EncryptAll(t, ctx, length, iv, input, output, keys);
    }
    ret := 0;
  }

  lemma WholeBlocks(length: int)
    requires length % 16 == 0
    ensures Count(length) == 16 * (Count(length) / 16)
  {
  }

  /** The encrypting loop. */
  method EncryptAll(t: Tables, ctx: Context, length: int, iv: array<byte>, input: array<byte>, output: array<byte>,
                    ghost keys: seq<Block>)
    requires t.Ready() && ctx.Holds(keys) && |keys| >= 2 && iv.Length == 16 && iv != output && iv != input
    requires length <= input.Length && length <= output.Length && length % 16 == 0
    requires Separate(t, output) && Separate(t, iv)
    modifies output, iv
    ensures var n := Count(length); Encrypted(keys, old(iv[..]), old(input[..n]), n / 16, output[..n], iv[..])
    ensures forall k :: Count(length) <= k < output.Length ==> output[k] == old(output[k])
  {
    hide Tables.Ready, Context.Holds, Encrypted, Decrypted, Encipher, Decipher, XorBytes;
    ghost var size, blocks := Count(length), Count(length) / 16;
    WholeBlocks(length);
    ghost var data, iv0 := input[..size], iv[..];
    NoneDone(keys, iv0, data);
    var n := 0;
    while 16 * n < length
      invariant n <= blocks && size == 16 * blocks && t.Ready() && ctx.Holds(keys)
      invariant forall k :: 16 * n <= k < size ==> input[k] == data[k]
      invariant forall k :: size <= k < output.Length ==> output[k] == old(output[k])
      invariant Encrypted(keys, iv0, data, n, output[..16 * n], iv[..])
    {
      ghost var out, chain := output[..16 * n], iv[..];
      assert input[16 * n..16 * n + 16] == data[16 * n..16 * n + 16];
      EncryptStep(t, ctx, iv, input, 16 * n, output, 16 * n, keys);
      EncryptedNext(keys, iv0, data, n, out, chain, output[16 * n..16 * n + 16]);
      assert output[..16 * n + 16] == out + output[16 * n..16 * n + 16];
      n := n + 1;
    }
  }

  /** The decrypting loop. */
  method DecryptAll(t: Tables, ctx: Context, length: int, iv: array<byte>, input: array<byte>, output: array<byte>,
                    ghost keys: seq<Block>)
    requires t.Ready() && ctx.Holds(keys) && |keys| >= 2 && iv.Length == 16 && iv != output && iv != input
    requires length <= input.Length && length <= output.Length && length % 16 == 0
    requires Separate(t, output) && Separate(t, iv)
    modifies output, iv
    ensures var n := Count(length); Decrypted(keys, old(iv[..]), old(input[..n]), n / 16, output[..n], iv[..])
    ensures forall k :: Count(length) <= k < output.Length ==> output[k] == old(output[k])
  {
    hide Tables.Ready, Context.Holds, Encrypted, Decrypted, Encipher, Decipher, XorBytes;
    ghost var size, blocks := Count(length), Count(length) / 16;
    WholeBlocks(length);
    ghost var data, iv0 := input[..size], iv[..];
    NoneDone(keys, iv0, data);
    var n := 0;
    while 16 * n < length
      invariant n <= blocks && size == 16 * blocks && t.Ready() && ctx.Holds(keys)
      invariant forall k :: 16 * n <= k < size ==> input[k] == data[k]
      invariant forall k :: size <= k < output.Length ==> output[k] == old(output[k])
      invariant Decrypted(keys, iv0, data, n, output[..16 * n], iv[..])
    {
      ghost var out, chain := output[..16 * n], iv[..];
      assert input[16 * n..16 * n + 16] == data[16 * n..16 * n + 16];
      DecryptStep(t, ctx, iv, input, 16 * n, output, 16 * n, keys);
      DecryptedNext(keys, iv0, data, n, out, chain, output[16 * n..16 * n + 16]);
      assert output[..16 * n + 16] == out + output[16 * n..16 * n + 16];
      n := n + 1;
    }
  }

  lemma NoneDone(keys: seq<Block>, iv: seq<byte>, data: seq<byte>)
    requires |keys| >= 2 && |iv| == 16
    ensures Encrypted(keys, iv, data, 0, [], iv) && Decrypted(keys, iv, data, 0, [], iv)
  {
  }

  /** Encrypting a buffer and decrypting the result under the inverse keys, from the same
      chaining value, gives the buffer back. */
  lemma CbcBuffers(keys: seq<Block>, iv0: seq<byte>, data: seq<byte>, mid: seq<byte>, iv1: seq<byte>, out: seq<byte>,
    iv2: seq<byte>)
    requires |keys| >= 2 && |iv0| == 16 && |data| % 16 == 0 && |mid| == |data|
    requires CbcDone(AES_ENCRYPT, keys, iv0, data, mid, iv1)
      && CbcDone(AES_DECRYPT, InverseKeys(keys), iv0, mid, out, iv2)
    ensures out == data
  {
    hide InverseKeys, CbcEncrypt, CbcDecrypt;
    var n := |data| / 16;
    assert data[..16 * n] == data && mid[..16 * n] == mid;
    CbcRoundTrip(keys, iv0, data, n);
  }
}
