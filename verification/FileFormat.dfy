/** The encrypted files of AES256/main.cpp: the initialization vector, the chained blocks of
    the zero-padded plaintext, and an HMAC of that plaintext. */
module FileFormat {
  import opened Bits
  import opened Buffers
  import Sha256Spec
  import Sha2
  import opened AesCipher
  import opened AesTables
  import opened Aes
  import opened AesCbc
  import AesBytes
  import AesStandard

  // ---------------------------------------------------------------- the format

  /** The file size in eight bytes, least significant first. */
  function SizeBytes(n: nat): (s: seq<byte>)
    ensures |s| == 8
  {
    [n % 256, n / 0x100 % 256, n / 0x1_0000 % 256, n / 0x100_0000 % 256,
     n / 0x1_0000_0000 % 256, n / 0x100_0000_0000 % 256, n / 0x1_0000_0000_0000 % 256, n / 0x100_0000_0000_0000 % 256]
  }

  /** SHA-256 of size and name, cut to a block, its last four bits the size modulo 16. */
  function InitialVector(size: nat, name: seq<byte>): (iv: seq<byte>)
    ensures |iv| == 16 && iv[15] % 16 == size % 16
  {
    hide Sha256Spec.Hash, SizeBytes;
    var h := Sha256Spec.Hash(SizeBytes(size) + name, false);
    h[..15] + [WithLowBits(h[15], size)]
  }

  /** The high four bits of h over the low four bits of n. */
  function WithLowBits(h: byte, n: nat): (r: byte)
    ensures r % 16 == n % 16 && r / 16 == h / 16
  {
    h / 16 * 16 + n % 16
  }

  const TURNS: nat := 8192

  /** n times SHA-256 of the digest and the key. */
  function Stretch(d: seq<byte>, key: seq<byte>, n: nat): (r: seq<byte>)
    requires |d| == 32
    ensures |r| == 32
  {
    if n == 0 then d else Sha256Spec.Hash(Stretch(d, key, n - 1) + key, false)
  }

  /** The key of one file. */
  function FileKey(iv: seq<byte>, key: seq<byte>): (k: seq<byte>)
    requires |iv| == 16
    ensures |k| == 32
  {
    Stretch(iv + Zeros(16), key, TURNS)
  }

  /** The 8193 digests behind a file key: the vector and zeros, then each time SHA-256 of the one
      before and the secret key. */
  ghost predicate KeyChain(iv: seq<byte>, key: seq<byte>, d: seq<seq<byte>>) {
    && |d| == 8193 && |iv| == 16 && d[0] == iv + Zeros(16)
    && forall i {:trigger d[i]} :: 0 <= i < 8192 ==> d[i + 1] == Sha256Spec.Hash(d[i] + key, false)
  }

  /** k is the last of them. */
  ghost predicate Derived(iv: seq<byte>, key: seq<byte>, k: seq<byte>) {
    hide KeyChain;
    |k| == 32 && exists d :: |d| == 8193 && KeyChain(iv, key, d) && d[8192] == k
  }

  lemma FileKeyDerived(iv: seq<byte>, key: seq<byte>)
    requires |iv| == 16
    ensures Derived(iv, key, FileKey(iv, key))
  {
    hide Sha256Spec.Hash, Stretch;
    var d := StretchChain(iv + Zeros(16), key, TURNS);
    assert KeyChain(iv, key, d);
  }

  lemma {:induction false} StretchChain(s: seq<byte>, key: seq<byte>, n: nat) returns (d: seq<seq<byte>>)
    requires |s| == 32
    ensures |d| == n + 1 && d[0] == s && d[n] == Stretch(s, key, n)
    ensures forall i {:trigger d[i]} :: 0 <= i < n ==> d[i + 1] == Sha256Spec.Hash(d[i] + key, false)
  {
    hide Sha256Spec.Hash;
    if n == 0 {
      d := [s];
    } else {
      d := StretchChain(s, key, n - 1);
      d := d + [Stretch(s, key, n)];
    }
  }

  /** Zeros up to a whole block. */
  function Padded(p: seq<byte>): (q: seq<byte>)
    ensures |q| == 16 * ((|p| + 15) / 16) && |p| <= |q| && q[..|p|] == p
  {
    p + Zeros(16 * ((|p| + 15) / 16) - |p|)
  }

  /** The chained blocks of the padded plaintext. */
  ghost function SealedBlocks(keys: seq<Block>, iv: seq<byte>, p: seq<byte>): (c: seq<byte>)
    requires |keys| >= 2 && |iv| == 16
    ensures |c| == |Padded(p)|
  {
    hide CbcEncrypt, Padded;
    CbcEncrypt(keys, iv, Padded(p), |Padded(p)| / 16)
  }

  ghost function EncryptedFile(p: seq<byte>, name: seq<byte>, key: seq<byte>): seq<byte> {
    hide Sha256Spec.Hmac, InitialVector, FileKey, KeysOf, SealedBlocks, Padded;
    var iv := InitialVector(|p|, name);
    var k := FileKey(iv, key);
    var q := Padded(p);
    iv + SealedBlocks(KeysOf(k, 256), iv, p) + Sha256Spec.Hmac(k, q, false)
  }

  datatype Outcome = TooShort | NotWholeBlocks | BadMac(written: seq<byte>) | Plaintext(text: seq<byte>)

  /** What decryption writes: all blocks, the last cut to the size modulo 16 when that is not zero. */
  function Trimmed(q: seq<byte>, lastn: nat): seq<byte>
    requires lastn < 16
  {
    if lastn > 0 && |q| >= 16 then q[..|q| - 16 + lastn] else q
  }

  ghost function DecryptedFile(f: seq<byte>, key: seq<byte>): Outcome {
    hide Sha256Spec.Hmac, FileKey, KeysOf, CbcDecrypt, InverseKeys;
    if |f| < 48 then TooShort
    else if |f| % 16 != 0 then NotWholeBlocks
    else
      var iv, n := f[..16], |f| / 16 - 3;
      var k := FileKey(iv, key);
      var q := CbcDecrypt(InverseKeys(KeysOf(k, 256)), iv, f[16..|f| - 32], n);
      var text := Trimmed(q, iv[15] % 16);
      if Sha256Spec.Hmac(k, q, false) == f[|f| - 32..] then Plaintext(text) else BadMac(text)
  }

  // ---------------------------------------------------------------- the bytes of a file

  /** z is the size in eight bytes, and the vector is SHA-256 of z and the name, its last four bits
      exchanged for the size modulo 16. */
  ghost predicate Vector(size: nat, name: seq<byte>, z: seq<byte>, iv: seq<byte>) {
    hide Sha256Spec.Hash, Pow2;
    && |z| == 8 && |iv| == 16 && (forall i :: 0 <= i < 8 ==> z[i] == size / Pow2(8 * i) % 256)
    && (var h := Sha256Spec.Hash(z + name, false);
        iv[..15] == h[..15] && iv[15] / 16 == h[15] / 16 && iv[15] % 16 == size % 16)
  }

  lemma VectorBytes(size: nat, name: seq<byte>)
    ensures Vector(size, name, SizeBytes(size), InitialVector(size, name))
  {
    hide Sha256Spec.Hash, SizeBytes, Pow2;
    forall i | 0 <= i < 8 ensures SizeBytes(size)[i] == size / Pow2(8 * i) % 256 { SizeByte(size, i); }
  }

  /** Each block of the file but the vector is the encrypted sum of a block of q and the block of the
      file before it. */
  ghost predicate Chained(k: seq<byte>, q: seq<byte>, f: seq<byte>) {
    && |k| == 32 && |q| % 16 == 0 && |f| == |q| + 48
    && forall i {:trigger BlockAt(q, i)} :: 0 <= i < |q| / 16 ==>
         BlockAt(f, i + 1) == AesBytes.Encryption(k, 8, XorBytes(BlockAt(q, i), BlockAt(f, i)))
  }

  /** An encrypted file: the vector, the blocks of the padded plaintext q, and the HMAC of q. */
  lemma FileBytes(p: seq<byte>, name: seq<byte>, key: seq<byte>) returns (f: seq<byte>, q: seq<byte>, k: seq<byte>)
    ensures f == EncryptedFile(p, name, key)
    ensures |q| % 16 == 0 && |p| <= |q| < |p| + 16 && q[..|p|] == p && forall i :: |p| <= i < |q| ==> q[i] == 0
    ensures |f| == |q| + 48 && f[..16] == InitialVector(|p|, name) && Derived(f[..16], key, k)
    ensures Chained(k, q, f) && f[|f| - 32..] == Sha256Spec.Hmac(k, q, false)
  {
    hide Sha256Spec.Hmac, InitialVector, FileKey, KeysOf, CbcEncrypt, Derived, Chained;
    var iv := InitialVector(|p|, name);
    f, q, k := EncryptedFile(p, name, key), Padded(p), FileKey(iv, key);
    FileKeyDerived(iv, key);
    var c, tag := CbcEncrypt(KeysOf(k, 256), iv, q, |q| / 16), Sha256Spec.Hmac(k, q, false);
    assert f == iv + c + tag;
    FileChained(k, q, iv, tag);
  }

  lemma FileChained(k: seq<byte>, q: seq<byte>, iv: seq<byte>, tag: seq<byte>)
    requires |k| == 32 && |q| % 16 == 0 && |iv| == 16 && |tag| == 32
    ensures Chained(k, q, iv + CbcEncrypt(KeysOf(k, 256), iv, q, |q| / 16) + tag)
  {
    hide KeysOf, CbcEncrypt, AesBytes.Encryption, XorBytes, Encipher;
    var keys, n := KeysOf(k, 256), |q| / 16;
    var c := CbcEncrypt(keys, iv, q, n);
    var f := iv + c + tag;
    forall i | 0 <= i < n
      ensures BlockAt(f, i + 1) == AesBytes.Encryption(k, 8, XorBytes(BlockAt(q, i), BlockAt(f, i)))
    {
      EncryptedBlock(keys, iv, q, n, i);
      FileBlocks(iv, c, tag, i);
      hide BlockAt, Before;
      EncipherIs(k, XorBytes(BlockAt(q, i), BlockAt(f, i)));
    }
  }

  lemma FileBlocks(iv: seq<byte>, c: seq<byte>, tag: seq<byte>, i: nat)
    requires |iv| == 16 && 16 * i + 16 <= |c|
    ensures BlockAt(iv + c + tag, i + 1) == BlockAt(c, i) && BlockAt(iv + c + tag, i) == Before(iv, c, i)
  {
    MiddlePart(iv, c, tag, 16 * i, 16 * i + 16);
    if i > 0 {
      MiddlePart(iv, c, tag, 16 * i - 16, 16 * i);
    } else {
      assert (iv + c + tag)[..16] == iv;
    }
  }

  lemma MiddlePart(s: seq<byte>, m: seq<byte>, t: seq<byte>, from: nat, to: nat)
    requires from <= to <= |m|
    ensures (s + m + t)[|s| + from..|s| + to] == m[from..to]
  {
  }

  lemma EncipherIs(k: seq<byte>, b: seq<byte>)
    requires |k| == 32 && |b| == 16
    ensures Encipher(KeysOf(k, 256), b) == AesBytes.Encryption(k, 8, b)
  {
    hide KeysOf, AesBytes.Encryption, Cipher, FromBlock, ToBlock;
    AesStandard.EncryptionIs(k, 8, b);
    assert k[..32] == k;
  }

  /** q is what the blocks of the file hold. */
  ghost predicate Unchained(k: seq<byte>, q: seq<byte>, f: seq<byte>) {
    && |k| == 32 && |q| % 16 == 0 && |f| == |q| + 48
    && forall i {:trigger BlockAt(q, i)} :: 0 <= i < |q| / 16 ==>
         BlockAt(q, i) == XorBytes(Decipher(InverseKeys(KeysOf(k, 256)), BlockAt(f, i + 1)), BlockAt(f, i))
  }

  /** What decryption makes of such a file: all that the blocks hold is authenticated before it is cut. */
  ghost predicate Opened(f: seq<byte>, key: seq<byte>, q: seq<byte>, k: seq<byte>, text: seq<byte>, r: Outcome) {
    hide Sha256Spec.Hmac, Derived, Unchained;
    && |f| == |q| + 48 && Derived(f[..16], key, k) && Unchained(k, q, f)
    && (text == if f[15] % 16 > 0 && |q| >= 16 then q[..|q| - 16 + f[15] % 16] else q)
    && (r == if Sha256Spec.Hmac(k, q, false) == f[|q| + 16..] then Plaintext(text) else BadMac(text))
  }

  lemma DecryptedBytes(f: seq<byte>, key: seq<byte>) returns (q: seq<byte>, k: seq<byte>, text: seq<byte>)
    requires |f| >= 48 && |f| % 16 == 0
    ensures Opened(f, key, q, k, text, DecryptedFile(f, key))
  {
    hide Sha256Spec.Hmac, FileKey, KeysOf, CbcDecrypt, InverseKeys, Derived, Unchained;
    var iv, c := f[..16], f[16..|f| - 32];
    k := FileKey(iv, key);
    FileKeyDerived(iv, key);
    q := CbcDecrypt(InverseKeys(KeysOf(k, 256)), iv, c, |f| / 16 - 3);
    text := Trimmed(q, iv[15] % 16);
    assert f == iv + c + f[|f| - 32..];
    FileUnchained(k, iv, c, f[|f| - 32..]);
  }

  lemma FileUnchained(k: seq<byte>, iv: seq<byte>, c: seq<byte>, tag: seq<byte>)
    requires |k| == 32 && |c| % 16 == 0 && |iv| == 16 && |tag| == 32
    ensures Unchained(k, CbcDecrypt(InverseKeys(KeysOf(k, 256)), iv, c, |c| / 16), iv + c + tag)
  {
    hide KeysOf, CbcDecrypt, InverseKeys, XorBytes, Decipher;
    var dk, n, f := InverseKeys(KeysOf(k, 256)), |c| / 16, iv + c + tag;
    var q := CbcDecrypt(dk, iv, c, n);
    forall i | 0 <= i < n
      ensures BlockAt(q, i) == XorBytes(Decipher(dk, BlockAt(f, i + 1)), BlockAt(f, i))
    {
      DecryptedBlock(dk, iv, c, n, i);
      FileBlocks(iv, c, tag, i);
      hide BlockAt, Before;
    }
  }

  // ---------------------------------------------------------------- the round trip

  /** Decrypting what encryption wrote passes the check and returns exactly the original bytes. */
  lemma FileRoundTrip(p: seq<byte>, name: seq<byte>, key: seq<byte>)
    ensures DecryptedFile(EncryptedFile(p, name, key), key) == Plaintext(p)
  {
    hide Sha256Spec.Hash, Sha256Spec.Hmac, InitialVector, FileKey, KeysOf, CbcEncrypt, CbcDecrypt, InverseKeys, Padded;
    var iv := InitialVector(|p|, name);
    var k := FileKey(iv, key);
    var q := Padded(p);
    var keys, n := KeysOf(k, 256), |q| / 16;
    var c := CbcEncrypt(keys, iv, q, n);
    var f := EncryptedFile(p, name, key);
    assert |f| == 48 + 16 * n;
    assert f[..16] == iv && f[16..|f| - 32] == c && f[|f| - 32..] == Sha256Spec.Hmac(k, q, false);
    CbcRoundTrip(keys, iv, q, n);
    TrimPadded(p);
  }

  lemma TrimPadded(p: seq<byte>)
    ensures Trimmed(Padded(p), |p| % 16) == p
  {
    var q := Padded(p);
    if |p| % 16 > 0 {
      assert |q| - 16 + |p| % 16 == |p|;
    } else {
      assert q == p;
    }
  }

  // ---------------------------------------------------------------- key stretching

  /** The loop that hashes digest and key 8192 times. */
  method StretchKey(digest: array<byte>, key: array<byte>, keylen: nat)
    requires digest.Length == 32 && keylen <= key.Length && keylen < 0x8000_0000 && digest != key
    modifies digest
    ensures digest[..] == Stretch(old(digest[..]), key[..keylen], 8192)
  {
    hide Sha256Spec.Hash;
    ghost var d, k := digest[..], key[..keylen];
    for i := 0 to 8192
      invariant digest[..] == Stretch(d, k, i) && key[..keylen] == k
    {
      HashStep(digest, key, keylen);
    }
  }

  method HashStep(digest: array<byte>, key: array<byte>, keylen: nat)
    requires digest.Length == 32 && keylen <= key.Length && keylen < 0x8000_0000 && digest != key
    modifies digest
    ensures digest[..] == Sha256Spec.Hash(old(digest[..]) + key[..keylen], false)
  {
    hide Sha256Spec.Fold, Sha256Spec.Compress, Sha256Spec.Initial, Sha256Spec.Pad, Sha2.Context.Absorbed;
    ghost var d := digest[..];
    var sha := new Sha2.Context();
    sha.Starts(false);
    assert [] + digest[0..32] == d;
    sha.Update(digest, 0, 32, [], d);
    assert d + (if keylen <= 0 then [] else key[0..keylen]) == d + key[..keylen];
    sha.Update(key, 0, keylen, d, d + key[..keylen]);
    sha.Finish(digest, d + key[..keylen]);
  }

  /** The key of a file from its vector. */
  method DeriveKey(iv: array<byte>, key: array<byte>, keylen: nat) returns (digest: array<byte>)
    requires iv.Length == 16 && keylen <= key.Length && keylen < 0x8000_0000
    ensures fresh(digest) && digest.Length == 32 && digest[..] == FileKey(iv[..], key[..keylen])
    ensures Derived(iv[..], key[..keylen], digest[..])
  {
    hide Stretch, Derived;
    FileKeyDerived(iv[..], key[..keylen]);
    digest := new byte[32](_ => 0);
    Copy16(iv, 0, digest, 0);
    assert digest[..] == iv[..] + Zeros(16) by { assert iv[0..16] == iv[..]; }
    StretchKey(digest, key, keylen);
  }

  // ---------------------------------------------------------------- the initialization vector

  /** The size in eight bytes, each `filesize >> (i << 3)`. */
  method PutSize(buffer: array<byte>, filesize: nat)
    requires buffer.Length == 8
    modifies buffer
    ensures buffer[..] == SizeBytes(filesize)
  {
    hide Pow2;
    var i := 0;
    while i < 8
      invariant 0 <= i <= 8 && forall k :: 0 <= k < i ==> buffer[k] == SizeBytes(filesize)[k]
    {
      SizeByte(filesize, i);
      buffer[i] := filesize / Pow2(8 * i) % 256;
      i := i + 1;
    }
  }

  lemma SizePowers()
    ensures Pow2(0) == 1 && Pow2(8) == 0x100 && Pow2(16) == 0x1_0000 && Pow2(24) == 0x100_0000
      && Pow2(32) == 0x1_0000_0000
    ensures Pow2(40) == 0x100_0000_0000 && Pow2(48) == 0x1_0000_0000_0000 && Pow2(56) == 0x100_0000_0000_0000
  {
    assert Pow2(8) == 0x100;
    hide Pow2;
    assert Pow2(0) == 1 by { NoPower(); }
    Pow2Add(8, 8);
    Pow2Add(16, 8);
    Pow2Add(16, 16);
    Pow2Add(32, 8);
    Pow2Add(32, 16);
    Pow2Add(48, 8);
  }

  lemma NoPower()
    ensures Pow2(0) == 1
  {
  }

  lemma SizeByte(n: nat, i: nat)
    requires i < 8
    ensures n / Pow2(8 * i) % 256 == SizeBytes(n)[i]
  {
    hide Pow2;
    SizePowers();
    assert i == 0 || i == 1 || i == 2 || i == 3 || i == 4 || i == 5 || i == 6 || i == 7;
  }

  method NameDigest(filesize: nat, name: array<byte>) returns (digest: array<byte>)
    requires name.Length < 0x8000_0000
    ensures fresh(digest) && digest.Length == 32 && digest[..] == Sha256Spec.Hash(SizeBytes(filesize) + name[..], false)
  {
    hide Sha256Spec.Fold, Sha256Spec.Compress, Sha256Spec.Initial, Sha256Spec.Pad, Sha256Spec.Hash,
      Sha2.Context.Absorbed, SizeBytes;
    var buffer := new byte[8];
    PutSize(buffer, filesize);
    digest := new byte[32];
    var sha := new Sha2.Context();
    sha.Starts(false);
    ghost var m := SizeBytes(filesize);
    assert [] + buffer[0..8] == m;
    sha.Update(buffer, 0, 8, [], m);
    assert m + (if name.Length <= 0 then [] else name[0..name.Length]) == m + name[..];
    sha.Update(name, 0, name.Length, m, m + name[..]);
    sha.Finish(digest, m + name[..]);
    assert digest[..32] == digest[..];
  }

  method MakeVector(filesize: nat, name: array<byte>) returns (iv: array<byte>)
    requires name.Length < 0x8000_0000
    ensures fresh(iv) && iv.Length == 16 && iv[..] == InitialVector(filesize, name[..])
  {
    hide Sha256Spec.Hash, SizeBytes, And, Or, WithLowBits;
    var digest := NameDigest(filesize, name);
    iv := new byte[16];
    Copy16(digest, 0, iv, 0);
    assert iv[0..16] == iv[..];
    ghost var h := iv[15];
    var lastn := And(filesize, 0x0F);
    TagBits(iv[15], filesize);
    iv[15] := Or(And(iv[15], 0xF0), lastn);
  }

  /** `(b & 0xF0) | (n & 0x0F)`. */
  lemma TagBits(b: byte, n: nat)
    ensures And(n, 0x0F) == n % 16 && Or(And(b, 0xF0), And(n, 0x0F)) == WithLowBits(b, n)
  {
    FourBits();
    hide And, Or, Pow2;
    AndMask(n, 4);
    HighNibble(b);
    DivModUnique(b / 16 * 16, 16, b / 16, 0);
    OrDisjoint(b / 16 * 16, n % 16, 4);
  }

  lemma FourBits()
    ensures Pow2(4) == 16
  {
  }

  lemma HighNibble(b: byte)
    ensures And(b, 0xF0) == b / 16 * 16
  {
    FourBits();
    hide And, Pow2;
    AndMask(b / 16, 4);
    EvenMask(b, 0x78, 0xF0);
    EvenMask(b / 2, 0x3C, 0x78);
    EvenMask(b / 4, 0x1E, 0x3C);
    EvenMask(b / 8, 0x0F, 0x1E);
    Quarters(b);
  }

  lemma Quarters(b: byte)
    ensures b / 2 / 2 == b / 4 && b / 4 / 2 == b / 8 && b / 8 / 2 == b / 16 && b / 16 % 16 == b / 16
  {
  }

  lemma EvenMask(b: int, m: int, n: int)
    requires b >= 0 && m > 0 && n == 2 * m
    ensures And(b, n) == 2 * And(b / 2, m)
  {
  }

  // ---------------------------------------------------------------- encryption

  /** fread of a block, filled up with zeros at the end of the file. */
  method ReadBlock(fin: seq<byte>, offset: nat, buffer: array<byte>)
    requires buffer.Length == 16 && offset < |fin| && offset % 16 == 0
    modifies buffer
    ensures offset + 16 <= |Padded(fin)| && buffer[..] == Padded(fin)[offset..offset + 16]
  {
    PaddedBlock(|fin|, offset);
    var remaining := |fin| - offset;
    var n := if remaining > 16 then 16 else remaining;
    for i := 0 to n
      invariant forall k :: 0 <= k < i ==> buffer[k] == fin[offset + k]
    {
      buffer[i] := fin[offset + i];
    }
    for i := n to 16
      invariant forall k :: 0 <= k < n ==> buffer[k] == fin[offset + k]
      invariant forall k :: n <= k < i ==> buffer[k] == 0
    {
      buffer[i] := 0;
    }
  }

  lemma PaddedBlock(n: nat, offset: nat)
    requires offset < n && offset % 16 == 0
    ensures offset + 16 <= 16 * ((n + 15) / 16)
  {
  }

  /** The parts of a turn that do not change and do not overlap. */
  ghost predicate Apart3(t: Tables, sha: Sha2.Context, iv: array<byte>, buffer: array<byte>) {
    && sha.Valid() && iv.Length == 16 && buffer.Length == 16 && iv != buffer
    && iv != t.fsb && iv != t.rsb && buffer != t.fsb && buffer != t.rsb && sha.buffer != t.fsb && sha.buffer != t.rsb
    && iv != sha.buffer && iv != sha.ipad && iv != sha.opad && buffer != sha.buffer && buffer != sha.ipad
    && buffer != sha.opad
  }

  /** One turn of the encryption loop. */
  method EncryptTurn(t: Tables, aes: Context, sha: Sha2.Context, iv: array<byte>, buffer: array<byte>,
                     ghost keys: seq<Block>, ghost m: seq<byte>)
    requires t.Ready() && aes.Holds(keys) && Apart3(t, sha, iv, buffer) && sha.Absorbed(m)
    modifies sha`total0, sha`total1, sha`state, sha.buffer, iv, buffer
    ensures t.Ready() && aes.Holds(keys) && |keys| >= 2 && sha.Absorbed(m + old(buffer[..]))
    ensures buffer[..] == Encipher(keys, XorBytes(old(buffer[..]), old(iv[..]))) && iv[..] == buffer[..]
  {
    hide Tables.Ready, Context.Holds, Sha2.Context.Absorbed, Encipher, XorBytes;
    KeysPresent(aes, keys);
    assert buffer[0..16] == buffer[..];
    sha.Update(buffer, 0, 16, m, m + buffer[..]);
    EncryptStep(t, aes, iv, buffer, 0, buffer, 0, keys);
    assert buffer[0..16] == buffer[..];
  }

  lemma KeysPresent(aes: Context, keys: seq<Block>)
    requires aes.Holds(keys)
    ensures |keys| >= 2
  {
  }

  /** Encrypt and authenticate every block. */
  method EncryptBlocks(t: Tables, aes: Context, sha: Sha2.Context, iv: array<byte>, fin: seq<byte>,
                       ghost keys: seq<Block>, ghost m: seq<byte>) returns (fout: seq<byte>)
    requires t.Ready() && aes.Holds(keys) && |keys| >= 2 && sha.Valid() && sha.Absorbed(m) && iv.Length == 16
    requires iv != t.fsb && iv != t.rsb && sha.buffer != t.fsb && sha.buffer != t.rsb
    requires iv != sha.buffer && iv != sha.ipad && iv != sha.opad
    modifies sha`total0, sha`total1, sha`state, sha.buffer, iv
    ensures sha.Absorbed(m + Padded(fin))
    ensures fout == SealedBlocks(keys, old(iv[..]), fin)
  {
    hide Tables.Ready, Context.Holds, Sha2.Context.Absorbed, Encrypted, Encipher, XorBytes, Padded, CbcEncrypt;
    ghost var q, iv0 := Padded(fin), iv[..];
    var buffer := new byte[16];
    fout := [];
    NoneDone(keys, iv0, q);
    assert m + q[..0] == m;
    var offset := 0;
    while offset < |fin|
      invariant offset % 16 == 0 && offset <= |q| && t.Ready() && aes.Holds(keys) && sha.Absorbed(m + q[..offset])
      invariant Encrypted(keys, iv0, q, offset / 16, fout, iv[..])
    {
      ghost var chain, n := iv[..], offset / 16;
      ReadBlock(fin, offset, buffer);
      ghost var b := buffer[..];
      EncryptTurn(t, aes, sha, iv, buffer, keys, m + q[..offset]);
      EncryptedNext(keys, iv0, q, n, fout, chain, buffer[..]);
      assert (m + q[..offset]) + b == m + q[..offset + 16];
      fout := fout + buffer[..];
      offset := offset + 16;
    }
    AllBlocks(|fin|, offset, |q|);
    assert q[..offset] == q;
    EncryptedAll(keys, iv0, q, offset / 16, fout, iv[..]);
  }

  lemma AllBlocks(n: nat, offset: nat, q: nat)
    requires offset % 16 == 0 && n <= offset <= q && q == 16 * ((n + 15) / 16)
    ensures offset == q
  {
  }

  lemma EncryptedAll(keys: seq<Block>, iv0: seq<byte>, q: seq<byte>, n: nat, out: seq<byte>, iv: seq<byte>)
    requires |keys| >= 2 && |iv0| == 16 && |q| == 16 * n && Encrypted(keys, iv0, q, n, out, iv)
    ensures out == CbcEncrypt(keys, iv0, q, n)
  {
    assert q[..16 * n] == q;
  }

  /** Key schedule for one direction and HMAC context, from the derived key. */
  method PrepareEncrypt(t: Tables, digest: array<byte>) returns (aes: Context, sha: Sha2.Context)
    requires t.Ready() && digest.Length == 32
    ensures t.Ready() && fresh(aes) && fresh(aes.buf) && aes.Holds(KeysOf(digest[..], 256))
    ensures fresh(sha) && fresh(sha.buffer) && fresh(sha.ipad) && fresh(sha.opad)
    ensures sha.Valid() && !sha.is224 && sha.Keyed(digest[..])
    ensures sha.Absorbed(Sha256Spec.XorWith(Sha256Spec.BlockKey(digest[..], false), 0x36))
  {
    hide Tables.Ready, Context.Holds, Sha2.Context.Absorbed, Sha2.Context.Keyed;
    hide KeysOf, Sha256Spec.XorWith, Sha256Spec.BlockKey;
    aes := new Context();
    var ret := SetKeyEnc(t, aes, digest, 256);
    sha := PrepareMac(digest);
  }

  method PrepareDecrypt(t: Tables, digest: array<byte>) returns (aes: Context, sha: Sha2.Context)
    requires t.Ready() && digest.Length == 32
    ensures t.Ready() && fresh(aes) && fresh(aes.buf) && aes.Holds(InverseKeys(KeysOf(digest[..], 256)))
    ensures fresh(sha) && fresh(sha.buffer) && fresh(sha.ipad) && fresh(sha.opad)
    ensures sha.Valid() && !sha.is224 && sha.Keyed(digest[..])
    ensures sha.Absorbed(Sha256Spec.XorWith(Sha256Spec.BlockKey(digest[..], false), 0x36))
  {
    hide Tables.Ready, Context.Holds, Sha2.Context.Absorbed, Sha2.Context.Keyed;
    hide KeysOf, InverseKeys, Sha256Spec.XorWith, Sha256Spec.BlockKey;
    aes := new Context();
    var ret := SetKeyDec(t, aes, digest, 256);
    sha := PrepareMac(digest);
  }

  method PrepareMac(digest: array<byte>) returns (sha: Sha2.Context)
    requires digest.Length == 32
    ensures fresh(sha) && fresh(sha.buffer) && fresh(sha.ipad) && fresh(sha.opad)
    ensures sha.Valid() && !sha.is224 && sha.Keyed(digest[..])
    ensures sha.Absorbed(Sha256Spec.XorWith(Sha256Spec.BlockKey(digest[..], false), 0x36))
  {
    hide Sha2.Context.Absorbed, Sha2.Context.Keyed, Sha256Spec.XorWith, Sha256Spec.BlockKey;
    sha := new Sha2.Context();
    assert digest[..32] == digest[..];
    sha.HmacStarts(digest, 32, false);
  }

  /** The encrypt branch of main, from the bytes of the input file to those of the output file. */
  method EncryptFile(t: Tables, fin: seq<byte>, name: array<byte>, key: array<byte>, keylen: nat)
    returns (fout: seq<byte>)
    requires t.Ready() && |fin| < 0x1000_0000_0000_0000 && name.Length < 0x8000_0000
    requires keylen <= key.Length && keylen < 0x8000_0000
    ensures fout == EncryptedFile(fin, name[..], key[..keylen])
  {
    hide Tables.Ready, Context.Holds, Sha2.Context.Absorbed, Sha2.Context.Keyed, Padded, SealedBlocks, FileKey,
      InitialVector, Derived;
    hide KeysOf, Sha256Spec.Hmac, Sha256Spec.XorWith, Sha256Spec.BlockKey, InverseKeys;
    var iv := MakeVector(|fin|, name);
    fout := iv[..];
    var digest := DeriveKey(iv, key, keylen);
    ghost var k := digest[..];
    var aes, sha := PrepareEncrypt(t, digest);
    var blocks := EncryptBlocks(t, aes, sha, iv, fin, KeysOf(k, 256),
      Sha256Spec.XorWith(Sha256Spec.BlockKey(k, false), 0x36));
    PaddedShort(fin);
    var mac := FinishMac(sha, k, Padded(fin));
    fout := fout + blocks + mac;
  }

  method FinishMac(sha: Sha2.Context, ghost k: seq<byte>, ghost q: seq<byte>) returns (mac: seq<byte>)
    requires sha.Valid() && !sha.is224 && sha.Keyed(k) && |q| < 0x1FFF_FFFF_FFFF_FF00
    requires sha.Absorbed(Sha256Spec.XorWith(Sha256Spec.BlockKey(k, false), 0x36) + q)
    modifies sha, sha.buffer
    ensures mac == Sha256Spec.Hmac(k, q, false)
  {
    hide Sha2.Context.Absorbed, Sha2.Context.Keyed, Sha256Spec.Hmac, Sha256Spec.XorWith, Sha256Spec.BlockKey;
    var digest := new byte[32];
    sha.HmacFinish(digest, k, q);
    assert digest[..32] == digest[..];
    mac := digest[..];
  }

  lemma PaddedShort(p: seq<byte>)
    requires |p| < 0x1000_0000_0000_0000
    ensures |Padded(p)| < 0x1000_0000_0000_0010
  {
  }

  // ---------------------------------------------------------------- decryption

  /** One turn of the decryption loop. */
  method DecryptTurn(t: Tables, aes: Context, sha: Sha2.Context, iv: array<byte>, buffer: array<byte>,
                     ghost dk: seq<Block>, ghost m: seq<byte>)
    requires t.Ready() && aes.Holds(dk) && Apart3(t, sha, iv, buffer) && sha.Absorbed(m)
    modifies sha`total0, sha`total1, sha`state, sha.buffer, iv, buffer
    ensures t.Ready() && aes.Holds(dk) && |dk| >= 2 && sha.Absorbed(m + buffer[..])
    ensures buffer[..] == XorBytes(Decipher(dk, old(buffer[..])), old(iv[..])) && iv[..] == old(buffer[..])
  {
    hide Tables.Ready, Context.Holds, Sha2.Context.Absorbed, Decipher, XorBytes;
    KeysPresent(aes, dk);
    assert buffer[0..16] == buffer[..];
    DecryptStep(t, aes, iv, buffer, 0, buffer, 0, dk);
    assert buffer[0..16] == buffer[..];
    sha.Update(buffer, 0, 16, m, m + buffer[..]);
  }

  /** What has been written once the blocks acc are decrypted, done when none is left. */
  function Written(acc: seq<byte>, done: bool, lastn: nat): seq<byte>
    requires lastn < 16
  {
    if done then Trimmed(acc, lastn) else acc
  }

  /** Decrypt and authenticate every block of c, writing all but the padding. */
  method DecryptBlocks(t: Tables, aes: Context, sha: Sha2.Context, iv: array<byte>, c: seq<byte>, lastn: nat,
                       ghost dk: seq<Block>, ghost m: seq<byte>) returns (fout: seq<byte>, ghost q: seq<byte>)
    requires t.Ready() && aes.Holds(dk) && |dk| >= 2 && sha.Valid() && sha.Absorbed(m) && iv.Length == 16
    requires iv != t.fsb && iv != t.rsb && sha.buffer != t.fsb && sha.buffer != t.rsb
    requires iv != sha.buffer && iv != sha.ipad && iv != sha.opad && |c| % 16 == 0 && lastn < 16
    modifies sha`total0, sha`total1, sha`state, sha.buffer, iv
    ensures q == CbcDecrypt(dk, old(iv[..]), c, |c| / 16) && sha.Absorbed(m + q)
    ensures fout == Trimmed(q, lastn)
  {
    hide Tables.Ready, Context.Holds, Sha2.Context.Absorbed, Decrypted, Decipher, XorBytes, CbcDecrypt;
    ghost var iv0 := iv[..];
    var buffer := new byte[16];
    fout, q := [], [];
    NoneDone(dk, iv0, c);
    assert m + [] == m;
    var offset, filesize := 0, |c|;
    while offset < filesize
      invariant offset % 16 == 0 && offset <= filesize && |q| == offset && t.Ready() && aes.Holds(dk)
        && sha.Absorbed(m + q)
      invariant Decrypted(dk, iv0, c, offset / 16, q, iv[..])
      invariant fout == Written(q, offset == filesize, lastn)
    {
      ghost var chain, n, before := iv[..], offset / 16, q;
      Fill(buffer, c, offset);
      DecryptTurn(t, aes, sha, iv, buffer, dk, m + q);
      DecryptedNext(dk, iv0, c, n, q, chain, buffer[..]);
      q := q + buffer[..];
      assert (m + before) + buffer[..] == m + q;
      var w := if lastn > 0 && offset == filesize - 16 then lastn else 16;
      fout := fout + buffer[..w];
      offset := offset + 16;
    }
    DecryptedAll(dk, iv0, c, offset / 16, q, iv[..]);
  }

  method Fill(buffer: array<byte>, c: seq<byte>, offset: nat)
    requires buffer.Length == 16 && offset + 16 <= |c|
    modifies buffer
    ensures buffer[..] == c[offset..offset + 16]
  {
    for i := 0 to 16
      invariant forall k :: 0 <= k < i ==> buffer[k] == c[offset + k]
    {
      buffer[i] := c[offset + i];
    }
  }

  lemma DecryptedAll(dk: seq<Block>, iv0: seq<byte>, c: seq<byte>, n: nat, out: seq<byte>, iv: seq<byte>)
    requires |dk| >= 2 && |iv0| == 16 && |c| == 16 * n && Decrypted(dk, iv0, c, n, out, iv)
    ensures out == CbcDecrypt(dk, iv0, c, n)
  {
    hide CbcDecrypt, Chain;
    assert c[..16 * n] == c;
  }

  /** The decrypt branch of main; on a failed check the blocks have been written already. */
  method DecryptFile(t: Tables, fin: seq<byte>, key: array<byte>, keylen: nat) returns (r: Outcome)
    requires t.Ready() && |fin| < 0x1000_0000_0000_0000
    requires keylen <= key.Length && keylen < 0x8000_0000
    ensures r == DecryptedFile(fin, key[..keylen])
  {
    hide Tables.Ready, Context.Holds, Sha2.Context.Absorbed, Sha2.Context.Keyed, CbcDecrypt, FileKey, Trimmed, Derived;
    hide KeysOf, Sha256Spec.Hmac, Sha256Spec.XorWith, Sha256Spec.BlockKey, InverseKeys, And;
    if |fin| < 48 {
      return TooShort;
    }
    LowNibble(|fin|);
    if And(|fin|, 0x0F) != 0 {
      return NotWholeBlocks;
    }
    var filesize := |fin| - 48;
    var iv := new byte[16];
    Fill(iv, fin, 0);
    LowNibble(iv[15]);
    var lastn := And(iv[15], 0x0F);
    assert fin[0..16] == fin[..16];
    var digest := DeriveKey(iv, key, keylen);
    ghost var k := digest[..];
    var aes, sha := PrepareDecrypt(t, digest);
    var text, q := DecryptBlocks(t, aes, sha, iv, fin[16..|fin| - 32], lastn, InverseKeys(KeysOf(k, 256)),
                                 Sha256Spec.XorWith(Sha256Spec.BlockKey(k, false), 0x36));
    var mac := FinishMac(sha, k, q);
    r := if mac == fin[|fin| - 32..] then Plaintext(text) else BadMac(text);
  }

  lemma LowNibble(n: nat)
    ensures And(n, 0x0F) == n % 16
  {
    FourBits();
    AndMask(n, 4);
  }
}
