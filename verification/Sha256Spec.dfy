/** SHA-256 and SHA-224 as sections 4 to 6 of FIPS 180-2 define them, and HMAC as section 2
    of RFC 2104 does. */
module Sha256Spec {
  import opened Buffers
  import opened Word32

  datatype State = State(a: word32, b: word32, c: word32, d: word32, e: word32, f: word32, g: word32, h: word32)

  /** The round constants, eight at a time. */
  function KRow(r: nat): (k: seq<word32>)
    requires r < 8
    ensures |k| == 8
  {
    if r == 0 then
      [0x428A2F98, 0x71374491, 0xB5C0FBCF, 0xE9B5DBA5, 0x3956C25B, 0x59F111F1, 0x923F82A4, 0xAB1C5ED5]
    else if r == 1 then
      [0xD807AA98, 0x12835B01, 0x243185BE, 0x550C7DC3, 0x72BE5D74, 0x80DEB1FE, 0x9BDC06A7, 0xC19BF174]
    else if r == 2 then
      [0xE49B69C1, 0xEFBE4786, 0x0FC19DC6, 0x240CA1CC, 0x2DE92C6F, 0x4A7484AA, 0x5CB0A9DC, 0x76F988DA]
    else if r == 3 then
      [0x983E5152, 0xA831C66D, 0xB00327C8, 0xBF597FC7, 0xC6E00BF3, 0xD5A79147, 0x06CA6351, 0x14292967]
    else if r == 4 then
      [0x27B70A85, 0x2E1B2138, 0x4D2C6DFC, 0x53380D13, 0x650A7354, 0x766A0ABB, 0x81C2C92E, 0x92722C85]
    else if r == 5 then
      [0xA2BFE8A1, 0xA81A664B, 0xC24B8B70, 0xC76C51A3, 0xD192E819, 0xD6990624, 0xF40E3585, 0x106AA070]
    else if r == 6 then
      [0x19A4C116, 0x1E376C08, 0x2748774C, 0x34B0BCB5, 0x391C0CB3, 0x4ED8AA4A, 0x5B9CCA4F, 0x682E6FF3]
    else
      [0x748F82EE, 0x78A5636F, 0x84C87814, 0x8CC70208, 0x90BEFFFA, 0xA4506CEB, 0xBEF9A3F7, 0xC67178F2]
  }

  function K(t: nat): word32
    requires t < 64
  {
    KRow(t / 8)[t % 8]
  }

  function Ch(x: word32, y: word32, z: word32): word32 { Xor32(And32(x, y), And32(Not32(x), z)) }

  function Maj(x: word32, y: word32, z: word32): word32 { Xor32(Xor32(And32(x, y), And32(x, z)), And32(y, z)) }

  function Big0(x: word32): word32 { Xor32(Xor32(Rotr(x, 2), Rotr(x, 13)), Rotr(x, 22)) }

  function Big1(x: word32): word32 { Xor32(Xor32(Rotr(x, 6), Rotr(x, 11)), Rotr(x, 25)) }

  function Small0(x: word32): word32 { Xor32(Xor32(Rotr(x, 7), Rotr(x, 18)), Shr32(x, 3)) }

  function Small1(x: word32): word32 { Xor32(Xor32(Rotr(x, 17), Rotr(x, 19)), Shr32(x, 10)) }

  /** Word i of a block, most significant byte first. */
  function Word(data: seq<byte>, i: nat): word32
    requires 4 * i + 4 <= |data|
  {
    BigEndian(data[4 * i], data[4 * i + 1], data[4 * i + 2], data[4 * i + 3])
  }

  function BigEndian(a: int, b: int, c: int, d: int): (r: int)
    ensures 0 <= a < 256 && 0 <= b < 256 && 0 <= c < 256 && 0 <= d < 256 ==> 0 <= r < 0x1_0000_0000
  {
    0x100_0000 * a + 0x1_0000 * b + 0x100 * c + d
  }

  /** Word t of the message schedule. */
  function Schedule(data: seq<byte>, t: nat): word32
    requires |data| == 64
  {
    if t < 16 then Word(data, t)
    else Sum32(Small1(Schedule(data, t - 2)) + Schedule(data, t - 7) + Small0(Schedule(data, t - 15))
      + Schedule(data, t - 16))
  }

  function Round(s: State, k: word32, w: word32): State {
    var t1 := Sum32(s.h + Big1(s.e) + Ch(s.e, s.f, s.g) + k + w);
    var t2 := Sum32(Big0(s.a) + Maj(s.a, s.b, s.c));
    State(Sum32(t1 + t2), s.a, s.b, s.c, Sum32(s.d + t1), s.e, s.f, s.g)
  }

  /** The working variables after t rounds. */
  function Rounds(s: State, data: seq<byte>, t: nat): State
    requires |data| == 64 && t <= 64
  {
    if t == 0 then s else Round(Rounds(s, data, t - 1), K(t - 1), Schedule(data, t - 1))
  }

  /** One block. */
  function Compress(s: State, data: seq<byte>): State
    requires |data| == 64
  {
    var r := Rounds(s, data, 64);
    State(Sum32(s.a + r.a), Sum32(s.b + r.b), Sum32(s.c + r.c), Sum32(s.d + r.d),
          Sum32(s.e + r.e), Sum32(s.f + r.f), Sum32(s.g + r.g), Sum32(s.h + r.h))
  }

  /** The whole blocks of m, in order. */
  function Fold(s: State, m: seq<byte>): State
    decreases |m|
  {
    if |m| < 64 then s else Fold(Compress(s, m[..64]), m[64..])
  }

  lemma {:induction false} FoldAppend(s: State, m: seq<byte>, n: seq<byte>)
    requires |m| % 64 == 0
    ensures Fold(s, m + n) == Fold(Fold(s, m), n)
    decreases |m|
  {
    hide Compress;
    if m == [] {
      assert m + n == n;
    } else {
      assert (m + n)[..64] == m[..64] && (m + n)[64..] == m[64..] + n;
      FoldAppend(Compress(s, m[..64]), m[64..], n);
    }
  }

  lemma FoldOne(s: State, m: seq<byte>)
    requires |m| == 64
    ensures Fold(s, m) == Compress(s, m)
  {
    hide Compress;
    assert m[..64] == m && m[64..] == [];
    assert Fold(Compress(s, m), []) == Compress(s, m);
  }

  lemma FoldBlock(s: State, m: seq<byte>, block: seq<byte>)
    requires |m| % 64 == 0 && |block| == 64
    ensures Fold(s, m + block) == Compress(Fold(s, m), block)
  {
    hide Compress, Fold;
    FoldAppend(s, m, block);
    FoldOne(Fold(s, m), block);
  }

  /** A tail shorter than a block is not hashed yet. */
  lemma FoldTail(s: State, m: seq<byte>)
    ensures Fold(s, m) == Fold(s, m[..|m| / 64 * 64])
  {
    hide Compress;
    var k := |m| / 64 * 64;
    assert m == m[..k] + m[k..];
    FoldAppend(s, m[..k], m[k..]);
  }

  // ---------------------------------------------------------------- padding

  /** The bytes of a word, most significant first. */
  function WordBytes(x: word32): (s: seq<byte>)
    ensures |s| == 4
  {
    [x / 0x100_0000 % 256, x / 0x1_0000 % 256, x / 0x100 % 256, x % 256]
  }

  lemma WordBytesValue(x: word32)
    ensures BE(WordBytes(x)) == x
  {
    var s := WordBytes(x);
    assert s == [] + [s[0]] + [s[1]] + [s[2]] + [s[3]];
    Append([], s[0]);
    Append([s[0]], s[1]);
    Append([s[0], s[1]], s[2]);
    Append([s[0], s[1], s[2]], s[3]);
    assert BE([]) == 0;
    hide BE;
    FourParts(x);
  }

  lemma Append(s: seq<byte>, x: byte)
    ensures BE(s + [x]) == 256 * BE(s) + x
  {
    assert (s + [x])[..|s|] == s;
  }

  lemma FourParts(x: word32)
    ensures 256 * (256 * (256 * (x / 0x100_0000 % 256) + x / 0x1_0000 % 256) + x / 0x100 % 256) + x % 256 == x
  {
    assert x / 0x1_0000 == x / 0x100 / 256 && x / 0x100_0000 == x / 0x100 / 256 / 256;
  }

  /** The 64-bit length field. */
  function Field64(n: nat): (f: seq<byte>)
    ensures |f| == 8
  {
    WordBytes(n / 0x1_0000_0000 % 0x1_0000_0000) + WordBytes(n % 0x1_0000_0000)
  }

  lemma Field64Value(n: nat)
    requires n < 0x1_0000_0000_0000_0000
    ensures BE(Field64(n)) == n
  {
    hide WordBytes, BE;
    var h, l := n / 0x1_0000_0000, n % 0x1_0000_0000;
    Size();
    BEConcat(WordBytes(h), WordBytes(l));
    WordBytesValue(h);
    WordBytesValue(l);
  }

  /** A one bit, zeros up to eight bytes short of a whole block, and the length in bits. */
  function Pad(m: seq<byte>): (p: seq<byte>)
    ensures |p| % 64 == 0
  {
    PadLength(|m|);
    m + [0x80] + Zeros((119 - |m| % 64) % 64) + Field64(8 * |m|)
  }

  lemma PadLength(n: nat)
    ensures (n + 1 + (119 - n % 64) % 64 + 8) % 64 == 0
  {
    var r := n % 64;
    assert (119 - r) % 64 == if r < 56 then 55 - r else 119 - r;
  }

  function Initial(is224: bool): State {
    if is224 then
      State(0xC1059ED8, 0x367CD507, 0x3070DD17, 0xF70E5939, 0xFFC00B31, 0x68581511, 0x64F98FA7, 0xBEFA4FA4)
    else
      State(0x6A09E667, 0xBB67AE85, 0x3C6EF372, 0xA54FF53A, 0x510E527F, 0x9B05688C, 0x1F83D9AB, 0x5BE0CD19)
  }

  function DigestLength(is224: bool): nat { if is224 then 28 else 32 }

  /** Eight words for SHA-256, seven for SHA-224. */
  function Digest(s: State, is224: bool): (d: seq<byte>)
    ensures |d| == DigestLength(is224)
  {
    WordBytes(s.a) + WordBytes(s.b) + WordBytes(s.c) + WordBytes(s.d) + WordBytes(s.e) + WordBytes(s.f) + WordBytes(s.g)
    + if is224 then [] else WordBytes(s.h)
  }

  function Hash(m: seq<byte>, is224: bool): (d: seq<byte>)
    ensures |d| == DigestLength(is224)
  {
    Digest(Fold(Initial(is224), Pad(m)), is224)
  }

  // ---------------------------------------------------------------- HMAC

  /** The key, hashed when longer than a block, filled up with zeros. */
  function BlockKey(key: seq<byte>, is224: bool): (k: seq<byte>)
    ensures |k| == 64
  {
    var k := if |key| > 64 then Hash(key, is224) else key;
    k + Zeros(64 - |k|)
  }

  function XorByte(a: byte, b: byte): byte {
    Buffers.XorByte(a, b);
    Bits.Xor(a, b)
  }

  function XorWith(k: seq<byte>, c: byte): (r: seq<byte>)
    ensures |r| == |k|
  {
    seq(|k|, i requires 0 <= i < |k| => XorByte(c, k[i]))
  }

  function Hmac(key: seq<byte>, m: seq<byte>, is224: bool): (d: seq<byte>)
    ensures |d| == DigestLength(is224)
  {
    var k := BlockKey(key, is224);
    Hash(XorWith(k, 0x5C) + Hash(XorWith(k, 0x36) + m, is224), is224)
  }
}
