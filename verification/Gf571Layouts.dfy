/** The two layouts of a GF(2^571) buffer: 72 bytes, most significant first, and nine 64-bit
    words, least significant first. */
module Gf571Layouts {
  import opened Bits
  import opened Gf2Field
  import opened Gf571
  import opened Words
  import Buffers

  type byte = Buffers.byte

  /** The buffers hold the same bytes, in opposite orders. */
  ghost predicate SameBytes(t: seq<byte>, s: seq<word>)
    requires |t| == 8 * |s|
  {
    forall i :: 0 <= i < |t| ==> t[|t| - 1 - i] == Byte(s, i)
  }

  /** Byte i from the end of a byte buffer. */
  lemma ByteOfBE(t: seq<byte>, i: nat)
    requires i < |t|
    ensures t[|t| - 1 - i] == Buffers.BE(t) / Pow2(8 * i) % 256
  {
    hide Buffers.BE, Pow2;
    var j := |t| - 1 - i;
    var hi, lo := t[..j + 1], t[j + 1..];
    assert t == hi + lo;
    Buffers.BEConcat(hi, lo);
    Buffers.BEBound(lo);
    Buffers.BELast(hi);
    var p := Pow2(8 * i);
    assert 8 * |lo| == 8 * i;
    DivModUnique(Buffers.BE(t), p, Buffers.BE(hi), Buffers.BE(lo));
    DivModUnique(Buffers.BE(hi), 256, Buffers.BE(hi[..j]), t[j]);
    assert hi[..|hi| - 1] == hi[..j];
  }

  /** Same bytes exactly when same number. */
  lemma SameBytesIff(t: seq<byte>, s: seq<word>)
    requires |t| == 8 * |s|
    ensures SameBytes(t, s) <==> Buffers.BE(t) == LE(s)
  {
    hide LE, Buffers.BE, Byte, Pow2;
    forall i | 0 <= i < |t|
      ensures t[|t| - 1 - i] == Buffers.BE(t) / Pow2(8 * i) % 256 && Byte(s, i) == LE(s) / Pow2(8 * i) % 256
    {
      ByteOfBE(t, i);
      ByteIs(s, i);
    }
    if SameBytes(t, s) {
      var u := Unpacked(s, |t|);
      forall i | 0 <= i < |t| ensures t[i] == u[i] {
        ByteOfBE(u, |t| - 1 - i);
        assert t[|t| - 1 - (|t| - 1 - i)] == Byte(s, |t| - 1 - i);
      }
      assert t == u;
    }
  }

  /** Every number below 256^n is held by n bytes. */
  lemma {:induction false} Unpacked(s: seq<word>, n: nat) returns (u: seq<byte>)
    requires n == 8 * |s|
    ensures |u| == n && Buffers.BE(u) == LE(s)
    ensures forall i :: 0 <= i < n ==> u[n - 1 - i] == Byte(s, i)
  {
    hide LE, Buffers.BE, Buffers.BytesOf, Byte, Pow2;
    LEBound(s);
    assert 64 * |s| == 8 * n;
    Buffers.BytesOfValue(LE(s), n);
    u := Buffers.BytesOf(LE(s), n);
    forall i | 0 <= i < n ensures u[n - 1 - i] == Byte(s, i) {
      ByteOfBE(u, i);
      ByteIs(s, i);
    }
  }

  /** Buffers with the same bytes are shifted, and multiplied, to buffers with the same bytes:
      both engines are specified by the same number. */
  lemma ShiftsAgree(t: seq<byte>, s: seq<word>, t': seq<byte>, s': seq<word>, nsh: nat)
    requires |t| == |t'| == 72 && |s| == |s'| == 9 && SameBytes(t, s)
    requires Buffers.BE(t') == (Buffers.BE(t) * Pow2(nsh)) % Pow2(576)
    requires LE(s') == (LE(s) * Pow2(nsh)) % Pow2(576)
    ensures SameBytes(t', s')
  {
    hide LE, Buffers.BE, SameBytes, Pow2;
    SameBytesIff(t, s);
    SameBytesIff(t', s');
  }

  lemma ProductsAgree(t1: seq<byte>, s1: seq<word>, t2: seq<byte>, s2: seq<word>, t: seq<byte>, s: seq<word>)
    requires |t1| == |t2| == |t| == 72 && |s1| == |s2| == |s| == 9 && SameBytes(t1, s1) && SameBytes(t2, s2)
    requires IsProduct(Buffers.BE(t), Buffers.BE(t1), Buffers.BE(t2), F()) && IsProduct(LE(s), LE(s1), LE(s2), F())
    ensures SameBytes(t, s)
  {
    hide LE, Buffers.BE, SameBytes, Pow2, IsProduct, F;
    SameBytesIff(t1, s1);
    SameBytesIff(t2, s2);
    SameBytesIff(t, s);
    ProductUnique(Buffers.BE(t), LE(s), LE(s1), LE(s2), F());
  }
}
