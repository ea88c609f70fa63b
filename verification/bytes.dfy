/**
 * Little-endian access to byte buffers: the `le_read_*` / `le_write_*`
 * helpers the PCI code uses, and the `<Q` packing of the payload builder.
 */
module Bytes {

  type byte = bv8

  /** The two bytes of a 16-bit word, least significant first. */
  function U16Bytes(w: bv16): (r: seq<byte>)
    ensures |r| == 2
  {
    [(w & 0xff) as byte, ((w >> 8) & 0xff) as byte]
  }

  /** The four bytes of a 32-bit word, least significant first. */
  function U32Bytes(w: bv32): (r: seq<byte>)
    ensures |r| == 4
  {
    [(w & 0xff) as byte, ((w >> 8) & 0xff) as byte,
     ((w >> 16) & 0xff) as byte, ((w >> 24) & 0xff) as byte]
  }

  /** The eight bytes of a 64-bit word, least significant first. */
  function U64Bytes(w: bv64): (r: seq<byte>)
    ensures |r| == 8
  {
    [(w & 0xff) as byte, ((w >> 8) & 0xff) as byte,
     ((w >> 16) & 0xff) as byte, ((w >> 24) & 0xff) as byte,
     ((w >> 32) & 0xff) as byte, ((w >> 40) & 0xff) as byte,
     ((w >> 48) & 0xff) as byte, ((w >> 56) & 0xff) as byte]
  }

  /** The 16-bit word stored little-endian at `s[o..o+2]`. */
  function U16At(s: seq<byte>, o: nat): bv16
    requires o + 2 <= |s|
  {
    (s[o] as bv16) | ((s[o + 1] as bv16) << 8)
  }

  /** The 32-bit word stored little-endian at `s[o..o+4]`. */
  function U32At(s: seq<byte>, o: nat): bv32
    requires o + 4 <= |s|
  {
    (s[o] as bv32) | ((s[o + 1] as bv32) << 8)
    | ((s[o + 2] as bv32) << 16) | ((s[o + 3] as bv32) << 24)
  }

  /** The 64-bit word whose little-endian bytes are `b`: the first byte is the least significant. */
  function U64Of(b: seq<byte>): bv64
    requires |b| == 8
  {
    Flat(b[0], b[1], b[2], b[3], b[4], b[5], b[6], b[7])
  }

  /** Eight bytes combined into a word, least significant first. */
  function Flat(x0: byte, x1: byte, x2: byte, x3: byte, x4: byte, x5: byte, x6: byte, x7: byte): bv64
  {
    (x0 as bv64) | ((x1 as bv64) << 8)
    | ((x2 as bv64) << 16) | ((x3 as bv64) << 24)
    | ((x4 as bv64) << 32) | ((x5 as bv64) << 40)
    | ((x6 as bv64) << 48) | ((x7 as bv64) << 56)
  }

  /** The 64-bit word stored little-endian at `s[o..o+8]`. */
  function U64At(s: seq<byte>, o: nat): bv64
    requires o + 8 <= |s|
  {
    U64Of(s[o..o + 8])
  }

  /** `s` with `bs` written over the bytes starting at `o`. */
  function Overwrite(s: seq<byte>, o: nat, bs: seq<byte>): (r: seq<byte>)
    requires o + |bs| <= |s|
    ensures |r| == |s|
    ensures r[o..o + |bs|] == bs
    ensures forall i :: 0 <= i < |s| && !(o <= i < o + |bs|) ==> r[i] == s[i]
  {
    s[..o] + bs + s[o + |bs|..]
  }

  /** Writing a 16-bit word and reading it back gives the word. */
  lemma U16RoundTrip(s: seq<byte>, o: nat, w: bv16)
    requires o + 2 <= |s|
    ensures U16At(Overwrite(s, o, U16Bytes(w)), o) == w
  {
    var r := Overwrite(s, o, U16Bytes(w));
    assert r[o] == U16Bytes(w)[0] && r[o + 1] == U16Bytes(w)[1];
  }

  /** Writing a 32-bit word and reading it back gives the word. */
  lemma U32RoundTrip(s: seq<byte>, o: nat, w: bv32)
    requires o + 4 <= |s|
    ensures U32At(Overwrite(s, o, U32Bytes(w)), o) == w
  {
    var r := Overwrite(s, o, U32Bytes(w));
    var b := U32Bytes(w);
    assert r[o] == b[0] && r[o + 1] == b[1] && r[o + 2] == b[2] && r[o + 3] == b[3];
  }

  /** Reading a 32-bit word and encoding it gives back the four bytes it was read from. */
  lemma U32BytesOfRead(s: seq<byte>, o: nat)
    requires o + 4 <= |s|
    ensures U32Bytes(U32At(s, o)) == s[o..o + 4]
  {
    var b := U32Bytes(U32At(s, o));
    assert b[0] == s[o] && b[1] == s[o + 1] && b[2] == s[o + 2] && b[3] == s[o + 3];
  }

  /** `le_write_u64`: `s` with the 64-bit word `w` stored little-endian at `o`. */
  function PutU64(s: seq<byte>, o: nat, w: bv64): (r: seq<byte>)
    requires o + 8 <= |s|
    ensures |r| == |s|
    ensures U64At(r, o) == w
    ensures forall i :: 0 <= i < |s| && !(o <= i < o + 8) ==> r[i] == s[i]
  {
    U64RoundTrip(s, o, w);
    Overwrite(s, o, U64Bytes(w))
  }

  lemma FlatOfBytes(w: bv64)
    ensures var b := U64Bytes(w); Flat(b[0], b[1], b[2], b[3], b[4], b[5], b[6], b[7]) == w
  {
  }

  lemma BytesOfFlat(x0: byte, x1: byte, x2: byte, x3: byte, x4: byte, x5: byte, x6: byte, x7: byte)
    ensures U64Bytes(Flat(x0, x1, x2, x3, x4, x5, x6, x7)) == [x0, x1, x2, x3, x4, x5, x6, x7]
  {
  }

  /** Encoding a 64-bit word and decoding the bytes gives the word back. */
  lemma U64OfBytes(w: bv64)
    ensures U64Of(U64Bytes(w)) == w
  {
    FlatOfBytes(w);
  }

  /** Decoding eight bytes and encoding the word gives the bytes back. */
  lemma U64BytesOf(b: seq<byte>)
    requires |b| == 8
    ensures U64Bytes(U64Of(b)) == b
  {
    BytesOfFlat(b[0], b[1], b[2], b[3], b[4], b[5], b[6], b[7]);
    EightElements(b);
  }

  /** Two eight-byte strings that agree at each of the eight positions are equal. */
  lemma Equal8(a: seq<byte>, b: seq<byte>)
    requires |a| == 8 && |b| == 8
    requires a[0] == b[0] && a[1] == b[1] && a[2] == b[2] && a[3] == b[3]
    requires a[4] == b[4] && a[5] == b[5] && a[6] == b[6] && a[7] == b[7]
    ensures a == b
  {
    assert forall j :: 0 <= j < 8 ==> a[j] == b[j];
  }

  lemma EightElements(b: seq<byte>)
    requires |b| == 8
    ensures b == [b[0], b[1], b[2], b[3], b[4], b[5], b[6], b[7]]
  {
  }

  /** The 64-bit word stored at `o` in its eight-term form. */
  lemma U64AtFlat(s: seq<byte>, o: nat)
    requires o + 8 <= |s|
    ensures U64At(s, o) == Flat(s[o], s[o + 1], s[o + 2], s[o + 3], s[o + 4], s[o + 5], s[o + 6], s[o + 7])
  {
    var b := s[o..o + 8];
    assert b[0] == s[o] && b[1] == s[o + 1] && b[2] == s[o + 2] && b[3] == s[o + 3];
    assert b[4] == s[o + 4] && b[5] == s[o + 5] && b[6] == s[o + 6] && b[7] == s[o + 7];
  }

  /** Storing a word given in eight-term form stores those eight bytes. */
  lemma PutU64Flat(s: seq<byte>, o: nat, x0: byte, x1: byte, x2: byte, x3: byte, x4: byte, x5: byte, x6: byte, x7: byte)
    requires o + 8 <= |s|
    ensures PutU64(s, o, Flat(x0, x1, x2, x3, x4, x5, x6, x7)) == Overwrite(s, o, [x0, x1, x2, x3, x4, x5, x6, x7])
  {
    BytesOfFlat(x0, x1, x2, x3, x4, x5, x6, x7);
  }

  /** Overwriting a range with its own bytes, one of them replaced, replaces that one byte. */
  lemma OverwriteOneByte(s: seq<byte>, o: nat, bs: seq<byte>, j: nat, x: byte)
    requires o + |bs| <= |s| && j < |bs| && bs == s[o..o + |bs|][j := x]
    ensures Overwrite(s, o, bs) == s[o + j := x]
  {
  }

  /** Writing a 64-bit word and reading it back gives the word. */
  lemma U64RoundTrip(s: seq<byte>, o: nat, w: bv64)
    requires o + 8 <= |s|
    ensures U64At(Overwrite(s, o, U64Bytes(w)), o) == w
  {
    U64OfBytes(w);
  }

  /** Reading a 64-bit word and writing it back gives the bytes it was read from. */
  lemma U64BytesOfRead(s: seq<byte>, o: nat)
    requires o + 8 <= |s|
    ensures U64Bytes(U64At(s, o)) == s[o..o + 8]
  {
    U64BytesOf(s[o..o + 8]);
  }

  /** A write confined to `[o, o+8)` leaves every 64-bit word not overlapping it unchanged. */
  lemma U64AtFrame(s: seq<byte>, r: seq<byte>, o: nat, p: nat)
    requires o + 8 <= |s| && p + 8 <= |s| && |r| == |s|
    requires p + 8 <= o || o + 8 <= p
    requires forall i :: 0 <= i < |s| && !(o <= i < o + 8) ==> r[i] == s[i]
    ensures U64At(r, p) == U64At(s, p)
  {
    assert r[p..p + 8] == s[p..p + 8];
  }
}
