/**
 * Single bits of bytes and of 64-bit words, and where a bit of a word sits
 * among its little-endian bytes.  Each lemma here is one small bit-vector
 * fact; they are combined only through their contracts, and the rest of the
 * model talks about bits only through `ByteHas` / `ByteWith` / `ByteWithout`
 * and `WordHas` / `WordWith` / `WordWithout`.
 */
module Bits {
  import opened Bytes

  // ----- bits of a byte ------------------------------------------------------

  /** The bit `1 << i` of a byte, for a bit number given as an integer. */
  function ByteBit(i: nat): byte
    requires i < 8
  {
    if i == 0 then 1 else ByteBit(i - 1) << 1
  }

  /** The eight values of `ByteBit`. */
  lemma ByteBitTable(i: nat)
    requires i < 8
    ensures ByteBit(i) == if i == 0 then 0x01 else if i == 1 then 0x02 else if i == 2 then 0x04
      else if i == 3 then 0x08 else if i == 4 then 0x10 else if i == 5 then 0x20
      else if i == 6 then 0x40 else 0x80
  {
    if i > 0 {
      ByteBitTable(i - 1);
    }
  }

  /** Is bit `k` of `x` set (`x & (1 << k) != 0`)? */
  predicate ByteHas(x: byte, k: nat)
    requires k < 8
  {
    x & ByteBit(k) != 0
  }

  /** `x` with bit `k` set (`x | (1 << k)`). */
  function ByteWith(x: byte, k: nat): byte
    requires k < 8
  {
    x | ByteBit(k)
  }

  /** `x` with bit `k` cleared (`x & !(1 << k)`). */
  function ByteWithout(x: byte, k: nat): byte
    requires k < 8
  {
    x & !ByteBit(k)
  }

  /** Setting or clearing bit `a` of a byte leaves every other bit `b` as it was. */
  lemma ByteBitsIndependent(x: byte, a: nat, b: nat)
    requires a < 8 && b < 8 && a != b
    ensures ByteHas(ByteWith(x, a), b) == ByteHas(x, b)
    ensures ByteHas(ByteWithout(x, a), b) == ByteHas(x, b)
  {
    ByteBitTable(a);
    ByteBitTable(b);
  }

  /** `x` and `y` agree on every bit except perhaps bit `a`. */
  predicate SameOtherBits(x: byte, y: byte, a: nat)
  {
    forall b :: 0 <= b < 8 && b != a ==> ByteHas(x, b) == ByteHas(y, b)
  }

  /** Setting or clearing bit `a` changes no other bit. */
  lemma SetClearOtherBits(x: byte, a: nat)
    requires a < 8
    ensures SameOtherBits(ByteWith(x, a), x, a) && SameOtherBits(ByteWithout(x, a), x, a)
  {
    forall b | 0 <= b < 8 && b != a
      ensures ByteHas(ByteWith(x, a), b) == ByteHas(x, b)
      ensures ByteHas(ByteWithout(x, a), b) == ByteHas(x, b)
    {
      ByteBitsIndependent(x, a, b);
    }
  }

  /**
   * After setting bit `a` it is set; after clearing it, it is clear; setting
   * a bit that is already set changes nothing.
   */
  lemma ByteBitSetClear(x: byte, a: nat)
    requires a < 8
    ensures ByteHas(ByteWith(x, a), a)
    ensures !ByteHas(ByteWithout(x, a), a)
    ensures ByteHas(x, a) ==> ByteWith(x, a) == x
  {
    ByteBitTable(a);
  }

  /** Two bytes with the same eight bits are equal. */
  lemma ByteExtensional(x: byte, y: byte)
    requires forall i :: 0 <= i < 8 ==> ByteHas(x, i) == ByteHas(y, i)
    ensures x == y
  {
    ByteBitTable(0); ByteBitTable(1); ByteBitTable(2); ByteBitTable(3);
    ByteBitTable(4); ByteBitTable(5); ByteBitTable(6); ByteBitTable(7);
    assert ByteHas(x, 0) == ByteHas(y, 0) && ByteHas(x, 1) == ByteHas(y, 1);
    assert ByteHas(x, 2) == ByteHas(y, 2) && ByteHas(x, 3) == ByteHas(y, 3);
    assert ByteHas(x, 4) == ByteHas(y, 4) && ByteHas(x, 5) == ByteHas(y, 5);
    assert ByteHas(x, 6) == ByteHas(y, 6) && ByteHas(x, 7) == ByteHas(y, 7);
  }

  // ----- bits of a 64-bit word -----------------------------------------------

  /** Byte `j` of the word `WordBit(i)`: bit `i % 8` in byte `i / 8`, zero in every other byte. */
  function BitByte(i: nat, j: nat): byte
    requires i < 64
  {
    if j == i / 8 then ByteBit(i % 8) else 0
  }

  /**
   * The bit `1 << i` of a 64-bit word, for a bit number given as an integer,
   * byte by byte (`WordBitIsShift` shows it is the shift).
   */
  function WordBit(i: nat): bv64
    requires i < 64
  {
    Flat(BitByte(i, 0), BitByte(i, 1), BitByte(i, 2), BitByte(i, 3),
         BitByte(i, 4), BitByte(i, 5), BitByte(i, 6), BitByte(i, 7))
  }

  /** Is bit `i` of `w` set (`w & (1 << i) != 0`)? */
  predicate WordHas(w: bv64, i: nat)
    requires i < 64
  {
    w & WordBit(i) != 0
  }

  /** `w` with bit `i` set (`w | (1 << i)`). */
  function WordWith(w: bv64, i: nat): bv64
    requires i < 64
  {
    w | WordBit(i)
  }

  /** `w` with bit `i` cleared (`w & !(1 << i)`). */
  function WordWithout(w: bv64, i: nat): bv64
    requires i < 64
  {
    w & !WordBit(i)
  }

  /** Moving the bit `1 << (k - 8)` up one byte gives `1 << k`. */
  lemma ShiftUpOneByte(k: bv7)
    requires 8 <= k < 64
    ensures ((1 as bv64) << (k - 8)) << 8 == (1 as bv64) << k
  {
  }

  /** A byte widened to a word is that byte over seven zero bytes. */
  lemma WidenedByte(x: byte)
    ensures x as bv64 == Flat(x, 0, 0, 0, 0, 0, 0, 0)
  {
  }

  /** Moving a word up one byte moves its bytes up one place. */
  lemma FlatUp(y0: byte, y1: byte, y2: byte, y3: byte, y4: byte, y5: byte, y6: byte, y7: byte)
    ensures Flat(y0, y1, y2, y3, y4, y5, y6, y7) << 8 == Flat(0, y0, y1, y2, y3, y4, y5, y6)
  {
  }

  /** `WordBit(i)` is the shift `1 << i` the source writes. */
  lemma {:induction false} WordBitIsShift(i: nat, k: bv7)
    requires i < 64 && k as nat == i
    ensures WordBit(i) == (1 as bv64) << k
  {
    if i < 8 {
      ByteBitTable(i);
      WidenedByte(ByteBit(i));
      assert k == (if i == 0 then 0 else if i == 1 then 1 else if i == 2 then 2 else if i == 3 then 3
        else if i == 4 then 4 else if i == 5 then 5 else if i == 6 then 6 else 7);
    } else {
      var h := i - 8;
      WordBitIsShift(h, k - 8);
      FlatUp(BitByte(h, 0), BitByte(h, 1), BitByte(h, 2), BitByte(h, 3),
             BitByte(h, 4), BitByte(h, 5), BitByte(h, 6), BitByte(h, 7));
      assert h / 8 == i / 8 - 1 && h % 8 == i % 8;
      ShiftUpOneByte(k);
    }
  }

  // ----- word operations are bytewise operations -----------------------------

  /** Bytewise `|` of two words. */
  lemma FlatOr(x0: byte, x1: byte, x2: byte, x3: byte, x4: byte, x5: byte, x6: byte, x7: byte,
               y0: byte, y1: byte, y2: byte, y3: byte, y4: byte, y5: byte, y6: byte, y7: byte)
    ensures Flat(x0, x1, x2, x3, x4, x5, x6, x7) | Flat(y0, y1, y2, y3, y4, y5, y6, y7)
         == Flat(x0 | y0, x1 | y1, x2 | y2, x3 | y3, x4 | y4, x5 | y5, x6 | y6, x7 | y7)
  {
  }

  /** Bytewise `&` of two words. */
  lemma FlatAnd(x0: byte, x1: byte, x2: byte, x3: byte, x4: byte, x5: byte, x6: byte, x7: byte,
                y0: byte, y1: byte, y2: byte, y3: byte, y4: byte, y5: byte, y6: byte, y7: byte)
    ensures Flat(x0, x1, x2, x3, x4, x5, x6, x7) & Flat(y0, y1, y2, y3, y4, y5, y6, y7)
         == Flat(x0 & y0, x1 & y1, x2 & y2, x3 & y3, x4 & y4, x5 & y5, x6 & y6, x7 & y7)
  {
  }

  /** Bytewise `& !` of two words. */
  lemma FlatAndNot(x0: byte, x1: byte, x2: byte, x3: byte, x4: byte, x5: byte, x6: byte, x7: byte,
                   y0: byte, y1: byte, y2: byte, y3: byte, y4: byte, y5: byte, y6: byte, y7: byte)
    ensures Flat(x0, x1, x2, x3, x4, x5, x6, x7) & !Flat(y0, y1, y2, y3, y4, y5, y6, y7)
         == Flat(x0 & !y0, x1 & !y1, x2 & !y2, x3 & !y3, x4 & !y4, x5 & !y5, x6 & !y6, x7 & !y7)
  {
  }

  /** A word is zero exactly when all eight of its bytes are. */
  lemma FlatZero(x0: byte, x1: byte, x2: byte, x3: byte, x4: byte, x5: byte, x6: byte, x7: byte)
    ensures (Flat(x0, x1, x2, x3, x4, x5, x6, x7) == 0)
         == (x0 == 0 && x1 == 0 && x2 == 0 && x3 == 0 && x4 == 0 && x5 == 0 && x6 == 0 && x7 == 0)
  {
  }

  /** The eight bytes of `WordBit(i)`, least significant first. */
  function BitBytes(i: nat): (r: seq<byte>)
    requires i < 64
    ensures |r| == 8 && forall j :: 0 <= j < 8 ==> r[j] == BitByte(i, j)
  {
    seq(8, j requires 0 <= j < 8 => BitByte(i, j))
  }

  /** Bytewise `|` of two byte strings of equal length. */
  function OrEach(b: seq<byte>, c: seq<byte>): (r: seq<byte>)
    requires |b| == |c|
    ensures |r| == |b| && forall j :: 0 <= j < |b| ==> r[j] == b[j] | c[j]
  {
    seq(|b|, j requires 0 <= j < |b| => b[j] | c[j])
  }

  /** Bytewise `&` of two byte strings of equal length. */
  function AndEach(b: seq<byte>, c: seq<byte>): (r: seq<byte>)
    requires |b| == |c|
    ensures |r| == |b| && forall j :: 0 <= j < |b| ==> r[j] == b[j] & c[j]
  {
    seq(|b|, j requires 0 <= j < |b| => b[j] & c[j])
  }

  /** Bytewise `& !` of two byte strings of equal length. */
  function AndNotEach(b: seq<byte>, c: seq<byte>): (r: seq<byte>)
    requires |b| == |c|
    ensures |r| == |b| && forall j :: 0 <= j < |b| ==> r[j] == b[j] & !c[j]
  {
    seq(|b|, j requires 0 <= j < |b| => b[j] & !c[j])
  }

  /** `WordBit(i)` decoded from its eight bytes. */
  lemma WordBitOf(i: nat)
    requires i < 64
    ensures WordBit(i) == U64Of(BitBytes(i))
  {
    var y := BitBytes(i);
    assert y[0] == BitByte(i, 0) && y[1] == BitByte(i, 1) && y[2] == BitByte(i, 2) && y[3] == BitByte(i, 3);
    assert y[4] == BitByte(i, 4) && y[5] == BitByte(i, 5) && y[6] == BitByte(i, 6) && y[7] == BitByte(i, 7);
  }

  /** `|` of two decoded words decodes the bytewise `|`. */
  lemma U64OfOr(b: seq<byte>, c: seq<byte>)
    requires |b| == 8 && |c| == 8
    ensures U64Of(b) | U64Of(c) == U64Of(OrEach(b, c))
  {
    FlatOr(b[0], b[1], b[2], b[3], b[4], b[5], b[6], b[7], c[0], c[1], c[2], c[3], c[4], c[5], c[6], c[7]);
  }

  /** `&` of two decoded words decodes the bytewise `&`. */
  lemma U64OfAnd(b: seq<byte>, c: seq<byte>)
    requires |b| == 8 && |c| == 8
    ensures U64Of(b) & U64Of(c) == U64Of(AndEach(b, c))
  {
    FlatAnd(b[0], b[1], b[2], b[3], b[4], b[5], b[6], b[7], c[0], c[1], c[2], c[3], c[4], c[5], c[6], c[7]);
  }

  /** `& !` of two decoded words decodes the bytewise `& !`. */
  lemma U64OfAndNot(b: seq<byte>, c: seq<byte>)
    requires |b| == 8 && |c| == 8
    ensures U64Of(b) & !U64Of(c) == U64Of(AndNotEach(b, c))
  {
    FlatAndNot(b[0], b[1], b[2], b[3], b[4], b[5], b[6], b[7], c[0], c[1], c[2], c[3], c[4], c[5], c[6], c[7]);
  }

  /** Every byte of `s` is zero. */
  predicate AllZero(s: seq<byte>)
  {
    forall j :: 0 <= j < |s| ==> s[j] == 0
  }

  /** A decoded word is zero exactly when all eight bytes are. */
  lemma U64OfZero(b: seq<byte>)
    requires |b| == 8
    ensures (U64Of(b) == 0) == AllZero(b)
  {
    FlatZero(b[0], b[1], b[2], b[3], b[4], b[5], b[6], b[7]);
  }

  /** `b` with bit `i` of the word it encodes set: only byte `i / 8` changes. */
  lemma OrBitBytes(b: seq<byte>, i: nat)
    requires |b| == 8 && i < 64
    ensures OrEach(b, BitBytes(i)) == b[i / 8 := ByteWith(b[i / 8], i % 8)]
  {
  }

  /** `b` with bit `i` of the word it encodes cleared: only byte `i / 8` changes. */
  lemma AndNotBitBytes(b: seq<byte>, i: nat)
    requires |b| == 8 && i < 64
    ensures AndNotEach(b, BitBytes(i)) == b[i / 8 := ByteWithout(b[i / 8], i % 8)]
  {
  }

  /** `b` masked with bit `i` of the word it encodes: zero outside byte `i / 8`. */
  lemma AndBitBytes(b: seq<byte>, i: nat)
    requires |b| == 8 && i < 64
    ensures AllZero(AndEach(b, BitBytes(i))) == !ByteHas(b[i / 8], i % 8)
  {
    var r := AndEach(b, BitBytes(i));
    assert r[i / 8] == b[i / 8] & ByteBit(i % 8);
  }

  /** Setting bit `i` of a decoded word sets bit `i % 8` of byte `i / 8`. */
  lemma U64OfSetBit(b: seq<byte>, i: nat)
    requires |b| == 8 && i < 64
    ensures WordWith(U64Of(b), i) == U64Of(b[i / 8 := ByteWith(b[i / 8], i % 8)])
  {
    WordBitOf(i);
    U64OfOr(b, BitBytes(i));
    OrBitBytes(b, i);
  }

  /** Clearing bit `i` of a decoded word clears bit `i % 8` of byte `i / 8`. */
  lemma U64OfClearBit(b: seq<byte>, i: nat)
    requires |b| == 8 && i < 64
    ensures WordWithout(U64Of(b), i) == U64Of(b[i / 8 := ByteWithout(b[i / 8], i % 8)])
  {
    WordBitOf(i);
    U64OfAndNot(b, BitBytes(i));
    AndNotBitBytes(b, i);
  }

  /** Masking a decoded word with bit `i` decodes the bytewise mask. */
  lemma AndWordBit(b: seq<byte>, i: nat)
    requires |b| == 8 && i < 64
    ensures U64Of(b) & WordBit(i) == U64Of(AndEach(b, BitBytes(i)))
  {
    WordBitOf(i);
    U64OfAnd(b, BitBytes(i));
  }

  /** The bytewise mask with bit `i` is zero exactly when bit `i % 8` of byte `i / 8` is clear. */
  lemma AndBitBytesZero(b: seq<byte>, i: nat)
    requires |b| == 8 && i < 64
    ensures (U64Of(AndEach(b, BitBytes(i))) == 0) == !ByteHas(b[i / 8], i % 8)
  {
    U64OfZero(AndEach(b, BitBytes(i)));
    AndBitBytes(b, i);
  }

  /** Bit `i` of a decoded word is bit `i % 8` of byte `i / 8`. */
  lemma U64OfTestBit(b: seq<byte>, i: nat)
    requires |b| == 8 && i < 64
    ensures WordHas(U64Of(b), i) == ByteHas(b[i / 8], i % 8)
  {
    AndWordBit(b, i);
    AndBitBytesZero(b, i);
  }
}
