/**
 * The pending-bit array as the source manipulates it: one little-endian
 * 64-bit word per group of 64 vectors, read with `le_read_u64`, changed with
 * `|` / `& !` of the bit `1 << (vector % 64)`, and written back with
 * `le_write_u64`.
 *
 * The source computes the word's byte offset as `vector / 64`; the word of
 * vectors 64..127 starts at byte 8, not at byte 1, so the offset that keeps
 * the array a plain bit array is `8 * (vector / 64)`.  Both are modelled: the
 * "as written" operations show the aliasing, and the word operations at the
 * corrected offset are proved equal to the byte-level operations the `Msix`
 * state machine uses.
 */
module PbaWords {
  import opened Bytes
  import opened Bits
  import opened Msix

  /** Is the pending bit of `v` set in the word at byte offset `o`? */
  predicate WordPending(pba: seq<byte>, o: nat, v: nat)
    requires o + 8 <= |pba|
  {
    WordHas(U64At(pba, o), v % 64)
  }

  /** Set the pending bit of `v` in the word at byte offset `o`. */
  function WordSet(pba: seq<byte>, o: nat, v: nat): (r: seq<byte>)
    requires o + 8 <= |pba|
    ensures |r| == |pba|
  {
    PutU64(pba, o, WordWith(U64At(pba, o), v % 64))
  }

  /** Clear the pending bit of `v` in the word at byte offset `o`. */
  function WordClear(pba: seq<byte>, o: nat, v: nat): (r: seq<byte>)
    requires o + 8 <= |pba|
    ensures |r| == |pba|
  {
    PutU64(pba, o, WordWithout(U64At(pba, o), v % 64))
  }

  // ----- one bit of a word at any offset is one bit of one byte --------------

  /** Bit `i` of the word at byte offset `o` is bit `i % 8` of byte `o + i / 8`. */
  lemma WordTestAt(pba: seq<byte>, o: nat, i: nat)
    requires o + 8 <= |pba| && i < 64
    ensures WordHas(U64At(pba, o), i) == ByteHas(pba[o + i / 8], i % 8)
  {
    U64OfTestBit(pba[o..o + 8], i);
    assert pba[o..o + 8][i / 8] == pba[o + i / 8];
  }

  /** Setting bit `i` of the word at `o` and storing it back sets one bit of byte `o + i / 8`. */
  lemma WordSetAt(pba: seq<byte>, o: nat, i: nat)
    requires o + 8 <= |pba| && i < 64
    ensures PutU64(pba, o, WordWith(U64At(pba, o), i)) == pba[o + i / 8 := ByteWith(pba[o + i / 8], i % 8)]
  {
    var b := pba[o..o + 8];
    var x := ByteWith(b[i / 8], i % 8);
    U64OfSetBit(b, i);
    U64BytesOf(b[i / 8 := x]);
    OverwriteOneByte(pba, o, b[i / 8 := x], i / 8, x);
  }

  /** Clearing bit `i` of the word at `o` and storing it back clears one bit of byte `o + i / 8`. */
  lemma WordClearAt(pba: seq<byte>, o: nat, i: nat)
    requires o + 8 <= |pba| && i < 64
    ensures PutU64(pba, o, WordWithout(U64At(pba, o), i)) == pba[o + i / 8 := ByteWithout(pba[o + i / 8], i % 8)]
  {
    var b := pba[o..o + 8];
    var x := ByteWithout(b[i / 8], i % 8);
    U64OfClearBit(b, i);
    U64BytesOf(b[i / 8 := x]);
    OverwriteOneByte(pba, o, b[i / 8 := x], i / 8, x);
  }

  // ----- the operations as written: word at byte offset `vector / 64` --------

  /** The byte offset the source uses for `v`'s word. */
  function AsWrittenOffset(v: nat): nat
  {
    v / 64
  }

  /** On a PBA sized for `n` vectors the as-written word of every vector is in range, so nothing panics. */
  lemma AsWrittenInRange(n: nat, v: nat)
    requires v < n
    ensures AsWrittenOffset(v) + 8 <= PbaSize(n)
  {
    assert v / 64 < (n + 63) / 64;
  }

  /** `is_vector_pending` as written. */
  predicate IsVectorPendingAsWritten(pba: seq<byte>, v: nat)
    requires AsWrittenOffset(v) + 8 <= |pba|
  {
    WordPending(pba, AsWrittenOffset(v), v)
  }

  /** `set_pending_vector` as written. */
  function SetPendingVectorAsWritten(pba: seq<byte>, v: nat): (r: seq<byte>)
    requires AsWrittenOffset(v) + 8 <= |pba|
    ensures |r| == |pba|
  {
    WordSet(pba, AsWrittenOffset(v), v)
  }

  /** `clear_pending_vector` as written. */
  function ClearPendingVectorAsWritten(pba: seq<byte>, v: nat): (r: seq<byte>)
    requires AsWrittenOffset(v) + 8 <= |pba|
    ensures |r| == |pba|
  {
    WordClear(pba, AsWrittenOffset(v), v)
  }

  /**
   * The byte the as-written operations touch for `v`: byte `(v % 64) / 8` of
   * the word at byte `v / 64`, which is byte `v / 8` only while `v < 64`.
   */
  function AsWrittenByteIndex(v: nat): nat
  {
    v / 64 + (v % 64) / 8
  }

  /** The as-written byte lies in the as-written word, and the bit within it is `v % 8`. */
  lemma AsWrittenBitPosition(v: nat)
    ensures AsWrittenOffset(v) <= AsWrittenByteIndex(v) < AsWrittenOffset(v) + 8
    ensures (v % 64) % 8 == v % 8
    ensures v < 64 ==> AsWrittenByteIndex(v) == v / 8
  {
  }

  /** The as-written pending test reads bit `v % 8` of the as-written byte. */
  lemma AsWrittenTest(pba: seq<byte>, v: nat)
    requires AsWrittenOffset(v) + 8 <= |pba|
    ensures AsWrittenByteIndex(v) < |pba|
    ensures IsVectorPendingAsWritten(pba, v) == ByteHas(pba[AsWrittenByteIndex(v)], v % 8)
  {
    AsWrittenBitPosition(v);
    WordTestAt(pba, v / 64, v % 64);
  }

  /** The as-written set changes only bit `v % 8` of the as-written byte. */
  lemma AsWrittenSet(pba: seq<byte>, v: nat)
    requires AsWrittenOffset(v) + 8 <= |pba|
    ensures AsWrittenByteIndex(v) < |pba|
    ensures SetPendingVectorAsWritten(pba, v)
         == pba[AsWrittenByteIndex(v) := ByteWith(pba[AsWrittenByteIndex(v)], v % 8)]
  {
    AsWrittenBitPosition(v);
    WordSetAt(pba, v / 64, v % 64);
  }

  /** The as-written clear changes only bit `v % 8` of the as-written byte. */
  lemma AsWrittenClear(pba: seq<byte>, v: nat)
    requires AsWrittenOffset(v) + 8 <= |pba|
    ensures AsWrittenByteIndex(v) < |pba|
    ensures ClearPendingVectorAsWritten(pba, v)
         == pba[AsWrittenByteIndex(v) := ByteWithout(pba[AsWrittenByteIndex(v)], v % 8)]
  {
    AsWrittenBitPosition(v);
    WordClearAt(pba, v / 64, v % 64);
  }

  /** Below 64 vectors the as-written operations are the byte-level ones of the state machine. */
  lemma AsWrittenAgreesBelow64(pba: seq<byte>, v: nat)
    requires v < 64 && 8 <= |pba|
    ensures InPba(pba, v) && AsWrittenOffset(v) == PbaWordOffset(v)
    ensures IsVectorPendingAsWritten(pba, v) == IsVectorPending(pba, v)
    ensures SetPendingVectorAsWritten(pba, v) == SetPendingVector(pba, v)
    ensures ClearPendingVectorAsWritten(pba, v) == ClearPendingVector(pba, v)
  {
    AsWrittenBitPosition(v);
    AsWrittenTest(pba, v);
    AsWrittenSet(pba, v);
    AsWrittenClear(pba, v);
  }

  /** Sixteen zero bytes: the PBA of a device with 65 to 128 vectors. */
  const EmptyPba2: seq<byte> := [0, 0, 0, 0, 0, 0, 0, 0, 0, 0, 0, 0, 0, 0, 0, 0]

  /**
   * With more than 64 vectors the as-written words overlap: setting vector
   * 64 (word at byte 1, bit 0) sets bit 0 of byte 1, which vector 8 reads
   * (word at byte 0, bit 8).  A notification for vector 64 makes vector 8
   * pending, and leaves the bit of vector 64 in a plain bit array (bit 0 of
   * byte 8) clear.
   */
  lemma AsWrittenAliasing()
    ensures !IsVectorPendingAsWritten(EmptyPba2, 8)
    ensures IsVectorPendingAsWritten(SetPendingVectorAsWritten(EmptyPba2, 64), 8)
    ensures !IsVectorPending(SetPendingVectorAsWritten(EmptyPba2, 64), 64)
  {
    ByteBitTable(0);
    AsWrittenTest(EmptyPba2, 8);
    AsWrittenSet(EmptyPba2, 64);
    var p := SetPendingVectorAsWritten(EmptyPba2, 64);
    assert p[1] == 1 && p[8] == 0;
    AsWrittenTest(p, 8);
  }

  // ----- the corrected word operations equal the byte-level ones ------------

  /** The word-level pending test at the corrected offset is the byte-level one. */
  lemma WordPendingIsBytePending(pba: seq<byte>, v: nat)
    requires InPba(pba, v)
    ensures WordPending(pba, PbaWordOffset(v), v) == IsVectorPending(pba, v)
  {
    PendingByteInWord(v);
    WordTestAt(pba, PbaWordOffset(v), v % 64);
  }

  /** `set_pending_vector` at the corrected offset is the byte-level set of the state machine. */
  lemma WordSetIsSetPending(pba: seq<byte>, v: nat)
    requires InPba(pba, v)
    ensures WordSet(pba, PbaWordOffset(v), v) == SetPendingVector(pba, v)
  {
    PendingByteInWord(v);
    WordSetAt(pba, PbaWordOffset(v), v % 64);
  }

  /** `clear_pending_vector` at the corrected offset is the byte-level clear of the state machine. */
  lemma WordClearIsClearPending(pba: seq<byte>, v: nat)
    requires InPba(pba, v)
    ensures WordClear(pba, PbaWordOffset(v), v) == ClearPendingVector(pba, v)
  {
    PendingByteInWord(v);
    WordClearAt(pba, PbaWordOffset(v), v % 64);
  }
}
