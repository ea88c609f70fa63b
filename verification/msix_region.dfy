/**
 * The MMIO handlers `generate_region_ops` installs for the MSI-X BAR
 * (crates/pci/src/msix.rs): the vector table at offset 0 followed by the PBA.
 * A read returns the little-endian 32-bit word at the offset; a write to the
 * table stores four bytes and, when it unmasks a vector that has a pending
 * event, clears that event and delivers it.
 *
 * The closures return `HyperResult`; a Rust panic (a slice out of range, a
 * `copy_from_slice` of the wrong length, the `unwrap` of a missing irq
 * manager) is the explicit outcome `Panic`.
 */
module MsixRegion {
  import opened Bytes
  import opened Msix

  const U8_LIMIT: nat := 0x100

  /** What an MMIO access comes to: a value, the `OutOfRange` error, or a panic. */
  datatype Access<+T> = Done(value: T) | OutOfRange | Panic

  /** Does an access of `size` bytes at `offset` end past the table? */
  predicate PastTable(s: Msix, offset: nat, size: nat)
  {
    offset + size > |s.table|
  }

  /** Does an access of `size` bytes at `offset` end past the table and the PBA together? */
  predicate PastRegion(s: Msix, offset: nat, size: nat)
  {
    offset + size > |s.table| + |s.pba|
  }

  // ----- reads -----------------------------------------------------------------

  /**
   * The read closure as written.  An access ending past the table is served
   * from the PBA, but at the table-relative `offset`, so the slice of the PBA
   * is taken at an offset that is not rebased by the table's length.
   */
  function ReadRegion(s: Msix, offset: nat, size: nat): (r: Access<bv32>)
    requires size < U8_LIMIT
    ensures r.OutOfRange? <==> PastRegion(s, offset, size)
    ensures !PastTable(s, offset, size) ==> (r.Done? <==> size == 4)
    ensures r.Done? && !PastTable(s, offset, size) ==> U32Bytes(r.value) == s.table[offset..offset + 4]
  {
    if PastTable(s, offset, size) then
      if PastRegion(s, offset, size) then OutOfRange
      else if offset + size > |s.pba| || size != 4 then Panic
      else Done(U32At(s.pba, offset))
    else if size != 4 then Panic
    else
      U32BytesOfRead(s.table, offset);
      Done(U32At(s.table, offset))
  }

  /** On a well-formed state every read that reaches the PBA panics. */
  lemma PbaReadPanics(s: Msix, offset: nat, size: nat)
    requires Wf(s) && size < U8_LIMIT
    requires PastTable(s, offset, size) && !PastRegion(s, offset, size)
    ensures ReadRegion(s, offset, size) == Panic
  {
    PbaNoLongerThanTable(|s.table| / TABLE_ENTRY_SIZE);
  }

  /** The smallest well-formed device: one vector, a 16-byte table and one PBA word. */
  function OneVector(): (r: Msix)
    ensures Wf(r) && |r.table| == 16 && |r.pba| == 8
  {
    New(16, 8, 0, true)
  }

  /** Reading the first PBA word of the one-vector device panics. */
  lemma PbaReadPanicsExample()
    ensures ReadRegion(OneVector(), 16, 4) == Panic
  {
  }

  /**
   * The read closure with the PBA offset rebased by the table's length, as
   * the handler evidently intends.  An access that starts inside the table
   * and ends inside the PBA has no rebased offset (the subtraction would
   * underflow) and panics.
   */
  function ReadRegionRebased(s: Msix, offset: nat, size: nat): (r: Access<bv32>)
    requires size < U8_LIMIT
    ensures r.OutOfRange? <==> PastRegion(s, offset, size)
    ensures !PastTable(s, offset, size) ==> r == ReadRegion(s, offset, size)
    ensures PastTable(s, offset, size) && !PastRegion(s, offset, size) ==>
      (r.Done? <==> size == 4 && offset >= |s.table|)
    ensures r.Done? && PastTable(s, offset, size) ==>
      offset >= |s.table| && U32Bytes(r.value) == s.pba[offset - |s.table|..offset - |s.table| + 4]
  {
    if PastTable(s, offset, size) then
      if PastRegion(s, offset, size) then OutOfRange
      else if offset < |s.table| || size != 4 then Panic
      else
        var o := offset - |s.table|;
        U32BytesOfRead(s.pba, o);
        Done(U32At(s.pba, o))
    else ReadRegion(s, offset, size)
  }

  // ----- writes ----------------------------------------------------------------

  /** The vector a table write at `offset` addresses: `offset as u16 / 16`. */
  function WriteVector(offset: nat): nat
  {
    (offset % U16_LIMIT) / TABLE_ENTRY_SIZE
  }

  /** A four-byte write that fits in the table addresses a vector of the table. */
  lemma WriteVectorInTable(s: Msix, offset: nat)
    requires Wf(s) && offset + 4 <= |s.table|
    ensures WriteVector(offset) == offset / TABLE_ENTRY_SIZE < VectorCount(s)
  {
  }

  /** Four bytes starting at `offset` hold the control byte of no vector but `offset / 16`. */
  lemma WriteMissesOtherControlBytes(offset: nat, u: nat)
    requires u != offset / TABLE_ENTRY_SIZE
    ensures !(offset <= CtrlOffset(u) < offset + 4)
  {
  }

  /** The state after the table write `table[offset..offset+4].copy_from_slice(data)`. */
  function TableWrite(s: Msix, offset: nat, data: seq<byte>): (r: Msix)
    requires Wf(s) && offset + 4 <= |s.table| && |data| == 4
    ensures Wf(r) && r == s.(table := r.table) && VectorCount(r) == VectorCount(s)
    ensures WriteVector(offset) < VectorCount(s)
    ensures r.table[offset..offset + 4] == data
    ensures forall i :: 0 <= i < |s.table| && !(offset <= i < offset + 4) ==> r.table[i] == s.table[i]
    ensures forall u :: 0 <= u < VectorCount(s) && u != WriteVector(offset) ==>
      IsVectorMasked(r, u) == IsVectorMasked(s, u) && Pending(r, u) == Pending(s, u)
  {
    var r := s.(table := Overwrite(s.table, offset, data));
    WriteVectorInTable(s, offset);
    forall u | 0 <= u < VectorCount(s) && u != WriteVector(offset)
      ensures IsVectorMasked(r, u) == IsVectorMasked(s, u)
    {
      OtherVectorMask(s, r, offset, u);
    }
    r
  }

  /** A table write leaves the mask of every vector whose control byte it misses. */
  lemma OtherVectorMask(s: Msix, r: Msix, offset: nat, u: nat)
    requires Wf(s) && offset + 4 <= |s.table| && u < VectorCount(s) && u != offset / TABLE_ENTRY_SIZE
    requires r == s.(table := r.table) && |r.table| == |s.table|
    requires forall i :: 0 <= i < |s.table| && !(offset <= i < offset + 4) ==> r.table[i] == s.table[i]
    ensures u < VectorCount(r) && IsVectorMasked(r, u) == IsVectorMasked(s, u)
  {
    VectorInTable(s, u);
    WriteMissesOtherControlBytes(offset, u);
  }

  /** Does the write unmask vector `v` (masked in `s`, unmasked in `t`) while an event is pending? */
  predicate UnmaskesPending(s: Msix, t: Msix, v: nat)
    requires Wf(s) && Wf(t) && v < VectorCount(s) && VectorCount(t) == VectorCount(s)
  {
    IsVectorMasked(s, v) && !IsVectorMasked(t, v) && Pending(t, v)
  }

  /**
   * The write closure.  An access ending past the table and the PBA is
   * `OutOfRange`; one ending inside the PBA is accepted and ignored.  A table
   * write always copies four bytes; if it unmasks a vector that is pending,
   * the pending bit is cleared and `notify` delivers the vector.
   */
  function WriteRegion(s: Msix, offset: nat, size: nat, data: seq<byte>, devId: nat): (r: Access<Step>)
    requires Wf(s) && size < U8_LIMIT && devId < U16_LIMIT
    ensures r.OutOfRange? <==> PastRegion(s, offset, size)
    ensures PastTable(s, offset, size) && !PastRegion(s, offset, size) ==> r == Done(Step(s, []))
    ensures !PastTable(s, offset, size) && (offset + 4 > |s.table| || |data| != 4) ==> r == Panic
    ensures !PastTable(s, offset, size) && offset + 4 <= |s.table| && |data| == 4 ==>
      var t := TableWrite(s, offset, data);
      var v := WriteVector(offset);
      if UnmaskesPending(s, t, v) then
        if s.hasIrqManager then
          && r.Done?
          && r.value.msix == t.(pba := r.value.msix.pba)
          && Wf(r.value.msix)
          && !Pending(r.value.msix, v)
          && (forall u :: 0 <= u < VectorCount(s) && u != v ==> Pending(r.value.msix, u) == Pending(t, u))
          && r.value.sent == [Trigger(GetMsixVector(t, v), devId)]
        else r == Panic
      else r == Done(Step(t, []))
  {
    if PastTable(s, offset, size) then
      if PastRegion(s, offset, size) then OutOfRange else Done(Step(s, []))
    else if offset + 4 > |s.table| || |data| != 4 then Panic
    else
      var t := TableWrite(s, offset, data);
      var v := WriteVector(offset);
      WriteVectorInTable(s, offset);
      if UnmaskesPending(s, t, v) then
        if !s.hasIrqManager then Panic
        else
          var c := ClearPending(t, v);
          ClearPendingEffect(t, v);
          assert !IsVectorMasked(c, v);
          Done(Notify(c, v, devId))
      else Done(Step(t, []))
  }

  /** A successful MMIO write never leaves an unmasked vector pending. */
  lemma WriteRegionKeepsInvariant(s: Msix, offset: nat, size: nat, data: seq<byte>, devId: nat)
    requires Wf(s) && size < U8_LIMIT && devId < U16_LIMIT && NoStrandedPending(s)
    ensures var r := WriteRegion(s, offset, size, data, devId);
      r.Done? ==> Wf(r.value.msix) && NoStrandedPending(r.value.msix)
  {
    var r := WriteRegion(s, offset, size, data, devId);
    if r.Done? && !PastTable(s, offset, size) {
      var t := TableWrite(s, offset, data);
      var v := WriteVector(offset);
      WriteVectorInTable(s, offset);
      var m := r.value.msix;
      forall u | 0 <= u < VectorCount(m) && Pending(m, u)
        ensures IsVectorMasked(m, u)
      {
        assert IsVectorMasked(m, u) == IsVectorMasked(t, u);
        if u != v {
          assert Pending(m, u) == Pending(s, u);
        }
      }
    }
  }
}
