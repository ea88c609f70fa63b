/**
 * The MSI-X state of one emulated PCI function (`Msix` in crates/pci/src/msix.rs):
 * the vector table, the pending-bit array (PBA), the function-mask and enable
 * flags mirrored from the capability's control register, and the
 * edge-triggered delivery rules.  The register layout is the MSI-X
 * capability of section 6.8.2 of the PCI Local Bus Specification 3.0.
 *
 * Interrupt delivery through the irq manager is recorded, not performed:
 * every operation returns the list of `Trigger`s it would have sent.
 */
module Msix {
  import opened Bytes
  import opened Bits

  const TABLE_ENTRY_SIZE: nat := 16
  const TABLE_SIZE_MAX: nat := 0x7ff
  const TABLE_VEC_CTL: nat := 0x0c
  const TABLE_MASK_BIT: byte := 0x01
  const MSG_DATA: nat := 0x08
  const CAP_CONTROL: nat := 0x02
  const CAP_ENABLE: bv16 := 0x8000
  const CAP_FUNC_MASK: bv16 := 0x4000
  const U16_LIMIT: nat := 0x1_0000

  /** Address and data of one vector; the upper half of `msiData` holds the vector-control word. */
  datatype MsiVector = MsiVector(msiAddr: bv64, msiData: bv64)

  /** One call of the irq manager's `trigger(vector, dev_id)`. */
  datatype Trigger = Trigger(vector: MsiVector, devId: nat)

  /**
   * The device's MSI-X state.  `capOffset` is the capability's offset in
   * configuration space; `hasIrqManager` says whether an interrupt backend
   * was bound at installation.
   */
  datatype Msix = Msix(
    table: seq<byte>,
    pba: seq<byte>,
    funcMasked: bool,
    enabled: bool,
    capOffset: nat,
    hasIrqManager: bool)

  /** The state after an operation together with the interrupts it sent, in order. */
  datatype Step = Step(msix: Msix, sent: seq<Trigger>)

  /** PBA bytes for `n` vectors: one 64-bit word per started group of 64. */
  function PbaSize(n: nat): nat
  {
    ((n + 63) / 64) * 8
  }

  /** The PBA of `n` vectors, one word per 64 of them, is no longer than their table. */
  lemma PbaNoLongerThanTable(n: nat)
    ensures PbaSize(n) <= TABLE_ENTRY_SIZE * n
  {
    assert (n + 63) / 64 <= n || n == 0;
  }

  /** Number of vectors, computed as the source does through `table.len() as u16 / 16`. */
  function VectorCount(s: Msix): nat
  {
    (|s.table| % U16_LIMIT) / TABLE_ENTRY_SIZE
  }

  /**
   * The shape this model covers: whole table entries, at most 4095 of them so
   * that the source's 16-bit vector arithmetic does not wrap, and a PBA sized
   * for the vectors.  `init_msix` builds such a state for every count it
   * accepts without a diagnostic, but it does not refuse larger counts.
   * Every `unwrap` of a PBA or table access in the source succeeds on such a
   * state.
   */
  predicate Wf(s: Msix)
  {
    && |s.table| % TABLE_ENTRY_SIZE == 0
    && |s.table| < U16_LIMIT
    && |s.pba| == PbaSize(|s.table| / TABLE_ENTRY_SIZE)
    && s.capOffset < U16_LIMIT
  }

  lemma VectorInTable(s: Msix, v: nat)
    requires v < VectorCount(s)
    ensures TABLE_ENTRY_SIZE * v + TABLE_ENTRY_SIZE <= |s.table|
  {
    var m := |s.table| % U16_LIMIT;
    assert v < m / 16;
    assert 16 * (m / 16) <= m;
  }

  lemma VectorInPba(s: Msix, v: nat)
    requires Wf(s) && v < VectorCount(s)
    ensures PbaWordOffset(v) + 8 <= |s.pba|
  {
    var n := |s.table| / 16;
    assert VectorCount(s) == n;
    assert v / 64 < (n + 63) / 64;
  }

  // ----- the vector table ---------------------------------------------------

  /** Offset of vector `v`'s vector-control word in the table. */
  function CtrlOffset(v: nat): nat
  {
    TABLE_ENTRY_SIZE * v + TABLE_VEC_CTL
  }

  /** Bit 0 of vector `v`'s vector-control byte: the per-vector mask. */
  predicate MaskBit(table: seq<byte>, v: nat)
    requires CtrlOffset(v) < |table|
  {
    table[CtrlOffset(v)] & TABLE_MASK_BIT != 0
  }

  /** Is byte `i` the control byte of a whole entry of a table of `len` bytes? */
  predicate IsCtrlByte(i: nat, len: nat)
  {
    i % TABLE_ENTRY_SIZE == TABLE_VEC_CTL && i / TABLE_ENTRY_SIZE < len / TABLE_ENTRY_SIZE
  }

  /** `mask_all_vectors` over the first `k` vectors: set the mask bit of each in ascending order. */
  function MaskVectors(table: seq<byte>, k: nat): (r: seq<byte>)
    requires TABLE_ENTRY_SIZE * k <= |table|
    ensures |r| == |table|
    ensures forall i :: 0 <= i < |table| ==>
      r[i] == if i % TABLE_ENTRY_SIZE == TABLE_VEC_CTL && i / TABLE_ENTRY_SIZE < k
              then table[i] | TABLE_MASK_BIT else table[i]
  {
    if k == 0 then table
    else
      var t := MaskVectors(table, k - 1);
      var o := CtrlOffset(k - 1);
      t[o := t[o] | TABLE_MASK_BIT]
  }

  function Zeros(n: nat): (r: seq<byte>)
    ensures |r| == n && forall i :: 0 <= i < n ==> r[i] == 0
  {
    seq(n, i => 0)
  }

  /** The table of a fresh or reset device: all zero except a set mask bit in every whole entry. */
  function MaskedTable(len: nat): (r: seq<byte>)
    ensures |r| == len
    ensures forall i :: 0 <= i < len ==> r[i] == if IsCtrlByte(i, len) then 1 else 0
  {
    MaskVectors(Zeros(len), len / TABLE_ENTRY_SIZE)
  }

  /** `Msix::new`: zeroed buffers, function-masked and enabled, then every vector masked. */
  function New(tableSize: nat, pbaSize: nat, capOffset: nat, hasIrqManager: bool): (r: Msix)
    requires capOffset < U16_LIMIT
    ensures r.funcMasked && r.enabled
    ensures |r.table| == tableSize && |r.pba| == pbaSize
    ensures forall i :: 0 <= i < pbaSize ==> r.pba[i] == 0
    ensures forall i :: 0 <= i < tableSize ==> r.table[i] == if IsCtrlByte(i, tableSize) then 1 else 0
    ensures r.capOffset == capOffset && r.hasIrqManager == hasIrqManager
  {
    Msix(MaskedTable(tableSize), Zeros(pbaSize), true, true, capOffset, hasIrqManager)
  }

  /** `Msix::reset`: zero both buffers, restore the default flags, mask every vector. */
  function Reset(s: Msix): (r: Msix)
    ensures r.funcMasked && r.enabled
    ensures |r.table| == |s.table| && |r.pba| == |s.pba|
    ensures forall i :: 0 <= i < |r.pba| ==> r.pba[i] == 0
    ensures forall i :: 0 <= i < |r.table| ==> r.table[i] == if IsCtrlByte(i, |s.table|) then 1 else 0
    ensures r.capOffset == s.capOffset && r.hasIrqManager == s.hasIrqManager
  {
    s.(table := MaskedTable(|s.table|), pba := Zeros(|s.pba|), funcMasked := true, enabled := true)
  }

  // ----- the capability control register ------------------------------------

  /** Offset in configuration space of the control register's high byte. */
  function ControlHigh(s: Msix): nat
  {
    s.capOffset + CAP_CONTROL + 1
  }

  /** `is_enabled`: bit 15 of the control word, read as bit 7 of its high byte. */
  predicate IsEnabled(s: Msix, config: seq<byte>)
    requires ControlHigh(s) < |config|
  {
    config[ControlHigh(s)] & 0x80 != 0
  }

  /** `is_func_masked`: bit 14 of the control word, read as bit 6 of its high byte. */
  predicate IsFuncMasked(s: Msix, config: seq<byte>)
    requires ControlHigh(s) < |config|
  {
    config[ControlHigh(s)] & 0x40 != 0
  }

  /** The two flags are the source's tests on the little-endian 16-bit control word. */
  lemma ControlFlagsAreWordBits(s: Msix, config: seq<byte>)
    requires s.capOffset + CAP_CONTROL + 2 <= |config|
    ensures IsEnabled(s, config) <==> U16At(config, s.capOffset + CAP_CONTROL) & CAP_ENABLE > 0
    ensures IsFuncMasked(s, config) <==> U16At(config, s.capOffset + CAP_CONTROL) & CAP_FUNC_MASK > 0
  {
  }

  /**
   * `is_vector_masked`: a vector is masked when MSI-X is disabled, the
   * function is masked, or bit 0 of the vector's vector-control word is set.
   */
  predicate IsVectorMasked(s: Msix, v: nat)
    requires v < VectorCount(s)
  {
    VectorInTable(s, v);
    !s.enabled || s.funcMasked || MaskBit(s.table, v)
  }

  /** The per-vector mask is the source's test on the 32-bit vector-control word. */
  lemma VectorMaskIsControlWordBit(s: Msix, v: nat)
    requires v < VectorCount(s)
    ensures IsVectorMasked(s, v) <==>
      (VectorInTable(s, v);
       !s.enabled || s.funcMasked || U32At(s.table, CtrlOffset(v)) & 1 == 1)
  {
    VectorInTable(s, v);
  }

  // ----- the pending-bit array ----------------------------------------------

  /**
   * Byte offset of the 64-bit PBA word holding vector `v`'s pending bit.
   * The source writes `v / 64` here; see `PbaWords` for that reading.
   */
  function PbaWordOffset(v: nat): nat
  {
    8 * (v / 64)
  }

  /** Does the PBA hold the whole 64-bit word that `le_read_u64` reads for vector `v`? */
  predicate InPba(pba: seq<byte>, v: nat)
  {
    PbaWordOffset(v) + 8 <= |pba|
  }

  /**
   * Bit `v % 64` of the little-endian word at `PbaWordOffset(v)` is bit
   * `v % 8` of byte `v / 8`: the PBA is one little-endian bit array.
   */
  lemma PendingByteInWord(v: nat)
    ensures PbaWordOffset(v) <= v / 8 < PbaWordOffset(v) + 8
    ensures v / 8 == PbaWordOffset(v) + (v % 64) / 8 && v % 8 == (v % 64) % 8
  {
  }

  /** A PBA that holds vector `v` holds every lower vector. */
  lemma InPbaBelow(pba: seq<byte>, v: nat)
    requires InPba(pba, v)
    ensures forall u: nat :: u <= v ==> InPba(pba, u)
  {
    forall u: nat | u <= v ensures InPba(pba, u) {
      assert u / 64 <= v / 64;
    }
  }

  lemma PendingByteInPba(pba: seq<byte>, v: nat)
    requires InPba(pba, v)
    ensures v / 8 < |pba|
  {
    PendingByteInWord(v);
  }

  /** Two vectors sharing a PBA byte use different bits of it. */
  lemma SharedByteDistinctBits(u: nat, v: nat)
    requires u != v && u / 8 == v / 8
    ensures u % 8 != v % 8
  {
  }

  /** Rewriting `v`'s byte leaves the state of every vector held in another byte. */
  lemma OtherByteUnchanged(pba: seq<byte>, v: nat, u: nat, x: byte)
    requires InPba(pba, v) && InPba(pba, u) && v / 8 < |pba| && u / 8 != v / 8
    ensures IsVectorPending(pba[v / 8 := x], u) == IsVectorPending(pba, u)
  {
  }

  /** Rewriting `v`'s byte with one that differs at most in `v`'s bit leaves the other vectors sharing that byte. */
  lemma SameByteOtherBitUnchanged(pba: seq<byte>, v: nat, u: nat, x: byte)
    requires InPba(pba, v) && InPba(pba, u) && u != v && u / 8 == v / 8
    requires v / 8 < |pba| && SameOtherBits(x, pba[v / 8], v % 8)
    ensures IsVectorPending(pba[v / 8 := x], u) == IsVectorPending(pba, u)
  {
    SharedByteDistinctBits(u, v);
  }

  /** Rewriting `v`'s byte with one that differs at most in `v`'s bit leaves every other vector's state. */
  lemma OtherVectorUnchanged(pba: seq<byte>, v: nat, u: nat, x: byte)
    requires InPba(pba, v) && InPba(pba, u) && u != v
    requires v / 8 < |pba| && SameOtherBits(x, pba[v / 8], v % 8)
    ensures IsVectorPending(pba[v / 8 := x], u) == IsVectorPending(pba, u)
  {
    if u / 8 == v / 8 {
      SameByteOtherBitUnchanged(pba, v, u, x);
    } else {
      OtherByteUnchanged(pba, v, u, x);
    }
  }

  /** `is_vector_pending`: bit `v % 64` of the word holding `v`, read as the byte that holds it. */
  predicate IsVectorPending(pba: seq<byte>, v: nat)
    requires InPba(pba, v)
  {
    PendingByteInPba(pba, v);
    ByteHas(pba[v / 8], v % 8)
  }

  /** `set_pending_vector`: set `v`'s bit of the byte that holds it. */
  function SetPendingVector(pba: seq<byte>, v: nat): (r: seq<byte>)
    requires InPba(pba, v)
    ensures |r| == |pba|
  {
    PendingByteInPba(pba, v);
    pba[v / 8 := ByteWith(pba[v / 8], v % 8)]
  }

  /** `clear_pending_vector`: clear `v`'s bit of the byte that holds it. */
  function ClearPendingVector(pba: seq<byte>, v: nat): (r: seq<byte>)
    requires InPba(pba, v)
    ensures |r| == |pba|
  {
    PendingByteInPba(pba, v);
    pba[v / 8 := ByteWithout(pba[v / 8], v % 8)]
  }

  /** After `set_pending_vector(v)`, `v` is pending and every other vector is as it was. */
  lemma SetPendingSpec(pba: seq<byte>, v: nat)
    requires InPba(pba, v)
    ensures var r := SetPendingVector(pba, v);
      && IsVectorPending(r, v)
      && (forall u :: InPba(pba, u) && u != v ==> IsVectorPending(r, u) == IsVectorPending(pba, u))
  {
    PendingByteInPba(pba, v);
    ByteBitSetClear(pba[v / 8], v % 8);
    SetClearOtherBits(pba[v / 8], v % 8);
    var r := SetPendingVector(pba, v);
    forall u: nat | InPba(pba, u) && u != v
      ensures IsVectorPending(r, u) == IsVectorPending(pba, u)
    {
      OtherVectorUnchanged(pba, v, u, r[v / 8]);
    }
  }

  /** After `clear_pending_vector(v)`, `v` is not pending and every other vector is as it was. */
  lemma ClearPendingSpec(pba: seq<byte>, v: nat)
    requires InPba(pba, v)
    ensures var r := ClearPendingVector(pba, v);
      && !IsVectorPending(r, v)
      && (forall u :: InPba(pba, u) && u != v ==> IsVectorPending(r, u) == IsVectorPending(pba, u))
  {
    PendingByteInPba(pba, v);
    ByteBitSetClear(pba[v / 8], v % 8);
    SetClearOtherBits(pba[v / 8], v % 8);
    var r := ClearPendingVector(pba, v);
    forall u: nat | InPba(pba, u) && u != v
      ensures IsVectorPending(r, u) == IsVectorPending(pba, u)
    {
      OtherVectorUnchanged(pba, v, u, r[v / 8]);
    }
  }

  /** Setting a bit that is already set changes nothing. */
  lemma SetPendingIdempotent(pba: seq<byte>, v: nat)
    requires InPba(pba, v)
    ensures SetPendingVector(SetPendingVector(pba, v), v) == SetPendingVector(pba, v)
  {
    PendingByteInPba(pba, v);
    ByteBitSetClear(pba[v / 8], v % 8);
  }

  /** Is vector `u` of the device pending? */
  predicate Pending(s: Msix, u: nat)
    requires Wf(s) && u < VectorCount(s)
  {
    VectorInPba(s, u);
    IsVectorPending(s.pba, u)
  }

  /** `clear_pending_vectors` over the first `k` vectors, in ascending order. */
  function ClearPendingVectorsUpTo(pba: seq<byte>, k: nat): (r: seq<byte>)
    requires k == 0 || InPba(pba, k - 1)
    ensures |r| == |pba|
    ensures forall u :: 0 <= u < k ==> InPba(r, u) && !IsVectorPending(r, u)
    ensures forall u :: k <= u && InPba(pba, u) ==> IsVectorPending(r, u) == IsVectorPending(pba, u)
  {
    if k == 0 then pba
    else
      InPbaBelow(pba, k - 1);
      var t := ClearPendingVectorsUpTo(pba, k - 1);
      ClearPendingSpec(t, k - 1);
      ClearPendingVector(t, k - 1)
  }

  /** `clear_pending_vectors`: afterwards no vector of the device is pending. */
  function ClearPendingVectors(s: Msix): (r: Msix)
    requires Wf(s)
    ensures Wf(r) && r == s.(pba := r.pba)
    ensures forall u :: 0 <= u < VectorCount(s) ==> !Pending(r, u)
  {
    var n := VectorCount(s);
    if n == 0 then s
    else
      VectorInPba(s, n - 1);
      s.(pba := ClearPendingVectorsUpTo(s.pba, n))
  }

  // ----- delivery ------------------------------------------------------------

  /** `get_msix_vector`: the entry's address field and the 64-bit word starting at its data field. */
  function GetMsixVector(s: Msix, v: nat): MsiVector
    requires TABLE_ENTRY_SIZE * v + TABLE_ENTRY_SIZE <= |s.table|
  {
    var e := TABLE_ENTRY_SIZE * v;
    MsiVector(U64At(s.table, e), U64At(s.table, e + MSG_DATA))
  }

  /** The vector's fields are exactly the entry's two 8-byte halves, little-endian. */
  lemma GetMsixVectorReadsEntry(s: Msix, v: nat)
    requires TABLE_ENTRY_SIZE * v + TABLE_ENTRY_SIZE <= |s.table|
    ensures var r := GetMsixVector(s, v);
      && U64Bytes(r.msiAddr) == s.table[TABLE_ENTRY_SIZE * v..TABLE_ENTRY_SIZE * v + MSG_DATA]
      && U64Bytes(r.msiData) == s.table[TABLE_ENTRY_SIZE * v + MSG_DATA..TABLE_ENTRY_SIZE * v + TABLE_ENTRY_SIZE]
  {
    var e := TABLE_ENTRY_SIZE * v;
    U64BytesOfRead(s.table, e);
    U64BytesOfRead(s.table, e + MSG_DATA);
  }

  /** `send_msix`: one trigger of the irq manager, which the source unwraps. */
  function SendMsix(s: Msix, v: nat, devId: nat): (r: seq<Trigger>)
    requires s.hasIrqManager
    requires v < VectorCount(s)
    ensures |r| == 1 && r[0].devId == devId
    ensures (VectorInTable(s, v); r[0].vector == GetMsixVector(s, v))
  {
    VectorInTable(s, v);
    [Trigger(GetMsixVector(s, v), devId)]
  }

  /**
   * `notify`: an out-of-range vector is ignored; a masked vector has its
   * pending bit set; an unmasked one is sent at once, the PBA untouched.
   */
  function Notify(s: Msix, v: nat, devId: nat): (r: Step)
    requires Wf(s)
    requires v < U16_LIMIT && devId < U16_LIMIT
    requires v < VectorCount(s) && !IsVectorMasked(s, v) ==> s.hasIrqManager
    ensures Wf(r.msix) && r.msix == s.(pba := r.msix.pba)
    ensures v >= VectorCount(s) ==> r == Step(s, [])
    ensures v < VectorCount(s) && IsVectorMasked(s, v) ==>
      && r.sent == []
      && Pending(r.msix, v)
      && forall u :: 0 <= u < VectorCount(s) && u != v ==> Pending(r.msix, u) == Pending(s, u)
    ensures v < VectorCount(s) && !IsVectorMasked(s, v) ==>
      && r.msix == s
      && (VectorInTable(s, v); r.sent == [Trigger(GetMsixVector(s, v), devId)])
  {
    if v >= VectorCount(s) then Step(s, [])
    else if IsVectorMasked(s, v) then
      VectorInPba(s, v);
      SetPendingSpec(s.pba, v);
      var t := s.(pba := SetPendingVector(s.pba, v));
      assert forall u :: 0 <= u < VectorCount(s) ==> InPba(s.pba, u) by {
        forall u | 0 <= u < VectorCount(s) ensures InPba(s.pba, u) {
          VectorInPba(s, u);
        }
      }
      Step(t, [])
    else
      Step(s, SendMsix(s, v, devId))
  }

  /** Notifying a masked vector twice has the same effect as notifying it once. */
  lemma NotifyMaskedIdempotent(s: Msix, v: nat, devId: nat)
    requires Wf(s) && v < U16_LIMIT && devId < U16_LIMIT
    requires v < VectorCount(s) && IsVectorMasked(s, v)
    ensures var r := Notify(s, v, devId);
      v < VectorCount(r.msix) && IsVectorMasked(r.msix, v) && Notify(r.msix, v, devId) == r
  {
    VectorInPba(s, v);
    SetPendingIdempotent(s.pba, v);
  }

  /** A vector is deliverable when it is unmasked and has a pending event. */
  predicate Deliverable(s: Msix, u: nat)
    requires Wf(s) && u < VectorCount(s)
  {
    !IsVectorMasked(s, u) && Pending(s, u)
  }

  /** The deliverable vectors from `from` upwards, in ascending order. */
  function DeliverableFrom(s: Msix, from: nat): (r: seq<nat>)
    requires Wf(s) && from <= VectorCount(s)
    decreases VectorCount(s) - from
    ensures forall i :: 0 <= i < |r| ==> from <= r[i] < VectorCount(s) && Deliverable(s, r[i])
    ensures forall i, j :: 0 <= i < j < |r| ==> r[i] < r[j]
    ensures forall u :: from <= u < VectorCount(s) && Deliverable(s, u) ==> u in r
  {
    if from == VectorCount(s) then []
    else if Deliverable(s, from) then [from] + DeliverableFrom(s, from + 1)
    else DeliverableFrom(s, from + 1)
  }

  /** Two states with the same table and the same deliverable vectors deliver the same list. */
  lemma {:induction false} DeliverableFromFrame(s: Msix, t: Msix, from: nat)
    requires Wf(s) && Wf(t) && s.table == t.table && from <= VectorCount(s)
    requires VectorCount(t) == VectorCount(s)
    requires forall u :: from <= u < VectorCount(s) ==> Deliverable(s, u) == Deliverable(t, u)
    ensures DeliverableFrom(s, from) == DeliverableFrom(t, from)
    decreases VectorCount(s) - from
  {
    if from < VectorCount(s) {
      DeliverableFromFrame(s, t, from + 1);
    }
  }

  /** The triggers for a list of vectors, in list order. */
  function TriggersFor(s: Msix, vs: seq<nat>, devId: nat): (r: seq<Trigger>)
    requires forall i :: 0 <= i < |vs| ==> vs[i] < VectorCount(s)
    ensures |r| == |vs|
    ensures forall i :: 0 <= i < |vs| ==> r[i].devId == devId
  {
    if vs == [] then []
    else
      VectorInTable(s, vs[0]);
      [Trigger(GetMsixVector(s, vs[0]), devId)] + TriggersFor(s, vs[1..], devId)
  }

  /** The state with vector `v`'s pending bit cleared. */
  function ClearPending(s: Msix, v: nat): (r: Msix)
    requires Wf(s) && v < VectorCount(s)
    ensures Wf(r) && r == s.(pba := r.pba)
  {
    VectorInPba(s, v);
    s.(pba := ClearPendingVector(s.pba, v))
  }

  /** Clearing vector `v` makes it not pending and leaves every other vector's pending bit alone. */
  lemma ClearPendingEffect(s: Msix, v: nat)
    requires Wf(s) && v < VectorCount(s)
    ensures forall u :: 0 <= u < VectorCount(s) ==>
      Pending(ClearPending(s, v), u) == (u != v && Pending(s, u))
  {
    VectorInPba(s, v);
    ClearPendingSpec(s.pba, v);
    forall u | 0 <= u < VectorCount(s) ensures InPba(s.pba, u) {
      VectorInPba(s, u);
    }
  }

  /** What the flush loop leaves behind: the new state and the vectors it sent, in sending order. */
  datatype Flushed = Flushed(msix: Msix, delivered: seq<nat>)

  /**
   * The flush loop of `write_config` from vector `from` on: every unmasked,
   * pending vector has its bit cleared and is sent.  The loop changes only
   * the PBA, so each message is the table entry of the state it started from.
   */
  function Flush(s: Msix, from: nat): (r: Flushed)
    requires Wf(s) && from <= VectorCount(s)
    decreases VectorCount(s) - from
    ensures Wf(r.msix) && r.msix == s.(pba := r.msix.pba)
    ensures forall i :: 0 <= i < |r.delivered| ==> r.delivered[i] < VectorCount(s)
  {
    if from == VectorCount(s) then Flushed(s, [])
    else if Deliverable(s, from) then
      var rest := Flush(ClearPending(s, from), from + 1);
      Flushed(rest.msix, [from] + rest.delivered)
    else
      Flush(s, from + 1)
  }

  /** Clearing vector `from` does not change which later vectors are deliverable. */
  lemma ClearPendingKeepsLaterDeliverable(s: Msix, from: nat)
    requires Wf(s) && from < VectorCount(s)
    ensures DeliverableFrom(ClearPending(s, from), from + 1) == DeliverableFrom(s, from + 1)
  {
    ClearPendingEffect(s, from);
    DeliverableFromFrame(s, ClearPending(s, from), from + 1);
  }

  /** One step of the flush loop and of the deliverable list at a deliverable vector. */
  lemma FlushDeliverStep(s: Msix, from: nat)
    requires Wf(s) && from < VectorCount(s) && Deliverable(s, from)
    ensures Flush(s, from).delivered == [from] + Flush(ClearPending(s, from), from + 1).delivered
    ensures DeliverableFrom(s, from) == [from] + DeliverableFrom(s, from + 1)
  {
  }

  /** One step of the flush loop and of the deliverable list at a vector it skips. */
  lemma FlushSkipStep(s: Msix, from: nat)
    requires Wf(s) && from < VectorCount(s) && !Deliverable(s, from)
    ensures Flush(s, from).delivered == Flush(s, from + 1).delivered
    ensures DeliverableFrom(s, from) == DeliverableFrom(s, from + 1)
  {
  }

  /** The flush loop sends exactly the deliverable vectors from `from` on, in ascending order. */
  lemma {:induction false} FlushSends(s: Msix, from: nat)
    requires Wf(s) && from <= VectorCount(s)
    decreases VectorCount(s) - from
    ensures Flush(s, from).delivered == DeliverableFrom(s, from)
  {
    if from < VectorCount(s) {
      if Deliverable(s, from) {
        FlushDeliverStep(s, from);
        ClearPendingKeepsLaterDeliverable(s, from);
        FlushSends(ClearPending(s, from), from + 1);
      } else {
        FlushSkipStep(s, from);
        FlushSends(s, from + 1);
      }
    }
  }

  /** After the flush loop exactly the vectors it delivered have stopped being pending. */
  lemma {:induction false} FlushClears(s: Msix, from: nat, u: nat)
    requires Wf(s) && from <= VectorCount(s) && u < VectorCount(s)
    decreases VectorCount(s) - from
    ensures Pending(Flush(s, from).msix, u) == (Pending(s, u) && !(from <= u && Deliverable(s, u)))
  {
    if from == VectorCount(s) {
    } else if Deliverable(s, from) {
      var s1 := ClearPending(s, from);
      ClearPendingEffect(s, from);
      FlushClears(s1, from + 1, u);
      assert IsVectorMasked(s1, u) == IsVectorMasked(s, u);
    } else {
      FlushClears(s, from + 1, u);
    }
  }

  /** `ranges_overlap`: do the half-open ranges `[a, a+la)` and `[b, b+lb)` intersect? */
  predicate RangesOverlap(a: nat, la: nat, b: nat, lb: nat)
  {
    a < b + lb && b < a + la
  }

  /** Does a config write of `len` bytes at `offset` touch the control register's high byte? */
  predicate TouchesControl(s: Msix, offset: nat, len: nat)
  {
    RangesOverlap(offset, len, s.capOffset + CAP_CONTROL + 1, 1)
  }

  /** The flags `write_config` adopts from the written configuration space. */
  function AdoptFlags(s: Msix, config: seq<byte>): (r: Msix)
    requires s.capOffset + CAP_CONTROL + 2 <= |config|
    ensures r == s.(enabled := r.enabled, funcMasked := r.funcMasked)
  {
    s.(funcMasked := IsFuncMasked(s, config), enabled := IsEnabled(s, config))
  }

  /**
   * Does a configuration write make the flush loop send something?  Only then
   * does the source reach the `unwrap` of the irq manager in `send_msix`.
   */
  predicate FlushSendsAny(s: Msix, config: seq<byte>, offset: nat, len: nat)
    requires Wf(s)
    requires TouchesControl(s, offset, len) ==> s.capOffset + CAP_CONTROL + 2 <= |config|
  {
    && TouchesControl(s, offset, len)
    && var t := AdoptFlags(s, config);
       && (t.enabled, t.funcMasked) != (s.enabled, s.funcMasked) && t.enabled && !t.funcMasked
       && DeliverableFrom(t, 0) != []
  }

  /**
   * `write_config`: a configuration write that reaches the control
   * register's high byte copies the enable and function-mask bits; when they
   * change into the deliverable state (enabled, not function-masked) every
   * unmasked pending vector is cleared and sent, in ascending order.
   */
  function WriteConfig(s: Msix, config: seq<byte>, devId: nat, offset: nat, data: seq<byte>): (r: Step)
    requires Wf(s) && devId < U16_LIMIT
    requires TouchesControl(s, offset, |data|) ==> s.capOffset + CAP_CONTROL + 2 <= |config|
    requires FlushSendsAny(s, config, offset, |data|) ==> s.hasIrqManager
    ensures Wf(r.msix) && r.msix.table == s.table
    ensures !TouchesControl(s, offset, |data|) ==> r == Step(s, [])
    ensures TouchesControl(s, offset, |data|) ==> r.msix == AdoptFlags(s, config).(pba := r.msix.pba)
    ensures TouchesControl(s, offset, |data|) ==>
      && r.msix.enabled == (config[s.capOffset + CAP_CONTROL + 1] & 0x80 != 0)
      && r.msix.funcMasked == (config[s.capOffset + CAP_CONTROL + 1] & 0x40 != 0)
    ensures TouchesControl(s, offset, |data|) ==>
      var t := AdoptFlags(s, config);
      if (t.enabled, t.funcMasked) != (s.enabled, s.funcMasked) && t.enabled && !t.funcMasked then
        && r.sent == TriggersFor(t, DeliverableFrom(t, 0), devId)
        && forall u :: 0 <= u < VectorCount(s) ==> Pending(r.msix, u) == (Pending(s, u) && !Deliverable(t, u))
      else
        r == Step(t, [])
  {
    if !TouchesControl(s, offset, |data|) then Step(s, [])
    else
      var t := AdoptFlags(s, config);
      var changed := !(s.funcMasked == t.funcMasked && s.enabled == t.enabled);
      if changed && t.enabled && !t.funcMasked then
        FlushSends(t, 0);
        var f := Flush(t, 0);
        assert forall u :: 0 <= u < VectorCount(s) ==> Pending(f.msix, u) == (Pending(t, u) && !Deliverable(t, u)) by {
          forall u | 0 <= u < VectorCount(s)
            ensures Pending(f.msix, u) == (Pending(t, u) && !Deliverable(t, u))
          {
            FlushClears(t, 0, u);
          }
        }
        Step(f.msix, TriggersFor(t, f.delivered, devId))
      else Step(t, [])
  }

  /** Repeating a configuration write sends nothing and changes nothing. */
  lemma WriteConfigRepeatQuiet(s: Msix, config: seq<byte>, devId: nat, offset: nat, data: seq<byte>)
    requires Wf(s) && devId < U16_LIMIT
    requires TouchesControl(s, offset, |data|) ==> s.capOffset + CAP_CONTROL + 2 <= |config|
    requires FlushSendsAny(s, config, offset, |data|) ==> s.hasIrqManager
    ensures var r := WriteConfig(s, config, devId, offset, data);
      WriteConfig(r.msix, config, devId, offset, data) == Step(r.msix, [])
  {
  }

  // ----- the delivery invariant ------------------------------------------------

  /** No vector is left pending while unmasked. */
  predicate NoStrandedPending(s: Msix)
    requires Wf(s)
  {
    forall u :: 0 <= u < VectorCount(s) ==> Pending(s, u) ==> IsVectorMasked(s, u)
  }

  /** One vector of a state whose buffers are those `new` builds: masked by its own bit, not pending. */
  lemma FreshVector(s: Msix, u: nat)
    requires Wf(s) && u < VectorCount(s)
    requires forall i :: 0 <= i < |s.pba| ==> s.pba[i] == 0
    requires forall i :: 0 <= i < |s.table| ==> s.table[i] == if IsCtrlByte(i, |s.table|) then 1 else 0
    ensures CtrlOffset(u) < |s.table| && MaskBit(s.table, u) && !Pending(s, u)
  {
    VectorInTable(s, u);
    VectorInPba(s, u);
    PendingByteInWord(u);
    assert CtrlOffset(u) % 16 == 12 && CtrlOffset(u) / 16 == u;
    assert IsCtrlByte(CtrlOffset(u), |s.table|);
  }

  /** A fresh device reports every vector masked, by its own bit as well, and none pending. */
  lemma NewAllMaskedNonePending(n: nat, capOffset: nat, hasIrqManager: bool)
    requires 16 * n < U16_LIMIT && capOffset < U16_LIMIT
    ensures var s := New(16 * n, PbaSize(n), capOffset, hasIrqManager);
      && Wf(s) && VectorCount(s) == n && NoStrandedPending(s)
      && forall u :: 0 <= u < n ==>
           (VectorInTable(s, u); IsVectorMasked(s, u) && MaskBit(s.table, u) && !Pending(s, u))
  {
    var s := New(16 * n, PbaSize(n), capOffset, hasIrqManager);
    assert Wf(s);
    assert VectorCount(s) == n;
    forall u | 0 <= u < n
      ensures CtrlOffset(u) < |s.table| && MaskBit(s.table, u) && !Pending(s, u)
    {
      FreshVector(s, u);
    }
  }

  /** After a reset the state is the one `new` builds, so every vector is masked and none pending. */
  lemma ResetIsNew(s: Msix)
    requires Wf(s)
    ensures Reset(s) == New(|s.table|, |s.pba|, s.capOffset, s.hasIrqManager)
    ensures Wf(Reset(s)) && NoStrandedPending(Reset(s))
    ensures forall u :: 0 <= u < VectorCount(s) ==> !Pending(Reset(s), u) && IsVectorMasked(Reset(s), u)
  {
    var n := |s.table| / 16;
    NewAllMaskedNonePending(n, s.capOffset, s.hasIrqManager);
  }

  /** `notify` never leaves an unmasked vector pending. */
  lemma NotifyKeepsInvariant(s: Msix, v: nat, devId: nat)
    requires Wf(s) && NoStrandedPending(s)
    requires v < U16_LIMIT && devId < U16_LIMIT
    requires v < VectorCount(s) && !IsVectorMasked(s, v) ==> s.hasIrqManager
    ensures NoStrandedPending(Notify(s, v, devId).msix)
  {
  }

  /** A configuration write never leaves an unmasked vector pending. */
  lemma WriteConfigKeepsInvariant(s: Msix, config: seq<byte>, devId: nat, offset: nat, data: seq<byte>)
    requires Wf(s) && devId < U16_LIMIT && NoStrandedPending(s)
    requires TouchesControl(s, offset, |data|) ==> s.capOffset + CAP_CONTROL + 2 <= |config|
    requires FlushSendsAny(s, config, offset, |data|) ==> s.hasIrqManager
    ensures NoStrandedPending(WriteConfig(s, config, devId, offset, data).msix)
  {
  }
}
