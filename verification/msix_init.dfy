/**
 * The layout arithmetic of `init_msix` (crates/pci/src/msix.rs): the sizes
 * of the vector table and the PBA, their default offsets in the BAR, the
 * values written into the capability, the `Msix` state it builds, and the
 * size of the BAR it registers.
 *
 * The helpers `add_pci_cap`, `register_bar`, `round_up`, `ranges_overlap`,
 * `le_write_u16`/`le_write_u32` and the constant `MINIMUM_BAR_SIZE_FOR_MMIO`
 * live in files this model does not include: the capability offset and the
 * minimum BAR size are parameters, `ranges_overlap` is `Msix.RangesOverlap`,
 * and a little-endian store past the end of the configuration space is an
 * error, as the helpers' `HyperResult` suggests.  The two diagnostics of
 * `init_msix` (an invalid vector count, overlapping table and PBA) only log,
 * so here they are reported flags and installation goes on.
 */
module MsixInit {
  import opened Outcomes
  import opened Bytes
  import opened Msix
  import opened Pow2

  const CAP_TABLE: nat := 0x04
  const CAP_PBA: nat := 0x08
  const U32_LIMIT: nat := 0x1_0000_0000

  /** Why `init_msix` gave up: a store into configuration space out of its bounds. */
  datatype InitError = ConfigOutOfRange

  /** What `init_msix` installs. */
  datatype Installed = Installed(
    config: seq<byte>,
    writeMask: seq<byte>,
    msix: Msix,
    tableOffset: nat,
    pbaOffset: nat,
    barSize: nat,
    invalidCount: bool,
    overlap: bool)

  /** `le_write_u16` as a fallible store. */
  function StoreU16(buf: seq<byte>, o: nat, w: bv16): (r: Result<seq<byte>, InitError>)
    ensures r.Err? <==> o + 2 > |buf|
    ensures r.Ok? ==> |r.value| == |buf| && U16At(r.value, o) == w
    ensures r.Ok? ==> forall i :: 0 <= i < |buf| && !(o <= i < o + 2) ==> r.value[i] == buf[i]
  {
    if o + 2 > |buf| then Err(ConfigOutOfRange)
    else
      U16RoundTrip(buf, o, w);
      Ok(Overwrite(buf, o, U16Bytes(w)))
  }

  /** `le_write_u32` as a fallible store. */
  function StoreU32(buf: seq<byte>, o: nat, w: bv32): (r: Result<seq<byte>, InitError>)
    ensures r.Err? <==> o + 4 > |buf|
    ensures r.Ok? ==> |r.value| == |buf| && U32At(r.value, o) == w
    ensures r.Ok? ==> forall i :: 0 <= i < |buf| && !(o <= i < o + 4) ==> r.value[i] == buf[i]
  {
    if o + 4 > |buf| then Err(ConfigOutOfRange)
    else
      U32RoundTrip(buf, o, w);
      Ok(Overwrite(buf, o, U32Bytes(w)))
  }

  /** A 16-bit word reads the same from two buffers that agree on its two bytes. */
  lemma U16AtFrame(s: seq<byte>, r: seq<byte>, o: nat)
    requires o + 2 <= |s| && o + 2 <= |r| && r[o] == s[o] && r[o + 1] == s[o + 1]
    ensures U16At(r, o) == U16At(s, o)
  {
  }

  /** A 32-bit word reads the same from two buffers that agree on its four bytes. */
  lemma U32AtFrame(s: seq<byte>, r: seq<byte>, o: nat)
    requires o + 4 <= |s| && o + 4 <= |r|
    requires r[o] == s[o] && r[o + 1] == s[o + 1] && r[o + 2] == s[o + 2] && r[o + 3] == s[o + 3]
    ensures U32At(r, o) == U32At(s, o)
  {
  }

  /** `vector_nr as u16`: the low half of the count. */
  function Low16(vectorNr: nat): bv16
  {
    (vectorNr % U16_LIMIT) as bv16
  }

  /** `vector_nr as u16 - 1`: the low half of the count minus one, wrapping. */
  function ControlValue(vectorNr: nat): (r: bv16)
    ensures r + 1 == Low16(vectorNr)
  {
    Low16(vectorNr) - 1
  }

  /** `vector_nr * MSIX_TABLE_ENTRY_SIZE` in `u32`, wrapping. */
  function TableSize(vectorNr: nat): nat
  {
    (TABLE_ENTRY_SIZE * vectorNr) % U32_LIMIT
  }

  /** `((round_up(vector_nr, 64) / 64) * 8) as u32`: the PBA size, truncated to 32 bits. */
  function PbaSize32(vectorNr: nat): nat
  {
    PbaSize(vectorNr) % U32_LIMIT
  }

  /** `(table_size + pba_size) as u64`: the two sizes added in `u32`, wrapping. */
  function RegionsSize(vectorNr: nat): nat
  {
    (TableSize(vectorNr) + PbaSize32(vectorNr)) % U32_LIMIT
  }

  /**
   * For a count the capability can encode, nothing wraps: the table has 16
   * bytes per vector, the PBA one 64-bit word per 64 vectors and is no longer
   * than the table, and the control word holds the count minus one.
   */
  lemma ValidCountNoWrap(vectorNr: nat)
    requires 1 <= vectorNr <= TABLE_SIZE_MAX + 1
    ensures TableSize(vectorNr) == TABLE_ENTRY_SIZE * vectorNr < U16_LIMIT
    ensures PbaSize32(vectorNr) == PbaSize(vectorNr) <= TableSize(vectorNr)
    ensures RegionsSize(vectorNr) == TableSize(vectorNr) + PbaSize32(vectorNr)
    ensures Low16(vectorNr) == vectorNr as bv16
  {
    assert vectorNr % U16_LIMIT == vectorNr;
    PbaNoLongerThanTable(vectorNr);
    assert TableSize(vectorNr) == TABLE_ENTRY_SIZE * vectorNr;
  }

  /** A count of 0 gives empty regions and a control word that wraps to `0xffff`. */
  lemma ZeroCountWraps()
    ensures TableSize(0) == 0 && PbaSize32(0) == 0 && RegionsSize(0) == 0
    ensures ControlValue(0) == 0xffff
  {
    assert PbaSize(0) == 0;
  }

  /** `offset | bar_id as u32`: an offset register, with the BAR indicator in its low bits. */
  function OffsetRegister(offset: nat, barId: nat): bv32
  {
    ((offset % U32_LIMIT) as bv32) | ((barId % U32_LIMIT) as bv32)
  }

  /**
   * The capability registers `init_msix` writes: the control word, the
   * write mask of the control word, and the table and PBA offset registers.
   */
  datatype Capability = Capability(config: seq<byte>, writeMask: seq<byte>)

  /** Does `c` hold the registers of a capability at `capOffset` with the given contents? */
  predicate CapabilityHolds(c: Capability, capOffset: nat, control: bv16, table: bv32, pba: bv32)
  {
    && capOffset + CAP_PBA + 4 <= |c.config| && capOffset + CAP_CONTROL + 2 <= |c.writeMask|
    && U16At(c.config, capOffset + CAP_CONTROL) == control
    && U16At(c.writeMask, capOffset + CAP_CONTROL) == CAP_FUNC_MASK | CAP_ENABLE
    && U32At(c.config, capOffset + CAP_TABLE) == table
    && U32At(c.config, capOffset + CAP_PBA) == pba
  }

  /**
   * The four stores into the capability, in the source's order: the control
   * word, its write mask, the table offset register, the PBA offset register.
   * A store that does not fit the buffer fails and the rest are not made.
   */
  function WriteCapability(config: seq<byte>, writeMask: seq<byte>, capOffset: nat,
                           control: bv16, table: bv32, pba: bv32): (r: Result<Capability, InitError>)
    ensures r.Err? <==> capOffset + CAP_PBA + 4 > |config| || capOffset + CAP_CONTROL + 2 > |writeMask|
    ensures r.Ok? ==> |r.value.config| == |config| && |r.value.writeMask| == |writeMask|
    ensures r.Ok? ==> CapabilityHolds(r.value, capOffset, control, table, pba)
  {
    var c1 := StoreU16(config, capOffset + CAP_CONTROL, control);
    if c1.Err? then Err(c1.error)
    else
      var m := StoreU16(writeMask, capOffset + CAP_CONTROL, CAP_FUNC_MASK | CAP_ENABLE);
      if m.Err? then Err(m.error)
      else
        var c2 := StoreU32(c1.value, capOffset + CAP_TABLE, table);
        if c2.Err? then Err(c2.error)
        else
          var c3 := StoreU32(c2.value, capOffset + CAP_PBA, pba);
          if c3.Err? then Err(c3.error)
          else
            U16AtFrame(c1.value, c3.value, capOffset + CAP_CONTROL);
            U32AtFrame(c2.value, c3.value, capOffset + CAP_TABLE);
            Ok(Capability(c3.value, m.value))
  }

  /** The table and PBA offsets: the device's own, or the table at 0 and the PBA right after it. */
  function Offsets(vectorNr: nat, offsets: Option<(nat, nat)>): (r: (nat, nat))
    ensures offsets.None? ==> r == (0, TableSize(vectorNr))
    ensures offsets.Some? ==> r == offsets.value
  {
    if offsets.Some? then offsets.value else (0, TableSize(vectorNr))
  }

  /** The BAR size: the next power of two of the two regions together, but at least `minBarSize`. */
  function BarSize(regions: nat, minBarSize: nat): (r: nat)
    ensures r >= regions && r >= minBarSize && r >= NextPow2(regions)
    ensures r == minBarSize || (IsPow2(r) && forall q: nat :: IsPow2(q) && q >= regions ==> r <= q)
  {
    var p := NextPow2(regions);
    forall q: nat | IsPow2(q) && q >= regions ensures p <= q {
      NextPow2Least(regions, q);
    }
    if p >= minBarSize then p else minBarSize
  }

  /**
   * `init_msix`: write the capability (the table size, the writable enable
   * and function-mask bits, the two offset registers), build the `Msix`
   * state and size the BAR.
   */
  function InitMsix(config: seq<byte>, writeMask: seq<byte>, capOffset: nat, barId: nat,
                    vectorNr: nat, offsets: Option<(nat, nat)>, hasIrqManager: bool,
                    minBarSize: nat): (r: Result<Installed, InitError>)
    requires vectorNr < U32_LIMIT && capOffset < U16_LIMIT
    requires offsets.Some? ==> offsets.value.0 < U32_LIMIT && offsets.value.1 < U32_LIMIT
    ensures r.Err? <==> capOffset + CAP_PBA + 4 > |config| || capOffset + CAP_CONTROL + 2 > |writeMask|
    ensures r.Ok? ==>
      var i := r.value;
      && i.invalidCount == (vectorNr == 0 || vectorNr > TABLE_SIZE_MAX + 1)
      && (i.tableOffset, i.pbaOffset) == Offsets(vectorNr, offsets)
      && |i.config| == |config| && |i.writeMask| == |writeMask|
      && CapabilityHolds(Capability(i.config, i.writeMask), capOffset, ControlValue(vectorNr),
                         OffsetRegister(i.tableOffset, barId), OffsetRegister(i.pbaOffset, barId))
      && i.overlap == RangesOverlap(i.tableOffset, TableSize(vectorNr), i.pbaOffset, PbaSize32(vectorNr))
      && i.msix == New(TableSize(vectorNr), PbaSize32(vectorNr), capOffset, hasIrqManager)
      && i.barSize == BarSize(RegionsSize(vectorNr), minBarSize)
  {
    var tableSize := TableSize(vectorNr);
    var pbaSize := PbaSize32(vectorNr);
    var (tableOffset, pbaOffset) := Offsets(vectorNr, offsets);
    var cap := WriteCapability(config, writeMask, capOffset, ControlValue(vectorNr),
                               OffsetRegister(tableOffset, barId), OffsetRegister(pbaOffset, barId));
    if cap.Err? then Err(cap.error)
    else
      Ok(Installed(cap.value.config, cap.value.writeMask,
                   New(tableSize, pbaSize, capOffset, hasIrqManager),
                   tableOffset, pbaOffset, BarSize(RegionsSize(vectorNr), minBarSize),
                   vectorNr == 0 || vectorNr > TABLE_SIZE_MAX + 1,
                   RangesOverlap(tableOffset, tableSize, pbaOffset, pbaSize)))
  }

  /**
   * With a valid vector count and the default layout the PBA follows the
   * table without overlap, and the state is well formed with `vectorNr`
   * vectors, all masked and none pending.
   */
  lemma DefaultLayout(config: seq<byte>, writeMask: seq<byte>, capOffset: nat, barId: nat,
                      vectorNr: nat, hasIrqManager: bool, minBarSize: nat)
    requires 1 <= vectorNr <= TABLE_SIZE_MAX + 1 && capOffset < U16_LIMIT
    requires capOffset + CAP_PBA + 4 <= |config| && capOffset + CAP_CONTROL + 2 <= |writeMask|
    ensures var r := InitMsix(config, writeMask, capOffset, barId, vectorNr, None, hasIrqManager, minBarSize);
      && r.Ok? && !r.value.invalidCount && !r.value.overlap
      && r.value.tableOffset == 0 && r.value.pbaOffset == TABLE_ENTRY_SIZE * vectorNr
      && Wf(r.value.msix) && VectorCount(r.value.msix) == vectorNr && NoStrandedPending(r.value.msix)
      && (forall u :: 0 <= u < vectorNr ==> IsVectorMasked(r.value.msix, u) && !Pending(r.value.msix, u))
  {
    ValidCountNoWrap(vectorNr);
    NewAllMaskedNonePending(vectorNr, capOffset, hasIrqManager);
  }

  /**
   * With a valid vector count the control word reads back one less than the
   * count, the table size in the encoding of the capability, and the BAR
   * covers the table and the PBA.
   */
  lemma DefaultControlWord(config: seq<byte>, writeMask: seq<byte>, capOffset: nat, barId: nat,
                           vectorNr: nat, offsets: Option<(nat, nat)>, hasIrqManager: bool, minBarSize: nat)
    requires 1 <= vectorNr <= TABLE_SIZE_MAX + 1 && capOffset < U16_LIMIT
    requires offsets.Some? ==> offsets.value.0 < U32_LIMIT && offsets.value.1 < U32_LIMIT
    requires capOffset + CAP_PBA + 4 <= |config| && capOffset + CAP_CONTROL + 2 <= |writeMask|
    ensures var r := InitMsix(config, writeMask, capOffset, barId, vectorNr, offsets, hasIrqManager, minBarSize);
      && r.Ok?
      && U16At(r.value.config, capOffset + CAP_CONTROL) + 1 == vectorNr as bv16
      && r.value.barSize >= TABLE_ENTRY_SIZE * vectorNr + PbaSize(vectorNr)
  {
    var r := InitMsix(config, writeMask, capOffset, barId, vectorNr, offsets, hasIrqManager, minBarSize);
    ValidCountNoWrap(vectorNr);
    var w := U16At(r.value.config, capOffset + CAP_CONTROL);
    assert w == ControlValue(vectorNr);
    assert w + 1 == Low16(vectorNr);
  }

  /** A vector count of 0 is reported, the control word wraps to `0xffff`, and the regions are empty. */
  lemma ZeroVectorsWraps(config: seq<byte>, writeMask: seq<byte>, capOffset: nat, barId: nat,
                         hasIrqManager: bool, minBarSize: nat)
    requires capOffset < U16_LIMIT
    requires capOffset + CAP_PBA + 4 <= |config| && capOffset + CAP_CONTROL + 2 <= |writeMask|
    ensures var r := InitMsix(config, writeMask, capOffset, barId, 0, None, hasIrqManager, minBarSize);
      && r.Ok? && r.value.invalidCount
      && U16At(r.value.config, capOffset + CAP_CONTROL) == 0xffff
      && |r.value.msix.table| == 0 && |r.value.msix.pba| == 0
  {
    ZeroCountWraps();
  }
}
