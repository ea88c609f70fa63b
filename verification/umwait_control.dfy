/**
 * The virtual `IA32_UMWAIT_CONTROL` model-specific register
 * (modules/axvm/src/device/x86_64/device_emu/msrs_to_save.rs): one 32-bit
 * value whose bits 2-31 are the maximum wait time and whose bit 0 disables
 * the C0.2 state; bit 1 is reserved.
 *
 * The guest reads the value zero-extended to 64 bits and writes a 64-bit
 * value of which the low 32 bits are kept.
 */
module UmwaitControl {
  import opened Outcomes

  const MSR_INDEX: bv32 := 0xe1
  const TIME_MASK: bv32 := !3
  const C02_DISABLE: bv32 := 1

  datatype Control = Control(value: bv32)

  /** The half-open range of MSR indices a device claims. */
  datatype MsrRange = MsrRange(start: bv32, end: bv32)

  predicate InRange(range: MsrRange, msr: bv32)
  {
    range.start <= msr < range.end
  }

  /** `Ia32UmwaitControl::new`: the time with its two low bits cleared, and the C0.2 bit. */
  function New(maxTime: bv32, c02Disable: bv32): (r: Control)
    ensures r.value & 2 == 0
    ensures r.value & 1 == c02Disable & 1
    ensures r.value & TIME_MASK == maxTime & TIME_MASK
  {
    Control((maxTime & TIME_MASK) | (c02Disable & C02_DISABLE))
  }

  /** `msr_range`: the device answers for exactly one MSR, `0xe1`. */
  function Range(c: Control): (r: MsrRange)
    ensures forall msr :: InRange(r, msr) <==> msr == MSR_INDEX
  {
    MsrRange(MSR_INDEX, MSR_INDEX + 1)
  }

  /** The zero-extending cast `value as u64`. */
  function Widen(v: bv32): (r: bv64)
    ensures r >> 32 == 0
  {
    v as bv64
  }

  /** The truncating cast `value as u32`: the low 32 bits. */
  function Narrow(v: bv64): (r: bv32)
    ensures Widen(r) == v & 0xffff_ffff
  {
    (v & 0xffff_ffff) as bv32
  }

  /** `read`: always succeeds with the stored value; the register is left as it was. */
  function Read(c: Control, msr: bv32): (r: Result<(Control, bv64), ()>)
    ensures r.Ok? && r.value.0 == c
    ensures Narrow(r.value.1) == c.value && r.value.1 >> 32 == 0
  {
    Ok((c, Widen(c.value)))
  }

  /**
   * `write`: always succeeds and keeps the low 32 bits of `v`, without the
   * masks `New` applies, so the reserved bit 1 can be set this way.
   */
  function Write(c: Control, msr: bv32, v: bv64): (r: Result<Control, ()>)
    ensures r.Ok? && Widen(r.value.value) == v & 0xffff_ffff
  {
    Ok(Control(Narrow(v)))
  }

  /** Writing and reading back returns the written value truncated to 32 bits. */
  lemma WriteThenRead(c: Control, msr: bv32, v: bv64)
    ensures Read(Write(c, msr, v).value, msr).value.1 == v & 0xffff_ffff
  {
  }

  /** Reading and writing back what was read leaves the register as it was. */
  lemma ReadThenWrite(c: Control, msr: bv32)
    ensures Write(c, msr, Read(c, msr).value.1).value == c
  {
  }

  /** A write can set the reserved bit that `New` always clears. */
  lemma WriteSetsReserved(c: Control, msr: bv32)
    ensures Write(c, msr, 2).value.value & 2 == 2
    ensures forall t, d :: New(t, d).value & 2 == 0
  {
  }
}
