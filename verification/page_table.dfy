/**
 * The boot-time Sv39 root page tables of the loaders: `PageTable::new`
 * (apps/loader/src/page_table.rs) and `APP_PT_SV39::new`
 * (apps/loader_mul/src/main.rs). Each is a 512-entry table of 64-bit page
 * table entries holding only 1 GiB leaf mappings.
 *
 * Entry layout follows section 4.4 of the RISC-V Privileged Architecture
 * (Sv39): bit 0 V, 1 R, 2 W, 3 X, 4 U, 5 G, 6 A, 7 D, bits 10-53 the
 * physical page number, bits 54-63 reserved. A root-level leaf maps 1 GiB,
 * and it is misaligned unless the low 18 bits of its page number are zero.
 */
module PageTable {
  import opened Outcomes

  type Entry = bv64

  const ENTRIES: nat := 512
  /** V, R, W, X, G, A and D set; U clear. */
  const VRWX_GAD: Entry := 0xef
  /** The page number of physical address 0x8000_0000. */
  const DRAM_PPN: Entry := 0x80000
  const GIB: bv64 := 0x4000_0000

  // ---------------------------------------------------------------------------
  // Sv39 entries
  // ---------------------------------------------------------------------------

  function Flags(e: Entry): Entry { e & 0x3ff }
  function Ppn(e: Entry): Entry { (e >> 10) & 0xfff_ffff_ffff }

  /** A valid, global, kernel-only, readable-writable-executable, accessed and dirty leaf. */
  predicate KernelRwxLeaf(e: Entry)
  {
    Flags(e) == VRWX_GAD
  }

  /** A root-level leaf maps a whole 1 GiB region, with nothing in the reserved bits. */
  predicate GigaAligned(e: Entry)
  {
    Ppn(e) & 0x3ffff == 0 && e >> 54 == 0
  }

  /** The physical address at which a root-level leaf's 1 GiB region starts. */
  function PhysBase(e: Entry): bv64
  {
    Ppn(e) << 12
  }

  /** The root slot of virtual address `va`: bits 30-38. */
  function Slot(va: bv64): (r: bv64)
    ensures r < 512
  {
    (va >> 30) & 0x1ff
  }

  /** The offset of `va` inside its 1 GiB region. */
  function GigaOffset(va: bv64): bv64
  {
    va & 0x3fff_ffff
  }

  /** Sv39 addresses are 39 bits wide, sign-extended to 64. */
  predicate Canonical(va: bv64)
  {
    if va & 0x40_0000_0000 == 0 then va >> 39 == 0 else va >> 39 == 0x1ff_ffff
  }

  /** Valid, and readable or executable: the walk stops here. */
  predicate IsLeaf(e: Entry)
  {
    e & 1 == 1 && e & 0xa != 0
  }

  /** The address `off` bytes into the 1 GiB region starting at `base`. */
  function Place(base: bv64, off: bv64): bv64
  {
    base | off
  }

  /** Entry `slot` of a root table. */
  function At(pt: seq<Entry>, slot: bv64): Entry
    requires |pt| == ENTRIES && slot < 512
  {
    pt[slot as int]
  }

  lemma AtSlots(pt: seq<Entry>)
    requires |pt| == ENTRIES
    ensures At(pt, 0) == pt[0] && At(pt, 1) == pt[1] && At(pt, 2) == pt[2] && At(pt, 0x102) == pt[0x102]
  {
  }

  /**
   * The 1 GiB translation of `va` through root table `pt`: `None` when the
   * address is not canonical or its root entry is not a valid aligned leaf.
   */
  function Translate(pt: seq<Entry>, va: bv64): (r: Option<bv64>)
    requires |pt| == ENTRIES
  {
    var e := At(pt, Slot(va));
    if Canonical(va) && IsLeaf(e) && GigaAligned(e)
    then Some(Place(PhysBase(e), GigaOffset(va)))
    else None
  }

  /** Translation through a valid aligned leaf in the slot of `va` offsets its physical base. */
  lemma TranslateLeaf(pt: seq<Entry>, va: bv64, slot: bv64)
    requires |pt| == ENTRIES && slot < 512 && Slot(va) == slot && Canonical(va)
    requires KernelRwxLeaf(At(pt, slot)) && GigaAligned(At(pt, slot))
    ensures Translate(pt, va) == Some(Place(PhysBase(At(pt, slot)), GigaOffset(va)))
  {
    LeafBits(At(pt, slot));
  }

  lemma LeafBits(e: Entry)
    requires KernelRwxLeaf(e)
    ensures IsLeaf(e)
  {
  }

  // ---------------------------------------------------------------------------
  // The tables
  // ---------------------------------------------------------------------------

  /** The leaf mapping the 1 GiB at physical 0x8000_0000. */
  const DRAM_LEAF: Entry := (DRAM_PPN << 10) | VRWX_GAD

  function Zeros(): (r: seq<Entry>)
    ensures |r| == ENTRIES && forall k :: 0 <= k < |r| ==> r[k] == 0
  {
    seq(ENTRIES, k => 0)
  }

  /** `PageTable::new(id)`: the four entries, written in the order the loader writes them. */
  function LoaderTable(id: bv64): (r: seq<Entry>)
    ensures |r| == ENTRIES
    ensures forall k :: 0 <= k < ENTRIES && k != 0 && k != 1 && k != 2 && k != 0x102 ==> r[k] == 0
    ensures r[0] == VRWX_GAD
    ensures r[1] == DRAM_LEAF && r[2] == DRAM_LEAF && r[0x102] == DRAM_LEAF
  {
    Zeros()[2 := DRAM_LEAF][0x102 := DRAM_LEAF][0 := (0x00000 << 10) | VRWX_GAD][1 := DRAM_LEAF]
  }

  /**
   * `APP_PT_SV39::new(id)`: as the loader's table, except that slot 1 maps
   * the application's own region `((1 + 2 * id) << 29) | 0xef`. The
   * multiplication by two overflows, and panics, from `id = 2^63` on.
   */
  function AppTable(id: bv64): (r: Option<seq<Entry>>)
    ensures r.None? <==> id >= 0x8000_0000_0000_0000
    ensures r.Some? ==> |r.value| == ENTRIES
    ensures r.Some? ==> r.value[1] == AppEntry(id)
    ensures r.Some? ==> forall k :: 0 <= k < ENTRIES && k != 1 ==> r.value[k] == LoaderTable(id)[k]
  {
    if id >= 0x8000_0000_0000_0000 then None
    else Some(Zeros()[2 := DRAM_LEAF][0x102 := DRAM_LEAF][0 := (0x00000 << 10) | VRWX_GAD][1 := AppEntry(id)])
  }

  /** Slot 1 of application `id`'s table; the shift drops the bits it pushes out. */
  function AppEntry(id: bv64): Entry
  {
    ((1 + id * 2) << 29) | VRWX_GAD
  }

  // ---------------------------------------------------------------------------
  // Properties
  // ---------------------------------------------------------------------------

  /** The leaf constants carry the kernel RWX flags and are 1 GiB aligned. */
  lemma LeafConstants()
    ensures KernelRwxLeaf(VRWX_GAD) && GigaAligned(VRWX_GAD) && PhysBase(VRWX_GAD) == 0
    ensures KernelRwxLeaf(DRAM_LEAF) && GigaAligned(DRAM_LEAF) && PhysBase(DRAM_LEAF) == 0x8000_0000
  {
  }

  /** Every entry of the loader's table is empty or a kernel RWX 1 GiB leaf, and `id` plays no part. */
  lemma LoaderTableLeaves(id: bv64, other: bv64, k: nat)
    requires k < ENTRIES
    ensures LoaderTable(id)[k] == 0 || (KernelRwxLeaf(LoaderTable(id)[k]) && GigaAligned(LoaderTable(id)[k]))
    ensures LoaderTable(id) == LoaderTable(other)
  {
    LeafConstants();
  }

  /** Application 0's table is the loader's table. */
  lemma AppZeroIsLoader(id: bv64)
    ensures AppTable(0) == Some(LoaderTable(id))
  {
    assert AppEntry(0) == DRAM_LEAF;
  }

  /**
   * Up to `id < 2^24` the application slot is a kernel RWX 1 GiB leaf at
   * physical `0x8000_0000 + id * 4 GiB`; distinct ids never share it.
   */
  lemma AppEntryLeaf(id: bv64)
    requires id < 0x100_0000
    ensures KernelRwxLeaf(AppEntry(id)) && GigaAligned(AppEntry(id))
    ensures PhysBase(AppEntry(id)) == 0x8000_0000 + id * 0x1_0000_0000
  {
  }

  lemma AppEntryDistinct(a: bv64, b: bv64)
    requires a < 0x4_0000_0000 && b < 0x4_0000_0000
    requires a != b
    ensures AppEntry(a) != AppEntry(b)
  {
  }

  /**
   * For `2^24 <= id < 2^34` the page number runs into the reserved bits
   * 54-63, so the entry is not a valid 1 GiB leaf.
   */
  lemma AppEntryReserved(id: bv64)
    requires 0x100_0000 <= id < 0x4_0000_0000
    ensures !GigaAligned(AppEntry(id))
  {
  }

  /**
   * From `id = 2^34` on the shift drops the high bits of `1 + id * 2`: ids
   * `2^34` apart share one entry, so `2^34` and `2^35` get application 0's
   * aligned leaf onto physical `0x8000_0000`.
   */
  lemma AppEntryWraps(id: bv64)
    ensures AppEntry(id + 0x4_0000_0000) == AppEntry(id)
    ensures AppEntry(0x4_0000_0000) == AppEntry(0) == DRAM_LEAF
    ensures AppEntry(0x8_0000_0000) == AppEntry(0)
  {
  }

  /**
   * The regions the loader's comments name, as (virtual start, physical
   * start) pairs of 1 GiB: `0x0` identity, `0x4000_0000` and `0x8000_0000`
   * onto physical `0x8000_0000`, and `0xffff_ffc0_8000_0000` onto the same.
   */
  const LOADER_REGIONS: seq<(bv64, bv64)> :=
    [(0, 0), (GIB, 0x8000_0000), (0x8000_0000, 0x8000_0000), (0xffff_ffc0_8000_0000, 0x8000_0000)]

  lemma LoaderTranslates(id: bv64, i: nat, x: bv64)
    requires i < |LOADER_REGIONS| && x < GIB
    ensures Translate(LoaderTable(id), Place(LOADER_REGIONS[i].0, x)) == Some(Place(LOADER_REGIONS[i].1, x))
  {
    var pt := LoaderTable(id);
    LeafConstants();
    AtSlots(pt);
    if i == 0 {
      PlaceLow(0, 0, x);
      TranslateLeaf(pt, Place(0, x), 0);
    } else if i == 1 {
      PlaceLow(GIB, 1, x);
      TranslateLeaf(pt, Place(GIB, x), 1);
    } else if i == 2 {
      PlaceLow(0x8000_0000, 2, x);
      TranslateLeaf(pt, Place(0x8000_0000, x), 2);
    } else {
      PlaceHigh(x);
      TranslateLeaf(pt, Place(0xffff_ffc0_8000_0000, x), 0x102);
    }
  }

  /** Application `id < 2^24` sees its own 1 GiB at virtual `0x4000_0000`. */
  lemma AppTranslates(id: bv64, x: bv64)
    requires id < 0x100_0000 && x < GIB
    ensures AppTable(id).Some?
    ensures Translate(AppTable(id).value, Place(GIB, x)) == Some(Place(0x8000_0000 + id * 0x1_0000_0000, x))
  {
    var pt := AppTable(id).value;
    AppEntryLeaf(id);
    AtSlots(pt);
    PlaceLow(GIB, 1, x);
    TranslateLeaf(pt, Place(GIB, x), 1);
  }

  /** An offset below 1 GiB placed at a region in the lower half of the address space. */
  lemma PlaceLow(base: bv64, slot: bv64, x: bv64)
    requires x < GIB && slot < 256 && base == slot << 30
    ensures Slot(Place(base, x)) == slot && Canonical(Place(base, x)) && GigaOffset(Place(base, x)) == x
  {
  }

  /** The same for the region at `0xffff_ffc0_8000_0000`, root slot `0x102`. */
  lemma PlaceHigh(x: bv64)
    requires x < GIB
    ensures Slot(Place(0xffff_ffc0_8000_0000, x)) == 0x102
    ensures Canonical(Place(0xffff_ffc0_8000_0000, x)) && GigaOffset(Place(0xffff_ffc0_8000_0000, x)) == x
  {
  }

  /** A virtual address outside the four mapped regions has no translation. */
  lemma LoaderUnmapped(id: bv64, va: bv64)
    requires (va >> 30) & 0x1ff != 0 && (va >> 30) & 0x1ff != 1
    requires (va >> 30) & 0x1ff != 2 && (va >> 30) & 0x1ff != 0x102
    ensures Translate(LoaderTable(id), va).None?
  {
    var slot := (va >> 30) & 0x1ff;
    assert LoaderTable(id)[slot as int] == 0;
  }
}
