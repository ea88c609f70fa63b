# MSI-X emulation and loader pieces of an ArceOS-based hypervisor, in Dafny

This project is a functional model of the core of the MSI-X emulation in the PCI crate
(`crates/pci/src/msix.rs`), together with a few smaller pieces of the same repository, and
proofs of the properties their code promises:

- `Msix` (msix.dfy): the vector table, the pending-bit array (PBA), the function-mask and
  enable flags, `new`, `reset`, masking, pending bits, `notify`, `send_msix` and the flush
  loop of `write_config`. Interrupts are not sent. Each operation returns the list of
  `trigger(vector, dev_id)` calls it would make. The state machine keeps the invariant
  that no unmasked vector is left pending. It addresses the PBA at the corrected word
  offset `8 * (vector / 64)` (see Findings), so it follows the source exactly for devices
  of up to 64 vectors, where the two offsets agree (`PbaWords.AsWrittenAgreesBelow64`).
- `PbaWords` (pba_words.dfy): the PBA operations as the source writes them, on 64-bit
  words at byte offset `vector / 64`, and the corrected operations at byte offset
  `8 * (vector / 64)`, which are proved equal to the byte-level ones `Msix` uses.
- `MsixRegion` (msix_region.dfy): the MMIO read and write closures of `generate_region_ops`.
- `MsixInit` (msix_init.dfy) and `Pow2` (pow2.dfy): `init_msix`, which covers the sizes,
  the default offsets, the capability registers, the state and the BAR size.
- `EarlyAllocator` (early_allocator.dfy): the two-ended early byte and page allocator of
  `crates/allocator/src/early.rs`.
- `DeviceTree` (device_tree.dfy): `DeviceTree::from_bytes`, `find_node`, the
  breadth-first node iterator and `InheritedValues` of `modules/axdtb/src/tree.rs`.
- `Payload` (payload.dfy): the image builder `payload/run.py` and the loader's decoding
  of that image in `apps/loader/src/main.rs`. The image is built, and the loader is
  proved to read back exactly the applications that went in.
- `AppManager` (app_manager.dfy): the loader's fixed-capacity application table.
- `PageTable` (page_table.dfy): the Sv39 root page tables of `PageTable::new` and
  `APP_PT_SV39::new`. Entries follow section 4.4 of the RISC-V Privileged Architecture,
  and the model includes a translation function for 1 GiB leaves.
- `UmwaitControl` (umwait_control.dfy): the virtual `IA32_UMWAIT_CONTROL` MSR.

`Outcomes` (outcomes.dfy), `Bytes` (bytes.dfy) and `Bits` (bits.dfy) are shared helpers:
- `Option` and `Result`;
- little-endian 16-, 32- and 64-bit loads and stores on byte sequences;
- single-bit operations on bytes and 64-bit words.

Rust panics (an `unwrap` of `None`, a slice out of range, a `copy_from_slice` of the wrong
length, an index past a fixed array) are explicit outcomes: `Panic`, `None` or an `Err`.
The same holds for Python exceptions. Integer widths are modelled where the source wraps
or truncates. Where an arithmetic overflow would panic in a Rust debug build but wrap in a
release build, the model takes the release build; "## Left out" names each such member.

## Model

| member | source | states |
|---|---|---|
| Msix.MaskVectors | crates/pci/src/msix.rs:127-133 | after masking the first `k` vectors, exactly the control bytes of those vectors have bit 0 set; every other byte is unchanged |
| Msix.MaskedTable | crates/pci/src/msix.rs:127-133 | a zeroed table after `mask_all_vectors` is 1 at the control byte of every whole entry and 0 elsewhere |
| Msix.New | crates/pci/src/msix.rs:81-99 | buffers of the requested sizes, the PBA all zero, every whole entry's mask bit set, function-masked and enabled |
| Msix.Reset | crates/pci/src/msix.rs:101-107 | same sizes and capability offset, zero PBA, every entry masked, the default flags restored |
| Msix.ControlFlagsAreWordBits | crates/pci/src/msix.rs:109-125 | `is_enabled` (`IsEnabled`) and `is_func_masked` (`IsFuncMasked`) hold iff bits 15 and 14, respectively, of the little-endian control word at `cap_offset + 2` are set |
| Msix.VectorMaskIsControlWordBit | crates/pci/src/msix.rs:135-145 | `is_vector_masked` (`IsVectorMasked`) holds iff MSI-X is disabled, the function is masked, or bit 0 of the vector's 32-bit vector-control word is set |
| Msix.PendingByteInWord | crates/pci/src/msix.rs:147-155 | at the corrected word offset, bit `v % 64` of the PBA word holding `v` is bit `v % 8` of byte `v / 8`, the bit `IsVectorPending` tests |
| Msix.SetPendingSpec | crates/pci/src/msix.rs:157-162 | after `set_pending_vector(v)` (`SetPendingVector`), `v` is pending (`IsVectorPending`) and every other vector's pending state is unchanged |
| Msix.ClearPendingSpec | crates/pci/src/msix.rs:164-169 | after `clear_pending_vector(v)` (`ClearPendingVector`), `v` is not pending and every other vector's pending state is unchanged |
| Msix.SetPendingIdempotent | crates/pci/src/msix.rs:157-162 | setting a pending bit twice equals setting it once |
| Msix.ClearPendingEffect | crates/pci/src/msix.rs:164-169 | on the device state, clearing `v` makes exactly `v` stop being pending |
| Msix.ClearPendingVectorsUpTo | crates/pci/src/msix.rs:171-176 | after clearing vectors `0..k` in order, none of them is pending and vectors from `k` on are unchanged |
| Msix.ClearPendingVectors | crates/pci/src/msix.rs:171-176 | afterwards no vector of the device is pending, and only the PBA changed |
| Msix.GetMsixVectorReadsEntry | crates/pci/src/msix.rs:178-189 | `get_msix_vector` (`GetMsixVector`): the address and data words are the little-endian encodings of bytes 0-7 and 8-15 of the vector's table entry |
| Msix.SendMsix | crates/pci/src/msix.rs:191-198 | exactly one trigger, carrying the vector's table entry and the given device id |
| Msix.Notify | crates/pci/src/msix.rs:200-212 | an out-of-range vector changes nothing; a masked one becomes pending and nothing is sent, other vectors unchanged; an unmasked one is sent once and the state is unchanged |
| Msix.NotifyMaskedIdempotent | crates/pci/src/msix.rs:200-209 | notifying a masked vector a second time changes nothing more |
| Msix.NotifyKeepsInvariant | crates/pci/src/msix.rs:200-212 | `notify` never leaves an unmasked vector pending |
| Msix.DeliverableFrom | crates/pci/src/msix.rs:234-238 | the list is strictly ascending, holds only unmasked pending vectors, and holds all of them from `from` up |
| Msix.Flush | crates/pci/src/msix.rs:232-240 | the flush loop changes only the PBA, and it delivers only vectors of the device |
| Msix.FlushSends | crates/pci/src/msix.rs:232-240 | the flush loop sends exactly the unmasked pending vectors, in ascending order |
| Msix.FlushClears | crates/pci/src/msix.rs:232-240 | after the flush a vector is pending iff it was pending and was not delivered |
| Msix.AdoptFlags | crates/pci/src/msix.rs:224-230 | only the enable and function-mask flags change |
| Msix.WriteConfig | crates/pci/src/msix.rs:214-241 | a write missing the control high byte changes nothing. Otherwise the flags are copied from config bits 15 and 14. On a change into enabled and unmasked, the triggers are those of the deliverable vectors in ascending order and exactly those are no longer pending. Otherwise nothing is sent. Only the flags and the PBA change; the table, the capability offset and the irq-manager binding are kept. A bound irq manager is needed only when the flush sends something |
| Msix.WriteConfigRepeatQuiet | crates/pci/src/msix.rs:224-232 | repeating the same configuration write sends nothing and changes nothing |
| Msix.WriteConfigKeepsInvariant | crates/pci/src/msix.rs:214-241 | a configuration write never leaves an unmasked vector pending |
| Msix.NewAllMaskedNonePending | crates/pci/src/msix.rs:81-99 | a fresh device with `n` whole entries is well formed, every vector is masked by its own bit, and none is pending |
| Msix.ResetIsNew | crates/pci/src/msix.rs:101-107 | `reset` gives exactly the state `new` builds, with every vector masked and none pending |
| PbaWords.WordSetIsSetPending | crates/pci/src/msix.rs:157-162 | a 64-bit read, OR with `1 << (v % 64)` and write at the corrected offset is the byte-level set |
| PbaWords.WordClearIsClearPending | crates/pci/src/msix.rs:164-169 | a 64-bit read, AND with the complement and write at the corrected offset is the byte-level clear |
| PbaWords.WordPendingIsBytePending | crates/pci/src/msix.rs:147-155 | the 64-bit test at the corrected offset is the byte-level pending test |
| PbaWords.WordTestAt | crates/pci/src/msix.rs:150-151 | bit `i` of the little-endian word at `o` is bit `i % 8` of byte `o + i / 8` |
| PbaWords.WordSetAt | crates/pci/src/msix.rs:160-161 | read-modify-write of one word bit changes one bit of one byte |
| PbaWords.WordClearAt | crates/pci/src/msix.rs:167-168 | read-modify-write of one cleared word bit clears one bit of one byte |
| PbaWords.AsWrittenInRange | crates/pci/src/msix.rs:148-150 | the as-written word offset `v / 64` always lies inside a PBA sized for the vectors, so the `unwrap` never panics |
| PbaWords.AsWrittenBitPosition | crates/pci/src/msix.rs:148-149 | the as-written operations touch bit `v % 8` of byte `v / 64 + (v % 64) / 8`, which is `v / 8` below 64 |
| PbaWords.AsWrittenTest | crates/pci/src/msix.rs:147-155 | the as-written pending test (`IsVectorPendingAsWritten`) reads that bit |
| PbaWords.AsWrittenSet | crates/pci/src/msix.rs:157-162 | the as-written set (`SetPendingVectorAsWritten`) changes only that bit |
| PbaWords.AsWrittenClear | crates/pci/src/msix.rs:164-169 | the as-written clear (`ClearPendingVectorAsWritten`) changes only that bit |
| PbaWords.AsWrittenAgreesBelow64 | crates/pci/src/msix.rs:147-169 | below 64 vectors the as-written operations equal the state machine's |
| PbaWords.AsWrittenAliasing | crates/pci/src/msix.rs:157-162 | on a 16-byte PBA, setting vector 64 as written makes vector 8 read as pending and leaves vector 64's own bit clear |
| MsixRegion.ReadRegion | crates/pci/src/msix.rs:252-276 | `OutOfRange` iff the access ends past table and PBA together; inside the table a 4-byte read returns the little-endian word there, and any other size panics |
| MsixRegion.PbaReadPanics | crates/pci/src/msix.rs:263-268 | every read that reaches the PBA panics on a well-formed device |
| MsixRegion.PbaReadPanicsExample | crates/pci/src/msix.rs:263-268 | on a one-vector device, reading 4 bytes at offset 16 (the PBA) panics |
| MsixRegion.ReadRegionRebased | crates/pci/src/msix.rs:252-276 | table reads as before; a 4-byte PBA read at `offset >= table.len()` returns the PBA word at `offset - table.len()` |
| MsixRegion.WriteVectorInTable | crates/pci/src/msix.rs:295 | the vector a table write addresses, `offset as u16 / 16` (`WriteVector`), is the entry holding the written bytes and a vector of the device |
| MsixRegion.WriteMissesOtherControlBytes | crates/pci/src/msix.rs:295-298 | a 4-byte write covers the control byte of no vector other than `offset / 16` |
| MsixRegion.TableWrite | crates/pci/src/msix.rs:298 | the four bytes are replaced and nothing else; every other vector keeps its mask and pending state |
| MsixRegion.OtherVectorMask | crates/pci/src/msix.rs:296-300 | a write that misses a vector's control byte keeps its mask |
| MsixRegion.WriteRegion | crates/pci/src/msix.rs:279-310 | `OutOfRange` past table and PBA; PBA writes ignored; a table write without 4 bytes of room or 4 data bytes panics; a write that unmasks a pending vector clears it and sends it once (panicking without an irq manager); otherwise only the four bytes change |
| MsixRegion.WriteRegionKeepsInvariant | crates/pci/src/msix.rs:279-310 | a successful MMIO write never leaves an unmasked vector pending |
| MsixInit.StoreU16 | crates/pci/src/msix.rs:350-355 | fails iff the word does not fit; otherwise the word reads back and no other byte changes |
| MsixInit.StoreU32 | crates/pci/src/msix.rs:370-372 | fails iff the word does not fit; otherwise the word reads back and no other byte changes |
| MsixInit.ControlValue | crates/pci/src/msix.rs:350 | the control word plus one is the count truncated to 16 bits |
| MsixInit.ValidCountNoWrap | crates/pci/src/msix.rs:341-358 | for a count in `1..=2048` the table is `16 * n` bytes, the PBA `PbaSize(n)` bytes and no longer, and nothing wraps |
| Msix.PbaNoLongerThanTable | crates/pci/src/msix.rs:357-358 | the PBA of `n` vectors, one 8-byte word per 64 of them, is never longer than their 16-byte-per-vector table |
| MsixInit.ZeroCountWraps | crates/pci/src/msix.rs:350-358 | a count of 0 gives empty regions and a control word of `0xffff` |
| MsixInit.WriteCapability | crates/pci/src/msix.rs:348-372 | fails iff a register does not fit; otherwise the control word, its write mask and both offset registers hold the given values |
| MsixInit.Offsets | crates/pci/src/msix.rs:359 | without device offsets the table is at 0 and the PBA right after it |
| MsixInit.BarSize | crates/pci/src/msix.rs:389-390 | `max(next_power_of_two(regions), minimum)`: at least the least power of two covering the regions and at least the minimum, and equal to one of the two |
| MsixInit.InitMsix | crates/pci/src/msix.rs:331-403 | fails iff a capability store does not fit; otherwise the flags report an invalid count and overlap as the checks do, the registers hold the values, and the state is `Msix::new` of the computed sizes |
| MsixInit.DefaultLayout | crates/pci/src/msix.rs:357-369 | with a valid count and default offsets nothing is reported, the PBA follows the table, and every vector is masked and not pending |
| MsixInit.DefaultControlWord | crates/pci/src/msix.rs:350-390 | with a valid count the control word reads back as count minus one and the BAR covers table and PBA |
| MsixInit.ZeroVectorsWraps | crates/pci/src/msix.rs:341-358 | a count of 0 is reported, the control word is `0xffff`, and both regions are empty |
| Pow2.NextPow2 | crates/pci/src/msix.rs:389 | a power of two at least `x`, whose half is below `x` unless it is 1 |
| Pow2.NextPow2Least | crates/pci/src/msix.rs:389 | `next_power_of_two` is at most every power of two at least `x` |
| Pow2.AlignDown | crates/allocator/src/early.rs:75 | rounding `x` down to the alignment gives a multiple of `a` in `(x - a, x]` |
| Pow2.AlignUp | crates/allocator/src/early.rs:40-41 | rounding `x` up to the alignment gives a multiple of `a` in `[x, x + a)` |
| Pow2.AlignDownGreatest | crates/allocator/src/early.rs:75 | rounding down gives the greatest multiple of `a` not above `x` |
| EarlyAllocator.New | crates/allocator/src/early.rs:21-30 | an empty arena that satisfies the invariant, with no allocations |
| EarlyAllocator.Init | crates/allocator/src/early.rs:74-87 | panics iff no word-aligned arena fits; otherwise an arena inside `[start, start + size)` with word-aligned bounds, both sides at their ends and the counts zero |
| EarlyAllocator.InitLargest | crates/allocator/src/early.rs:75-76 | every word-aligned range inside `[start, start + size)` lies inside the arena |
| EarlyAllocator.AddMemory | crates/allocator/src/early.rs:89-91 | always `NoMemory`, state unchanged |
| EarlyAllocator.Alloc | crates/allocator/src/early.rs:35-48 | `InvalidParam` iff the alignment is not a power of two; success iff the rounded block fits below `page_ava`; the block is aligned, lies in `[byte_ava, page_ava)`, only `byte_ava` and the count change; the invariant is kept |
| EarlyAllocator.Dealloc | crates/allocator/src/early.rs:50-58 | a position outside `(start, byte_ava)` changes nothing; otherwise the count drops by one and `byte_ava` rewinds to `start` when it reaches zero; the invariant is kept |
| EarlyAllocator.DeallocNeverWraps | crates/allocator/src/early.rs:53 | under the invariant a counted free has a live allocation, so the counter does not wrap |
| EarlyAllocator.PagesSize | crates/allocator/src/early.rs:107 | the least multiple of the alignment that holds the pages' bytes |
| EarlyAllocator.AllocPagesAsWritten | crates/allocator/src/early.rs:96-115 | `InvalidParam` iff the alignment is not a page-multiple power of two or no pages are asked; for valid parameters, success iff `page_ava - size` in `usize`, rounded down to the alignment, is not below `byte_ava`; on success that aligned address becomes `page_ava` |
| EarlyAllocator.AllocPages | crates/allocator/src/early.rs:96-115 | the same parameter checks; for valid parameters, success iff `size <= page_ava` and `page_ava - size` rounded down to the alignment is not below `byte_ava`; on success the pages lie aligned inside `[byte_ava, page_ava)`, and the invariant is kept |
| EarlyAllocator.AllocPagesAgree | crates/allocator/src/early.rs:107-110 | when the request does not exceed `page_ava`, the as-written and intended operations agree |
| EarlyAllocator.AllocPagesWraps | crates/allocator/src/early.rs:108-110 | a request above `page_ava` as written returns an address past the arena and breaks the invariant; the intended operation gives `NoMemory` |
| EarlyAllocator.ModPageMultiple | crates/allocator/src/early.rs:97 | `align % PAGE_SIZE == 0` is being a multiple of the page size |
| EarlyAllocator.DeallocPages | crates/allocator/src/early.rs:117-125 | a position outside `(page_ava, start + len)` changes nothing; otherwise the count drops and `page_ava` rewinds to the arena end at zero; the invariant is kept |
| EarlyAllocator.DeallocPagesNeverWraps | crates/allocator/src/early.rs:119 | under the invariant the page counter does not wrap |
| EarlyAllocator.ByteAllocsDisjoint | crates/allocator/src/early.rs:35-48 | two successive byte blocks do not overlap |
| EarlyAllocator.BytesThenPagesDisjoint | crates/allocator/src/early.rs:96-115 | pages allocated after a byte block lie above it |
| EarlyAllocator.PagesThenBytesDisjoint | crates/allocator/src/early.rs:35-48 | a byte block allocated after pages lies below them |
| EarlyAllocator.PageAllocsDisjoint | crates/allocator/src/early.rs:96-115 | two successive page allocations do not overlap |
| EarlyAllocator.Accounting | crates/allocator/src/early.rs:60-137 | under the invariant used and available bytes add up to the arena below `page_ava` and within the total; used and available pages fit in the total pages |
| EarlyAllocator.InitAccounting | crates/allocator/src/early.rs:74-87 | a fresh arena has nothing used and everything available |
| EarlyAllocator.UsedBytes | crates/allocator/src/early.rs:64-66 | `used_bytes` is a `usize`, and the distance from `start` to the byte frontier whenever that does not wrap |
| EarlyAllocator.AvailableBytes | crates/allocator/src/early.rs:68-70 | `available_bytes` is a `usize`, and the gap between the byte and page frontiers whenever that does not wrap |
| EarlyAllocator.UsedPages | crates/allocator/src/early.rs:131-133 | `used_pages` is the whole pages between `page_ava` and the arena end whenever that does not wrap |
| EarlyAllocator.AvailablePages | crates/allocator/src/early.rs:135-137 | `available_pages` is the whole pages between `byte_ava` and `page_ava` whenever that does not wrap |
| EarlyAllocator.TotalBytes | crates/allocator/src/early.rs:60-62 | under the invariant, `total_bytes` reaches from `start` at least to the page frontier, so it covers everything handed out or still free |
| EarlyAllocator.TotalPages | crates/allocator/src/early.rs:127-129 | `total_pages` is the number of whole pages in the arena |
| DeviceTree.FromBytes | modules/axdtb/src/tree.rs:23-39 | panics iff the blob is shorter than 4 bytes; a wrong magic number gives `InvalidMagicNumber`; a tree only with the magic and a successful parse |
| DeviceTree.Split | modules/axdtb/src/tree.rs:63 | at least one piece, none containing `/` |
| DeviceTree.JoinSplit | modules/axdtb/src/tree.rs:63 | joining the pieces with `/` gives the path back |
| DeviceTree.SplitJoin | modules/axdtb/src/tree.rs:63 | splitting joined slash-free pieces gives the pieces back |
| DeviceTree.FindChild | modules/axdtb/src/tree.rs:67 | a child named `name` exists iff one is found, and the found one has that name |
| DeviceTree.WalkAppend | modules/axdtb/src/tree.rs:66-72 | walking `a + b` walks `a` and then `b` from where it ends, or stops at the first missing child |
| DeviceTree.FindNode | modules/axdtb/src/tree.rs:62-77 | a non-empty path not starting with `/` is `None`; the empty path is the root |
| DeviceTree.NoLeadingSlash | modules/axdtb/src/tree.rs:64 | such a path has a non-empty first piece |
| DeviceTree.FindNodeWalks | modules/axdtb/src/tree.rs:62-77 | `/a/b/c` finds what walking `a`, `b`, `c` from the root finds |
| DeviceTree.FindNodeSlash | modules/axdtb/src/tree.rs:62-77 | `/` finds the root's child with the empty name, not the root |
| DeviceTree.Bfs | modules/axdtb/src/tree.rs:89-100 | the iterator yields as many nodes as the queued subtrees hold |
| DeviceTree.BfsAppend | modules/axdtb/src/tree.rs:89-100 | draining `q + r` yields `q`, then what `r` followed by `q`'s children yields |
| DeviceTree.BfsLevels | modules/axdtb/src/tree.rs:89-100 | a queue is yielded whole, then one level further down |
| DeviceTree.IterRootFirst | modules/axdtb/src/tree.rs:113-117 | iterating a tree yields the root, then its children in order, and one node per node of the tree |
| DeviceTree.NewInherited | modules/axdtb/src/tree.rs:124-126 | finds nothing |
| DeviceTree.Find | modules/axdtb/src/tree.rs:128-135 | `None` iff no entry has the name; otherwise the value of the earliest entry with it |
| DeviceTree.Insert | modules/axdtb/src/tree.rs:137-139 | appends the entry and keeps the earlier ones |
| DeviceTree.InsertThenFind | modules/axdtb/src/tree.rs:128-139 | after inserting, a new name finds the value, an existing name keeps its earlier value, and other names are unchanged |
| Payload.LeRoundTrip | payload/run.py:24 | decoding the `k` little-endian bytes of a number below `256^k` gives it back |
| Payload.Word | payload/run.py:24 | `struct.pack('<Q', x)` is 8 bytes whose little-endian value is `x` |
| Payload.WriteAt | payload/run.py:29-35 | a seek-and-write replaces the written range, the file is as long as the longer of itself and the range end, every other byte is kept, and an empty write changes nothing |
| Payload.OffsetNext | payload/run.py:36-37 | each application's contents start where the previous one's end |
| Payload.OffsetsOrdered | payload/run.py:20-37 | the first contents start at `8 * (2n + 1)`, and contents never overlap |
| Payload.Decode | apps/loader/src/main.rs:14-21 | the count is word 0, and application `i` starts at `PLASH_START` plus word `1 + 2i` with size word `2 + 2i`; `None` iff the image is too short for the header |
| Payload.Code | apps/loader/src/main.rs:20-23 | the bytes of an application, present iff they lie inside the image |
| Payload.Build | payload/run.py:17-37 | `None` iff a value does not fit 64 bits; otherwise the image is at least 32 MiB, decodes into every file's offset and size, and each application's bytes are the file |
| Payload.WriteEntry | payload/run.py:28-35 | one loop round keeps what was built and adds header entry `i` and file `i` |
| Payload.TooLarge | payload/run.py:30-31 | an offset or size of `2^64` or more cannot be packed |
| Payload.LoaderReadsBack | apps/loader/src/main.rs:13-25 | a finished image decodes into the applications it was built from, and each one's bytes are its file |
| AppManager.ZeroContext | apps/loader/src/appmanager.rs:18-24 | return address, stack pointer and the twelve saved registers are zero |
| AppManager.New | apps/loader/src/appmanager.rs:42-49 | zero count and current id, twenty zero start slots, ten zero task contexts |
| AppManager.UpdateNumApp | apps/loader/src/appmanager.rs:50-52 | sets the count and changes nothing else |
| AppManager.UpdateCurrentId | apps/loader/src/appmanager.rs:65-67 | sets the current id and changes nothing else |
| AppManager.SetThenGet | apps/loader/src/appmanager.rs:50-70 | `get_num_app` (`GetNumApp`) returns the count `update_num_app` stored and `get_current_id` (`GetCurrentId`) the id `update_current_id` stored; each setter leaves the other getter alone |
| AppManager.UpdateAppStart | apps/loader/src/appmanager.rs:56-61 | panics iff more than 20 starts are given; otherwise the first slots hold them and the rest, count, id and contexts are unchanged |
| AppManager.GetAppStart | apps/loader/src/appmanager.rs:62-64 | panics iff the index is 20 or more |
| AppManager.AppStartReadBack | apps/loader/src/appmanager.rs:56-64 | after `update_app_start(v)`, slot `k` reads `v[k]` below `v.len()` and its old value above |
| PageTable.LoaderTable | apps/loader/src/page_table.rs:9-25 | 512 entries, zero except entry 0 = `0xef` and entries 1, 2, `0x102` = `(0x80000 << 10) \| 0xef` |
| PageTable.LoaderTableLeaves | apps/loader/src/page_table.rs:9-25 | every entry is zero or a kernel read-write-execute 1 GiB leaf, and `id` plays no part |
| PageTable.LeafConstants | apps/loader/src/page_table.rs:14-23 | the two entry values are valid, aligned kernel leaves at physical 0 and `0x8000_0000` |
| PageTable.LoaderTranslates | apps/loader/src/page_table.rs:13-23 | the four commented regions translate: `0x0` identity, `0x4000_0000`, `0x8000_0000` and `0xffff_ffc0_8000_0000` onto `0x8000_0000`, offset kept |
| PageTable.LoaderUnmapped | apps/loader/src/page_table.rs:10-11 | every other root slot translates nothing |
| PageTable.AppTable | apps/loader_mul/src/main.rs:20-34 | panics iff `id * 2` overflows; otherwise entry 1 is `((1 + 2 id) << 29) \| 0xef` and every other entry is the loader's |
| PageTable.AppZeroIsLoader | apps/loader_mul/src/main.rs:45 | application 0's table is the loader's table |
| PageTable.AppEntryLeaf | apps/loader_mul/src/main.rs:32 | for `id < 2^24` entry 1 is a kernel read-write-execute 1 GiB leaf at physical `0x8000_0000 + id * 4 GiB` |
| PageTable.AppEntryDistinct | apps/loader_mul/src/main.rs:32 | distinct ids below `2^34` give distinct entries |
| PageTable.AppEntryReserved | apps/loader_mul/src/main.rs:32 | for `2^24 <= id < 2^34` the entry runs into the reserved bits 54-63 and is not a valid 1 GiB leaf |
| PageTable.AppEntryWraps | apps/loader_mul/src/main.rs:32 | from `id = 2^34` on the `<< 29` drops the high bits: ids `2^34` apart get the same entry, so `2^34` and `2^35` share application 0's leaf onto physical `0x8000_0000` |
| PageTable.AppTranslates | apps/loader_mul/src/main.rs:30-32 | application `id` sees its own 1 GiB at virtual `0x4000_0000` |
| UmwaitControl.New | modules/axvm/src/device/x86_64/device_emu/msrs_to_save.rs:15-19 | bit 1 clear, bit 0 from `c02_disable`, bits 2-31 from `max_time` |
| UmwaitControl.Range | modules/axvm/src/device/x86_64/device_emu/msrs_to_save.rs:23-25 | the range holds exactly MSR `0xe1` |
| UmwaitControl.Narrow | modules/axvm/src/device/x86_64/device_emu/msrs_to_save.rs:34 | `value as u32` keeps the low 32 bits |
| UmwaitControl.Read | modules/axvm/src/device/x86_64/device_emu/msrs_to_save.rs:27-30 | always succeeds, returns the value zero-extended and leaves the register unchanged |
| UmwaitControl.Write | modules/axvm/src/device/x86_64/device_emu/msrs_to_save.rs:32-36 | always succeeds and stores the low 32 bits |
| UmwaitControl.WriteThenRead | modules/axvm/src/device/x86_64/device_emu/msrs_to_save.rs:27-36 | reading after a write returns the written value truncated to 32 bits |
| UmwaitControl.ReadThenWrite | modules/axvm/src/device/x86_64/device_emu/msrs_to_save.rs:27-36 | writing back what was read leaves the register as it was |
| UmwaitControl.WriteSetsReserved | modules/axvm/src/device/x86_64/device_emu/msrs_to_save.rs:15-36 | a write can set bit 1, which `new` always clears |

## Left out

- The irq manager's `trigger` is not modelled. Sends are recorded as `Trigger` values and its error is ignored, as the source only logs it.
- Logging (`error!`, `warn!`, `info!`) is not modelled. In `init_msix` the two checks that only log are reported as flags.
- `dev_id` is modelled as a plain number. It is an `Arc<AtomicU16>` in the source, and the atomic load is not modelled.
- Locking (`Arc<Mutex<Msix>>`) is left out: the closures are modelled as working on one state.
- `add_pci_cap`, `register_bar`, `round_up` and `MINIMUM_BAR_SIZE_FOR_MMIO` are not modelled, because `crates/pci/src/config.rs` is not part of this model. The capability offset and minimum BAR size are parameters. `le_write_*` is modelled as a store that fails out of bounds.
- The commented-out `inject_msi_for_lapic_pt` in msix.rs is dead code and is left out.
- Msix.Wf: it assumes at most 4095 vectors (a table shorter than `2^16` bytes) and a PBA sized for them. `init_msix` does not enforce this: it only logs a count outside `1..=2048` (msix.rs:341-346) and builds the device anyway. From 4096 vectors on, `table.len() as u16 / 16` truncates and the `u16` products in `is_vector_masked` and `get_msix_vector` (msix.rs:140, 179) overflow; from `2^28` vectors the `u32` table size wraps as well. The model does not follow a device in those states.
- Msix.Notify: the requires that an irq manager is bound on the send path stands for the `unwrap` in `send_msix` (msix.rs:194). Msix.WriteConfig requires it only when the flush loop sends something (`FlushSendsAny`), for the same reason.
- MsixRegion.ReadRegion: the `offset as usize` and `access_size` arithmetic is on unbounded naturals, so usize overflow of `offset + access_size` (msix.rs:254) is not modelled.
- MsixRegion.WriteRegion: the same `offset + access_size` of the write closure (msix.rs:280) is on unbounded naturals; its usize overflow is not modelled.
- Msix.PendingByteInWord: it describes the PBA word at the corrected offset `8 * (v / 64)`. The source reads at `v / 64` (msix.rs:148); the two agree up to 64 vectors (PbaWords.AsWrittenAgreesBelow64).
- Msix.SetPendingSpec: "every other vector unchanged" is proved at the corrected offset. As written it holds up to 64 vectors; above, setting vector 64 also marks vector 8 (PbaWords.AsWrittenAliasing).
- Msix.ClearPendingSpec: proved at the corrected offset. As written it holds up to 64 vectors; above, clearing one vector can clear another's bit.
- Msix.ClearPendingEffect: proved at the corrected offset; it agrees with the source up to 64 vectors.
- Msix.ClearPendingVectorsUpTo: "vectors from `k` on are unchanged" is proved at the corrected offset; it agrees with the source up to 64 vectors.
- Msix.Notify: "other vectors unchanged" on the masked path is proved at the corrected offset; as written, `notify(64)` on a 65-vector device marks vector 8 pending.
- Msix.NotifyKeepsInvariant: proved at the corrected offset. As written it holds up to 64 vectors; above, a masked `notify(64)` can leave an unmasked vector 8 pending.
- Msix.FlushSends: proved at the corrected offset. As written it holds up to 64 vectors; above, clearing vector 8 also clears what vector 64 reads, so the source does not send 64.
- Msix.FlushClears: proved at the corrected offset; it agrees with the source up to 64 vectors.
- Msix.WriteConfig: the flush it describes uses the corrected offset; it agrees with the source up to 64 vectors.
- Msix.WriteConfigKeepsInvariant: proved at the corrected offset; it agrees with the source up to 64 vectors.
- MsixRegion.WriteRegion: "every other vector's pending state is unchanged" after the clear is proved at the corrected offset; it agrees with the source up to 64 vectors.
- MsixInit.ControlValue: `vector_nr as u16 - 1` (msix.rs:350) wraps to `0xffff` for a count of 0, as in a release build; a debug build panics there. The same holds for MsixInit.ZeroCountWraps and MsixInit.ZeroVectorsWraps.
- MsixInit.ZeroCountWraps: assumes a release build, as MsixInit.ControlValue does.
- MsixInit.ZeroVectorsWraps: assumes a release build, as MsixInit.ControlValue does.
- MsixInit.TableSize: the `u32` product `vector_nr * 16` (msix.rs:357) wraps, as in a release build; a debug build panics from `2^28` vectors on.
- MsixInit.RegionsSize: the `u32` sum `table_size + pba_size` (msix.rs:389) wraps, as in a release build; a debug build panics there.
- Msix.WriteConfig: `ranges_overlap` is taken as half-open interval intersection, because its definition is not part of this model.
- EarlyAllocator.Alloc: usize wrap-around of `byte_ava + align - 1` and `byte_ava + size` is not modelled, because it needs an arena within `2^64 - align` of the top of memory.
- EarlyAllocator.Init: usize wrap-around of `start + size` is not modelled, for the same reason.
- EarlyAllocator.UsedBytes: outside the invariant the `usize` subtraction wraps, as in a release build; a debug build panics. EarlyAllocator.Accounting shows no getter wraps under the invariant. The same holds for EarlyAllocator.AvailableBytes, EarlyAllocator.UsedPages and EarlyAllocator.AvailablePages.
- EarlyAllocator.AllocPagesAsWritten: the `usize` subtraction `self.page_ava - size` (early.rs:108) wraps, as in a release build; a debug build panics there instead. Either way the request is not refused with `NoMemory`.
- EarlyAllocator.Decrement: the counters' `-= 1` (early.rs:53, 120) wraps below zero, as in a release build; a debug build panics there. EarlyAllocator.DeallocNeverWraps and EarlyAllocator.DeallocPagesNeverWraps show it cannot happen under the invariant.
- EarlyAllocator.AllocPages: it models the intended behaviour. The as-written one is EarlyAllocator.AllocPagesAsWritten, and `num_pages * PAGE_SIZE` overflow is not modelled in either.
- Pow2.AlignDown: the masks `& (!a + 1)` of the source are modelled as rounding down to a multiple of `a`, which is what they compute for a power-of-two `a`; the bit-level identity is not proved.
- `NonNull`, `Layout` construction and the allocator traits' other methods are not modelled. A block is its address.
- DeviceTree.FromBytes: the header and structure parsers (`header.rs`, `node.rs`) are not part of this model. Their outcome is the parameter `parse`.
- DeviceTree.FindChild: `DeviceTreeNode::find_child` lives in node.rs, which is not part of this model. It is taken to return the first child with the given name.
- `DeviceTree::from_address` and `Display` are left out: they are raw-pointer reads and formatting.
- Payload.Build: the file listing (`os.listdir` filtered by `.*\.o`) is the parameter `files`, and the prints are not modelled. `os.path.getsize` is taken to equal the length of what `file.read()` returns.
- Payload.Build: a value of `2^64` or more makes `struct.pack` raise. The whole run is then `None`, and the partly written file is not modelled.
- Payload.Decode: the loader reads raw memory past the image as well. Bytes outside the image are modelled as absent (`None`), and `PLASH_START + word` usize overflow is not modelled.
- The loader's `println!` output is not modelled.
- `__switch` and the register contents of `TaskContext` are not modelled, because they are assembly.
- PageTable.AppTable: an overflow of `id * 2` is an error (`None`), not a wrap. Its only use is the static initialiser at apps/loader_mul/src/main.rs:45, a constant evaluation in which an arithmetic overflow is a compile-time error in every build profile.
- PageTable.Translate: it only follows root-level leaves. Walks into lower levels are not modelled, since these tables hold none.
- `main`, `puts`, `__libc_start_main` and `switch_app_aspace` of loader_mul are left out: ELF parsing, raw copies, inline assembly and `satp` writes.
- The `_msr` argument of `read` and `write` is ignored, as in the source.

## Findings

| source | as written | input that shows it | evidently intended | confidence | as-written member | corrected member |
|---|---|---|---|---|---|---|
| crates/pci/src/msix.rs:148 | the PBA word for `vector` is read at byte offset `vector / 64` | a device with 65 vectors: notifying masked vector 64 sets bit 0 of byte 1, which vector 8 then reads as pending | byte offset `8 * (vector / 64)`, one 64-bit word per 64 vectors | high, not executed | PbaWords.AsWrittenAliasing | PbaWords.WordSetIsSetPending |
| crates/pci/src/msix.rs:264-266 | a PBA read slices `pba[offset..offset + size]` with the BAR offset, not rebased by the table length | one vector (16-byte table, 8-byte PBA): a 4-byte read at offset 16 slices `pba[16..20]` and panics | slice the PBA at `offset - table.len()` | high, not executed | MsixRegion.PbaReadPanicsExample | MsixRegion.ReadRegionRebased |
| crates/allocator/src/early.rs:108 | `self.page_ava - size` underflows when the request is larger than `page_ava`; a release build wraps, a debug build panics | `init(0, 0x2000)` then `alloc_pages(3, 0x1000)`: `0x2000 - 0x3000` wraps (release build) to `2^64 - 0x1000`, which is returned | fail with `NoMemory` | medium, not executed | EarlyAllocator.AllocPagesWraps | EarlyAllocator.AllocPages |
