/**
 * The early allocator (crates/allocator/src/early.rs): one arena
 * `[start, start + len)` handed out from both ends.  Byte allocations bump
 * `byteAva` upwards from `start`, page allocations bump `pageAva` downwards
 * from the end, and each side counts its live allocations so that the last
 * free of a side rewinds that side to its end of the arena.
 *
 * Addresses and sizes are unbounded naturals; the one `usize` wrap-around
 * that matters, the subtraction in `alloc_pages`, is written out in the
 * "as written" variant, and the counters' decrement wraps as a `usize` does.
 */
module EarlyAllocator {
  import opened Outcomes
  import opened Pow2

  const PAGE_SIZE: nat := 0x1000
  /** `size_of::<usize>()`, the granule of the arena's bounds. */
  const WORD_SIZE: nat := 8
  const USIZE_LIMIT: nat := 0x1_0000_0000_0000_0000

  datatype AllocError = InvalidParam | NoMemory

  /** `core::alloc::Layout`: a size and an alignment. */
  datatype Layout = Layout(size: nat, align: nat)

  datatype Early = Early(
    start: nat,
    len: nat,
    byteAva: nat,
    byteCount: nat,
    pageAva: nat,
    pageCount: nat)

  /** The result of an operation that may allocate: the new state and what the caller gets. */
  datatype Step<+T> = Step(state: Early, result: Result<T, AllocError>)

  /**
   * The allocator's invariant: the byte side lies below the page side inside
   * the arena, and a side with no live allocation is at its end of the arena.
   */
  predicate Inv(s: Early)
  {
    && s.start <= s.byteAva <= s.pageAva <= s.start + s.len
    && (s.byteCount == 0 ==> s.byteAva == s.start)
    && (s.pageCount == 0 ==> s.pageAva == s.start + s.len)
  }

  /** `a - b` in `usize`, wrapping below zero. */
  function WrapSub(a: nat, b: nat): (r: nat)
    requires a < USIZE_LIMIT
    ensures b <= a ==> r == a - b
    ensures b > a && b <= USIZE_LIMIT ==> r == USIZE_LIMIT + a - b
  {
    (a - b) % USIZE_LIMIT
  }

  /** `count -= 1` on a `usize` counter. */
  function Decrement(c: nat): (r: nat)
    ensures c > 0 ==> r + 1 == c
    ensures c == 0 ==> r == USIZE_LIMIT - 1
  {
    if c == 0 then USIZE_LIMIT - 1 else c - 1
  }

  // ----- construction ----------------------------------------------------------

  /** `EarlyAllocator::new`: an empty arena at address 0. */
  function New(): (r: Early)
    ensures Inv(r) && r.len == 0 && r.byteCount == 0 && r.pageCount == 0
  {
    Early(0, 0, 0, 0, 0, 0)
  }

  /**
   * `init`: the arena is `[start, start + size)` shrunk inwards to word
   * boundaries.  When nothing word-aligned is left the `assert!` panics
   * (`None`).  All previous state is forgotten.
   */
  function Init(start: nat, size: nat): (r: Option<Early>)
    ensures r.None? <==> AlignUp(start, WORD_SIZE) > AlignDown(start + size, WORD_SIZE)
    ensures r.Some? ==>
      var t := r.value;
      && Inv(t) && t.byteCount == 0 && t.pageCount == 0
      && t.byteAva == t.start && t.pageAva == t.start + t.len
      && start <= t.start && t.start + t.len <= start + size
      && IsMultiple(t.start, WORD_SIZE) && IsMultiple(t.start + t.len, WORD_SIZE)
  {
    var end := AlignDown(start + size, WORD_SIZE);
    var first := AlignUp(start, WORD_SIZE);
    if first <= end then Some(Early(first, end - first, first, 0, end, 0)) else None
  }

  /** The word-aligned arena is the largest one inside `[start, start + size)`. */
  lemma InitLargest(start: nat, size: nat, lo: nat, hi: nat)
    requires start <= lo <= hi <= start + size
    requires IsMultiple(lo, WORD_SIZE) && IsMultiple(hi, WORD_SIZE)
    ensures Init(start, size).Some?
    ensures Init(start, size).value.start <= lo && hi <= Init(start, size).value.start + Init(start, size).value.len
  {
    AlignDownGreatest(start + size, hi, WORD_SIZE);
    if AlignUp(start, WORD_SIZE) > lo {
      MultiplesApart(lo, AlignUp(start, WORD_SIZE), WORD_SIZE);
    }
  }

  /** `add_memory`: unsupported, always `NoMemory`, nothing changes. */
  function AddMemory(s: Early, start: nat, size: nat): (r: Step<()>)
    ensures r.state == s && r.result == Err(NoMemory)
  {
    Step(s, Err(NoMemory))
  }

  // ----- bytes -----------------------------------------------------------------

  /**
   * `alloc`: round the size up and `byteAva` up to the alignment; the block
   * starts at the rounded `byteAva` if it ends by `pageAva`.
   */
  function Alloc(s: Early, layout: Layout): (r: Step<nat>)
    ensures r.result == Err(InvalidParam) <==> !IsPow2(layout.align)
    ensures r.result.Err? ==> r.state == s
    ensures IsPow2(layout.align) ==>
      (r.result.Ok? <==> AlignUp(s.byteAva, layout.align) + AlignUp(layout.size, layout.align) <= s.pageAva)
    ensures r.result.Ok? ==>
      var p := r.result.value;
      && IsPow2(layout.align) && IsMultiple(p, layout.align)
      && s.byteAva <= p && p + layout.size <= r.state.byteAva <= s.pageAva
      && r.state == s.(byteAva := r.state.byteAva, byteCount := s.byteCount + 1)
    ensures Inv(s) ==> Inv(r.state)
  {
    if !IsPow2(layout.align) then Step(s, Err(InvalidParam))
    else
      var size := AlignUp(layout.size, layout.align);
      var at := AlignUp(s.byteAva, layout.align);
      if at + size > s.pageAva then Step(s, Err(NoMemory))
      else Step(s.(byteAva := at + size, byteCount := s.byteCount + 1), Ok(at))
  }

  /**
   * `dealloc`: a position strictly inside `(start, byteAva)` counts as a
   * free; the free that brings the count to zero rewinds `byteAva` to
   * `start`.  Any other position is ignored.
   */
  function Dealloc(s: Early, pos: nat): (r: Early)
    ensures !(s.start < pos < s.byteAva) ==> r == s
    ensures s.start < pos < s.byteAva ==>
      && r.byteCount == Decrement(s.byteCount)
      && r.byteAva == (if r.byteCount == 0 then s.start else s.byteAva)
      && r == s.(byteCount := r.byteCount, byteAva := r.byteAva)
    ensures Inv(s) ==> Inv(r)
  {
    if s.start < pos < s.byteAva then
      var c := Decrement(s.byteCount);
      if c == 0 then s.(byteCount := c, byteAva := s.start) else s.(byteCount := c)
    else s
  }

  /** Under the invariant a counted free always has a live allocation to count off: the counter never wraps. */
  lemma DeallocNeverWraps(s: Early, pos: nat)
    requires Inv(s) && s.start < pos < s.byteAva
    ensures s.byteCount > 0 && Dealloc(s, pos).byteCount + 1 == s.byteCount
  {
  }

  // ----- pages -----------------------------------------------------------------

  /** Are the arguments of `alloc_pages` acceptable: a page-multiple power-of-two alignment and some pages? */
  predicate PageParamsValid(numPages: nat, align: nat)
  {
    align % PAGE_SIZE == 0 && IsPow2(align) && numPages != 0
  }

  /** The bytes `alloc_pages` takes: the pages, rounded up to the alignment. */
  function PagesSize(numPages: nat, align: nat): (r: nat)
    requires align > 0
    ensures numPages * PAGE_SIZE <= r < numPages * PAGE_SIZE + align && IsMultiple(r, align)
  {
    AlignUp(numPages * PAGE_SIZE, align)
  }

  /** A power of two is positive. */
  lemma Pow2Positive(x: nat)
    requires IsPow2(x)
    ensures x > 0
  {
  }

  /**
   * `alloc_pages` as written: the new `pageAva` is `pageAva - size` in
   * `usize`, rounded down to the alignment, accepted if it is not below
   * `byteAva`.  When `size` exceeds `pageAva` the subtraction wraps to an
   * address near the top of the address space, which passes the check.
   */
  function AllocPagesAsWritten(s: Early, numPages: nat, align: nat): (r: Step<nat>)
    requires s.pageAva < USIZE_LIMIT
    ensures r.result == Err(InvalidParam) <==> !PageParamsValid(numPages, align)
    ensures r.result.Err? ==> r.state == s
    ensures r.result.Ok? ==>
      && PageParamsValid(numPages, align) && IsMultiple(r.result.value, align)
      && r.result.value >= s.byteAva
      && r.state == s.(pageAva := r.result.value, pageCount := s.pageCount + 1)
    ensures PageParamsValid(numPages, align) ==>
      (r.result.Ok? <==> AlignDown(WrapSub(s.pageAva, PagesSize(numPages, align)), align) >= s.byteAva)
  {
    if align % PAGE_SIZE != 0 then Step(s, Err(InvalidParam))
    else if !IsPow2(align) then Step(s, Err(InvalidParam))
    else if numPages == 0 then Step(s, Err(InvalidParam))
    else
      Pow2Positive(align);
      var size := PagesSize(numPages, align);
      var pageAva := AlignDown(WrapSub(s.pageAva, size), align);
      if pageAva < s.byteAva then Step(s, Err(NoMemory))
      else Step(s.(pageAva := pageAva, pageCount := s.pageCount + 1), Ok(pageAva))
  }

  /**
   * `alloc_pages` as evidently intended: a request larger than the room
   * left above `byteAva` fails with `NoMemory`, including one larger than
   * `pageAva` itself.
   */
  function AllocPages(s: Early, numPages: nat, align: nat): (r: Step<nat>)
    ensures r.result == Err(InvalidParam) <==> !PageParamsValid(numPages, align)
    ensures r.result.Err? ==> r.state == s
    ensures r.result.Ok? ==>
      var p := r.result.value;
      && PageParamsValid(numPages, align) && IsMultiple(p, align) && IsMultiple(p, PAGE_SIZE)
      && s.byteAva <= p && p + numPages * PAGE_SIZE <= s.pageAva
      && r.state == s.(pageAva := p, pageCount := s.pageCount + 1)
    ensures Inv(s) ==> Inv(r.state)
    ensures PageParamsValid(numPages, align) ==>
      (r.result.Ok? <==>
        && PagesSize(numPages, align) <= s.pageAva
        && AlignDown(s.pageAva - PagesSize(numPages, align), align) >= s.byteAva)
  {
    if align % PAGE_SIZE != 0 then Step(s, Err(InvalidParam))
    else if !IsPow2(align) then Step(s, Err(InvalidParam))
    else if numPages == 0 then Step(s, Err(InvalidParam))
    else
      Pow2Positive(align);
      var size := PagesSize(numPages, align);
      if s.pageAva < size then Step(s, Err(NoMemory))
      else
        var pageAva := AlignDown(s.pageAva - size, align);
        if pageAva < s.byteAva then Step(s, Err(NoMemory))
        else
          PageMultiple(pageAva, align);
          Step(s.(pageAva := pageAva, pageCount := s.pageCount + 1), Ok(pageAva))
  }

  /** `align % PAGE_SIZE == 0` makes a multiple of `align` page-aligned. */
  lemma PageMultiple(p: nat, align: nat)
    requires align > 0 && align % PAGE_SIZE == 0 && IsMultiple(p, align)
    ensures IsMultiple(p, PAGE_SIZE)
  {
    ModPageMultiple(align);
    MultipleOfMultiple(p, align, PAGE_SIZE);
  }

  /** For the page size, being a multiple and leaving no remainder agree. */
  lemma {:induction false} ModPageMultiple(x: nat)
    ensures IsMultiple(x, PAGE_SIZE) <==> x % PAGE_SIZE == 0
    decreases x
  {
    if x >= PAGE_SIZE {
      ModPageMultiple(x - PAGE_SIZE);
    }
  }

  /** Whenever the request fits below `pageAva` the as-written operation is the intended one. */
  lemma AllocPagesAgree(s: Early, numPages: nat, align: nat)
    requires s.pageAva < USIZE_LIMIT
    requires PageParamsValid(numPages, align) && PagesSize(numPages, align) <= s.pageAva
    ensures AllocPagesAsWritten(s, numPages, align) == AllocPages(s, numPages, align)
  {
  }

  /**
   * A request for more than `pageAva` bytes: the as-written subtraction
   * wraps to an address near the top of the address space, which passes the
   * check against `byteAva`, is returned, and is left as `pageAva` beyond the
   * end of the arena, breaking the invariant; the intended operation fails.
   */
  lemma AllocPagesWraps(s: Early, numPages: nat, align: nat)
    requires Inv(s) && PageParamsValid(numPages, align)
    requires s.pageAva < PagesSize(numPages, align)
    requires s.start + s.len + PagesSize(numPages, align) + align <= USIZE_LIMIT
    ensures var r := AllocPagesAsWritten(s, numPages, align);
      && r.result.Ok? && r.result.value > s.start + s.len
      && !Inv(r.state)
    ensures AllocPages(s, numPages, align).result == Err(NoMemory)
  {
    var size := PagesSize(numPages, align);
    assert WrapSub(s.pageAva, size) == USIZE_LIMIT + s.pageAva - size;
  }

  /**
   * `dealloc_pages`: a position strictly inside `(pageAva, start + len)`
   * counts as a free; the free that brings the count to zero rewinds
   * `pageAva` to the end of the arena.  Any other position is ignored.
   */
  function DeallocPages(s: Early, pos: nat, numPages: nat): (r: Early)
    ensures !(s.pageAva < pos < s.start + s.len) ==> r == s
    ensures s.pageAva < pos < s.start + s.len ==>
      && r.pageCount == Decrement(s.pageCount)
      && r.pageAva == (if r.pageCount == 0 then s.start + s.len else s.pageAva)
      && r == s.(pageCount := r.pageCount, pageAva := r.pageAva)
    ensures Inv(s) ==> Inv(r)
  {
    if s.pageAva < pos < s.start + s.len then
      var c := Decrement(s.pageCount);
      if c == 0 then s.(pageCount := c, pageAva := s.len + s.start) else s.(pageCount := c)
    else s
  }

  /** Under the invariant a counted page free never wraps the page counter. */
  lemma DeallocPagesNeverWraps(s: Early, pos: nat, numPages: nat)
    requires Inv(s) && s.pageAva < pos < s.start + s.len
    ensures s.pageCount > 0 && DeallocPages(s, pos, numPages).pageCount + 1 == s.pageCount
  {
  }

  // ----- disjointness -------------------------------------------------------------

  /** Two successive byte allocations do not overlap. */
  lemma ByteAllocsDisjoint(s: Early, l1: Layout, l2: Layout)
    requires Alloc(s, l1).result.Ok?
    requires Alloc(Alloc(s, l1).state, l2).result.Ok?
    ensures Alloc(s, l1).result.value + l1.size <= Alloc(Alloc(s, l1).state, l2).result.value
  {
  }

  /** A page allocation after a byte allocation lies wholly above it. */
  lemma BytesThenPagesDisjoint(s: Early, l: Layout, numPages: nat, align: nat)
    requires Alloc(s, l).result.Ok?
    requires AllocPages(Alloc(s, l).state, numPages, align).result.Ok?
    ensures Alloc(s, l).result.value + l.size <= AllocPages(Alloc(s, l).state, numPages, align).result.value
  {
  }

  /** A byte allocation after a page allocation lies wholly below it. */
  lemma PagesThenBytesDisjoint(s: Early, numPages: nat, align: nat, l: Layout)
    requires AllocPages(s, numPages, align).result.Ok?
    requires Alloc(AllocPages(s, numPages, align).state, l).result.Ok?
    ensures Alloc(AllocPages(s, numPages, align).state, l).result.value + l.size
         <= AllocPages(s, numPages, align).result.value
  {
  }

  /** Two successive page allocations do not overlap. */
  lemma PageAllocsDisjoint(s: Early, n1: nat, a1: nat, n2: nat, a2: nat)
    requires AllocPages(s, n1, a1).result.Ok?
    requires AllocPages(AllocPages(s, n1, a1).state, n2, a2).result.Ok?
    ensures AllocPages(AllocPages(s, n1, a1).state, n2, a2).result.value + n2 * PAGE_SIZE
         <= AllocPages(s, n1, a1).result.value
  {
  }

  // ----- accounting ------------------------------------------------------------

  /** `total_bytes`. */
  function TotalBytes(s: Early): (r: nat)
    ensures Inv(s) ==> s.start + r >= s.pageAva
  {
    s.len
  }

  /** `used_bytes`: `byte_ava - start` in `usize`. */
  function UsedBytes(s: Early): (r: nat)
    requires s.byteAva < USIZE_LIMIT
    ensures r < USIZE_LIMIT
    ensures s.start <= s.byteAva ==> s.start + r == s.byteAva
  {
    WrapSub(s.byteAva, s.start)
  }

  /** `available_bytes`: `page_ava - byte_ava` in `usize`. */
  function AvailableBytes(s: Early): (r: nat)
    requires s.pageAva < USIZE_LIMIT
    ensures r < USIZE_LIMIT
    ensures s.byteAva <= s.pageAva ==> s.byteAva + r == s.pageAva
  {
    WrapSub(s.pageAva, s.byteAva)
  }

  /** `total_pages`. */
  function TotalPages(s: Early): (r: nat)
    ensures r * PAGE_SIZE <= s.len < (r + 1) * PAGE_SIZE
  {
    s.len / PAGE_SIZE
  }

  /** `used_pages`: `(start + len - page_ava) / PAGE_SIZE` in `usize`. */
  function UsedPages(s: Early): (r: nat)
    requires s.start + s.len < USIZE_LIMIT
    ensures s.pageAva <= s.start + s.len ==>
      r * PAGE_SIZE <= s.start + s.len - s.pageAva < (r + 1) * PAGE_SIZE
  {
    WrapSub(s.start + s.len, s.pageAva) / PAGE_SIZE
  }

  /** `available_pages`: `(page_ava - byte_ava) / PAGE_SIZE` in `usize`. */
  function AvailablePages(s: Early): (r: nat)
    requires s.pageAva < USIZE_LIMIT
    ensures s.byteAva <= s.pageAva ==>
      r * PAGE_SIZE <= s.pageAva - s.byteAva < (r + 1) * PAGE_SIZE
  {
    WrapSub(s.pageAva, s.byteAva) / PAGE_SIZE
  }

  /**
   * Under the invariant nothing wraps: the used and available bytes add up
   * to the part of the arena below the page side, within the total, and the
   * used and available pages fit in the total pages.
   */
  lemma Accounting(s: Early)
    requires Inv(s) && s.start + s.len < USIZE_LIMIT
    ensures UsedBytes(s) == s.byteAva - s.start && AvailableBytes(s) == s.pageAva - s.byteAva
    ensures UsedBytes(s) + AvailableBytes(s) == s.pageAva - s.start <= TotalBytes(s)
    ensures UsedPages(s) + AvailablePages(s) <= TotalPages(s)
  {
    var u := s.start + s.len - s.pageAva;
    var v := s.pageAva - s.byteAva;
    assert u / PAGE_SIZE + v / PAGE_SIZE <= (u + v) / PAGE_SIZE;
  }

  /** A fresh arena has nothing used and everything available. */
  lemma InitAccounting(start: nat, size: nat)
    requires Init(start, size).Some? && start + size < USIZE_LIMIT
    ensures var t := Init(start, size).value;
      && UsedBytes(t) == 0 && AvailableBytes(t) == TotalBytes(t)
      && UsedPages(t) == 0 && AvailablePages(t) == TotalPages(t)
  {
  }
}
