/**
 * The physical memory manager of src/memory/pmm.c: one bit per 4 KiB page
 * of the managed range [PMM_MANAGED_START, PMM_MANAGED_START + PMM_MANAGED_SIZE),
 * a free-page counter and a next-fit cursor.
 *
 * All of the source's counters are `uint32_t`; where its arithmetic can
 * wrap the model writes the reduction modulo 2^32 out. The free counter is
 * NOT an invariant of the code (a double free and a wrapped allocation both
 * break it), so "counter equals clear bits" is the predicate Consistent()
 * and each operation says when it keeps it.
 */
module Pmm {
  import opened PmmBits

  const PAGE_SIZE: nat := 4096
  const KERNEL_START: nat := 0x8000
  const KERNEL_END: nat := 0x20000
  const HEAP_START: nat := 0x20000
  const HEAP_SIZE: nat := 0x100_0000
  const MANAGED_START: nat := 0x102_0000
  const MANAGED_SIZE: nat := 0x100_0000

  const SUCCESS: int := 0
  const ERROR_NO_MEMORY: int := -1
  const ERROR_INVALID: int := -2
  const ERROR_ALIGNED: int := -3

  const REGION_RESERVED: nat := 0
  const REGION_AVAILABLE: nat := 1
  const REGION_KERNEL: nat := 2

  const MAX_REGIONS: nat := 16
  /** The "no run" answer of pmm_find_free_pages. */
  const NOT_FOUND: nat := 0xFFFF_FFFF
  /** pmm_total_pages after initialisation: MANAGED_SIZE / PAGE_SIZE. */
  const MANAGED_PAGES: nat := 4096
  /** pmm_bitmap_size after initialisation: ceil(MANAGED_PAGES / 32) words. */
  const BITMAP_WORDS: nat := 128

  datatype Region = Region(start: u32, size: u32, kind: nat)

  datatype Stats = Stats(
    totalPages: nat,
    freePages: nat,
    usedPages: nat,
    reservedPages: nat,
    bitmapSize: nat,
    lastAllocatedPage: nat)

  /** pmm_addr_to_page. */
  function PageOf(addr: nat): nat
  {
    addr / PAGE_SIZE
  }

  /** `(size + PAGE_SIZE - 1) / PAGE_SIZE` in 32-bit arithmetic: the sum wraps. */
  function PageCount(size: u32): nat
  {
    Wrap32(size + PAGE_SIZE - 1) / PAGE_SIZE
  }

  /** `x & ~(PAGE_SIZE - 1)`: round down to a page boundary. */
  function AlignDown(x: nat): nat
  {
    x - x % PAGE_SIZE
  }

  /** The managed page at which a region starting at or above the managed range begins. */
  function RelativePage(start: nat): nat
    requires start >= MANAGED_START
  {
    PageOf(start) - PageOf(MANAGED_START)
  }

  /**
   * The number of pages the marking loops of pmm_init, pmm_reserve_region and
   * pmm_mark_available visit: `page_count` pages from `first`, stopping at the
   * end of the managed pages.
   */
  function Span(first: nat, pageCount: nat, total: nat): nat
  {
    if first >= total then 0 else Min(pageCount, total - first)
  }

  /** The bitmap region is the only one of the four boot regions inside the managed range. */
  function BitmapBytes(): nat
  {
    BITMAP_WORDS * 4
  }

  function AvailableStart(): nat
  {
    MANAGED_START + AlignDown(BitmapBytes() + PAGE_SIZE - 1)
  }

  /** The four regions pmm_init registers, in order. */
  function InitRegions(): seq<Region>
  {
    [Region(KERNEL_START, KERNEL_END - KERNEL_START, REGION_KERNEL),
     Region(HEAP_START, HEAP_SIZE, REGION_RESERVED),
     Region(MANAGED_START, BitmapBytes(), REGION_RESERVED),
     Region(AvailableStart(), MANAGED_SIZE - (AvailableStart() - MANAGED_START), REGION_AVAILABLE)]
  }

  /** Whether pmm_init's marking loop sets managed page `q` for region `r`. */
  predicate Covers(r: Region, q: nat)
  {
    r.kind != REGION_AVAILABLE && r.start >= MANAGED_START
    && RelativePage(r.start) <= q < RelativePage(r.start) + PageCount(r.size)
  }

  /** Whether some region of `rs` covers page `q`. */
  predicate ReservedBy(rs: seq<Region>, q: nat)
  {
    |rs| > 0 && (ReservedBy(rs[..|rs| - 1], q) || Covers(rs[|rs| - 1], q))
  }

  lemma ReservedByStep(rs: seq<Region>, i: nat, q: nat)
    requires i < |rs|
    ensures ReservedBy(rs[..i + 1], q) == (ReservedBy(rs[..i], q) || Covers(rs[i], q))
  {
    assert rs[..i + 1][..i] == rs[..i];
  }

  /**
   * Of the boot regions only the bitmap's own 512 bytes lie in the managed
   * range, so exactly managed page 0 is reserved at boot.
   */
  lemma InitReservesBitmapPage(q: nat)
    ensures ReservedBy(InitRegions(), q) <==> q == 0
  {
    var rs := InitRegions();
    assert BitmapBytes() == 512;
    assert AvailableStart() == MANAGED_START + 4096;
    assert !Covers(rs[0], q) && !Covers(rs[1], q) && !Covers(rs[3], q);
    assert Covers(rs[2], q) <==> q == 0;
    var r3, r2, r1 := rs[..3], rs[..2], rs[..1];
    assert r3[..2] == r2 && r2[..1] == r1 && r1[..0] == [];
    assert ReservedBy(rs, q) == (ReservedBy(r3, q) || Covers(rs[3], q));
    assert ReservedBy(r3, q) == (ReservedBy(r2, q) || Covers(rs[2], q));
    assert ReservedBy(r2, q) == (ReservedBy(r1, q) || Covers(rs[1], q));
    assert ReservedBy(r1, q) == Covers(rs[0], q);
  }

  /* ---------- the next-fit search, stated over the live words ---------- */

  /**
   * The page visited at step `k` of a scan starting at `start`:
   * (start + k) mod MANAGED_PAGES.
   */
  function Visit(start: nat, k: nat): nat
  {
    (start + k) % 4096
  }

  /**
   * The scan's steps i+1-count .. i all visit free pages: a run of `count`
   * consecutively visited free pages ends at step i.
   */
  predicate RunEndsAt(ws: seq<nat>, start: nat, count: nat, i: nat)
  {
    count <= i + 1 && forall k :: i + 1 - count <= k <= i ==> !Allocated(ws, Visit(start, k))
  }

  /** Step i is within the scan, a run ends there and at no earlier step. */
  ghost predicate FirstRunEnd(ws: seq<nat>, start: nat, count: nat, i: nat)
  {
    i < MANAGED_PAGES && RunEndsAt(ws, start, count, i)
    && forall j: nat :: j < i ==> !RunEndsAt(ws, start, count, j)
  }

  /** The step of a scan from `start` that visits page `s`: (s - start) mod MANAGED_PAGES. */
  function StepOf(start: nat, s: nat): nat
  {
    (s - start) % 4096
  }

  lemma StepOfVisit(start: nat, m: nat)
    requires m < MANAGED_PAGES
    ensures StepOf(start, Visit(start, m)) == m
  {
  }

  lemma VisitStepOf(start: nat, s: nat)
    requires s < MANAGED_PAGES
    ensures Visit(start, StepOf(start, s)) == s
  {
  }

  /** Steps that do not reach the end of the page range visit consecutive pages. */
  lemma VisitShift(start: nat, k: nat, d: nat)
    requires Visit(start, k) + d < MANAGED_PAGES
    ensures Visit(start, k + d) == Visit(start, k) + d
  {
    var m := (start + k) / 4096;
    assert start + k == 4096 * m + Visit(start, k);
    assert start + k + d == 4096 * m + (Visit(start, k) + d);
  }

  /** Consecutive steps visit consecutive pages unless the scan passes page 0. */
  lemma VisitNext(start: nat, k: nat)
    ensures Visit(start, k + 1) == 0 || Visit(start, k + 1) == Visit(start, k) + 1
  {
  }

  /* ---------- the corrected search: runs never pass page total-1 -> 0 ---------- */

  /**
   * A run of `count` free pages ends at the page visited at step i, lies
   * wholly below that page (no wrap), and was visited within steps 0..i.
   */
  predicate PlainRunEndsAt(ws: seq<nat>, start: nat, count: nat, i: nat)
  {
    count <= i + 1 && count <= Visit(start, i) + 1
    && forall q :: Visit(start, i) + 1 - count <= q <= Visit(start, i) ==> !Allocated(ws, q)
  }

  /** Step i is within the scan, a plain run ends there and at no earlier step. */
  ghost predicate FirstPlainRunEnd(ws: seq<nat>, start: nat, count: nat, i: nat)
  {
    i < MANAGED_PAGES && PlainRunEndsAt(ws, start, count, i)
    && forall j: nat :: j < i ==> !PlainRunEndsAt(ws, start, count, j)
  }

  /**
   * What the corrected scan knows after `steps` steps, the last at page p:
   * the `found` pages up to p are free, and the run stops there because the
   * scan began there, because it reached page 0, or because the page before
   * it is allocated.
   */
  ghost predicate ScanState(ws: seq<nat>, p: nat, found: nat, steps: nat)
  {
    found <= steps && found <= p + 1
    && (forall q :: p + 1 - found <= q <= p ==> !Allocated(ws, q))
    && (found < steps && found < p + 1 ==> Allocated(ws, p - found))
  }

  /** One step of the corrected scan: a run restarts at page 0 and ends at an allocated page. */
  lemma ScanAdvance(ws: seq<nat>, start: nat, i: nat, found: nat, next: nat)
    requires i == 0 ==> found == 0
    requires i > 0 ==> ScanState(ws, Visit(start, i - 1), found, i)
    requires next == if Allocated(ws, Visit(start, i)) then 0
                     else if Visit(start, i) == 0 then 1 else found + 1
    ensures ScanState(ws, Visit(start, i), next, i + 1)
  {
    if i > 0 {
      VisitNext(start, i - 1);
    }
  }

  /** A run of count pages ending at step i after no earlier one is the first plain run. */
  lemma PlainRunFound(ws: seq<nat>, start: nat, count: nat, i: nat, startPage: nat)
    requires 0 < count && i < MANAGED_PAGES
    requires ScanState(ws, Visit(start, i), count, i + 1)
    requires startPage == Visit(start, i) + 1 - count
    requires forall j: nat :: j < i ==> !PlainRunEndsAt(ws, start, count, j)
    ensures startPage + count <= MANAGED_PAGES
    ensures forall q :: startPage <= q < startPage + count ==> !Allocated(ws, q)
    ensures FirstPlainRunEnd(ws, start, count, StepOf(start, startPage + count - 1))
  {
    StepOfVisit(start, i);
    assert PlainRunEndsAt(ws, start, count, i);
  }

  /** A scan state with fewer than count pages rules out a plain run ending at that step. */
  lemma NoPlainRunBeforeFound(ws: seq<nat>, start: nat, count: nat, i: nat, found: nat)
    requires ScanState(ws, Visit(start, i), found, i + 1)
    ensures found < count ==> !PlainRunEndsAt(ws, start, count, i)
    ensures found == count ==> PlainRunEndsAt(ws, start, count, i)
  {
  }

  /* ---------- lemmas about the free counter ---------- */

  /** Allocating a run that does not wrap keeps counter and bitmap in step. */
  lemma AllocKeepsCount(ws: seq<nat>, total: nat, s: nat, count: nat)
    requires s + count <= total
    requires forall q :: s <= q < s + count ==> !Allocated(ws, q)
    ensures FreeCount(SetRange(ws, s, count), total) == FreeCount(ws, total) - count
  {
    forall q: nat | q < total
      ensures Allocated(SetRange(ws, s, count), q) == (Allocated(ws, q) || s <= q < s + count)
    {
      SetRangeAllocated(ws, s, count, q);
    }
    FreeCountAfterMarking(ws, SetRange(ws, s, count), total, s, count);
  }

  /** Freeing a run of allocated live pages keeps counter and bitmap in step. */
  lemma FreeKeepsCount(ws: seq<nat>, total: nat, s: nat, count: nat)
    requires s + count <= total <= PAGES_PER_ENTRY * |ws| && total < U32
    requires forall q :: s <= q < s + count ==> Allocated(ws, q)
    ensures FreeCount(ClearWrapped(ws, s, count), total) == FreeCount(ws, total) + count
  {
    var b := ClearWrapped(ws, s, count);
    forall q: nat | q < total
      ensures Allocated(b, q) == (Allocated(ws, q) && !(s <= q < s + count))
    {
      ClearWrappedAllocated(ws, s, count, q);
      InWrappedPlain(s, count, q);
    }
    FreeCountAfterClearing(ws, b, total, s, count);
  }

  /**
   * Freeing a page that is already free leaves the number of free pages as
   * it was, while pmm_free_pages still adds one to the counter: from a
   * counter equal to the free pages, the counter ends one above them.
   */
  lemma DoubleFreeKeepsFreePages(ws: seq<nat>, total: nat, p: nat, counter: u32)
    requires p < total <= MANAGED_PAGES && !Allocated(ws, p)
    requires counter == FreeCount(ws, total)
    ensures FreeCount(ClearWrapped(ws, p, 1), total) == FreeCount(ws, total)
    ensures Wrap32(counter + 1) == FreeCount(ClearWrapped(ws, p, 1), total) + 1
  {
    FreeCountClearBit(ws, total, p);
    FreeCountAtMost(ws, total);
  }

  /** Every bit clear: 128 zero words. */
  function ZeroWords(n: nat): (r: seq<nat>)
    ensures |r| == n && forall i :: 0 <= i < n ==> r[i] == 0
  {
    seq(n, i => 0)
  }

  lemma ZeroWordsFree(n: nat, q: nat)
    requires EntryOf(q) < n
    ensures !Allocated(ZeroWords(n), q)
  {
    BitOfZero(BitOf(q));
  }

  /**
   * A wrapped run: with every page free and the cursor on the last page, a
   * request for 2 pages is answered at step 1 with page 4095, whose run is
   * pages 4095 and 0. Setting pages 4095 and 4096 marks only page 4095, so
   * the bitmap loses one free page while the counter loses two, and page 0
   * stays free although the caller was handed it.
   */
  lemma WrappedRunMarksOnePage()
    ensures FirstRunEnd(ZeroWords(BITMAP_WORDS), MANAGED_PAGES - 1, 2, 1)
    ensures Visit(MANAGED_PAGES - 1, 0) == MANAGED_PAGES - 1 && Visit(MANAGED_PAGES - 1, 1) == 0
    ensures FreeCount(SetRange(ZeroWords(BITMAP_WORDS), MANAGED_PAGES - 1, 2), MANAGED_PAGES)
         == FreeCount(ZeroWords(BITMAP_WORDS), MANAGED_PAGES) - 1
    ensures !Allocated(SetRange(ZeroWords(BITMAP_WORDS), MANAGED_PAGES - 1, 2), 0)
  {
    var ws := ZeroWords(BITMAP_WORDS);
    var w1 := SetBit(ws, MANAGED_PAGES - 1);
    assert SetRange(ws, MANAGED_PAGES - 1, 1) == w1;
    assert SetBit(w1, MANAGED_PAGES) == w1;
    ZeroWordsFree(BITMAP_WORDS, MANAGED_PAGES - 1);
    ZeroWordsFree(BITMAP_WORDS, 0);
    assert Visit(MANAGED_PAGES - 1, 1) == 0;
    assert RunEndsAt(ws, MANAGED_PAGES - 1, 2, 1);
    assert !RunEndsAt(ws, MANAGED_PAGES - 1, 2, 0);
    assert SetRange(ws, MANAGED_PAGES - 1, 2) == SetBit(ws, MANAGED_PAGES - 1);
    SetRangeAllocated(ws, MANAGED_PAGES - 1, 2, 0);
    FreeCountSetBit(ws, MANAGED_PAGES, MANAGED_PAGES - 1);
  }

  /** pmm_free_pages' checks, in order, as written: the bounds sum is 32-bit. */
  function FreeStatus(initialized: bool, addr: u32, count: u32, total: nat): (r: int)
    ensures r in {SUCCESS, ERROR_INVALID, ERROR_ALIGNED}
    ensures r == SUCCESS ==>
      initialized && addr != 0 && count != 0 && addr % PAGE_SIZE == 0
      && MANAGED_START <= addr < MANAGED_START + MANAGED_SIZE
    ensures r == ERROR_ALIGNED <==> initialized && addr != 0 && count != 0 && addr % PAGE_SIZE != 0
  {
    if !initialized || addr == 0 || count == 0 then ERROR_INVALID
    else if addr % PAGE_SIZE != 0 then ERROR_ALIGNED
    else if addr < MANAGED_START || addr >= MANAGED_START + MANAGED_SIZE then ERROR_INVALID
    else if Wrap32(PageOf(addr - MANAGED_START) + count) > total then ERROR_INVALID
    else SUCCESS
  }

  /** The same checks with the bounds test written so that it cannot overflow. */
  function FreeStatusChecked(initialized: bool, addr: u32, count: u32, total: nat): (r: int)
    ensures r in {SUCCESS, ERROR_INVALID, ERROR_ALIGNED}
    ensures r == SUCCESS <==>
      (initialized && addr != 0 && count != 0 && addr % PAGE_SIZE == 0
       && MANAGED_START <= addr < MANAGED_START + MANAGED_SIZE
       && PageOf(addr - MANAGED_START) + count <= total)
    ensures r == ERROR_ALIGNED <==> initialized && addr != 0 && count != 0 && addr % PAGE_SIZE != 0
  {
    if !initialized || addr == 0 || count == 0 then ERROR_INVALID
    else if addr % PAGE_SIZE != 0 then ERROR_ALIGNED
    else if addr < MANAGED_START || addr >= MANAGED_START + MANAGED_SIZE then ERROR_INVALID
    else if PageOf(addr - MANAGED_START) >= total || count > total - PageOf(addr - MANAGED_START) then ERROR_INVALID
    else SUCCESS
  }

  /** When the 32-bit sum does not wrap the two bounds checks agree. */
  lemma FreeStatusAgrees(initialized: bool, addr: u32, count: u32, total: nat)
    requires count < U32 - MANAGED_PAGES && total <= MANAGED_PAGES
    ensures FreeStatus(initialized, addr, count, total) == FreeStatusChecked(initialized, addr, count, total)
  {
    if initialized && addr != 0 && count != 0 && addr % PAGE_SIZE == 0
       && MANAGED_START <= addr < MANAGED_START + MANAGED_SIZE {
      assert PageOf(addr - MANAGED_START) < MANAGED_PAGES;
    }
  }

  /**
   * As written, freeing 0xFFFFFFFF pages from managed page 1 passes the
   * bounds check: 1 + 0xFFFFFFFF wraps to 0.
   */
  lemma FreeBoundsWraps()
    ensures FreeStatus(true, MANAGED_START + PAGE_SIZE, 0xFFFF_FFFF, MANAGED_PAGES) == SUCCESS
    ensures FreeStatusChecked(true, MANAGED_START + PAGE_SIZE, 0xFFFF_FFFF, MANAGED_PAGES) == ERROR_INVALID
    ensures 1 + 0xFFFF_FFFF > MANAGED_PAGES
  {
  }

  /**
   * The page allocator. `bitmap` is the array pmm_init places at
   * PMM_MANAGED_START; only its first `bitmapSize` words are live.
   */
  class FrameAllocator {
    var bitmap: array<nat>
    var bitmapSize: nat
    var totalPages: nat
    var freeCount: nat
    var lastAllocated: nat
    var initialized: bool
    var regions: seq<Region>

    /** Storage shape: the fixed array of 32-bit words and the region table. */
    ghost predicate Shape()
      reads this, bitmap
    {
      bitmap.Length == BITMAP_WORDS
      && (forall i :: 0 <= i < bitmap.Length ==> IsWord(bitmap[i]))
      && bitmapSize <= bitmap.Length
      && |regions| <= MAX_REGIONS
    }

    /** Before pmm_init every counter is 0; after it the sizes are fixed. */
    ghost predicate Valid()
      reads this, bitmap
    {
      Shape()
      && freeCount < U32
      && if initialized then
           totalPages == MANAGED_PAGES && bitmapSize == BITMAP_WORDS && lastAllocated < totalPages
         else
           totalPages == 0 && bitmapSize == 0 && freeCount == 0 && lastAllocated == 0
    }

    /** The live words of the bitmap. */
    function Words(): (ws: seq<nat>)
      reads this, bitmap
      requires Shape()
      ensures |ws| == bitmapSize
    {
      bitmap[..bitmapSize]
    }

    /** The free counter equals the number of clear bits among the managed pages. */
    ghost predicate Consistent()
      reads this, bitmap
      requires Shape()
    {
      freeCount == FreeCount(Words(), totalPages)
    }

    constructor()
      ensures Valid() && !initialized && regions == []
    {
      bitmap := new nat[BITMAP_WORDS](_ => 0);
      bitmapSize := 0;
      totalPages := 0;
      freeCount := 0;
      lastAllocated := 0;
      initialized := false;
      regions := [];
    }

    /** pmm_test_bit: a page whose word is not live reads as allocated. */
    function TestBit(page: nat): (r: bool)
      reads this, bitmap
      requires Shape()
      ensures r == Allocated(Words(), page)
      ensures EntryOf(page) >= bitmapSize ==> r
    {
      var e := EntryOf(page);
      if e < bitmapSize then
        AndPow2(bitmap[e], BitOf(page));
        And(bitmap[e], Pow2(BitOf(page))) != 0
      else
        true
    }

    /** pmm_set_bit. */
    method SetBitAt(page: nat)
      requires Shape()
      modifies bitmap
      ensures Shape()
      ensures Words() == SetBit(old(Words()), page)
    {
      var e := EntryOf(page);
      if e < bitmapSize {
        WordOps(bitmap[e], BitOf(page));
        OrIsSet(bitmap[e], BitOf(page));
        bitmap[e] := Or(bitmap[e], Pow2(BitOf(page)));
        assert Words() == old(Words())[e := SetsBit(old(Words())[e], BitOf(page))];
      }
    }

    /** pmm_clear_bit. */
    method ClearBitAt(page: nat)
      requires Shape()
      modifies bitmap
      ensures Shape()
      ensures Words() == ClearBit(old(Words()), page)
    {
      var e := EntryOf(page);
      if e < bitmapSize {
        WordOps(bitmap[e], BitOf(page));
        ClearedIsAndNot(bitmap[e], BitOf(page));
        bitmap[e] := And(bitmap[e], Not(Pow2(BitOf(page)), WORD_BITS));
        assert Words() == old(Words())[e := ClearsBit(old(Words())[e], BitOf(page))];
      }
    }

    /** pmm_add_region: append to the 16-entry table, or report it full. */
    method AddRegion(start: u32, size: u32, kind: nat) returns (status: int)
      requires Shape()
      modifies this
      ensures Shape()
      ensures old(|regions|) >= MAX_REGIONS ==> status == ERROR_NO_MEMORY && regions == old(regions)
      ensures old(|regions|) < MAX_REGIONS ==> status == SUCCESS && regions == old(regions) + [Region(start, size, kind)]
      ensures bitmap == old(bitmap) && bitmapSize == old(bitmapSize) && totalPages == old(totalPages)
      ensures freeCount == old(freeCount) && lastAllocated == old(lastAllocated) && initialized == old(initialized)
    {
      if |regions| >= MAX_REGIONS {
        return ERROR_NO_MEMORY;
      }
      regions := regions + [Region(start, size, kind)];
      return SUCCESS;
    }

    /** pmm_init's clearing loop: the live words are zeroed, so every page is free. */
    method ClearBitmap()
      requires Shape()
      modifies bitmap
      ensures Shape()
      ensures forall q: nat :: EntryOf(q) < bitmapSize ==> !Allocated(Words(), q)
    {
      var i := 0;
      while i < bitmapSize
        invariant 0 <= i <= bitmapSize
        invariant Shape()
        invariant forall k :: 0 <= k < i ==> bitmap[k] == 0
      {
        bitmap[i] := 0;
        i := i + 1;
      }
      forall q: nat | EntryOf(q) < bitmapSize
        ensures !Allocated(Words(), q)
      {
        BitOfZero(BitOf(q));
      }
    }

    /**
     * pmm_init's marking loop over the region table: afterwards a managed
     * page is set exactly when it was set before or some region covers it.
     */
    method MarkRegions()
      requires Shape() && totalPages == MANAGED_PAGES
      modifies bitmap
      ensures Shape()
      ensures forall q: nat :: q < totalPages ==>
        (Allocated(Words(), q) <==> Allocated(old(Words()), q) || ReservedBy(regions, q))
    {
      ghost var ws := Words();
      var i := 0;
      while i < |regions|
        invariant 0 <= i <= |regions|
        invariant Shape()
        invariant forall q: nat :: q < totalPages ==>
          (Allocated(Words(), q) <==> Allocated(ws, q) || ReservedBy(regions[..i], q))
      {
        MarkRegion(regions[i]);
        forall q: nat | q < totalPages
          ensures Allocated(Words(), q) <==> Allocated(ws, q) || ReservedBy(regions[..i + 1], q)
        {
          ReservedByStep(regions, i, q);
        }
        i := i + 1;
      }
      assert regions[..i] == regions;
    }

    /**
     * One pass of pmm_init's marking loop: a region that is not available and
     * starts inside the managed range has its pages set, up to the last page.
     */
    method MarkRegion(r: Region)
      requires Shape() && totalPages == MANAGED_PAGES
      modifies bitmap
      ensures Shape()
      ensures forall q: nat :: q < totalPages ==>
        (Allocated(Words(), q) <==> Allocated(old(Words()), q) || Covers(r, q))
    {
      if r.kind != REGION_AVAILABLE {
        var startPage := PageOf(r.start);
        var pageCount := PageCount(r.size);
        if r.start >= MANAGED_START {
          startPage := startPage - PageOf(MANAGED_START);
          ghost var ws := Words();
          var j := 0;
          while j < pageCount && startPage + j < totalPages
            modifies bitmap
            invariant j <= pageCount
            invariant Shape()
            invariant forall q: nat :: q < totalPages ==>
              (Allocated(Words(), q) <==> Allocated(ws, q) || startPage <= q < startPage + j)
          {
            ghost var before := Words();
            SetBitAt(startPage + j);
            forall q: nat | q < totalPages
              ensures Allocated(Words(), q) == (startPage + j == q || Allocated(before, q))
            {
              SetBitAllocated(before, startPage + j, q);
            }
            j := j + 1;
          }
        }
      }
    }

    /** pmm_init's counting loop: the number of clear bits among the managed pages. */
    method CountFree() returns (free: nat)
      requires Shape()
      ensures free == FreeCount(Words(), totalPages)
    {
      free := 0;
      var i := 0;
      while i < totalPages
        invariant 0 <= i <= totalPages
        invariant free == FreeCount(Words(), i)
      {
        if !TestBit(i) {
          free := free + 1;
        }
        i := i + 1;
      }
    }

    /**
     * pmm_init. A second call returns success and changes nothing. The first
     * call clears the bitmap, registers the four boot regions, sets the bits of
     * every non-available region at or above the managed start, counts the
     * clear bits and resets the cursor.
     */
    method Init() returns (status: int)
      requires Valid()
      modifies this, bitmap
      ensures Valid() && status == SUCCESS && bitmap == old(bitmap)
      ensures old(initialized) ==> unchanged(this) && unchanged(bitmap)
      ensures !old(initialized) ==>
        initialized && totalPages == MANAGED_PAGES && bitmapSize == BITMAP_WORDS
        && regions == InitRegions() && lastAllocated == 0 && Consistent()
        && (forall q: nat :: q < totalPages ==> (TestBit(q) <==> ReservedBy(regions, q)))
        && (forall q: nat :: q < totalPages ==> (TestBit(q) <==> q == 0))
        && freeCount == MANAGED_PAGES - 1
    {
      if initialized {
        return SUCCESS;
      }
      totalPages := MANAGED_SIZE / PAGE_SIZE;
      bitmapSize := (totalPages + PAGES_PER_ENTRY - 1) / PAGES_PER_ENTRY;

      ClearBitmap();

      AddInitRegions();
      MarkRegions();

      var free := CountFree();
      FreeCountAtMost(Words(), totalPages);
      freeCount := free;
      lastAllocated := 0;
      initialized := true;

      forall q: nat | q < totalPages
        ensures Allocated(Words(), q) <==> q == 0
        ensures TestBit(q) <==> q == 0
      {
        InitReservesBitmapPage(q);
      }
      FreeCountAllButOne(Words(), totalPages, 0);
      return SUCCESS;
    }

    /** pmm_init's region table: kernel, heap, the bitmap's own page, the rest. */
    method AddInitRegions()
      requires Shape() && bitmapSize == BITMAP_WORDS
      modifies this
      ensures Shape() && regions == InitRegions()
      ensures bitmap == old(bitmap) && bitmapSize == old(bitmapSize) && totalPages == old(totalPages)
      ensures freeCount == old(freeCount) && lastAllocated == old(lastAllocated) && initialized == old(initialized)
    {
      regions := [];
      var added := AddRegion(KERNEL_START, KERNEL_END - KERNEL_START, REGION_KERNEL);
      added := AddRegion(HEAP_START, HEAP_SIZE, REGION_RESERVED);
      var bitmapBytes := bitmapSize * 4;
      added := AddRegion(MANAGED_START, bitmapBytes, REGION_RESERVED);
      var availableStart := MANAGED_START + AlignDown(bitmapBytes + PAGE_SIZE - 1);
      var availableSize := MANAGED_SIZE - (availableStart - MANAGED_START);
      added := AddRegion(availableStart, availableSize, REGION_AVAILABLE);
    }

    /**
     * pmm_find_free_pages: a next-fit scan of `totalPages` steps from the
     * cursor. The answer is the first page of the first run of `count`
     * consecutively visited free pages; the visit order passes from the last
     * page to page 0, so such a run may wrap.
     */
    method FindFreePages(count: nat) returns (r: nat)
      requires Valid()
      ensures !initialized || count == 0 ==> r == NOT_FOUND
      ensures initialized && count > 0 && r == NOT_FOUND ==>
        forall i: nat :: i < totalPages ==> !RunEndsAt(Words(), lastAllocated, count, i)
      ensures initialized && count > 0 && r != NOT_FOUND ==>
        r < totalPages && count <= totalPages
        && FirstRunEnd(Words(), lastAllocated, count, StepOf(lastAllocated, r) + count - 1)
    {
      if !initialized || count == 0 {
        return NOT_FOUND;
      }
      var start := lastAllocated;
      var found := 0;
      var startPage := 0;
      var i := 0;
      while i < totalPages
        invariant 0 <= i <= totalPages
        invariant found <= i && found < count
        invariant forall k :: i - found <= k < i ==> !Allocated(Words(), Visit(start, k))
        invariant found < i ==> Allocated(Words(), Visit(start, i - found - 1))
        invariant found > 0 ==> startPage == Visit(start, i - found)
        invariant forall j: nat :: j < i ==> !RunEndsAt(Words(), start, count, j)
      {
        var page := Visit(start, i);  // (start + i) mod the page total
        if !TestBit(page) {
          if found == 0 {
            startPage := page;
          }
          found := found + 1;
          if found == count {
            assert RunEndsAt(Words(), start, count, i);
            StepOfVisit(start, i + 1 - count);
            return startPage;
          }
        } else {
          found := 0;
        }
        i := i + 1;
      }
      return NOT_FOUND;
    }

    /**
     * pmm_alloc_pages. It fails (0, the NULL pointer) and changes nothing when
     * uninitialised, when count is 0, when the counter is below count or when
     * no run is found. Otherwise it sets pages start .. start+count-1 (not
     * reduced modulo the page total), subtracts count from the counter, moves
     * the cursor past the run and returns the run's physical address.
     */
    method AllocPages(count: nat) returns (addr: nat)
      requires Valid()
      modifies this, bitmap
      ensures Valid() && bitmap == old(bitmap)
      ensures initialized == old(initialized) && totalPages == old(totalPages)
      ensures bitmapSize == old(bitmapSize) && regions == old(regions)
      ensures addr == 0 <==>
        !old(initialized) || count == 0 || old(freeCount) < count
        || forall i: nat :: i < old(totalPages) ==> !RunEndsAt(old(Words()), old(lastAllocated), count, i)
      ensures addr == 0 ==> unchanged(this) && unchanged(bitmap)
      ensures addr != 0 ==> MANAGED_START <= addr
      ensures addr != 0 ==>
        var s := PageOf(addr - MANAGED_START);
        addr == MANAGED_START + s * PAGE_SIZE && s < totalPages
        && FirstRunEnd(old(Words()), old(lastAllocated), count, StepOf(old(lastAllocated), s) + count - 1)
        && Words() == SetRange(old(Words()), s, count)
        && freeCount == old(freeCount) - count
        && lastAllocated == Visit(s, count)
        && TestBit(s)
        && (s + count <= totalPages && old(Consistent()) ==> Consistent())
    {
      if !initialized || count == 0 || freeCount < count {
        return 0;
      }
      ghost var ws, last := Words(), lastAllocated;
      assert ws == old(Words()) && last == old(lastAllocated);
      var startPage := FindFreePages(count);
      if startPage == NOT_FOUND {
        assert Words() == ws;
        assert lastAllocated == last;
        assert forall i: nat :: i < totalPages ==> !RunEndsAt(ws, last, count, i);
        return 0;
      }
      ghost var i0 := StepOf(last, startPage) + count - 1;
      MarkRun(startPage, count);
      freeCount := freeCount - count;
      lastAllocated := Visit(startPage, count);  // (start_page + count) mod the page total
      SetRangeAllocated(ws, startPage, count, startPage);
      if startPage + count <= totalPages && freeCount + count == FreeCount(ws, totalPages) {
        VisitStepOf(last, startPage);
        RunPages(ws, last, count, i0, startPage);
        AllocKeepsCount(ws, totalPages, startPage, count);
      }
      assert PageOf(MANAGED_START + startPage * PAGE_SIZE - MANAGED_START) == startPage;
      return MANAGED_START + startPage * PAGE_SIZE;
    }

    /** pmm_alloc_pages' marking loop: pages start, start+1, ..., start+count-1 set in turn. */
    method MarkRun(start: nat, count: nat)
      requires Shape()
      modifies bitmap
      ensures Shape()
      ensures Words() == SetRange(old(Words()), start, count)
    {
      for i := 0 to count
        invariant Shape() && Words() == SetRange(old(Words()), start, i)
      {
        SetBitAt(start + i);
      }
    }

    /**
     * The intended pmm_find_free_pages: the same next-fit scan, except that
     * a run is broken where the visit order passes from the last page to
     * page 0, so the run returned lies wholly inside the managed pages.
     */
    method FindFreePagesNoWrap(count: nat) returns (r: nat)
      requires Valid()
      ensures !initialized || count == 0 ==> r == NOT_FOUND
      ensures initialized && count > 0 && r == NOT_FOUND ==>
        forall i: nat :: i < totalPages ==> !PlainRunEndsAt(Words(), lastAllocated, count, i)
      ensures initialized && count > 0 && r != NOT_FOUND ==>
        r + count <= totalPages
        && (forall q :: r <= q < r + count ==> !Allocated(Words(), q))
        && FirstPlainRunEnd(Words(), lastAllocated, count, StepOf(lastAllocated, r + count - 1))
    {
      if !initialized || count == 0 {
        return NOT_FOUND;
      }
      var start := lastAllocated;
      var found: nat := 0;
      var startPage: nat := 0;
      ghost var last: nat := 0;
      for i: nat := 0 to totalPages
        invariant i == 0 ==> found == 0
        invariant i > 0 ==> last == Visit(start, i - 1) && ScanState(Words(), last, found, i)
        invariant found > 0 ==> startPage == last + 1 - found
        invariant found < count
        invariant forall j: nat :: j < i ==> !PlainRunEndsAt(Words(), start, count, j)
      {
        var page := Visit(start, i);
        found, startPage := ScanStep(start, i, found, startPage, last);
        NoPlainRunBeforeFound(Words(), start, count, i, found);
        last := page;
        if found == count {
          PlainRunFound(Words(), start, count, i, startPage);
          return startPage;
        }
      }
      return NOT_FOUND;
    }

    /** One step of the corrected scan: the run restarts at page 0 and ends at an allocated page. */
    method ScanStep(start: nat, i: nat, found: nat, startPage: nat, ghost last: nat)
      returns (next: nat, nextStart: nat)
      requires Valid() && initialized
      requires i == 0 ==> found == 0
      requires i > 0 ==> last == Visit(start, i - 1) && ScanState(Words(), last, found, i)
      requires found > 0 ==> startPage == last + 1 - found
      ensures ScanState(Words(), Visit(start, i), next, i + 1)
      ensures next <= found + 1
      ensures next > 0 ==> nextStart == Visit(start, i) + 1 - next
    {
      var page := Visit(start, i);
      if i > 0 {
        VisitNext(start, i - 1);
      }
      next, nextStart := found, startPage;
      if page == 0 {
        next := 0;
      }
      if !TestBit(page) {
        if next == 0 {
          nextStart := page;
        }
        next := next + 1;
      } else {
        next := 0;
      }
      ScanAdvance(Words(), start, i, found, next);
    }

    /**
     * The intended pmm_alloc_pages: pmm_alloc_pages with the corrected
     * search. The pages it marks are exactly the free run it found, so the
     * counter stays equal to the number of clear bits.
     */
    method AllocPagesNoWrap(count: nat) returns (addr: nat)
      requires Valid()
      modifies this, bitmap
      ensures Valid() && bitmap == old(bitmap)
      ensures initialized == old(initialized) && totalPages == old(totalPages)
      ensures bitmapSize == old(bitmapSize) && regions == old(regions)
      ensures addr == 0 <==>
        !old(initialized) || count == 0 || old(freeCount) < count
        || forall i: nat :: i < old(totalPages) ==> !PlainRunEndsAt(old(Words()), old(lastAllocated), count, i)
      ensures addr == 0 ==> unchanged(this) && unchanged(bitmap)
      ensures addr != 0 ==> MANAGED_START <= addr
      ensures addr != 0 ==>
        var s := PageOf(addr - MANAGED_START);
        addr == MANAGED_START + s * PAGE_SIZE && s + count <= totalPages
        && (forall q :: s <= q < s + count ==> !Allocated(old(Words()), q) && TestBit(q))
        && Words() == SetRange(old(Words()), s, count)
        && freeCount == old(freeCount) - count
        && lastAllocated == Visit(s, count)
      ensures old(Consistent()) ==> Consistent()
    {
      if !initialized || count == 0 || freeCount < count {
        return 0;
      }
      ghost var ws, last := Words(), lastAllocated;
      assert ws == old(Words()) && last == old(lastAllocated);
      var startPage := FindFreePagesNoWrap(count);
      if startPage == NOT_FOUND {
        assert Words() == ws && lastAllocated == last;
        assert forall i: nat :: i < totalPages ==> !PlainRunEndsAt(ws, last, count, i);
        return 0;
      }
      ghost var i0 := StepOf(lastAllocated, startPage + count - 1);
      assert i0 < old(totalPages) && PlainRunEndsAt(old(Words()), old(lastAllocated), count, i0);
      MarkRun(startPage, count);
      freeCount := freeCount - count;
      lastAllocated := Visit(startPage, count);
      forall q | startPage <= q < startPage + count
        ensures TestBit(q)
      {
        SetRangeAllocated(ws, startPage, count, q);
      }
      AllocKeepsCount(ws, totalPages, startPage, count);
      assert PageOf(MANAGED_START + startPage * PAGE_SIZE - MANAGED_START) == startPage;
      return MANAGED_START + startPage * PAGE_SIZE;
    }

    /** pmm_alloc_page: a one-page allocation. */
    method AllocPage() returns (addr: nat)
      requires Valid()
      modifies this, bitmap
      ensures Valid() && bitmap == old(bitmap)
      ensures addr == 0 ==> unchanged(this) && unchanged(bitmap)
      ensures addr != 0 ==> MANAGED_START <= addr
      ensures addr != 0 ==>
        var s := PageOf(addr - MANAGED_START);
        s < totalPages && old(!TestBit(s)) && TestBit(s)
        && freeCount == old(freeCount) - 1
        && (old(Consistent()) ==> Consistent())
    {
      addr := AllocPages(1);
      if addr != 0 {
        var s := PageOf(addr - MANAGED_START);
        assert RunEndsAt(old(Words()), old(lastAllocated), 1, StepOf(old(lastAllocated), s));
        VisitStepOf(old(lastAllocated), s);
      }
    }

    /**
     * pmm_free_pages, as written: after the checks of FreeStatus it clears
     * pages (start + i) mod 2^32 for i < count, whether or not they were
     * allocated, and adds count to the counter.
     */
    method FreePages(addr: u32, count: u32) returns (status: int)
      requires Valid()
      modifies this, bitmap
      ensures Valid() && bitmap == old(bitmap)
      ensures status == FreeStatus(old(initialized), addr, count, old(totalPages))
      ensures status != SUCCESS ==> unchanged(this) && unchanged(bitmap)
      ensures status == SUCCESS ==>
        var s := PageOf(addr - MANAGED_START);
        Words() == ClearWrapped(old(Words()), s, count)
        && freeCount == Wrap32(old(freeCount) + count)
        && initialized && totalPages == old(totalPages) && lastAllocated == old(lastAllocated)
        && regions == old(regions)
        && ((old(Consistent()) && s + count <= totalPages
             && forall q :: s <= q < s + count ==> Allocated(old(Words()), q)) ==> Consistent())
        && (old(Consistent()) && count == 1 && !old(TestBit(s)) ==>
              freeCount == FreeCount(Words(), totalPages) + 1 && !Consistent())
    {
      status := FreeStatus(initialized, addr, count, totalPages);
      if status != SUCCESS {
        return;
      }
      var startPage := PageOf(addr - MANAGED_START);
      ghost var ws := Words();
      ghost var consistent := Consistent();
      ghost var live := consistent && startPage + count <= totalPages
        && forall q :: startPage <= q < startPage + count ==> Allocated(ws, q);
      ClearRunWrapped(startPage, count);
      FreeCountAtMost(Words(), totalPages);
      if live {
        FreeKeepsCount(ws, totalPages, startPage, count);
      }
      if consistent && count == 1 && !Allocated(ws, startPage) {
        DoubleFreeKeepsFreePages(ws, totalPages, startPage, freeCount);
      }
      freeCount := Wrap32(freeCount + count);
    }

    /**
     * pmm_free_pages' clearing loop: pages (start + i) mod 2^32 cleared in
     * turn, whatever their state (the warning for a free page is output only).
     */
    method ClearRunWrapped(start: u32, count: u32)
      requires Shape()
      modifies bitmap
      ensures Shape()
      ensures Words() == ClearWrapped(old(Words()), start, count)
    {
      ghost var ws := Words();
      var i: nat := 0;
      while i < count
        invariant i <= count && Shape() && Words() == ClearWrapped(ws, start, i)
        decreases count - i
      {
        ghost var cur := Words();
        ClearBitAt(Wrap32(start + i));
        ClearWrappedStep(ws, start, i);
        i := i + 1;
      }
    }

    /** pmm_free_page: a one-page free. */
    method FreePage(addr: u32) returns (status: int)
      requires Valid()
      modifies this, bitmap
      ensures Valid() && bitmap == old(bitmap)
      ensures status == FreeStatus(old(initialized), addr, 1, old(totalPages))
      ensures status != SUCCESS ==> unchanged(this) && unchanged(bitmap)
      ensures status == SUCCESS ==>
        !TestBit(PageOf(addr - MANAGED_START)) && freeCount == Wrap32(old(freeCount) + 1)
    {
      status := FreePages(addr, 1);
      if status == SUCCESS {
        var s := PageOf(addr - MANAGED_START);
        ClearWrappedAllocated(old(Words()), s, 1, s);
      }
    }

    /**
     * The intended pmm_free_pages: an overflow-free bounds check, and the
     * counter grows only by the pages whose bit actually changes, as
     * pmm_mark_available does. It keeps the counter consistent.
     */
    method FreePagesChecked(addr: u32, count: u32) returns (status: int)
      requires Valid()
      modifies this, bitmap
      ensures Valid() && bitmap == old(bitmap)
      ensures status == FreeStatusChecked(old(initialized), addr, count, old(totalPages))
      ensures status != SUCCESS ==> unchanged(this) && unchanged(bitmap)
      ensures status == SUCCESS ==>
        var s := PageOf(addr - MANAGED_START);
        s + count <= totalPages
        && (forall q: nat :: TestBit(q) == (old(TestBit(q)) && !(s <= q < s + count)))
        && initialized && totalPages == old(totalPages) && lastAllocated == old(lastAllocated)
        && regions == old(regions)
        && (old(Consistent()) ==> Consistent())
    {
      status := FreeStatusChecked(initialized, addr, count, totalPages);
      if status != SUCCESS {
        return;
      }
      var startPage := PageOf(addr - MANAGED_START);
      ghost var ws := Words();
      ghost var consistent := Consistent();
      var i := 0;
      while i < count
        invariant 0 <= i <= count
        invariant Valid() && bitmap == old(bitmap)
        invariant initialized && totalPages == old(totalPages) && lastAllocated == old(lastAllocated)
        invariant bitmapSize == old(bitmapSize) && regions == old(regions)
        invariant forall q: nat :: Allocated(Words(), q) == (Allocated(ws, q) && !(startPage <= q < startPage + i))
        invariant consistent ==> Consistent()
      {
        ReleasePage(startPage + i, 0);
        i := i + 1;
      }
    }

    /**
     * The body of pmm_reserve_region's loop: a clear bit is set and the
     * counter drops by one (in 32 bits); a set bit is left alone.
     */
    method ReservePage(p: nat, ghost base: int)
      requires Valid() && initialized && p < totalPages
      modifies this, bitmap
      ensures Valid() && bitmap == old(bitmap) && initialized
      ensures totalPages == old(totalPages) && bitmapSize == old(bitmapSize)
      ensures lastAllocated == old(lastAllocated) && regions == old(regions)
      ensures forall q: nat :: Allocated(Words(), q) == (Allocated(old(Words()), q) || q == p)
      ensures freeCount == if old(TestBit(p)) then old(freeCount) else Wrap32(old(freeCount) - 1)
      ensures FreeCount(Words(), totalPages) == FreeCount(old(Words()), totalPages) - (if old(TestBit(p)) then 0 else 1)
      ensures old(freeCount) == (base + old(FreeCount(Words(), totalPages))) % U32 ==>
              freeCount == (base + FreeCount(Words(), totalPages)) % U32
      ensures old(TestBit(p)) ==> unchanged(this) && unchanged(bitmap)
      ensures old(Consistent()) ==> Consistent()
    {
      if !TestBit(p) {
        ghost var before := Words();
        SetBitAt(p);
        forall q: nat
          ensures Allocated(Words(), q) == (q == p || Allocated(before, q))
        {
          SetBitAllocated(before, p, q);
        }
        FreeCountSetBit(before, totalPages, p);
        FreeCountPositive(before, totalPages, p);
        if freeCount == (base + FreeCount(before, totalPages)) % U32 {
          CounterStep(freeCount, base, FreeCount(before, totalPages), -1);
        }
        freeCount := Wrap32(freeCount - 1);
      }
    }

    /**
     * The body of pmm_mark_available's loop: a set bit is cleared and the
     * counter grows by one (in 32 bits); a clear bit is left alone.
     */
    method ReleasePage(p: nat, ghost base: int)
      requires Valid() && initialized && p < totalPages
      modifies this, bitmap
      ensures Valid() && bitmap == old(bitmap) && initialized
      ensures totalPages == old(totalPages) && bitmapSize == old(bitmapSize)
      ensures lastAllocated == old(lastAllocated) && regions == old(regions)
      ensures forall q: nat :: Allocated(Words(), q) == (Allocated(old(Words()), q) && q != p)
      ensures freeCount == if old(TestBit(p)) then Wrap32(old(freeCount) + 1) else old(freeCount)
      ensures FreeCount(Words(), totalPages) == FreeCount(old(Words()), totalPages) + (if old(TestBit(p)) then 1 else 0)
      ensures old(freeCount) == (base + old(FreeCount(Words(), totalPages))) % U32 ==>
              freeCount == (base + FreeCount(Words(), totalPages)) % U32
      ensures !old(TestBit(p)) ==> unchanged(this) && unchanged(bitmap)
      ensures old(Consistent()) ==> Consistent()
    {
      if TestBit(p) {
        ghost var before := Words();
        ClearBitAt(p);
        forall q: nat
          ensures Allocated(Words(), q) == (Allocated(before, q) && q != p)
        {
          ClearBitAllocated(before, p, q);
        }
        FreeCountClearBit(before, totalPages, p);
        FreeCountAtMost(Words(), totalPages);
        if freeCount == (base + FreeCount(before, totalPages)) % U32 {
          CounterStep(freeCount, base, FreeCount(before, totalPages), 1);
        }
        freeCount := Wrap32(freeCount + 1);
      }
    }

    /**
     * pmm_reserve_region: every clear bit of the region's managed pages is set
     * and the counter drops by one for each. A region starting below the
     * managed start is ignored.
     */
    method ReserveRegion(start: u32, size: u32) returns (status: int)
      requires Valid()
      modifies this, bitmap
      ensures Valid() && bitmap == old(bitmap)
      ensures status == if old(initialized) then SUCCESS else ERROR_INVALID
      ensures freeCount == (old(freeCount) + FreeCount(Words(), totalPages) - FreeCount(old(Words()), totalPages)) % U32
      ensures !old(initialized) || start < MANAGED_START ==> unchanged(this) && unchanged(bitmap)
      ensures old(initialized) && start >= MANAGED_START ==>
        var s := RelativePage(start);
        var n := Span(s, PageCount(size), totalPages);
        (forall q: nat :: TestBit(q) == (old(TestBit(q)) || s <= q < s + n))
        && ((forall q :: s <= q < s + n ==> old(TestBit(q))) ==> unchanged(this) && unchanged(bitmap))
        && (old(Consistent()) ==> Consistent())
        && initialized && totalPages == old(totalPages) && lastAllocated == old(lastAllocated)
        && regions == old(regions)
    {
      if !initialized {
        return ERROR_INVALID;
      }
      var startPage := PageOf(start);
      var pageCount := PageCount(size);
      if start >= MANAGED_START {
        startPage := startPage - PageOf(MANAGED_START);
        ReserveSpan(startPage, pageCount);
      }
      return SUCCESS;
    }

    /** The loop of pmm_reserve_region over managed pages first, first+1, ... */
    method ReserveSpan(first: nat, pageCount: nat)
      requires Valid() && initialized
      modifies this, bitmap
      ensures Valid() && bitmap == old(bitmap) && initialized
      ensures totalPages == old(totalPages) && lastAllocated == old(lastAllocated)
      ensures bitmapSize == old(bitmapSize) && regions == old(regions)
      ensures forall q: nat :: Allocated(Words(), q) == (Allocated(old(Words()), q) || first <= q < first + Span(first, pageCount, totalPages))
      ensures freeCount == (old(freeCount) + FreeCount(Words(), totalPages) - FreeCount(old(Words()), totalPages)) % U32
      ensures old(Consistent()) ==> Consistent()
      ensures (forall q :: first <= q < first + Span(first, pageCount, totalPages) ==> old(TestBit(q))) ==> unchanged(this) && unchanged(bitmap)
    {
      ghost var ws := Words();
      ghost var consistent := Consistent();
      ghost var c0 := freeCount;
      ghost var f0 := FreeCount(ws, totalPages);
      ghost var allSet := forall q :: first <= q < first + Span(first, pageCount, totalPages) ==> TestBit(q);
      var i := 0;
      while i < pageCount && first + i < totalPages
        invariant i <= pageCount && (i > 0 ==> first + i <= totalPages)
        invariant Valid() && bitmap == old(bitmap)
        invariant initialized && totalPages == old(totalPages) && lastAllocated == old(lastAllocated)
        invariant bitmapSize == old(bitmapSize) && regions == old(regions)
        invariant forall q: nat :: Allocated(Words(), q) == (Allocated(ws, q) || first <= q < first + i)
        invariant consistent ==> Consistent()
        invariant freeCount == (c0 - f0 + FreeCount(Words(), totalPages)) % U32
        invariant allSet ==> unchanged(this) && unchanged(bitmap)
      {
        ReservePage(first + i, c0 - f0);
        i := i + 1;
      }
    }

    /**
     * pmm_mark_available: every set bit of the region's managed pages is
     * cleared and the counter grows by one for each. A region starting below
     * the managed start is ignored.
     */
    method MarkAvailable(start: u32, size: u32) returns (status: int)
      requires Valid()
      modifies this, bitmap
      ensures Valid() && bitmap == old(bitmap)
      ensures status == if old(initialized) then SUCCESS else ERROR_INVALID
      ensures freeCount == (old(freeCount) + FreeCount(Words(), totalPages) - FreeCount(old(Words()), totalPages)) % U32
      ensures !old(initialized) || start < MANAGED_START ==> unchanged(this) && unchanged(bitmap)
      ensures old(initialized) && start >= MANAGED_START ==>
        var s := RelativePage(start);
        var n := Span(s, PageCount(size), totalPages);
        (forall q: nat :: TestBit(q) == (old(TestBit(q)) && !(s <= q < s + n)))
        && ((forall q :: s <= q < s + n ==> !old(TestBit(q))) ==> unchanged(this) && unchanged(bitmap))
        && (old(Consistent()) ==> Consistent())
        && initialized && totalPages == old(totalPages) && lastAllocated == old(lastAllocated)
        && regions == old(regions)
    {
      if !initialized {
        return ERROR_INVALID;
      }
      var startPage := PageOf(start);
      var pageCount := PageCount(size);
      if start >= MANAGED_START {
        startPage := startPage - PageOf(MANAGED_START);
        ReleaseSpan(startPage, pageCount);
      }
      return SUCCESS;
    }

    /** The loop of pmm_mark_available over managed pages first, first+1, ... */
    method ReleaseSpan(first: nat, pageCount: nat)
      requires Valid() && initialized
      modifies this, bitmap
      ensures Valid() && bitmap == old(bitmap) && initialized
      ensures totalPages == old(totalPages) && lastAllocated == old(lastAllocated)
      ensures bitmapSize == old(bitmapSize) && regions == old(regions)
      ensures forall q: nat :: Allocated(Words(), q) == (Allocated(old(Words()), q) && !(first <= q < first + Span(first, pageCount, totalPages)))
      ensures freeCount == (old(freeCount) + FreeCount(Words(), totalPages) - FreeCount(old(Words()), totalPages)) % U32
      ensures old(Consistent()) ==> Consistent()
      ensures (forall q :: first <= q < first + Span(first, pageCount, totalPages) ==> !old(TestBit(q))) ==> unchanged(this) && unchanged(bitmap)
    {
      ghost var ws := Words();
      ghost var consistent := Consistent();
      ghost var c0 := freeCount;
      ghost var f0 := FreeCount(ws, totalPages);
      ghost var allClear := forall q :: first <= q < first + Span(first, pageCount, totalPages) ==> !TestBit(q);
      var i := 0;
      while i < pageCount && first + i < totalPages
        invariant i <= pageCount && (i > 0 ==> first + i <= totalPages)
        invariant Valid() && bitmap == old(bitmap)
        invariant initialized && totalPages == old(totalPages) && lastAllocated == old(lastAllocated)
        invariant bitmapSize == old(bitmapSize) && regions == old(regions)
        invariant forall q: nat :: Allocated(Words(), q) == (Allocated(ws, q) && !(first <= q < first + i))
        invariant consistent ==> Consistent()
        invariant freeCount == (c0 - f0 + FreeCount(Words(), totalPages)) % U32
        invariant allClear ==> unchanged(this) && unchanged(bitmap)
      {
        ReleasePage(first + i, c0 - f0);
        i := i + 1;
      }
    }

    /** pmm_get_stats: all zeros before initialisation; used = total - free in 32 bits. */
    function GetStats(): (st: Stats)
      reads this, bitmap
      requires Valid()
      ensures !initialized ==> st == Stats(0, 0, 0, 0, 0, 0)
      ensures initialized ==>
        st.totalPages == MANAGED_PAGES && st.bitmapSize == BITMAP_WORDS * 4
        && st.freePages == freeCount && st.lastAllocatedPage == lastAllocated
        && st.reservedPages == 0
      ensures initialized && Consistent() ==> st.usedPages + st.freePages == st.totalPages
    {
      if initialized then
        FreeCountAtMost(Words(), totalPages);
        Stats(totalPages, freeCount, Wrap32(totalPages - freeCount), 0, bitmapSize * 4, lastAllocated)
      else
        Stats(0, 0, 0, 0, 0, 0)
    }

    /** pmm_get_free_memory: free pages times the page size, in 32 bits. */
    function GetFreeMemory(): (bytes: nat)
      reads this, bitmap
      requires Valid()
      ensures bytes == Mul32(GetStats().freePages, PAGE_SIZE)
      ensures initialized && Consistent() ==> bytes == FreeCount(Words(), totalPages) * PAGE_SIZE
    {
      if initialized then
        FreeCountAtMost(Words(), totalPages);
        Mul32(freeCount, PAGE_SIZE)
      else 0
    }

    /** pmm_get_used_memory: used pages times the page size, in 32 bits. */
    function GetUsedMemory(): (bytes: nat)
      reads this, bitmap
      requires Valid()
      ensures bytes == Mul32(GetStats().usedPages, PAGE_SIZE)
      ensures initialized && Consistent() ==> bytes + GetFreeMemory() == MANAGED_SIZE
    {
      if initialized then
        FreeCountAtMost(Words(), totalPages);
        Mul32(Wrap32(totalPages - freeCount), PAGE_SIZE)
      else 0
    }

    /**
     * pmm_is_page_allocated: 1 ("allocated") when uninitialised, for NULL and
     * outside the managed range; otherwise the bit of the page holding `addr`.
     */
    function IsPageAllocated(addr: nat): (r: int)
      reads this, bitmap
      requires Valid()
      ensures r == 0 || r == 1
      ensures r == 0 <==> initialized && addr != 0 && MANAGED_START <= addr < MANAGED_START + MANAGED_SIZE
                          && !TestBit(PageOf(addr - MANAGED_START))
    {
      if !initialized || addr == 0 then 1
      else if addr < MANAGED_START || addr >= MANAGED_START + MANAGED_SIZE then 1
      else if TestBit(PageOf(addr - MANAGED_START)) then 1 else 0
    }
  }

  /** The pages of the run that ends at step i are s .. s+count-1 when it does not wrap. */
  lemma RunPages(ws: seq<nat>, start: nat, count: nat, i: nat, s: nat)
    requires start < MANAGED_PAGES && count >= 1
    requires RunEndsAt(ws, start, count, i) && i < MANAGED_PAGES
    requires s == Visit(start, i + 1 - count) && s + count <= MANAGED_PAGES
    ensures forall q :: s <= q < s + count ==> !Allocated(ws, q)
  {
    forall q | s <= q < s + count
      ensures !Allocated(ws, q)
    {
      VisitShift(start, i + 1 - count, q - s);
    }
  }

  lemma FreeCountPositive(ws: seq<nat>, n: nat, p: nat)
    requires p < n && !Allocated(ws, p)
    ensures FreeCount(ws, n) >= 1
  {
    FreeCountSetBit(ws, n, p);
  }
}
