/**
 * The older PAE paging code of paging.c. It differs from src/memory/paging.c
 * in its page allocator only: every page comes from a bump cursor
 * (`allocate_physical_page_simple`) and `free_physical_page` does nothing,
 * and the identity mapping covers 4 MiB instead of 32 MiB. The tables are
 * specified by the same PageWalk functions.
 */
module BumpPaging {
  import opened PmmBits
  import opened PaeLayout
  import opened PageWalk
  import opened ControlRegs
  import PaePaging

  /** The first page the cursor hands out: `HEAP_START + HEAP_SIZE`. */
  const FIRST_PAGE: u32 := 0x102_0000
  /** End of the range `setup_identity_mapping` maps (4 MiB). */
  const IDENTITY_END: nat := 0x40_0000

  /** `next_free_page += PAGE_SIZE` in uint32_t. */
  function Bump(next: u32): u32
  {
    Wrap32(next + PAGE_SIZE)
  }

  /** The cursor after `n` allocations from `next`. */
  function BumpAfter(next: u32, n: nat): u32
  {
    if n == 0 then next else Bump(BumpAfter(next, n - 1))
  }

  /** The pages `n` allocations from `next` hand out, in order. */
  function BumpRun(next: u32, n: nat): (r: seq<u32>)
    ensures |r| == n
    ensures forall k :: 0 <= k < n ==> r[k] == BumpAfter(next, k)
    ensures n > 0 ==> r[0] == next
  {
    if n == 0 then [] else BumpRun(next, n - 1) + [BumpAfter(next, n - 1)]
  }

  /**
   * While the cursor does not pass 4 GiB, allocation `k` returns the page
   * `k` pages above the start and the cursor ends `n` pages above it.
   */
  lemma {:induction false} BumpLinear(next: u32, n: nat)
    requires next + n * PAGE_SIZE < U32
    ensures BumpAfter(next, n) == next + n * PAGE_SIZE
    ensures forall k :: 0 <= k < n ==> BumpRun(next, n)[k] == next + k * PAGE_SIZE
  {
    if n > 0 {
      BumpLinear(next, n - 1);
      var prev := BumpAfter(next, n - 1);
      assert prev == next + (n - 1) * PAGE_SIZE;
      assert BumpAfter(next, n) == Wrap32(prev + PAGE_SIZE);
      var run := BumpRun(next, n);
      assert run == BumpRun(next, n - 1) + [prev];
      forall k | 0 <= k < n
        ensures run[k] == next + k * PAGE_SIZE
      {
        if k < n - 1 {
          assert run[k] == BumpRun(next, n - 1)[k];
        }
      }
    }
  }

  /**
   * Without wrap-around the cursor never hands a page out twice: the pages
   * rise strictly, lie in [next, next + n pages), and are page-aligned when
   * the start is.
   */
  lemma BumpDistinct(next: u32, n: nat)
    requires next + n * PAGE_SIZE < U32
    ensures forall i, j :: 0 <= i < j < n ==> BumpRun(next, n)[i] < BumpRun(next, n)[j]
    ensures forall k :: 0 <= k < n ==> next <= BumpRun(next, n)[k] < next + n * PAGE_SIZE
    ensures next % PAGE_SIZE == 0 ==> forall k :: 0 <= k < n ==> BumpRun(next, n)[k] % PAGE_SIZE == 0
  {
    BumpLinear(next, n);
    if next % PAGE_SIZE == 0 {
      forall k | 0 <= k < n
        ensures BumpRun(next, n)[k] % PAGE_SIZE == 0
      {
        assert next + k * PAGE_SIZE == PAGE_SIZE * (next / PAGE_SIZE + k);
      }
    }
  }

  /** Past 4 GiB the cursor wraps round: the page after 0xFFFFF000 is NULL. */
  lemma BumpWrapsToNull()
    ensures BumpRun(0xFFFF_F000, 2) == [0xFFFF_F000, 0]
  {
  }

  /**
   * At boot `paging_init` takes the PDPT at 0x1020000 and the four
   * directories from the next four pages, all above the heap and the
   * identity-mapped range.
   */
  lemma InitialBoot()
    ensures BumpRun(FIRST_PAGE, 5) == [0x102_0000, 0x102_1000, 0x102_2000, 0x102_3000, 0x102_4000]
    ensures BumpAfter(FIRST_PAGE, 5) == 0x102_5000
    ensures FIRST_PAGE == PaePaging.HEAP_START + PaePaging.HEAP_SIZE && FIRST_PAGE >= IDENTITY_END
  {
    BumpLinear(FIRST_PAGE, 5);
  }

  /** The globals of paging.c. */
  class Paging {
    var nextFreePage: u32
    /** The PDPT's address and its four entries. */
    var pdpt: u32
    var pdptEntries: seq<nat>
    /** `page_directories[]` and the contents of every directory and page table. */
    var tables: Tables
    ghost var regs: Regs
    ghost var crLog: seq<CrWrite>

    ghost predicate Valid()
      reads this
    {
      |pdptEntries| == PDPT_ENTRIES
    }

    /** The state before `paging_init`, with the control registers as the boot code left them. */
    constructor(ghost boot: Regs)
      ensures Valid() && nextFreePage == FIRST_PAGE && tables == EMPTY
      ensures pdpt == 0 && pdptEntries == [0, 0, 0, 0] && regs == boot && crLog == []
    {
      nextFreePage := FIRST_PAGE;
      pdpt := 0;
      pdptEntries := [0, 0, 0, 0];
      tables := EMPTY;
      regs := boot;
      crLog := [];
    }

    /** allocate_physical_page_simple: the cursor, which then moves one page on. */
    method AllocatePhysicalPageSimple() returns (page: u32)
      modifies this
      ensures page == old(nextFreePage) && nextFreePage == Bump(old(nextFreePage))
      ensures pdpt == old(pdpt) && pdptEntries == old(pdptEntries) && tables == old(tables)
      ensures regs == old(regs) && crLog == old(crLog)
    {
      page := nextFreePage;
      nextFreePage := Wrap32(nextFreePage + PAGE_SIZE);
    }

    /**
     * paging_init: allocate the PDPT and, unless it is misaligned, the four
     * directories. Each directory is a zeroed page, so afterwards no address
     * is mapped.
     */
    method PagingInit()
      requires Valid()
      modifies this
      ensures Valid()
      ensures pdpt == old(nextFreePage)
      ensures pdpt % 32 != 0 ==>
        nextFreePage == Bump(old(nextFreePage)) && tables == old(tables) && pdptEntries == [0, 0, 0, 0]
      ensures pdpt % 32 == 0 ==>
        var dirs := BumpRun(Bump(old(nextFreePage)), PDPT_ENTRIES);
        nextFreePage == BumpAfter(old(nextFreePage), 1 + PDPT_ENTRIES)
        && (forall i :: 0 <= i < PDPT_ENTRIES ==> Dir(tables, i) == dirs[i] && pdptEntries[i] == Or(dirs[i], PAGE_PRESENT))
        && (forall v: u32 :: Translate(tables, v) == 0)
      ensures regs == old(regs) && crLog == old(crLog)
    {
      var top := AllocatePhysicalPageSimple();
      pdpt := top;
      pdptEntries := [0, 0, 0, 0];
      AlignMasks(top);
      if And(top, 0x1F) != 0 {
        return;
      }
      ghost var start := nextFreePage;
      ghost var dirs: seq<u32> := [];
      var i: nat := 0;
      while i < PDPT_ENTRIES
        invariant i <= PDPT_ENTRIES && |pdptEntries| == PDPT_ENTRIES
        invariant dirs == BumpRun(start, i) && nextFreePage == BumpAfter(start, i)
        invariant FreshDirs(tables, dirs)
        invariant forall k :: 0 <= k < i ==> pdptEntries[k] == Or(dirs[k], PAGE_PRESENT)
        invariant pdpt == top && regs == old(regs) && crLog == old(crLog)
      {
        var dir := AllocatePhysicalPageSimple();
        FreshDirsStep(tables, dirs, dir);
        tables := tables.(dirs := tables.dirs[i := dir], pd := tables.pd[i := map[]]);
        pdptEntries := pdptEntries[i := Or(dir, PAGE_PRESENT)];
        dirs := dirs + [dir];
        i := i + 1;
      }
      BumpShift(old(nextFreePage), PDPT_ENTRIES);
      forall v: u32
        ensures Translate(tables, v) == 0
      {
        FreshMapsNothing(tables, dirs, v);
      }
    }

    /**
     * map_page: -1 without a directory; otherwise a table is allocated
     * only when the directory entry lacks PRESENT, and the leaf is written.
     */
    method MapPage(v: u32, phys: u64, flags: u32) returns (r: int)
      modifies this
      ensures r == 0 || r == -1
      ensures r == -1 <==> Dir(old(tables), PdptIndex(v)) == 0
      ensures tables == MapOrKeep(old(tables), v, phys, flags, old(nextFreePage))
      ensures r == -1 ==> nextFreePage == old(nextFreePage)
      ensures r == 0 ==>
        nextFreePage == if Present(DirEntry(old(tables), SlotOf(v))) then old(nextFreePage) else Bump(old(nextFreePage))
      ensures pdpt == old(pdpt) && pdptEntries == old(pdptEntries) && regs == old(regs) && crLog == old(crLog)
    {
      var s := SlotOf(v);
      if Dir(tables, s.pdpt) == 0 {
        return -1;
      }
      PresentIsFlag(DirEntry(tables, s));
      if And(DirEntry(tables, s), PAGE_PRESENT) == 0 {
        var frame := AllocatePhysicalPageSimple();
        tables := InstallTable(tables, s, TableEntry(frame, flags));
      }
      tables := SetLeaf(tables, s, Or(phys, flags));
      r := 0;
    }

    /** unmap_page: -1 without a directory or table; otherwise the leaf becomes 0. */
    method UnmapPage(v: u32) returns (r: int)
      modifies this
      ensures r == 0 || r == -1
      ensures r == -1 <==> !HasTable(old(tables), SlotOf(v))
      ensures r == -1 ==> tables == old(tables)
      ensures r == 0 ==> tables == Unmap(old(tables), v)
      ensures nextFreePage == old(nextFreePage) && pdpt == old(pdpt) && pdptEntries == old(pdptEntries)
      ensures regs == old(regs) && crLog == old(crLog)
    {
      var s := SlotOf(v);
      PresentIsFlag(DirEntry(tables, s));
      if Dir(tables, s.pdpt) == 0 || And(DirEntry(tables, s), PAGE_PRESENT) == 0 {
        return -1;
      }
      tables := SetLeaf(tables, s, 0);
      r := 0;
    }

    /** get_physical_addr: the walk, step by step. */
    method GetPhysicalAddr(v: u32) returns (r: nat)
      ensures r == Translate(tables, v)
    {
      var s := SlotOf(v);
      PresentIsFlag(DirEntry(tables, s));
      if Dir(tables, s.pdpt) == 0 || And(DirEntry(tables, s), PAGE_PRESENT) == 0 {
        return 0;
      }
      var e := Leaf(tables, s);
      PresentIsFlag(e);
      if And(e, PAGE_PRESENT) == 0 {
        return 0;
      }
      FrameMask(e);
      r := Or(And(e, 0xFFFF_F000), Offset(v));
    }

    /** One control-register write. */
    ghost method WriteCr(w: CrWrite)
      modifies this
      ensures regs == Apply(old(regs), w) && crLog == old(crLog) + [w]
      ensures nextFreePage == old(nextFreePage) && tables == old(tables)
      ensures pdpt == old(pdpt) && pdptEntries == old(pdptEntries)
    {
      regs := Apply(regs, w);
      crLog := crLog + [w];
    }

    /** enable_pae_paging, with enable_pae and enable_paging_bit inlined. */
    method EnablePaePaging()
      modifies this
      ensures crLog == old(crLog) + EnableSequence(old(regs), pdpt)
      ensures regs == Replay(old(regs), EnableSequence(old(regs), pdpt))
      ensures nextFreePage == old(nextFreePage) && tables == old(tables)
      ensures pdpt == old(pdpt) && pdptEntries == old(pdptEntries)
    {
      WriteCr(WriteCr0(And(regs.cr0, Not(CR0_PG, 32))));
      WriteCr(WriteCr4(Or(regs.cr4, CR4_PAE)));
      WriteCr(WriteCr3(pdpt));
      WriteCr(WriteCr0(Or(regs.cr0, CR0_PG)));
      ReplayFour(old(regs), EnableSequence(old(regs), pdpt));
    }

    /** allocate_physical_page. */
    method AllocatePhysicalPage() returns (page: u32)
      modifies this
      ensures page == old(nextFreePage) && nextFreePage == Bump(old(nextFreePage))
      ensures pdpt == old(pdpt) && pdptEntries == old(pdptEntries) && tables == old(tables)
      ensures regs == old(regs) && crLog == old(crLog)
    {
      page := AllocatePhysicalPageSimple();
    }

    /** free_physical_page: the page is dropped; nothing changes. */
    method FreePhysicalPage(page: u32)
      ensures unchanged(this)
    {
    }

    /**
     * One pass of the MapIdentity loop, `map_page(addr, addr, PAGE_PRESENT |
     * PAGE_WRITABLE)`, for a loop that started at `lo` from tables `h0` and
     * allocator state `p0`: the identity grows by the page at `addr`, and a
     * page is allocated exactly when NewTables counts `addr`.
     */
    method IdentityPage(addr: u32, ghost lo: nat, ghost h0: Tables, ghost p0: u32)
      requires lo <= addr && lo % PAGE_SIZE == 0 && addr % PAGE_SIZE == 0
      requires addr + PAGE_SIZE < 0x1_0000_0000 && (addr + PAGE_SIZE) % PAGE_SIZE == 0
      requires TablesAhead(h0, tables, lo, addr)
      requires IdentityOn(tables, lo, addr) && AgreeOutside(tables, h0, lo, addr)
      requires nextFreePage == BumpAfter(p0, NewTables(h0, lo, addr))
      modifies this
      ensures tables.dirs == old(tables.dirs) && TablesAhead(h0, tables, lo, addr + PAGE_SIZE)
      ensures IdentityOn(tables, lo, addr + PAGE_SIZE) && AgreeOutside(tables, h0, lo, addr + PAGE_SIZE)
      ensures nextFreePage == BumpAfter(p0, NewTables(h0, lo, addr + PAGE_SIZE))
      ensures pdpt == old(pdpt) && pdptEntries == old(pdptEntries) && regs == old(regs) && crLog == old(crLog)
    {
      IdentityStep(h0, tables, addr, nextFreePage, lo);
      TablesStep(h0, tables, lo, addr, addr, PaePaging.PRESENT_WRITABLE, nextFreePage);
      var r := MapPage(addr, addr, PaePaging.PRESENT_WRITABLE);
    }

    /**
     * The loop shared by setup_identity_mapping and setup_kernel_heap:
     * `map_page(addr, addr, PAGE_PRESENT | PAGE_WRITABLE)` for every page
     * of [lo, hi). Every address there whose directory exists maps to
     * itself; nothing else changes.
     */
    method MapIdentity(lo: u32, hi: nat)
      requires lo % PAGE_SIZE == 0 && hi % PAGE_SIZE == 0 && lo <= hi < 0x1_0000_0000
      modifies this
      ensures tables.dirs == old(tables.dirs)
      ensures IdentityOn(tables, lo, hi) && AgreeOutside(tables, old(tables), lo, hi)
      ensures nextFreePage == BumpAfter(old(nextFreePage), NewTables(old(tables), lo, hi))
      ensures pdpt == old(pdpt) && pdptEntries == old(pdptEntries) && regs == old(regs) && crLog == old(crLog)
    {
      var addr: nat := lo;
      while addr < hi
        invariant lo <= addr <= hi && addr % PAGE_SIZE == 0
        invariant tables.dirs == old(tables.dirs)
        invariant nextFreePage == BumpAfter(old(nextFreePage), NewTables(old(tables), lo, addr))
        invariant TablesAhead(old(tables), tables, lo, addr)
        invariant IdentityOn(tables, lo, addr) && AgreeOutside(tables, old(tables), lo, addr)
        invariant pdpt == old(pdpt) && pdptEntries == old(pdptEntries) && regs == old(regs) && crLog == old(crLog)
        decreases hi - addr
      {
        NextPage(addr, hi);
        IdentityPage(addr, lo, old(tables), old(nextFreePage));
        addr := addr + PAGE_SIZE;
      }
    }

    /** setup_identity_mapping: the first 4 MiB, all under PDPT entry 0. */
    method SetupIdentityMapping()
      modifies this
      ensures tables.dirs == old(tables.dirs)
      ensures Dir(tables, 0) != 0 ==> forall w: u32 :: w < IDENTITY_END ==> Translate(tables, w) == w
      ensures forall w: u32 :: w >= IDENTITY_END ==> Translate(tables, w) == Translate(old(tables), w)
      ensures nextFreePage == BumpAfter(old(nextFreePage), NewTables(old(tables), 0, IDENTITY_END))
      ensures Dir(old(tables), 0) != 0 && Directory(old(tables), 0) == map[] ==> nextFreePage == BumpAfter(old(nextFreePage), 2)
      ensures pdpt == old(pdpt) && pdptEntries == old(pdptEntries) && regs == old(regs) && crLog == old(crLog)
    {
      ghost var h0 := tables;
      if Dir(h0, 0) != 0 && Directory(h0, 0) == map[] {
        NewTablesFresh(h0, 0, IDENTITY_END);
        assert PageNumber(IDENTITY_END - 1) == 0x3FF && PageNumber(0) == 0;
        assert NewTables(h0, 0, IDENTITY_END) == 2;
      }
      MapIdentity(0, IDENTITY_END);
      forall w: u32 | w < IDENTITY_END
        ensures Dir(tables, 0) != 0 ==> Translate(tables, w) == w
      {
        FirstGiB(w);
      }
    }

    /** setup_kernel_heap: identity-maps [HEAP_START, HEAP_START + HEAP_SIZE). */
    method SetupKernelHeap()
      modifies this
      ensures tables.dirs == old(tables.dirs)
      ensures Dir(tables, 0) != 0 ==> forall w: u32 :: 0x2_0000 <= w < FIRST_PAGE ==> Translate(tables, w) == w
      ensures forall w: u32 :: !(0x2_0000 <= w < FIRST_PAGE) ==> Translate(tables, w) == Translate(old(tables), w)
      ensures nextFreePage == BumpAfter(old(nextFreePage), NewTables(old(tables), PaePaging.HEAP_START, FIRST_PAGE))
      ensures Dir(old(tables), 0) != 0 && Directory(old(tables), 0) == map[] ==> nextFreePage == BumpAfter(old(nextFreePage), 9)
      ensures pdpt == old(pdpt) && pdptEntries == old(pdptEntries) && regs == old(regs) && crLog == old(crLog)
    {
      ghost var h0 := tables;
      if Dir(h0, 0) != 0 && Directory(h0, 0) == map[] {
        NewTablesFresh(h0, PaePaging.HEAP_START, FIRST_PAGE);
        assert PageNumber(FIRST_PAGE - 1) == 0x101F && PageNumber(PaePaging.HEAP_START) == 0x20;
        assert NewTables(h0, PaePaging.HEAP_START, FIRST_PAGE) == 9;
      }
      MapIdentity(PaePaging.HEAP_START, FIRST_PAGE);
      forall w: u32 | PaePaging.HEAP_START <= w < FIRST_PAGE
        ensures Dir(tables, 0) != 0 ==> Translate(tables, w) == w
      {
        FirstGiB(w);
      }
    }
  }

  /** The first allocation then `n` more: the later run starts one page on. */
  lemma {:induction false} BumpShift(next: u32, n: nat)
    ensures BumpAfter(Bump(next), n) == BumpAfter(next, 1 + n)
    ensures BumpRun(Bump(next), n) == BumpRun(next, 1 + n)[1..]
  {
    if n > 0 {
      BumpShift(next, n - 1);
      assert BumpRun(next, 1 + n) == BumpRun(next, n) + [BumpAfter(next, n)];
    }
  }
}
