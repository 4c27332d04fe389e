/**
 * The PAE paging code of src/memory/paging.c: a bootstrap page allocator
 * (a LIFO free list seeded with 1024 pages, backed by a bump cursor), the
 * PDPT and its four page directories, `map_page` / `unmap_page` /
 * `get_physical_addr`, the identity-mapping loops and the switch into PAE
 * paging.
 *
 * The allocator is specified by the functions Seed, Take and Give on a Pool
 * value; the tables by the PageWalk functions. The class Paging holds the
 * file's globals and its methods are proved to act as those functions say.
 */
module PaePaging {
  import opened PmmBits
  import opened PaeLayout
  import opened PageWalk
  import opened ControlRegs

  const HEAP_START: u32 := 0x2_0000
  const HEAP_SIZE: u32 := 0x100_0000
  /** `initial_pool_size` of `init_free_list`. */
  const POOL_PAGES: nat := 1024
  /** End of the range `setup_identity_mapping` maps (32 MiB). */
  const IDENTITY_END: nat := 0x200_0000
  /** `PAGE_PRESENT | PAGE_WRITABLE`, the flags of both mapping loops. */
  const PRESENT_WRITABLE: u32 := 0x003

  /**
   * The allocator globals: the free list (head first), `next_free_page`,
   * `total_pages_allocated` and `total_pages_freed`.
   */
  datatype Pool = Pool(freeList: seq<u32>, next: u32, allocs: u32, frees: u32)

  /** The allocator before `paging_init`: an empty list and the cursor at HEAP_START + HEAP_SIZE. */
  const INITIAL_POOL: Pool := Pool([], HEAP_START + HEAP_SIZE, 0, 0)

  /** Page `i` of a pool starting at `start` (`pool_start + i * PAGE_SIZE` in uint32_t). */
  function PoolPage(start: u32, i: nat): u32
    requires i < POOL_PAGES
  {
    Wrap32(start + i * PAGE_SIZE)
  }

  /** The list after pushing pages 0 .. n-1 of the pool: the last pushed first. */
  function PoolList(start: u32, n: nat): (r: seq<u32>)
    requires n <= POOL_PAGES
    ensures |r| == n
  {
    if n == 0 then [] else [PoolPage(start, n - 1)] + PoolList(start, n - 1)
  }

  /** `init_free_list`: push 1024 pool pages starting at the cursor, then move the cursor past them. */
  function Seed(p: Pool): Pool
  {
    p.(freeList := PoolList(p.next, POOL_PAGES) + p.freeList, next := Wrap32(p.next + POOL_PAGES * PAGE_SIZE))
  }

  /**
   * `allocate_from_free_list`: the page returned and the allocator after.
   * An empty list hands out the cursor and advances it.
   */
  function Take(p: Pool): (u32, Pool)
  {
    if |p.freeList| == 0 then
      (p.next, p.(next := Wrap32(p.next + PAGE_SIZE), allocs := Wrap32(p.allocs + 1)))
    else
      (p.freeList[0], p.(freeList := p.freeList[1..], allocs := Wrap32(p.allocs + 1)))
  }

  /** `add_to_free_list`: NULL and unaligned addresses are refused. */
  function Give(p: Pool, addr: u32): Pool
  {
    if addr == 0 || addr % PAGE_SIZE != 0 then p
    else p.(freeList := [addr] + p.freeList, frees := Wrap32(p.frees + 1))
  }

  /** `n` successive allocations: the pages in order and the allocator after. */
  function TakeN(p: Pool, n: nat): (r: (seq<u32>, Pool))
    ensures |r.0| == n
    decreases n
  {
    if n == 0 then ([], p)
    else
      var t := Take(p);
      var rest := TakeN(t.1, n - 1);
      ([t.0] + rest.0, rest.1)
  }

  /** Every page the allocator holds or will hand out next is page-aligned. */
  predicate PoolAligned(p: Pool)
  {
    p.next % PAGE_SIZE == 0 && forall k :: 0 <= k < |p.freeList| ==> p.freeList[k] % PAGE_SIZE == 0
  }

  lemma {:induction false} PoolListIndex(start: u32, n: nat, k: nat)
    requires n <= POOL_PAGES && k < n
    ensures PoolList(start, n)[k] == PoolPage(start, n - 1 - k)
  {
    if k > 0 {
      PoolListIndex(start, n - 1, k - 1);
    }
  }

  /**
   * `init_free_list` puts 1024 pages on top of the list, the page at
   * `pool_start + 1023 * PAGE_SIZE` first, and moves the cursor 4 MiB on.
   */
  lemma SeedLayout(p: Pool)
    ensures |Seed(p).freeList| == |p.freeList| + POOL_PAGES
    ensures forall k :: 0 <= k < POOL_PAGES ==> Seed(p).freeList[k] == Wrap32(p.next + (POOL_PAGES - 1 - k) * PAGE_SIZE)
    ensures Seed(p).freeList[0] == Wrap32(p.next + 1023 * PAGE_SIZE)
    ensures Seed(p).freeList[POOL_PAGES..] == p.freeList
    ensures Seed(p).next == Wrap32(p.next + 0x40_0000)
    ensures Seed(p).allocs == p.allocs && Seed(p).frees == p.frees
  {
    var l := PoolList(p.next, POOL_PAGES);
    forall k | 0 <= k < POOL_PAGES
      ensures Seed(p).freeList[k] == Wrap32(p.next + (POOL_PAGES - 1 - k) * PAGE_SIZE)
    {
      PoolListIndex(p.next, POOL_PAGES, k);
    }
    assert (l + p.freeList)[POOL_PAGES..] == p.freeList;
  }

  /**
   * Every allocation counts one page. From an empty list it returns the
   * cursor and moves it one page on (only a cursor within a page of 4 GiB
   * wraps round); otherwise it pops the head and leaves the cursor alone.
   */
  lemma TakeEffect(p: Pool)
    ensures Take(p).1.allocs == (p.allocs + 1) % 0x1_0000_0000 && Take(p).1.frees == p.frees
    ensures |p.freeList| == 0 ==>
      Take(p).0 == p.next && Take(p).1.freeList == [] && Take(p).1.next == (p.next + PAGE_SIZE) % 0x1_0000_0000
    ensures |p.freeList| == 0 && p.next + PAGE_SIZE < 0x1_0000_0000 ==> Take(p).1.next > p.next
    ensures |p.freeList| > 0 ==>
      Take(p).0 == p.freeList[0] && [Take(p).0] + Take(p).1.freeList == p.freeList && Take(p).1.next == p.next
  {
    Wrap32IsMod(p.allocs + 1);
    Wrap32IsMod(p.next + PAGE_SIZE);
  }

  /** A page pushed by `add_to_free_list` is the next one allocated, and the list is as before (LIFO). */
  lemma GiveThenTake(p: Pool, addr: u32)
    requires addr != 0 && addr % PAGE_SIZE == 0
    ensures Take(Give(p, addr)).0 == addr
    ensures Take(Give(p, addr)).1 == p.(allocs := Wrap32(p.allocs + 1), frees := Wrap32(p.frees + 1))
  {
    assert ([addr] + p.freeList)[1..] == p.freeList;
  }

  /** `add_to_free_list` changes nothing exactly when the address is NULL or not page-aligned. */
  lemma GiveRefuses(p: Pool, addr: u32)
    ensures Give(p, addr) == p <==> addr == 0 || addr % PAGE_SIZE != 0
    ensures Give(p, addr) != p ==> |Give(p, addr).freeList| == |p.freeList| + 1
  {
  }

  /** The allocator keeps every page aligned, so whatever it hands out is page-aligned. */
  lemma AlignedPreserved(p: Pool, addr: u32)
    requires PoolAligned(p)
    ensures PoolAligned(Seed(p))
    ensures Take(p).0 % PAGE_SIZE == 0 && PoolAligned(Take(p).1)
    ensures PoolAligned(Give(p, addr))
  {
    SeedLayout(p);
    var s := Seed(p);
    forall k | 0 <= k < |s.freeList|
      ensures s.freeList[k] % PAGE_SIZE == 0
    {
      if k >= POOL_PAGES {
        assert s.freeList[k] == s.freeList[POOL_PAGES..][k - POOL_PAGES];
      }
    }
    if |p.freeList| > 0 {
      assert forall k :: 0 <= k < |p.freeList| - 1 ==> Take(p).1.freeList[k] == p.freeList[k + 1];
    }
    if addr != 0 && addr % PAGE_SIZE == 0 {
      assert forall k :: 0 < k < |Give(p, addr).freeList| ==> Give(p, addr).freeList[k] == p.freeList[k - 1];
    }
  }

  /** The PDPT comes from an aligned allocator, so the 32-byte check of `paging_init` never fails. */
  lemma PdptAligned(p: Pool)
    requires PoolAligned(p)
    ensures Take(Seed(p)).0 % 32 == 0
  {
    var x := p.next + 1023 * PAGE_SIZE;
    assert Take(Seed(p)).0 == Wrap32(x) by {
      PoolListIndex(p.next, POOL_PAGES, 0);
    }
    WrapAligned(x);
  }

  lemma WrapAligned(x: int)
    requires 0 <= x < 0x2_0000_0000 && x % PAGE_SIZE == 0
    ensures Wrap32(x) % PAGE_SIZE == 0 && Wrap32(x) % 32 == 0
  {
    if x >= U32 {
      LessPageMultiple(x, 0x10_0000);
    }
    PageMultipleMod32(Wrap32(x));
  }

  lemma LessPageMultiple(x: int, k: int)
    requires x % PAGE_SIZE == 0
    ensures (x - PAGE_SIZE * k) % PAGE_SIZE == 0
  {
    assert x - PAGE_SIZE * k == PAGE_SIZE * (x / PAGE_SIZE - k);
  }

  lemma PageMultipleMod32(y: int)
    requires y % PAGE_SIZE == 0
    ensures y % 32 == 0
  {
    assert y == 32 * (128 * (y / PAGE_SIZE));
  }

  /** One more allocation appends one more page. */
  lemma {:induction false} TakeNSnoc(p: Pool, n: nat)
    ensures TakeN(p, n + 1) == (TakeN(p, n).0 + [Take(TakeN(p, n).1).0], Take(TakeN(p, n).1).1)
    decreases n
  {
    var t := Take(p);
    if n == 0 {
      assert TakeN(p, 1) == ([t.0] + [], t.1);
      assert [t.0] + [] == [] + [t.0];
    } else {
      TakeNSnoc(t.1, n - 1);
      var a := TakeN(t.1, n - 1);
      var b := Take(a.1);
      assert TakeN(t.1, n) == (a.0 + [b.0], b.1);
      assert TakeN(p, n) == ([t.0] + a.0, a.1);
      assert TakeN(p, n + 1) == ([t.0] + (a.0 + [b.0]), b.1);
      assert [t.0] + (a.0 + [b.0]) == ([t.0] + a.0) + [b.0];
    }
  }

  /** Allocations that the list can serve are its first pages, in order. */
  lemma {:induction false} TakeNFromList(p: Pool, n: nat)
    requires n <= |p.freeList|
    ensures TakeN(p, n).0 == p.freeList[..n]
    ensures TakeN(p, n).1.freeList == p.freeList[n..]
    ensures TakeN(p, n).1.next == p.next
    decreases n
  {
    if n > 0 {
      var q := Take(p).1;
      TakeNFromList(q, n - 1);
      assert q.freeList == p.freeList[1..];
      assert p.freeList[..n] == [p.freeList[0]] + p.freeList[1..][..n - 1];
    }
  }

  /**
   * At boot, `paging_init` places the PDPT at 0x141F000 and the four
   * directories at the next four pages down, leaving 1019 pages on the list.
   */
  lemma InitialBoot()
    ensures Take(Seed(INITIAL_POOL)).0 == 0x141_F000
    ensures TakeN(Take(Seed(INITIAL_POOL)).1, PDPT_ENTRIES).0 == [0x141_E000, 0x141_D000, 0x141_C000, 0x141_B000]
    ensures |TakeN(Take(Seed(INITIAL_POOL)).1, PDPT_ENTRIES).1.freeList| == 1019
    ensures TakeN(Take(Seed(INITIAL_POOL)).1, PDPT_ENTRIES).1.next == 0x142_0000
  {
    var s := Seed(INITIAL_POOL);
    SeedLayout(INITIAL_POOL);
    var q := Take(s).1;
    assert q.freeList == s.freeList[1..];
    TakeNFromList(q, PDPT_ENTRIES);
    assert q.freeList[..4] == [s.freeList[1], s.freeList[2], s.freeList[3], s.freeList[4]];
  }

  /** The globals of src/memory/paging.c. */
  class Paging {
    var freeList: seq<u32>
    var nextFreePage: u32
    var totalAllocated: u32
    var totalFreed: u32
    /** The PDPT's address and its four entries. */
    var pdpt: u32
    var pdptEntries: seq<nat>
    /** `page_directories[]` and the contents of every directory and page table. */
    var tables: Tables
    ghost var regs: Regs
    ghost var crLog: seq<CrWrite>

    function PoolState(): Pool
      reads this
    {
      Pool(freeList, nextFreePage, totalAllocated, totalFreed)
    }

    ghost predicate Valid()
      reads this
    {
      |pdptEntries| == PDPT_ENTRIES
    }

    /** The state before `paging_init`, with the control registers as the boot code left them. */
    constructor(ghost boot: Regs)
      ensures Valid() && PoolState() == INITIAL_POOL && tables == EMPTY
      ensures pdpt == 0 && pdptEntries == [0, 0, 0, 0] && regs == boot && crLog == []
    {
      freeList := [];
      nextFreePage := HEAP_START + HEAP_SIZE;
      totalAllocated := 0;
      totalFreed := 0;
      pdpt := 0;
      pdptEntries := [0, 0, 0, 0];
      tables := EMPTY;
      regs := boot;
      crLog := [];
    }

    /** init_free_list. */
    method InitFreeList()
      modifies this
      ensures PoolState() == Seed(old(PoolState()))
      ensures pdpt == old(pdpt) && pdptEntries == old(pdptEntries) && tables == old(tables)
      ensures regs == old(regs) && crLog == old(crLog)
    {
      var poolStart := nextFreePage;
      var i: nat := 0;
      while i < POOL_PAGES
        invariant i <= POOL_PAGES
        invariant freeList == PoolList(poolStart, i) + old(freeList)
        invariant nextFreePage == poolStart && totalAllocated == old(totalAllocated) && totalFreed == old(totalFreed)
        invariant pdpt == old(pdpt) && pdptEntries == old(pdptEntries) && tables == old(tables)
        invariant regs == old(regs) && crLog == old(crLog)
      {
        var page := Wrap32(poolStart + i * PAGE_SIZE);
        freeList := [page] + freeList;
        i := i + 1;
      }
      nextFreePage := Wrap32(nextFreePage + POOL_PAGES * PAGE_SIZE);
    }

    /** allocate_from_free_list. */
    method AllocateFromFreeList() returns (page: u32)
      modifies this
      ensures (page, PoolState()) == Take(old(PoolState()))
      ensures pdpt == old(pdpt) && pdptEntries == old(pdptEntries) && tables == old(tables)
      ensures regs == old(regs) && crLog == old(crLog)
    {
      if |freeList| == 0 {
        page := nextFreePage;
        nextFreePage := Wrap32(nextFreePage + PAGE_SIZE);
        totalAllocated := Wrap32(totalAllocated + 1);
        return;
      }
      page := freeList[0];
      freeList := freeList[1..];
      totalAllocated := Wrap32(totalAllocated + 1);
    }

    /** add_to_free_list. */
    method AddToFreeList(addr: u32)
      modifies this
      ensures PoolState() == Give(old(PoolState()), addr)
      ensures pdpt == old(pdpt) && pdptEntries == old(pdptEntries) && tables == old(tables)
      ensures regs == old(regs) && crLog == old(crLog)
    {
      if addr == 0 {
        return;
      }
      AlignMasks(addr);
      if And(addr, PAGE_SIZE - 1) != 0 {
        return;
      }
      freeList := [addr] + freeList;
      totalFreed := Wrap32(totalFreed + 1);
    }

    /**
     * paging_init: seed the list, allocate the PDPT and, unless it is
     * misaligned, the four directories. Each directory is a zeroed page, so
     * afterwards no address is mapped.
     */
    method PagingInit()
      requires Valid()
      modifies this
      ensures Valid()
      ensures pdpt == Take(Seed(old(PoolState()))).0
      ensures pdpt % 32 != 0 ==>
        PoolState() == Take(Seed(old(PoolState()))).1 && tables == old(tables) && pdptEntries == [0, 0, 0, 0]
      ensures pdpt % 32 == 0 ==>
        var (dirs, after) := TakeN(Take(Seed(old(PoolState()))).1, PDPT_ENTRIES);
        PoolState() == after
        && (forall i :: 0 <= i < PDPT_ENTRIES ==> Dir(tables, i) == dirs[i] && pdptEntries[i] == Or(dirs[i], PAGE_PRESENT))
        && (forall v: u32 :: Translate(tables, v) == 0)
      ensures regs == old(regs) && crLog == old(crLog)
    {
      InitFreeList();
      var top := AllocateFromFreeList();
      pdpt := top;
      pdptEntries := [0, 0, 0, 0];
      AlignMasks(top);
      if And(top, 0x1F) != 0 {
        return;
      }
      ghost var rest := PoolState();
      ghost var dirs: seq<u32> := [];
      var i: nat := 0;
      while i < PDPT_ENTRIES
        invariant i <= PDPT_ENTRIES && |pdptEntries| == PDPT_ENTRIES && |dirs| == i
        invariant (dirs, PoolState()) == TakeN(rest, i)
        invariant FreshDirs(tables, dirs)
        invariant forall k :: 0 <= k < i ==> pdptEntries[k] == Or(dirs[k], PAGE_PRESENT)
        invariant pdpt == top && regs == old(regs) && crLog == old(crLog)
      {
        TakeNSnoc(rest, i);
        var dir := AllocateFromFreeList();
        FreshDirsStep(tables, dirs, dir);
        tables := tables.(dirs := tables.dirs[i := dir], pd := tables.pd[i := map[]]);
        pdptEntries := pdptEntries[i := Or(dir, PAGE_PRESENT)];
        dirs := dirs + [dir];
        i := i + 1;
      }
      forall v: u32
        ensures Translate(tables, v) == 0
      {
        FreshMapsNothing(tables, dirs, v);
      }
    }

    /**
     * map_page: -1 without a directory; otherwise a table is allocated
     * only when the directory entry lacks PRESENT, and the leaf is written.
     */
    method MapPage(v: u32, phys: u64, flags: u32) returns (r: int)
      modifies this
      ensures r == 0 || r == -1
      ensures r == -1 <==> Dir(old(tables), PdptIndex(v)) == 0
      ensures r == -1 ==> tables == old(tables) && PoolState() == old(PoolState())
      ensures tables == MapOrKeep(old(tables), v, phys, flags, Take(old(PoolState())).0)
      ensures r == 0 ==>
        PoolState() == if Present(DirEntry(old(tables), SlotOf(v))) then old(PoolState()) else Take(old(PoolState())).1
      ensures pdpt == old(pdpt) && pdptEntries == old(pdptEntries) && regs == old(regs) && crLog == old(crLog)
    {
      var s := SlotOf(v);
      if Dir(tables, s.pdpt) == 0 {
        return -1;
      }
      PresentIsFlag(DirEntry(tables, s));
      if And(DirEntry(tables, s), PAGE_PRESENT) == 0 {
        var frame := AllocateFromFreeList();
        tables := InstallTable(tables, s, TableEntry(frame, flags));
      }
      tables := SetLeaf(tables, s, Or(phys, flags));
      r := 0;
    }

    /** unmap_page: -1 without a directory or table; otherwise the leaf becomes 0. */
    method UnmapPage(v: u32) returns (r: int)
      modifies this
      ensures r == 0 || r == -1
      ensures r == -1 <==> !HasTable(old(tables), SlotOf(v))
      ensures r == -1 ==> tables == old(tables)
      ensures r == 0 ==> tables == Unmap(old(tables), v)
      ensures PoolState() == old(PoolState()) && pdpt == old(pdpt) && pdptEntries == old(pdptEntries)
      ensures regs == old(regs) && crLog == old(crLog)
    {
      var s := SlotOf(v);
      PresentIsFlag(DirEntry(tables, s));
      if Dir(tables, s.pdpt) == 0 || And(DirEntry(tables, s), PAGE_PRESENT) == 0 {
        return -1;
      }
      tables := SetLeaf(tables, s, 0);
      r := 0;
    }

    /** get_physical_addr: the walk, step by step. */
    method GetPhysicalAddr(v: u32) returns (r: nat)
      ensures r == Translate(tables, v)
    {
      var s := SlotOf(v);
      PresentIsFlag(DirEntry(tables, s));
      if Dir(tables, s.pdpt) == 0 || And(DirEntry(tables, s), PAGE_PRESENT) == 0 {
        return 0;
      }
      var e := Leaf(tables, s);
      PresentIsFlag(e);
      if And(e, PAGE_PRESENT) == 0 {
        return 0;
      }
      FrameMask(e);
      r := Or(And(e, 0xFFFF_F000), Offset(v));
    }

    /** One control-register write. */
    ghost method WriteCr(w: CrWrite)
      modifies this
      ensures regs == Apply(old(regs), w) && crLog == old(crLog) + [w]
      ensures PoolState() == old(PoolState()) && tables == old(tables)
      ensures pdpt == old(pdpt) && pdptEntries == old(pdptEntries)
    {
      regs := Apply(regs, w);
      crLog := crLog + [w];
    }

    /** enable_pae_paging. */
    method EnablePaePaging()
      modifies this
      ensures crLog == old(crLog) + EnableSequence(old(regs), pdpt)
      ensures regs == Replay(old(regs), EnableSequence(old(regs), pdpt))
      ensures PoolState() == old(PoolState()) && tables == old(tables)
      ensures pdpt == old(pdpt) && pdptEntries == old(pdptEntries)
    {
      WriteCr(WriteCr0(And(regs.cr0, Not(CR0_PG, 32))));
      WriteCr(WriteCr4(Or(regs.cr4, CR4_PAE)));
      WriteCr(WriteCr3(pdpt));
      WriteCr(WriteCr0(Or(regs.cr0, CR0_PG)));
      ReplayFour(old(regs), EnableSequence(old(regs), pdpt));
    }

    /** allocate_physical_page. */
    method AllocatePhysicalPage() returns (page: u32)
      modifies this
      ensures (page, PoolState()) == Take(old(PoolState()))
      ensures pdpt == old(pdpt) && pdptEntries == old(pdptEntries) && tables == old(tables)
      ensures regs == old(regs) && crLog == old(crLog)
    {
      page := AllocateFromFreeList();
    }

    /** free_physical_page. */
    method FreePhysicalPage(page: u32)
      modifies this
      ensures PoolState() == Give(old(PoolState()), page)
      ensures pdpt == old(pdpt) && pdptEntries == old(pdptEntries) && tables == old(tables)
      ensures regs == old(regs) && crLog == old(crLog)
    {
      AddToFreeList(page);
    }

    /**
     * One pass of the MapIdentity loop, `map_page(addr, addr, PAGE_PRESENT |
     * PAGE_WRITABLE)`, for a loop that started at `lo` from tables `h0` and
     * allocator state `p0`: the identity grows by the page at `addr`, and a
     * page is allocated exactly when NewTables counts `addr`.
     */
    method IdentityPage(addr: u32, ghost lo: nat, ghost h0: Tables, ghost p0: Pool)
      requires lo <= addr && lo % PAGE_SIZE == 0 && addr % PAGE_SIZE == 0
      requires addr + PAGE_SIZE < 0x1_0000_0000 && (addr + PAGE_SIZE) % PAGE_SIZE == 0
      requires TablesAhead(h0, tables, lo, addr)
      requires IdentityOn(tables, lo, addr) && AgreeOutside(tables, h0, lo, addr)
      requires PoolState() == TakeN(p0, NewTables(h0, lo, addr)).1
      modifies this
      ensures tables.dirs == old(tables.dirs) && TablesAhead(h0, tables, lo, addr + PAGE_SIZE)
      ensures IdentityOn(tables, lo, addr + PAGE_SIZE) && AgreeOutside(tables, h0, lo, addr + PAGE_SIZE)
      ensures PoolState() == TakeN(p0, NewTables(h0, lo, addr + PAGE_SIZE)).1
      ensures pdpt == old(pdpt) && pdptEntries == old(pdptEntries) && regs == old(regs) && crLog == old(crLog)
    {
      IdentityStep(h0, tables, addr, Take(PoolState()).0, lo);
      TablesStep(h0, tables, lo, addr, addr, PRESENT_WRITABLE, Take(PoolState()).0);
      TakeNSnoc(p0, NewTables(h0, lo, addr));
      var r := MapPage(addr, addr, PRESENT_WRITABLE);
    }

    /**
     * The loop shared by setup_identity_mapping and setup_kernel_heap:
     * `map_page(addr, addr, PAGE_PRESENT | PAGE_WRITABLE)` for every page
     * of [lo, hi). Every address there whose directory exists maps to
     * itself; nothing else changes.
     */
    method MapIdentity(lo: u32, hi: nat)
      requires lo % PAGE_SIZE == 0 && hi % PAGE_SIZE == 0 && lo <= hi < 0x1_0000_0000
      modifies this
      ensures tables.dirs == old(tables.dirs)
      ensures IdentityOn(tables, lo, hi) && AgreeOutside(tables, old(tables), lo, hi)
      ensures PoolState() == TakeN(old(PoolState()), NewTables(old(tables), lo, hi)).1
      ensures pdpt == old(pdpt) && pdptEntries == old(pdptEntries) && regs == old(regs) && crLog == old(crLog)
    {
      var addr: nat := lo;
      while addr < hi
        invariant lo <= addr <= hi && addr % PAGE_SIZE == 0
        invariant tables.dirs == old(tables.dirs)
        invariant PoolState() == TakeN(old(PoolState()), NewTables(old(tables), lo, addr)).1
        invariant TablesAhead(old(tables), tables, lo, addr)
        invariant IdentityOn(tables, lo, addr) && AgreeOutside(tables, old(tables), lo, addr)
        invariant pdpt == old(pdpt) && pdptEntries == old(pdptEntries) && regs == old(regs) && crLog == old(crLog)
        decreases hi - addr
      {
        NextPage(addr, hi);
        IdentityPage(addr, lo, old(tables), old(PoolState()));
        addr := addr + PAGE_SIZE;
      }
    }

    /** setup_identity_mapping: the first 32 MiB, all under PDPT entry 0. */
    method SetupIdentityMapping()
      modifies this
      ensures tables.dirs == old(tables.dirs)
      ensures Dir(tables, 0) != 0 ==> forall w: u32 :: w < IDENTITY_END ==> Translate(tables, w) == w
      ensures forall w: u32 :: w >= IDENTITY_END ==> Translate(tables, w) == Translate(old(tables), w)
      ensures PoolState() == TakeN(old(PoolState()), NewTables(old(tables), 0, IDENTITY_END)).1
      ensures Dir(old(tables), 0) != 0 && Directory(old(tables), 0) == map[] ==> PoolState() == TakeN(old(PoolState()), 16).1
      ensures pdpt == old(pdpt) && pdptEntries == old(pdptEntries) && regs == old(regs) && crLog == old(crLog)
    {
      ghost var h0 := tables;
      if Dir(h0, 0) != 0 && Directory(h0, 0) == map[] {
        NewTablesFresh(h0, 0, IDENTITY_END);
        assert PageNumber(IDENTITY_END - 1) == 0x1FFF && PageNumber(0) == 0;
        assert NewTables(h0, 0, IDENTITY_END) == 16;
      }
      MapIdentity(0, IDENTITY_END);
      forall w: u32 | w < IDENTITY_END
        ensures Dir(tables, 0) != 0 ==> Translate(tables, w) == w
      {
        FirstGiB(w);
      }
    }

    /** setup_kernel_heap: identity-maps [HEAP_START, HEAP_START + HEAP_SIZE). */
    method SetupKernelHeap()
      modifies this
      ensures tables.dirs == old(tables.dirs)
      ensures Dir(tables, 0) != 0 ==> forall w: u32 :: HEAP_START <= w < HEAP_START + HEAP_SIZE ==> Translate(tables, w) == w
      ensures forall w: u32 :: !(HEAP_START <= w < HEAP_START + HEAP_SIZE) ==> Translate(tables, w) == Translate(old(tables), w)
      ensures PoolState() == TakeN(old(PoolState()), NewTables(old(tables), HEAP_START, HEAP_START + HEAP_SIZE)).1
      ensures Dir(old(tables), 0) != 0 && Directory(old(tables), 0) == map[] ==> PoolState() == TakeN(old(PoolState()), 9).1
      ensures pdpt == old(pdpt) && pdptEntries == old(pdptEntries) && regs == old(regs) && crLog == old(crLog)
    {
      ghost var h0 := tables;
      if Dir(h0, 0) != 0 && Directory(h0, 0) == map[] {
        NewTablesFresh(h0, HEAP_START, HEAP_START + HEAP_SIZE);
        assert PageNumber(HEAP_START + HEAP_SIZE - 1) == 0x101F && PageNumber(HEAP_START) == 0x20;
        assert NewTables(h0, HEAP_START, HEAP_START + HEAP_SIZE) == 9;
      }
      MapIdentity(HEAP_START, HEAP_START + HEAP_SIZE);
      forall w: u32 | HEAP_START <= w < HEAP_START + HEAP_SIZE
        ensures Dir(tables, 0) != 0 ==> Translate(tables, w) == w
      {
        FirstGiB(w);
      }
    }
  }
}
