/**
 * Where the two allocators of the kernel put their memory. `pmm_init` places
 * its bitmap at PMM_MANAGED_START and hands out the pages of
 * [PMM_MANAGED_START, +PMM_MANAGED_SIZE); `paging_init`, which the kernel
 * calls after it, seeds its bootstrap pool with the 4 MiB that start at
 * HEAP_START + HEAP_SIZE, zeroing each page. A safe boot needs the two ranges
 * to be disjoint.
 */
module MemoryLayout {
  import opened PmmBits
  import Pmm
  import opened PaeLayout
  import opened PaePaging

  /** The bytes `init_free_list` zeroes and pushes: 1024 pages. */
  const POOL_BYTES: nat := 0x40_0000

  predicate InManaged(a: nat)
  {
    Pmm.MANAGED_START <= a < Pmm.MANAGED_START + Pmm.MANAGED_SIZE
  }

  /** [lo1, lo1 + len1) and [lo2, lo2 + len2) share a byte. */
  predicate Overlap(lo1: nat, len1: nat, lo2: nat, len2: nat)
  {
    len1 > 0 && len2 > 0 && lo1 < lo2 + len2 && lo2 < lo1 + len1
  }

  /**
   * The condition the boot sequence relies on: a pool starting at
   * `poolStart` lies below 4 GiB and shares no byte with the managed range.
   */
  predicate SafeBootLayout(poolStart: nat)
  {
    poolStart + POOL_BYTES <= U32 && !Overlap(poolStart, POOL_BYTES, Pmm.MANAGED_START, Pmm.MANAGED_SIZE)
  }

  /**
   * With the shipped constants the pool starts exactly at the PMM bitmap:
   * the layout is unsafe, every bootstrap page is also a page the PMM hands
   * out, the page that holds the bitmap is on the list, and the PDPT is a
   * managed page.
   */
  lemma ShippedLayoutOverlaps()
    ensures INITIAL_POOL.next == Pmm.MANAGED_START
    ensures !SafeBootLayout(INITIAL_POOL.next)
    ensures forall k :: 0 <= k < POOL_PAGES ==> InManaged(Seed(INITIAL_POOL).freeList[k])
    ensures Seed(INITIAL_POOL).freeList[POOL_PAGES - 1] == Pmm.MANAGED_START
    ensures InManaged(Take(Seed(INITIAL_POOL)).0)
  {
    SeedLayout(INITIAL_POOL);
  }

  /**
   * Under a safe layout no page `init_free_list`
   * pushes, the PDPT included, is a managed page.
   */
  lemma SafeLayoutSeparates(p: Pool)
    requires SafeBootLayout(p.next)
    ensures forall k :: 0 <= k < POOL_PAGES ==> !InManaged(Seed(p).freeList[k])
    ensures !InManaged(Take(Seed(p)).0)
  {
    SeedLayout(p);
    forall k | 0 <= k < POOL_PAGES
      ensures !InManaged(Seed(p).freeList[k])
    {
      assert Seed(p).freeList[k] == p.next + (POOL_PAGES - 1 - k) * PAGE_SIZE;
    }
  }

  /** The pool placed right after the managed range, as the layout evidently intends. */
  const CORRECTED_POOL_START: u32 := 0x202_0000

  const CORRECTED_INITIAL_POOL: Pool := INITIAL_POOL.(next := CORRECTED_POOL_START)

  /** The corrected start is safe, so none of its pages is shared with the PMM. */
  lemma CorrectedLayoutSafe()
    ensures CORRECTED_POOL_START == Pmm.MANAGED_START + Pmm.MANAGED_SIZE
    ensures SafeBootLayout(CORRECTED_POOL_START)
    ensures forall k :: 0 <= k < POOL_PAGES ==> !InManaged(Seed(CORRECTED_INITIAL_POOL).freeList[k])
  {
    SafeLayoutSeparates(CORRECTED_INITIAL_POOL);
  }
}
