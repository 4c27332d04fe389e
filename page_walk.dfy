/**
 * The three-level PAE table walk shared by both paging variants, over
 * directories and page tables held as maps of 64-bit entries.
 *
 * A table is identified by the slot that leads to it: directory `i` is the
 * one named by PDPT entry `i`, and page table `(i, j)` the one named by entry
 * `j` of directory `i`. Every table comes from a freshly zeroed page, so an
 * entry that was never written reads as zero.
 */

module PageWalk {
  import opened PmmBits
  import opened PaeLayout

  datatype Option<T> = None | Some(value: T)

  /** A table of 512 entries; keys that are absent hold zero. */
  type Table = map<nat, nat>

  function Entry(t: Table, k: nat): nat
  {
    if k in t then t[k] else 0
  }

  /** The PDPT, directory and page-table indices of an address. */
  datatype Slot = Slot(pdpt: nat, pd: nat, pt: nat)

  function SlotOf(v: u32): (s: Slot)
    ensures s.pdpt < PDPT_ENTRIES && s.pd < ENTRIES_PER_TABLE && s.pt < ENTRIES_PER_TABLE
  {
    Slot(PdptIndex(v), PdIndex(v), PtIndex(v))
  }

  /** Two addresses share their slot exactly when they share their page. */
  lemma SlotOfSamePage(v: u32, w: u32)
    ensures SlotOf(v) == SlotOf(w) <==> SamePage(v, w)
  {
    IndicesSamePage(v, w);
  }

  /**
   * `dirs[i]` is the address stored in `page_directories[i]` (0 for none),
   * `pd[i]` the entries of that directory and `pt[(i, j)]` those of the
   * page table installed at entry `j` of directory `i`.
   */
  datatype Tables = Tables(dirs: map<nat, nat>, pd: map<nat, Table>, pt: map<(nat, nat), Table>)

  /** No directories and no tables, as before `paging_init`. */
  const EMPTY: Tables := Tables(map[], map[], map[])

  function Dir(h: Tables, i: nat): nat
  {
    if i in h.dirs then h.dirs[i] else 0
  }

  function Directory(h: Tables, i: nat): Table
  {
    if i in h.pd then h.pd[i] else map[]
  }

  function PageTable(h: Tables, i: nat, j: nat): Table
  {
    if (i, j) in h.pt then h.pt[(i, j)] else map[]
  }

  /** Bit 0, `PAGE_PRESENT`, of an entry. */
  predicate Present(e: nat)
  {
    Bit(e, 0)
  }

  /** Present is the test `e & PAGE_PRESENT` of the source. */
  lemma PresentIsFlag(e: nat)
    ensures Present(e) <==> And(e, PAGE_PRESENT) != 0
  {
    AndPow2(e, 0);
  }

  /** The frame an entry points to, as `get_physical_addr` masks it with 0xFFFFF000: bits 12..31. */
  function FrameOf(e: nat): nat
  {
    e / PAGE_SIZE % 0x10_0000 * PAGE_SIZE
  }

  /** The frame an entry points to under the PAE format: bits 12..51. */
  function WideFrameOf(e: nat): nat
  {
    e / PAGE_SIZE % 0x100_0000_0000 * PAGE_SIZE
  }

  /** The directory entry that leads to the page table of slot `s`. */
  function DirEntry(h: Tables, s: Slot): nat
  {
    Entry(Directory(h, s.pdpt), s.pd)
  }

  /** The page-table entry of slot `s`. */
  function Leaf(h: Tables, s: Slot): nat
  {
    Entry(PageTable(h, s.pdpt, s.pd), s.pt)
  }

  /** Slot `s` has a directory and a present directory entry, so a page table to write. */
  predicate HasTable(h: Tables, s: Slot)
  {
    Dir(h, s.pdpt) != 0 && Present(DirEntry(h, s))
  }

  /** The leaf entry the walk for slot `s` reaches: none when the directory, the directory entry or the leaf is missing. */
  function Walk(h: Tables, s: Slot): Option<nat>
  {
    if HasTable(h, s) && Present(Leaf(h, s)) then Some(Leaf(h, s)) else None
  }

  /** What `get_physical_addr` makes of a walk: 0 for none, otherwise bits 12..31 of the leaf OR the offset. */
  function Resolve(leaf: Option<nat>, off: nat): nat
  {
    match leaf
    case None => 0
    case Some(e) => Or(FrameOf(e), off)
  }

  /** The physical address `get_physical_addr(v)` returns. */
  function Translate(h: Tables, v: u32): nat
  {
    Resolve(Walk(h, SlotOf(v)), Offset(v))
  }

  /** The directory entry written for a new page table. */
  function TableEntry(frame: u32, flags: u32): nat
  {
    Or(Or(Or(frame, PAGE_PRESENT), PAGE_WRITABLE), And(flags, PAGE_USER))
  }

  /** A new table's entry is present and writable, and carries the USER bit of `flags`. */
  lemma TableEntryFlags(frame: u32, flags: u32)
    ensures Present(TableEntry(frame, flags))
    ensures Bit(TableEntry(frame, flags), 1)
    ensures frame % PAGE_SIZE == 0 ==> (Bit(TableEntry(frame, flags), 2) <==> Bit(flags, 2))
  {
    var a := Or(frame, PAGE_PRESENT);
    var b := Or(a, PAGE_WRITABLE);
    var u := And(flags, PAGE_USER);
    assert PAGE_PRESENT == Pow2(0) && PAGE_WRITABLE == Pow2(1) && PAGE_USER == Pow2(2);
    BitOr(frame, PAGE_PRESENT, 0);
    BitPow2(0, 0);
    BitOr(a, PAGE_WRITABLE, 0);
    BitOr(b, u, 0);
    BitPow2(1, 1);
    BitOr(a, PAGE_WRITABLE, 1);
    BitOr(b, u, 1);
    BitOr(frame, PAGE_PRESENT, 2);
    BitPow2(0, 2);
    BitOr(a, PAGE_WRITABLE, 2);
    BitPow2(1, 2);
    BitOr(b, u, 2);
    BitAnd(flags, PAGE_USER, 2);
    BitPow2(2, 2);
    if frame % PAGE_SIZE == 0 {
      AlignedLowBit(frame, 2);
    }
  }

  /** A page-aligned value has its bits 0..11 clear. */
  lemma {:induction false} AlignedLowBit(x: nat, b: nat)
    requires x % PAGE_SIZE == 0 && b < 12
    ensures !Bit(x, b)
  {
    TableIsOnePage();
    LowBitsOfMultiple(x / PAGE_SIZE, 12, b);
    assert x == x / PAGE_SIZE * Pow2(12);
  }

  lemma {:induction false} LowBitsOfMultiple(q: nat, n: nat, b: nat)
    requires b < n
    ensures !Bit(q * Pow2(n), b)
  {
    var h := q * Pow2(n - 1);
    assert q * Pow2(n) == 2 * h by {
      assert Pow2(n) == 2 * Pow2(n - 1);
    }
    if b > 0 {
      LowBitsOfMultiple(q, n - 1, b - 1);
      assert (2 * h) / 2 == h;
    }
  }

  /** Installs a zeroed page table, with directory entry `e`, for slot `s`. */
  function InstallTable(h: Tables, s: Slot, e: nat): (r: Tables)
  {
    h.(pd := h.pd[s.pdpt := Directory(h, s.pdpt)[s.pd := e]], pt := h.pt[(s.pdpt, s.pd) := map[]])
  }

  /** The table step of `map_page`: a table is installed only if the entry lacks PRESENT. */
  function WithTable(h: Tables, s: Slot, frame: u32, flags: u32): (r: Tables)
    ensures r.dirs == h.dirs
    ensures Present(DirEntry(r, s))
    ensures Present(DirEntry(h, s)) ==> r == h
  {
    if Present(DirEntry(h, s)) then h
    else
      TableEntryFlags(frame, flags);
      InstallTable(h, s, TableEntry(frame, flags))
  }

  /** Writes the leaf entry of slot `s`. */
  function SetLeaf(h: Tables, s: Slot, e: nat): (r: Tables)
  {
    h.(pt := h.pt[(s.pdpt, s.pd) := PageTable(h, s.pdpt, s.pd)[s.pt := e]])
  }

  /** `map_page` at slot `s`: a table if needed, at `frame`, then leaf `e`. */
  function MapAt(h: Tables, s: Slot, e: nat, frame: u32, flags: u32): (r: Tables)
  {
    SetLeaf(WithTable(h, s, frame, flags), s, e)
  }

  /**
   * The effect of a successful `map_page(v, phys, flags)` whose table, if it
   * needs one, is allocated at `frame`.
   */
  function Map(h: Tables, v: u32, phys: u64, flags: u32, frame: u32): (r: Tables)
  {
    MapAt(h, SlotOf(v), Or(phys, flags), frame, flags)
  }

  /** The tables after any `map_page(v, phys, flags)`: unchanged when the PDPT slot has no directory. */
  function MapOrKeep(h: Tables, v: u32, phys: u64, flags: u32, frame: u32): (r: Tables)
  {
    if Dir(h, PdptIndex(v)) == 0 then h else Map(h, v, phys, flags, frame)
  }

  /** The effect of a successful `unmap_page(v)`. */
  function Unmap(h: Tables, v: u32): (r: Tables)
  {
    SetLeaf(h, SlotOf(v), 0)
  }

  lemma SetLeafReads(h: Tables, s: Slot, e: nat, t: Slot)
    ensures Dir(SetLeaf(h, s, e), t.pdpt) == Dir(h, t.pdpt)
    ensures DirEntry(SetLeaf(h, s, e), t) == DirEntry(h, t)
    ensures Leaf(SetLeaf(h, s, e), t) == if s == t then e else Leaf(h, t)
  {
  }

  /** Installing a table maps nothing new: every slot it serves was unmapped. */
  lemma WithTableKeeps(h: Tables, s: Slot, frame: u32, flags: u32, t: Slot)
    ensures Walk(WithTable(h, s, frame, flags), t) == Walk(h, t)
    ensures HasTable(h, t) ==> Leaf(WithTable(h, s, frame, flags), t) == Leaf(h, t)
  {
    if !Present(DirEntry(h, s)) {
      var r := InstallTable(h, s, TableEntry(frame, flags));
      if t.pdpt == s.pdpt && t.pd == s.pd {
        assert Leaf(r, t) == 0;
        assert !Present(0);
      } else {
        assert DirEntry(r, t) == DirEntry(h, t);
        assert Leaf(r, t) == Leaf(h, t);
      }
    }
  }

  /** `map_page` at slot `s` makes the walk for `s` reach the new leaf. */
  lemma WalkMapAt(h: Tables, s: Slot, e: nat, frame: u32, flags: u32)
    requires Dir(h, s.pdpt) != 0 && Present(e)
    ensures Walk(MapAt(h, s, e, frame, flags), s) == Some(e)
  {
    SetLeafReads(WithTable(h, s, frame, flags), s, e, s);
  }

  /** `map_page` at slot `s` leaves the walk for every other slot as it was. */
  lemma WalkMapAtOthers(h: Tables, s: Slot, e: nat, frame: u32, flags: u32, t: Slot)
    requires s != t
    ensures Walk(MapAt(h, s, e, frame, flags), t) == Walk(h, t)
  {
    WithTableKeeps(h, s, frame, flags, t);
    SetLeafReads(WithTable(h, s, frame, flags), s, e, t);
  }

  /** Writing a leaf changes the walk of that slot only. */
  lemma WalkSetLeaf(h: Tables, s: Slot, e: nat, t: Slot)
    ensures Walk(SetLeaf(h, s, e), t) == if s == t then (if HasTable(h, s) && Present(e) then Some(e) else None) else Walk(h, t)
  {
    SetLeafReads(h, s, e, t);
  }

  /** A leaf built from a page-aligned frame below 4 GiB and PRESENT among low flags resolves into that frame. */
  lemma LeafResolves(phys: nat, flags: nat, off: nat)
    requires phys % PAGE_SIZE == 0 && phys < 0x1_0000_0000 && flags < PAGE_SIZE && off < PAGE_SIZE
    requires Bit(flags, 0)
    ensures Present(Or(phys, flags))
    ensures Resolve(Some(Or(phys, flags)), off) == phys + off
  {
    var e := Or(phys, flags);
    FlagsReversible(phys, flags);
    FlagsReversible(phys, off);
    BitOr(phys, flags, 0);
    SmallMod(phys / PAGE_SIZE, 0x10_0000);
    assert FrameOf(e) == phys;
  }

  /** A value below the modulus is its own remainder. */
  lemma SmallMod(e: nat, m: nat)
    requires e < m
    ensures e % m == e
  {
  }

  /**
   * After `map_page(v, phys, flags)` every address in the page of `v`
   * translates into the page at `phys`, whatever was mapped there before.
   */
  lemma MapTranslates(h: Tables, v: u32, phys: u64, flags: u32, frame: u32, w: u32)
    requires Dir(h, PdptIndex(v)) != 0
    requires phys % PAGE_SIZE == 0 && phys < 0x1_0000_0000 && flags < PAGE_SIZE
    requires Bit(flags, 0)
    requires SamePage(v, w)
    ensures Translate(Map(h, v, phys, flags, frame), w) == phys + Offset(w)
  {
    SlotOfSamePage(v, w);
    LeafResolves(phys, flags, Offset(w));
    WalkMapAt(h, SlotOf(v), Or(phys, flags), frame, flags);
  }

  /** `map_page(v, …)` changes no translation outside the page of `v`. */
  lemma MapKeepsOthers(h: Tables, v: u32, phys: u64, flags: u32, frame: u32, w: u32)
    requires !SamePage(v, w)
    ensures Translate(Map(h, v, phys, flags, frame), w) == Translate(h, w)
  {
    SlotOfSamePage(v, w);
    WalkMapAtOthers(h, SlotOf(v), Or(phys, flags), frame, flags, SlotOf(w));
  }

  /** After `unmap_page(v)` succeeds, the whole page of `v` translates to 0. */
  lemma UnmapClears(h: Tables, v: u32, w: u32)
    requires SamePage(v, w)
    ensures Translate(Unmap(h, v), w) == 0
  {
    SlotOfSamePage(v, w);
    WalkSetLeaf(h, SlotOf(v), 0, SlotOf(w));
    assert !Present(0);
  }

  /** `unmap_page(v)` changes no translation outside the page of `v`. */
  lemma UnmapKeepsOthers(h: Tables, v: u32, w: u32)
    requires !SamePage(v, w)
    ensures Translate(Unmap(h, v), w) == Translate(h, w)
  {
    SlotOfSamePage(v, w);
    WalkSetLeaf(h, SlotOf(v), 0, SlotOf(w));
  }

  /**
   * A result of 0 does not tell "not mapped" from "mapped to frame 0": the
   * start of a page mapped onto physical page 0 translates to the same
   * value as the same address after `unmap_page`.
   */
  lemma ZeroIsAmbiguous(h: Tables, v: u32, frame: u32)
    requires Dir(h, PdptIndex(v)) != 0 && Offset(v) == 0
    ensures Walk(Map(h, v, 0, 3, frame), SlotOf(v)).Some?
    ensures Translate(Map(h, v, 0, 3, frame), v) == 0
    ensures Walk(Unmap(Map(h, v, 0, 3, frame), v), SlotOf(v)).None?
    ensures Translate(Unmap(Map(h, v, 0, 3, frame), v), v) == 0
  {
    MapTranslates(h, v, 0, 3, frame, v);
    LeafResolves(0, 3, 0);
    WalkMapAt(h, SlotOf(v), Or(0, 3), frame, 3);
    UnmapClears(Map(h, v, 0, 3, frame), v, v);
    WalkSetLeaf(Map(h, v, 0, 3, frame), SlotOf(v), 0, SlotOf(v));
    assert !Present(0);
  }

  /** What the PAE hardware makes of a walk: bits 12..51 of the leaf OR the offset. */
  function ResolveWide(leaf: Option<nat>, off: nat): nat
  {
    match leaf
    case None => 0
    case Some(e) => Or(WideFrameOf(e), off)
  }

  /** `get_physical_addr` with the full PAE frame mask. */
  function TranslateWide(h: Tables, v: u32): nat
  {
    ResolveWide(Walk(h, SlotOf(v)), Offset(v))
  }

  /** The 32-bit mask loses a frame at 4 GiB: the lookup returns only the offset. */
  lemma TranslateDropsHighBits(h: Tables, v: u32, frame: u32)
    requires Dir(h, PdptIndex(v)) != 0
    ensures Translate(Map(h, v, 0x1_0000_0000, 3, frame), v) == Offset(v)
    ensures Translate(Map(h, v, 0x1_0000_0000, 3, frame), v) != 0x1_0000_0000 + Offset(v)
  {
    var e := Or(0x1_0000_0000, 3);
    FlagsReversible(0x1_0000_0000, 3);
    BitOr(0x1_0000_0000, 3, 0);
    BitPow2(0, 0);
    assert Present(e);
    WalkMapAt(h, SlotOf(v), e, frame, 3);
    assert e / PAGE_SIZE == 0x10_0000;
    assert FrameOf(e) == 0;
    FlagsReversible(0, Offset(v));
  }

  /** A leaf with a page-aligned frame below 2^52 and PRESENT among low flags resolves, under the PAE mask, into that frame. */
  lemma LeafResolvesWide(phys: nat, flags: nat, off: nat)
    requires phys % PAGE_SIZE == 0 && phys < 0x10_0000_0000_0000 && flags < PAGE_SIZE && off < PAGE_SIZE
    requires Bit(flags, 0)
    ensures Present(Or(phys, flags))
    ensures ResolveWide(Some(Or(phys, flags)), off) == phys + off
  {
    var e := Or(phys, flags);
    FlagsReversible(phys, flags);
    FlagsReversible(phys, off);
    BitOr(phys, flags, 0);
    SmallMod(phys / PAGE_SIZE, 0x100_0000_0000);
    assert WideFrameOf(e) == phys;
  }

  /** With the full PAE mask, `map_page` round-trips for every frame below 2^52. */
  lemma MapTranslatesWide(h: Tables, v: u32, phys: u64, flags: u32, frame: u32, w: u32)
    requires Dir(h, PdptIndex(v)) != 0
    requires phys % PAGE_SIZE == 0 && phys < 0x10_0000_0000_0000 && flags < PAGE_SIZE
    requires Bit(flags, 0)
    requires SamePage(v, w)
    ensures TranslateWide(Map(h, v, phys, flags, frame), w) == phys + Offset(w)
  {
    SlotOfSamePage(v, w);
    LeafResolvesWide(phys, flags, Offset(w));
    WalkMapAt(h, SlotOf(v), Or(phys, flags), frame, flags);
  }

  /** Both resolutions agree wherever the leaf holds a frame below 4 GiB. */
  lemma TranslateWideAgrees(h: Tables, v: u32)
    requires Leaf(h, SlotOf(v)) < 0x1_0000_0000
    ensures TranslateWide(h, v) == Translate(h, v)
  {
  }

  /** What `map_page` writes: the directory entry only when it lacked PRESENT, and always the leaf. */
  lemma MapWrites(h: Tables, v: u32, phys: u64, flags: u32, frame: u32, t: Slot)
    ensures DirEntry(Map(h, v, phys, flags, frame), SlotOf(v)) ==
      if Present(DirEntry(h, SlotOf(v))) then DirEntry(h, SlotOf(v)) else TableEntry(frame, flags)
    ensures (t.pdpt, t.pd) != (SlotOf(v).pdpt, SlotOf(v).pd) ==> DirEntry(Map(h, v, phys, flags, frame), t) == DirEntry(h, t)
    ensures Leaf(Map(h, v, phys, flags, frame), SlotOf(v)) == Or(phys, flags)
    ensures Map(h, v, phys, flags, frame).dirs == h.dirs
  {
    var s := SlotOf(v);
    SetLeafReads(WithTable(h, s, frame, flags), s, Or(phys, flags), t);
    SetLeafReads(WithTable(h, s, frame, flags), s, Or(phys, flags), s);
  }

  /** Mapping the same page twice: the second leaf wins, whatever the first call installed. */
  lemma LastMapWins(h: Tables, v: u32, p1: u64, f1: u32, fr1: u32, p2: u64, f2: u32, fr2: u32, t: Slot)
    ensures Walk(Map(Map(h, v, p1, f1, fr1), v, p2, f2, fr2), t) == Walk(Map(h, v, p2, f2, fr2), t)
  {
    var s := SlotOf(v);
    var h1 := Map(h, v, p1, f1, fr1);
    WithTableKeeps(h1, s, fr2, f2, t);
    WithTableKeeps(h, s, fr2, f2, t);
    WalkSetLeaf(WithTable(h1, s, fr2, f2), s, Or(p2, f2), t);
    WalkSetLeaf(WithTable(h, s, fr2, f2), s, Or(p2, f2), t);
    if t != s {
      WalkMapAtOthers(h, s, Or(p1, f1), fr1, f1, t);
    } else {
      assert HasTable(WithTable(h1, s, fr2, f2), s) == HasTable(WithTable(h, s, fr2, f2), s) by {
        MapWrites(h, v, p1, f1, fr1, s);
      }
    }
  }

  /** For a page-aligned `a`, the page of `a` is the range [a, a + PAGE_SIZE). */
  lemma PageRange(a: u32, w: u32)
    requires a % PAGE_SIZE == 0
    ensures SamePage(a, w) <==> a <= w < a + PAGE_SIZE
  {
  }

  /** Every address of [lo, hi) whose directory exists translates to itself. */
  predicate IdentityOn(h: Tables, lo: nat, hi: nat)
  {
    forall w: u32 :: lo <= w < hi && Dir(h, PdptIndex(w)) != 0 ==> Translate(h, w) == w
  }

  /** Outside [lo, hi), `h` translates as `h0` does. */
  predicate AgreeOutside(h: Tables, h0: Tables, lo: nat, hi: nat)
  {
    forall w: u32 :: !(lo <= w < hi) ==> Translate(h, w) == Translate(h0, w)
  }

  /**
   * One iteration of an identity-mapping loop: `map_page(a, a, PRESENT|WRITABLE)`
   * extends the identity over the page at `a` and changes no other translation.
   */
  lemma IdentityStep(h0: Tables, h: Tables, a: u32, frame: u32, lo: nat)
    requires a % PAGE_SIZE == 0 && lo <= a
    requires IdentityOn(h, lo, a) && AgreeOutside(h, h0, lo, a)
    ensures var h2 := MapOrKeep(h, a, a, 3, frame);
      h2.dirs == h.dirs && IdentityOn(h2, lo, a + PAGE_SIZE) && AgreeOutside(h2, h0, lo, a + PAGE_SIZE)
  {
    var h2 := MapOrKeep(h, a, a, 3, frame);
    MapWrites(h, a, a, 3, frame, SlotOf(a));
    forall w: u32 | !(lo <= w < a + PAGE_SIZE)
      ensures Translate(h2, w) == Translate(h0, w)
    {
      PageRange(a, w);
      if Dir(h, PdptIndex(a)) != 0 {
        MapKeepsOthers(h, a, a, 3, frame, w);
      }
    }
    forall w: u32 | lo <= w < a + PAGE_SIZE && Dir(h2, PdptIndex(w)) != 0
      ensures Translate(h2, w) == w
    {
      PageRange(a, w);
      if a <= w {
        SlotOfSamePage(a, w);
        MapTranslates(h, a, a, 3, frame, w);
        BaseAndOffset(w);
      } else if Dir(h, PdptIndex(a)) != 0 {
        MapKeepsOthers(h, a, a, 3, frame, w);
      }
    }
  }

  /** `map_page(a, ...)` allocates a page table: the directory exists but its entry for `a` lacks PRESENT. */
  predicate NeedsTable(h: Tables, a: u32)
  {
    Dir(h, PdptIndex(a)) != 0 && !Present(DirEntry(h, SlotOf(a)))
  }

  /**
   * The page tables a loop of `map_page` over the pages of [lo, hi)
   * allocates, counted against the tables `h` it starts from: the loop
   * reaches a new table's range at `lo` and wherever the table index is 0,
   * and allocates there when `h` has the directory but no table.
   */
  function NewTables(h: Tables, lo: nat, hi: nat): (n: nat)
    requires lo % PAGE_SIZE == 0 && hi % PAGE_SIZE == 0 && lo <= hi <= 0x1_0000_0000
    ensures n <= (hi - lo) / PAGE_SIZE
    decreases hi - lo
  {
    if hi == lo then 0
    else
      var a: u32 := hi - PAGE_SIZE;
      NewTables(h, lo, a) + if (a == lo || PtIndex(a) == 0) && NeedsTable(h, a) then 1 else 0
  }

  /**
   * Under a directory with no tables yet, the loop allocates one table for
   * every 2 MiB range it touches.
   */
  lemma {:induction false} NewTablesFresh(h: Tables, lo: u32, hi: nat)
    requires lo % PAGE_SIZE == 0 && hi % PAGE_SIZE == 0 && lo < hi <= 0x4000_0000
    requires Dir(h, 0) != 0 && Directory(h, 0) == map[]
    ensures NewTables(h, lo, hi) == PageNumber(hi - 1) / 512 - PageNumber(lo) / 512 + 1
    decreases hi - lo
  {
    var a: u32 := hi - PAGE_SIZE;
    FirstGiB(a);
    assert NeedsTable(h, a);
    assert PageNumber(hi - 1) == PageNumber(a) by {
      assert hi - 1 == a + 4095;
    }
    if a > lo {
      NewTablesFresh(h, lo, a);
      assert PageNumber(a - 1) + 1 == PageNumber(a) by {
        assert a - 1 == (a / PAGE_SIZE - 1) * PAGE_SIZE + 4095;
      }
    }
  }

  /** The entry `map_page(v, ...)` leaves for `v`'s range is present, and it touches no other directory entry. */
  lemma MapDirEntries(h: Tables, v: u32, phys: u64, flags: u32, frame: u32, t: Slot)
    ensures MapOrKeep(h, v, phys, flags, frame).dirs == h.dirs
    ensures t.pdpt == SlotOf(v).pdpt && t.pd == SlotOf(v).pd && Dir(h, t.pdpt) != 0 ==>
      Present(DirEntry(MapOrKeep(h, v, phys, flags, frame), t))
    ensures t.pdpt != SlotOf(v).pdpt || t.pd != SlotOf(v).pd ==>
      DirEntry(MapOrKeep(h, v, phys, flags, frame), t) == DirEntry(h, t)
  {
    var s := SlotOf(v);
    if Dir(h, s.pdpt) != 0 {
      var w := WithTable(h, s, frame, flags);
      SetLeafReads(w, s, Or(phys, flags), t);
      assert DirEntry(w, t) == DirEntry(w, s) || t.pdpt != s.pdpt || t.pd != s.pd;
    }
  }

  /**
   * Part way through a `map_page` loop that started from `h0` at `lo` and
   * has reached `a`: the range of `a` already has its table unless `a`
   * starts a range, and the entries of the ranges ahead are those of `h0`.
   */
  ghost predicate TablesAhead(h0: Tables, h: Tables, lo: nat, a: nat)
  {
    && h.dirs == h0.dirs
    && (a == lo ==> h == h0)
    && (lo < a < 0x1_0000_0000 && PtIndex(a) != 0 ==> !NeedsTable(h, a))
    && forall w: u32 :: a <= w && PtIndex(w) == 0 ==> DirEntry(h, SlotOf(w)) == DirEntry(h0, SlotOf(w))
  }

  /**
   * One iteration of the loop: `map_page` at `a` allocates exactly when
   * NewTables counts `a`, and the loop state moves on to the next page.
   */
  lemma TablesStep(h0: Tables, h: Tables, lo: nat, a: u32, phys: u64, flags: u32, frame: u32)
    requires lo <= a && a % PAGE_SIZE == 0 && TablesAhead(h0, h, lo, a)
    ensures NeedsTable(h, a) == ((a == lo || PtIndex(a) == 0) && NeedsTable(h0, a))
    ensures TablesAhead(h0, MapOrKeep(h, a, phys, flags, frame), lo, a + PAGE_SIZE)
  {
    var h2 := MapOrKeep(h, a, phys, flags, frame);
    var b := a + PAGE_SIZE;
    MapDirEntries(h, a, phys, flags, frame, SlotOf(a));
    assert PageNumber(a) * PAGE_SIZE == a;
    if b < 0x1_0000_0000 && PtIndex(b) != 0 {
      assert PageNumber(b) == PageNumber(a) + 1;
      assert PdptIndex(b) == PdptIndex(a) && PdIndex(b) == PdIndex(a);
      MapDirEntries(h, a, phys, flags, frame, SlotOf(b));
    }
    forall w: u32 | b <= w && PtIndex(w) == 0
      ensures DirEntry(h2, SlotOf(w)) == DirEntry(h0, SlotOf(w))
    {
      assert PageNumber(w) > PageNumber(a);
      assert PageNumber(w) / 512 > PageNumber(a) / 512;
      assert PdptIndex(w) != PdptIndex(a) || PdIndex(w) != PdIndex(a);
      MapDirEntries(h, a, phys, flags, frame, SlotOf(w));
    }
  }

  /** Directory `k` is `dirs[k]` and holds no entries, for every allocated directory. */
  predicate FreshDirs(h: Tables, dirs: seq<u32>)
  {
    forall k :: 0 <= k < |dirs| ==> Dir(h, k) == dirs[k] && Directory(h, k) == map[]
  }

  lemma FreshDirsStep(h: Tables, dirs: seq<u32>, dir: u32)
    requires FreshDirs(h, dirs)
    ensures FreshDirs(h.(dirs := h.dirs[|dirs| := dir], pd := h.pd[|dirs| := map[]]), dirs + [dir])
  {
  }

  /** Tables whose directories are all fresh map no address. */
  lemma FreshMapsNothing(h: Tables, dirs: seq<u32>, v: u32)
    requires |dirs| == PDPT_ENTRIES && FreshDirs(h, dirs)
    ensures Translate(h, v) == 0
  {
    assert DirEntry(h, SlotOf(v)) == 0;
  }
}
