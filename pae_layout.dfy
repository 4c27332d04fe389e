/**
 * The PAE paging layout of paging.h: table sizes, page-entry flag bits and
 * the decomposition of a 32-bit virtual address into its table indices.
 *
 * Addresses and entries are unsigned numbers; the C operators `|` and `&`
 * on them are PmmBits.Or and PmmBits.And, and bit `b` of a value is
 * PmmBits.Bit. A bit-field of `virtual_addr_t` is a digit of the address in
 * a mixed radix (2^12, 2^9, 2^9, 2^2), so reading one is a division and a
 * remainder.
 */
module PaeLayout {
  import opened PmmBits

  const PAGE_SIZE: nat := 4096
  const ENTRIES_PER_TABLE: nat := 512
  const PDPT_ENTRIES: nat := 4
  /** Size in bytes of one PAE entry (`pae_entry_t` is a `uint64_t`). */
  const ENTRY_BYTES: nat := 8

  const PAGE_PRESENT: nat := 0x001
  const PAGE_WRITABLE: nat := 0x002
  const PAGE_USER: nat := 0x004
  const PAGE_WRITE_THROUGH: nat := 0x008
  const PAGE_CACHE_DISABLE: nat := 0x010
  const PAGE_ACCESSED: nat := 0x020
  const PAGE_DIRTY: nat := 0x040
  const PAGE_SIZE_FLAG: nat := 0x080
  const PAGE_GLOBAL: nat := 0x100
  const PAGE_NX: nat := 0x8000_0000_0000_0000

  /** The values of a `uint64_t`. */
  type u64 = x: int | 0 <= x < 0x1_0000_0000_0000_0000

  /** The low-order flags, in declaration order. */
  const LOW_FLAGS: seq<nat> := [PAGE_PRESENT, PAGE_WRITABLE, PAGE_USER, PAGE_WRITE_THROUGH,
    PAGE_CACHE_DISABLE, PAGE_ACCESSED, PAGE_DIRTY, PAGE_SIZE_FLAG, PAGE_GLOBAL]

  /** The four bit-fields of `virtual_addr_t`, lowest first. */
  datatype VirtualAddr = VirtualAddr(offset: nat, ptIndex: nat, pdIndex: nat, pdptIndex: nat)

  predicate FieldsInRange(v: VirtualAddr)
  {
    v.offset < PAGE_SIZE && v.ptIndex < ENTRIES_PER_TABLE && v.pdIndex < ENTRIES_PER_TABLE
    && v.pdptIndex < PDPT_ENTRIES
  }

  /** The page number: the address without its 12-bit offset. */
  function PageNumber(raw: u32): (r: nat)
    ensures r < 0x10_0000
  {
    raw / 0x1000
  }

  /** Bits 30-31: the PDPT index. */
  function PdptIndex(raw: u32): (r: nat)
    ensures r < PDPT_ENTRIES
  {
    PageNumber(raw) / 512 / 512
  }

  /** Bits 21-29: the page-directory index. */
  function PdIndex(raw: u32): (r: nat)
    ensures r < ENTRIES_PER_TABLE
  {
    PageNumber(raw) / 512 % 512
  }

  /** Bits 12-20: the page-table index. */
  function PtIndex(raw: u32): (r: nat)
    ensures r < ENTRIES_PER_TABLE
  {
    PageNumber(raw) % 512
  }

  /** Bits 0-11: the offset within the page. */
  function Offset(raw: u32): (r: nat)
    ensures r < PAGE_SIZE
  {
    raw % 0x1000
  }

  /** Reading the fields through the union. */
  function Decode(raw: u32): (v: VirtualAddr)
    ensures FieldsInRange(v)
  {
    VirtualAddr(Offset(raw), PtIndex(raw), PdIndex(raw), PdptIndex(raw))
  }

  /** Writing the fields back into `raw`; the fields occupy disjoint bits, so placing them adds. */
  function Encode(v: VirtualAddr): nat
  {
    ((v.pdptIndex * 512 + v.pdIndex) * 512 + v.ptIndex) * 0x1000 + v.offset
  }

  /** Dividing `a * m + b` by `m`, for the radixes of the address fields, gives back `a` and `b`. */
  lemma DivMod(a: nat, b: nat, m: nat)
    requires m == 512 || m == 0x1000
    requires b < m
    ensures (a * m + b) / m == a && (a * m + b) % m == b
  {
  }

  /** Every address of the first GiB selects PDPT entry 0. */
  lemma FirstGiB(raw: u32)
    requires raw < 0x4000_0000
    ensures PdptIndex(raw) == 0
  {
  }

  /** Recombining the fields gives back the raw address. */
  lemma DecodeEncode(raw: u32)
    ensures Encode(Decode(raw)) == raw
  {
  }

  /** Every in-range set of fields is the decoding of the address it encodes. */
  lemma EncodeDecode(v: VirtualAddr)
    requires FieldsInRange(v)
    ensures Encode(v) < 0x1_0000_0000
    ensures Decode(Encode(v)) == v
  {
    var top := v.pdptIndex * 512 + v.pdIndex;
    var page := top * 512 + v.ptIndex;
    DivMod(page, v.offset, 0x1000);
    DivMod(top, v.ptIndex, 512);
    DivMod(v.pdptIndex, v.pdIndex, 512);
  }

  /** The page number of an address, split into its three indices. */
  lemma PageNumberSplit(raw: u32)
    ensures PageNumber(raw) == (PdptIndex(raw) * 512 + PdIndex(raw)) * 512 + PtIndex(raw)
  {
  }

  /** The address of the page holding `raw` (`raw & 0xFFFFF000`). */
  function PageBase(raw: u32): nat
  {
    raw / PAGE_SIZE * PAGE_SIZE
  }

  /** An address is its page base plus its offset, and the base is page-aligned. */
  lemma BaseAndOffset(raw: u32)
    ensures raw == PageBase(raw) + Offset(raw)
    ensures PageBase(raw) % PAGE_SIZE == 0
  {
  }

  /** Two addresses lie in the same 4 KiB page. */
  predicate SamePage(v: u32, w: u32)
  {
    v / PAGE_SIZE == w / PAGE_SIZE
  }

  /** Two addresses select the same table entries exactly when they lie in the same page. */
  lemma IndicesSamePage(v: u32, w: u32)
    ensures SamePage(v, w) <==> (PdptIndex(v) == PdptIndex(w) && PdIndex(v) == PdIndex(w) && PtIndex(v) == PtIndex(w))
  {
    PageNumberSplit(v);
    PageNumberSplit(w);
  }

  /** Two addresses share a page exactly when they share a page base. */
  lemma SamePageBase(v: u32, w: u32)
    ensures SamePage(v, w) <==> PageBase(v) == PageBase(w)
  {
  }

  /** A table of 512 eight-byte entries fills one page, and the 12-bit offset spans one page. */
  lemma TableIsOnePage()
    ensures ENTRIES_PER_TABLE * ENTRY_BYTES == PAGE_SIZE
    ensures Pow2(12) == PAGE_SIZE
  {
  }

  /** Each low flag is bit `i` for its position `i`, and every position is below 12. */
  lemma LowFlagsAreBits()
    ensures forall i :: 0 <= i < |LOW_FLAGS| ==> LOW_FLAGS[i] == Pow2(i)
    ensures |LOW_FLAGS| <= 12
  {
    assert Pow2(8) == 256;
  }

  /** PAGE_NX is bit 63, the top bit of a 64-bit entry, far above any low flag and any 32-bit frame. */
  lemma NxIsBit63()
    ensures PAGE_NX == Pow2(63)
  {
    Pow2Word();
    assert Pow2(32) == 2 * Pow2(31);
    Pow2Add(32, 31);
  }

  /** OR-ing a multiple of 2^n with a value below 2^n adds them. */
  lemma {:induction false} OrDisjoint(q: nat, y: nat, n: nat)
    requires y < Pow2(n)
    ensures Or(q * Pow2(n), y) == q * Pow2(n) + y
  {
    if n == 0 {
      OrZero(q);
    } else {
      var h := q * Pow2(n - 1);
      assert q * Pow2(n) == 2 * h by {
        assert Pow2(n) == 2 * Pow2(n - 1);
      }
      OrDisjoint(q, y / 2, n - 1);
      OrEven(h, y);
    }
  }

  /** One step of Or on an even left operand. */
  lemma OrEven(h: nat, y: nat)
    ensures Or(2 * h, y) == 2 * Or(h, y / 2) + y % 2
  {
  }

  lemma {:induction false} OrZero(x: nat)
    ensures Or(x, 0) == x
    decreases x
  {
    if x != 0 {
      OrZero(x / 2);
    }
  }

  /**
   * OR-ing flags below bit 12 into a page-aligned frame address can be
   * undone: the page base gives the frame back and the remainder the flags.
   */
  lemma FlagsReversible(frame: nat, flags: nat)
    requires frame % PAGE_SIZE == 0 && flags < PAGE_SIZE
    ensures Or(frame, flags) == frame + flags
    ensures Or(frame, flags) / PAGE_SIZE == frame / PAGE_SIZE
    ensures Or(frame, flags) / PAGE_SIZE * PAGE_SIZE == frame
    ensures Or(frame, flags) % PAGE_SIZE == flags
  {
    TableIsOnePage();
    var q := frame / PAGE_SIZE;
    assert frame == q * Pow2(12);
    OrDisjoint(q, flags, 12);
    DivMod(q, flags, PAGE_SIZE);
  }
  /** Euclidean division is unique: a quotient and remainder below the divisor are `/` and `%`. */
  lemma DivModUnique(y: nat, d: nat, q: nat, r: nat)
    requires d > 0 && y == d * q + r && r < d
    ensures y / d == q && y % d == r
  {
    var q', r' := y / d, y % d;
    assert d * (q - q') == r' - r;
    MulBounds(d, q - q');
  }

  lemma MulBounds(d: int, k: int)
    requires d > 0
    ensures k >= 1 ==> d * k >= d
    ensures k <= -1 ==> d * k <= -d
  {
  }

  /** Dividing by 2p is halving, then dividing by p. */
  lemma HalfSplit(x: nat, p: nat)
    requires p > 0
    ensures x / (2 * p) == x / 2 / p
    ensures x % (2 * p) == 2 * (x / 2 % p) + x % 2
  {
    var a := x / 2;
    var q, r := a / p, a % p;
    assert a == p * q + r;
    assert x == 2 * a + x % 2;
    assert x == (2 * p) * q + (2 * r + x % 2) by {
      assert 2 * (p * q) == (2 * p) * q;
    }
    DivModUnique(x, 2 * p, q, 2 * r + x % 2);
  }

  /** `y & (2^n - 1)` keeps the low n bits: it is `y % 2^n`. */
  lemma {:induction false} LowMask(y: nat, n: nat)
    ensures And(y, Pow2(n) - 1) == y % Pow2(n)
  {
    if n == 0 {
      AndZero(y);
    } else if y != 0 {
      var m := Pow2(n - 1) - 1;
      assert Pow2(n) - 1 == 2 * m + 1;
      LowMask(y / 2, n - 1);
      HalfSplit(y, Pow2(n - 1));
    }
  }

  lemma AndEven(x: nat, m: nat)
    ensures And(x, 2 * m) == 2 * And(x / 2, m)
  {
  }

  /** `m << k`. */
  function Shl(m: nat, k: nat): nat
  {
    if k == 0 then m else 2 * Shl(m, k - 1)
  }

  /** `x >> k`. */
  function Shr(x: nat, k: nat): nat
  {
    if k == 0 then x else Shr(x / 2, k - 1)
  }

  /** `x & (m << k)` is `((x >> k) & m) << k`. */
  lemma {:induction false} HighMask(x: nat, k: nat, m: nat)
    ensures And(x, Shl(m, k)) == Shl(And(Shr(x, k), m), k)
  {
    if k > 0 {
      AndEven(x, Shl(m, k - 1));
      HighMask(x / 2, k - 1, m);
    }
  }

  lemma {:induction false} ShlMul(a: nat, k: nat)
    ensures Shl(a, k) == a * Pow2(k)
  {
    if k > 0 {
      ShlMul(a, k - 1);
      Twice(Pow2(k - 1), a);
    }
  }

  lemma {:induction false} ShrDiv(x: nat, k: nat)
    ensures Shr(x, k) == x / Pow2(k)
  {
    if k > 0 {
      var h := Pow2(k - 1);
      ShrDiv(x / 2, k - 1);
      HalfDiv(x, h);
    }
  }

  lemma Twice(h: nat, a: nat)
    ensures 2 * (h * a) == (2 * h) * a
  {
  }

  lemma HalfDiv(x: nat, p: nat)
    requires p > 0
    ensures x / (2 * p) == x / 2 / p
  {
    HalfSplit(x, p);
  }

  /** The alignment tests `addr & (PAGE_SIZE - 1)` and `addr & 0x1F` are remainders. */
  lemma AlignMasks(x: nat)
    ensures And(x, PAGE_SIZE - 1) == x % PAGE_SIZE
    ensures And(x, 0x1F) == x % 32
  {
    TableIsOnePage();
    LowMask(x, 12);
    assert Pow2(5) == 32;
    LowMask(x, 5);
  }

  /** `e & 0xFFFFF000` keeps bits 12..31: the page number modulo 2^20, scaled back to an address. */
  lemma FrameMask(e: nat)
    ensures And(e, 0xFFFF_F000) == e / PAGE_SIZE % 0x10_0000 * PAGE_SIZE
  {
    assert Pow2(12) == 0x1000 by {
      Pow2Add(6, 6);
      assert Pow2(6) == 64;
    }
    assert Pow2(20) == 0x10_0000 by {
      Pow2Add(10, 10);
      assert Pow2(10) == 1024 by {
        Pow2Add(5, 5);
        assert Pow2(5) == 32;
      }
    }
    assert Shl(0xF_FFFF, 12) == 0xFFFF_F000;
    HighMask(e, 12, 0xF_FFFF);
    ShrDiv(e, 12);
    LowMask(e / PAGE_SIZE, 20);
    ShlMul(e / PAGE_SIZE % 0x10_0000, 12);
  }

  /** The next page boundary after an aligned address below an aligned bound is still within it. */
  lemma NextPage(a: nat, hi: nat)
    requires a < hi && a % PAGE_SIZE == 0 && hi % PAGE_SIZE == 0
    ensures a + PAGE_SIZE <= hi && (a + PAGE_SIZE) % PAGE_SIZE == 0
  {
    assert a / PAGE_SIZE < hi / PAGE_SIZE;
    assert a + PAGE_SIZE == PAGE_SIZE * (a / PAGE_SIZE + 1);
  }
}
