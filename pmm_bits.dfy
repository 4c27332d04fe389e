/**
 * The frame bitmap of the physical memory manager, as pure values
 * (src/memory/pmm.c:20-61). A page's bit lives in 32-bit word `page / 32`
 * at position `page % 32`; 1 means allocated. Only the first
 * `pmm_bitmap_size` words are live: a page whose word lies beyond them
 * reads as allocated and is never written.
 *
 * Words are unsigned numbers below 2^32 and the C operators `|`, `&`, `~`
 * and `1 << b` are the functions Or, And, Not and Pow2, each tied to its
 * meaning bit by bit (BitOr, BitAnd, BitNot, BitPow2).
 */
module PmmBits {
  const PAGES_PER_ENTRY: nat := 32
  /** 2^32: the modulus of the source's `uint32_t` arithmetic. */
  const U32: nat := 0x1_0000_0000
  const WORD_BITS: nat := 32

  /** The values of a `uint32_t`. */
  type u32 = x: int | 0 <= x < 0x1_0000_0000

  /**
   * The value a `uint32_t` sum or difference wraps to. Its operands are
   * 32-bit, so `x` lies within one period of the range and one correction
   * suffices; Wrap32IsMod shows this is reduction modulo 2^32.
   */
  function Wrap32(x: int): (r: u32)
    requires -0x1_0000_0000 <= x < 0x2_0000_0000
    ensures 0 <= x < U32 ==> r == x
  {
    if x < 0 then x + U32 else if x < U32 then x else x - U32
  }

  lemma Wrap32IsMod(x: int)
    requires -0x1_0000_0000 <= x < 0x2_0000_0000
    ensures Wrap32(x) == x % 0x1_0000_0000
  {
  }

  /** Wrapping after each step of a running sum is wrapping once at the end. */
  lemma ModShift(x: int, d: int)
    ensures (x % U32 + d) % U32 == (x + d) % U32
  {
    var q := x / U32;
    assert x + d == q * U32 + (x % U32 + d);
    var r := (x % U32 + d) % U32;
    var p := (x % U32 + d) / U32;
    assert x + d == (q + p) * U32 + r;
  }

  /**
   * A 32-bit counter that tracks `base + f` modulo 2^32 still does after it
   * and `f` move by the same one step.
   */
  lemma CounterStep(c: u32, base: int, f: int, d: int)
    requires d == 1 || d == -1
    requires c == (base + f) % U32
    ensures Wrap32(c + d) == (base + f + d) % U32
  {
    Wrap32IsMod(c + d);
    ModShift(base + f, d);
  }

  /** A `uint32_t` product: reduction modulo 2^32. */
  function Mul32(a: u32, b: u32): (r: u32)
    ensures a * b < U32 ==> r == a * b
  {
    var p := a * b;
    if p < U32 then p else p % 0x1_0000_0000
  }

  /** 2^n; `Pow2(b)` is the source's `1 << b`. */
  function Pow2(n: nat): (r: nat)
    ensures r >= 1
  {
    if n == 0 then 1 else 2 * Pow2(n - 1)
  }

  /** Bit `b` of `w` (bit 0 is the least significant). */
  predicate Bit(w: nat, b: nat)
  {
    if b == 0 then w % 2 == 1 else Bit(w / 2, b - 1)
  }

  /** Bitwise or of two unsigned words. */
  function Or(x: nat, y: nat): nat
    decreases x + y
  {
    if x == 0 && y == 0 then 0
    else 2 * Or(x / 2, y / 2) + (if x % 2 == 1 || y % 2 == 1 then 1 else 0)
  }

  /** Bitwise and of two unsigned words. */
  function And(x: nat, y: nat): nat
  {
    if x == 0 then 0
    else 2 * And(x / 2, y / 2) + (if x % 2 == 1 && y % 2 == 1 then 1 else 0)
  }

  /** Bitwise complement of the low `width` bits of `x` (`~x` on a `width`-bit word). */
  function Not(x: nat, width: nat): nat
  {
    if width == 0 then 0 else 2 * Not(x / 2, width - 1) + (1 - x % 2)
  }

  lemma {:induction false} BitOfZero(b: nat)
    ensures !Bit(0, b)
  {
    if b > 0 {
      BitOfZero(b - 1);
    }
  }

  lemma {:induction false} BitOr(x: nat, y: nat, b: nat)
    ensures Bit(Or(x, y), b) == (Bit(x, b) || Bit(y, b))
    decreases b
  {
    if x == 0 && y == 0 {
      BitOfZero(b);
    } else if b > 0 {
      BitOr(x / 2, y / 2, b - 1);
    }
  }

  lemma {:induction false} BitAnd(x: nat, y: nat, b: nat)
    ensures Bit(And(x, y), b) == (Bit(x, b) && Bit(y, b))
    decreases b
  {
    if x == 0 {
      BitOfZero(b);
    } else if b > 0 {
      BitAnd(x / 2, y / 2, b - 1);
    }
  }

  lemma {:induction false} BitNot(x: nat, width: nat, b: nat)
    ensures Bit(Not(x, width), b) == (b < width && !Bit(x, b))
    decreases b
  {
    if width == 0 {
      BitOfZero(b);
    } else if b > 0 {
      BitNot(x / 2, width - 1, b - 1);
    }
  }

  lemma {:induction false} BitPow2(n: nat, b: nat)
    ensures Bit(Pow2(n), b) == (n == b)
    decreases b
  {
    if n == 0 {
      if b > 0 { BitOfZero(b - 1); }
    } else if b > 0 {
      BitPow2(n - 1, b - 1);
    } else {
      assert Pow2(n) % 2 == 0;
    }
  }

  /** A 32-bit word: a value below 2^32. */
  predicate IsWord(w: nat)
  {
    w < U32
  }

  lemma Pow2Word()
    ensures Pow2(WORD_BITS) == U32
  {
    assert Pow2(2) == 4;
    Pow2Add(2, 2);
    Pow2Add(4, 4);
    Pow2Add(8, 8);
    Pow2Add(16, 16);
  }

  lemma {:induction false} Pow2Add(a: nat, b: nat)
    ensures Pow2(a + b) == Pow2(a) * Pow2(b)
  {
    if a > 0 {
      Pow2Add(a - 1, b);
    }
  }

  /** Or of two `k`-bit values is a `k`-bit value. */
  lemma {:induction false} OrBelow(x: nat, y: nat, k: nat)
    requires x < Pow2(k) && y < Pow2(k)
    ensures Or(x, y) < Pow2(k)
    decreases k
  {
    if !(x == 0 && y == 0) {
      if k == 0 {
      } else {
        OrBelow(x / 2, y / 2, k - 1);
      }
    }
  }

  /** And never exceeds its first operand. */
  lemma {:induction false} AndAtMost(x: nat, y: nat)
    ensures And(x, y) <= x
  {
    if x > 0 {
      AndAtMost(x / 2, y / 2);
    }
  }

  /** Setting or clearing one of the 32 bits of a 32-bit word gives a 32-bit word. */
  lemma WordOps(w: nat, b: nat)
    requires IsWord(w) && b < WORD_BITS
    ensures IsWord(Or(w, Pow2(b)))
    ensures IsWord(And(w, Not(Pow2(b), WORD_BITS)))
  {
    Pow2Word();
    Pow2Mono(b, WORD_BITS);
    OrBelow(w, Pow2(b), WORD_BITS);
    AndAtMost(w, Not(Pow2(b), WORD_BITS));
  }

  lemma {:induction false} Pow2Mono(a: nat, b: nat)
    requires a < b
    ensures Pow2(a) < Pow2(b)
    decreases b
  {
    if a < b - 1 {
      Pow2Mono(a, b - 1);
    }
  }

  /** `(w & (1 << b)) != 0` tests exactly bit `b` of `w`. */
  lemma {:induction false} AndPow2(w: nat, n: nat)
    ensures (And(w, Pow2(n)) != 0) == Bit(w, n)
    decreases n
  {
    if w == 0 {
      BitOfZero(n);
    } else if n == 0 {
      AndZero(w / 2);
    } else {
      AndPow2(w / 2, n - 1);
    }
  }

  lemma {:induction false} AndZero(x: nat)
    ensures And(x, 0) == 0
  {
    if x > 0 {
      AndZero(x / 2);
    }
  }

  /** pmm_page_to_bitmap: the word that holds a page's bit. */
  function EntryOf(page: nat): nat
  {
    page / PAGES_PER_ENTRY
  }

  /** pmm_page_to_bitmap: the position of a page's bit in its word. */
  function BitOf(page: nat): nat
  {
    page % PAGES_PER_ENTRY
  }

  /**
   * pmm_test_bit over the live words `ws`: out-of-range pages read as
   * allocated. The source's test `(w & (1 << b)) != 0` is this bit (AndPow2).
   */
  predicate Allocated(ws: seq<nat>, page: nat)
  {
    EntryOf(page) < |ws| ==> Bit(ws[EntryOf(page)], BitOf(page))
  }

  /** `w` with bit `b` set and every other bit kept. */
  function SetsBit(w: nat, b: nat): nat
  {
    if b == 0 then w - w % 2 + 1 else 2 * SetsBit(w / 2, b - 1) + w % 2
  }

  lemma {:induction false} BitSets(w: nat, b: nat, q: nat)
    ensures Bit(SetsBit(w, b), q) == (Bit(w, q) || q == b)
  {
    if b == 0 {
      if q > 0 {
        assert (w - w % 2 + 1) / 2 == w / 2;
      }
    } else if q > 0 {
      BitSets(w / 2, b - 1, q - 1);
      assert (2 * SetsBit(w / 2, b - 1) + w % 2) / 2 == SetsBit(w / 2, b - 1);
    }
  }

  /** `w | (1 << b)` sets bit `b` and keeps the others. */
  lemma OrIsSet(w: nat, b: nat)
    ensures Or(w, Pow2(b)) == SetsBit(w, b)
  {
    forall q: nat
      ensures Bit(Or(w, Pow2(b)), q) == Bit(SetsBit(w, b), q)
    {
      BitOr(w, Pow2(b), q);
      BitPow2(b, q);
      BitSets(w, b, q);
    }
    BitsEqual(Or(w, Pow2(b)), SetsBit(w, b));
  }

  /** pmm_set_bit over the live words: a page whose word is not live is ignored. */
  function SetBit(ws: seq<nat>, page: nat): (r: seq<nat>)
    ensures |r| == |ws|
    ensures EntryOf(page) >= |ws| ==> r == ws
  {
    if EntryOf(page) < |ws| then
      ws[EntryOf(page) := SetsBit(ws[EntryOf(page)], BitOf(page))]
    else
      ws
  }

  /** `w` with bit `b` cleared and every other bit kept. */
  function ClearsBit(w: nat, b: nat): nat
  {
    if b == 0 then w - w % 2 else 2 * ClearsBit(w / 2, b - 1) + w % 2
  }

  lemma {:induction false} BitClears(w: nat, b: nat, q: nat)
    ensures Bit(ClearsBit(w, b), q) == (Bit(w, q) && q != b)
  {
    if b == 0 {
      if q > 0 {
        assert (w - w % 2) / 2 == w / 2;
      }
    } else if q > 0 {
      BitClears(w / 2, b - 1, q - 1);
      assert (2 * ClearsBit(w / 2, b - 1) + w % 2) / 2 == ClearsBit(w / 2, b - 1);
    }
  }

  /** Two numbers with the same bits are equal. */
  lemma {:induction false} BitsEqual(x: nat, y: nat)
    requires forall q: nat :: Bit(x, q) == Bit(y, q)
    ensures x == y
    decreases x + y
  {
    if x != 0 || y != 0 {
      assert Bit(x, 0) == Bit(y, 0);
      forall q: nat
        ensures Bit(x / 2, q) == Bit(y / 2, q)
      {
        assert Bit(x, q + 1) == Bit(y, q + 1);
      }
      BitsEqual(x / 2, y / 2);
    }
  }

  /** A number below 2^n has no bit at n or above. */
  lemma {:induction false} BitsBelow(w: nat, n: nat, q: nat)
    requires w < Pow2(n) && q >= n
    ensures !Bit(w, q)
  {
    if n == 0 {
      BitOfZero(q);
    } else {
      BitsBelow(w / 2, n - 1, q - 1);
    }
  }

  /** On a word, `w & ~(1 << b)` clears bit `b` and keeps the others. */
  lemma ClearedIsAndNot(w: nat, b: nat)
    requires IsWord(w) && b < WORD_BITS
    ensures And(w, Not(Pow2(b), WORD_BITS)) == ClearsBit(w, b)
  {
    forall q: nat
      ensures Bit(And(w, Not(Pow2(b), WORD_BITS)), q) == Bit(ClearsBit(w, b), q)
    {
      BitAnd(w, Not(Pow2(b), WORD_BITS), q);
      BitNot(Pow2(b), WORD_BITS, q);
      BitPow2(b, q);
      BitClears(w, b, q);
      if q >= WORD_BITS {
        Pow2Word();
        BitsBelow(w, WORD_BITS, q);
      }
    }
    BitsEqual(And(w, Not(Pow2(b), WORD_BITS)), ClearsBit(w, b));
  }

  /** pmm_clear_bit over the live words: a page whose word is not live is ignored. */
  function ClearBit(ws: seq<nat>, page: nat): (r: seq<nat>)
    ensures |r| == |ws|
    ensures EntryOf(page) >= |ws| ==> r == ws
  {
    if EntryOf(page) < |ws| then
      ws[EntryOf(page) := ClearsBit(ws[EntryOf(page)], BitOf(page))]
    else
      ws
  }

  /** Setting a page's bit allocates that page and changes no other page. */
  lemma SetBitAllocated(ws: seq<nat>, page: nat, q: nat)
    ensures Allocated(SetBit(ws, page), q) == (q == page || Allocated(ws, q))
  {
    var e := EntryOf(page);
    if e < |ws| && EntryOf(q) == e {
      BitSets(ws[e], BitOf(page), BitOf(q));
    }
  }

  /**
   * Clearing a page's bit frees that page if its word is live and changes no
   * other page.
   */
  lemma ClearBitAllocated(ws: seq<nat>, page: nat, q: nat)
    ensures Allocated(ClearBit(ws, page), q) == (Allocated(ws, q) && (q != page || EntryOf(q) >= |ws|))
  {
    var e := EntryOf(page);
    if e < |ws| && EntryOf(q) == e {
      BitClears(ws[e], BitOf(page), BitOf(q));
    }
  }

  /** The number of free pages among pages [0, n). */
  function FreeCount(ws: seq<nat>, n: nat): nat
  {
    if n == 0 then 0 else FreeCount(ws, n - 1) + (if Allocated(ws, n - 1) then 0 else 1)
  }

  function Min(a: nat, b: nat): nat
  {
    if a <= b then a else b
  }

  /** There are never more free pages than pages. */
  lemma {:induction false} FreeCountAtMost(ws: seq<nat>, n: nat)
    ensures FreeCount(ws, n) <= n
  {
    if n > 0 {
      FreeCountAtMost(ws, n - 1);
    }
  }

  /** The count depends only on which pages below `n` are allocated. */
  lemma {:induction false} FreeCountSame(a: seq<nat>, b: seq<nat>, n: nat)
    requires forall q: nat :: q < n ==> Allocated(a, q) == Allocated(b, q)
    ensures FreeCount(a, n) == FreeCount(b, n)
  {
    if n > 0 {
      FreeCountSame(a, b, n - 1);
    }
  }

  /** With every page free except `zero`, the count is n - 1. */
  lemma {:induction false} FreeCountAllButOne(ws: seq<nat>, n: nat, zero: nat)
    requires zero < n
    requires forall q: nat :: q < n ==> (Allocated(ws, q) <==> q == zero)
    ensures FreeCount(ws, n) == n - 1
  {
    if n - 1 == zero {
      FreeCountAllFree(ws, n - 1);
    } else {
      FreeCountAllButOne(ws, n - 1, zero);
    }
  }

  /** With every page below `n` free, the count is n. */
  lemma {:induction false} FreeCountAllFree(ws: seq<nat>, n: nat)
    requires forall q: nat :: q < n ==> !Allocated(ws, q)
    ensures FreeCount(ws, n) == n
  {
    if n > 0 {
      FreeCountAllFree(ws, n - 1);
    }
  }

  /**
   * Marking the free pages [s, s+c) allocated removes exactly the part of
   * that range that lies below `n` from the count.
   */
  lemma {:induction false} FreeCountAfterMarking(a: seq<nat>, b: seq<nat>, n: nat, s: nat, c: nat)
    requires forall q: nat :: s <= q < s + c ==> !Allocated(a, q)
    requires forall q: nat :: q < n ==> Allocated(b, q) == (Allocated(a, q) || s <= q < s + c)
    ensures FreeCount(b, n) == FreeCount(a, n) - (Min(n, s + c) - Min(n, s))
  {
    if n > 0 {
      FreeCountAfterMarking(a, b, n - 1, s, c);
    }
  }

  /**
   * Clearing the allocated pages [s, s+c) adds exactly the part of that
   * range that lies below `n` to the count.
   */
  lemma {:induction false} FreeCountAfterClearing(a: seq<nat>, b: seq<nat>, n: nat, s: nat, c: nat)
    requires forall q: nat :: s <= q < s + c && q < n ==> Allocated(a, q)
    requires forall q: nat :: q < n ==> Allocated(b, q) == (Allocated(a, q) && !(s <= q < s + c))
    ensures FreeCount(b, n) == FreeCount(a, n) + (Min(n, s + c) - Min(n, s))
  {
    if n > 0 {
      FreeCountAfterClearing(a, b, n - 1, s, c);
    }
  }

  /** Setting one bit lowers the count by one exactly when that page was a free page below `n`. */
  lemma {:induction false} FreeCountSetBit(ws: seq<nat>, n: nat, p: nat)
    ensures FreeCount(SetBit(ws, p), n) == FreeCount(ws, n) - (if p < n && !Allocated(ws, p) then 1 else 0)
  {
    if n > 0 {
      FreeCountSetBit(ws, n - 1, p);
      SetBitAllocated(ws, p, n - 1);
    }
  }

  /** Clearing the bit of a live page raises the count by one exactly when that page was allocated and below `n`. */
  lemma {:induction false} FreeCountClearBit(ws: seq<nat>, n: nat, p: nat)
    requires EntryOf(p) < |ws|
    ensures FreeCount(ClearBit(ws, p), n) == FreeCount(ws, n) + (if p < n && Allocated(ws, p) then 1 else 0)
  {
    if n > 0 {
      FreeCountClearBit(ws, n - 1, p);
      ClearBitAllocated(ws, p, n - 1);
    }
  }

  /** Pages s, s+1, ..., s+c-1 set in turn, as the allocation loop does. */
  function SetRange(ws: seq<nat>, s: nat, c: nat): (r: seq<nat>)
    ensures |r| == |ws|
  {
    if c == 0 then ws else SetBit(SetRange(ws, s, c - 1), s + c - 1)
  }

  lemma {:induction false} SetRangeAllocated(ws: seq<nat>, s: nat, c: nat, q: nat)
    ensures Allocated(SetRange(ws, s, c), q) == (Allocated(ws, q) || s <= q < s + c)
  {
    if c > 0 {
      SetRangeAllocated(ws, s, c - 1, q);
      SetBitAllocated(SetRange(ws, s, c - 1), s + c - 1, q);
    }
  }

  /** Whether `q` is one of the 32-bit page numbers (s + k) mod 2^32 for k < c. */
  predicate InWrapped(s: u32, c: nat, q: nat)
    requires c <= U32
  {
    c > 0 && (InWrapped(s, c - 1, q) || Wrap32(s + c - 1) == q)
  }

  /** Without 32-bit overflow the wrapped range is the plain interval. */
  lemma {:induction false} InWrappedPlain(s: u32, c: nat, q: nat)
    requires s + c <= U32
    ensures InWrapped(s, c, q) == (s <= q < s + c)
  {
    if c > 0 {
      InWrappedPlain(s, c - 1, q);
    }
  }

  /**
   * Pages (s + k) mod 2^32 for k < c cleared in turn, as the free loop does
   * with its 32-bit page arithmetic.
   */
  function ClearWrapped(ws: seq<nat>, s: u32, c: nat): (r: seq<nat>)
    requires c <= U32
    ensures |r| == |ws|
  {
    if c == 0 then ws else ClearBit(ClearWrapped(ws, s, c - 1), Wrap32(s + c - 1))
  }

  lemma ClearWrappedStep(ws: seq<nat>, s: u32, c: nat)
    requires c < U32
    ensures ClearWrapped(ws, s, c + 1) == ClearBit(ClearWrapped(ws, s, c), Wrap32(s + c))
  {
  }

  lemma {:induction false} ClearWrappedAllocated(ws: seq<nat>, s: u32, c: nat, q: nat)
    requires c <= U32 && EntryOf(q) < |ws|
    ensures Allocated(ClearWrapped(ws, s, c), q) == (Allocated(ws, q) && !InWrapped(s, c, q))
  {
    if c > 0 {
      ClearWrappedAllocated(ws, s, c - 1, q);
      ClearBitAllocated(ClearWrapped(ws, s, c - 1), Wrap32(s + c - 1), q);
    }
  }
}
