/**
 * The control-register sequence of `enable_pae_paging`, shared by both
 * paging variants. The registers are never read back by the kernel, so the
 * model keeps them as ghost state: their values and the order of the writes.
 */
module ControlRegs {
  import opened PmmBits

  /** CR0.PG, bit 31. */
  const CR0_PG: nat := 0x8000_0000
  /** CR4.PAE, bit 5. */
  const CR4_PAE: nat := 0x20

  datatype Regs = Regs(cr0: nat, cr3: nat, cr4: nat)

  datatype CrWrite = WriteCr0(value: nat) | WriteCr3(value: nat) | WriteCr4(value: nat)

  function Apply(r: Regs, w: CrWrite): Regs
  {
    match w
    case WriteCr0(x) => r.(cr0 := x)
    case WriteCr3(x) => r.(cr3 := x)
    case WriteCr4(x) => r.(cr4 := x)
  }

  /** The registers after a sequence of writes. */
  function Replay(r: Regs, ws: seq<CrWrite>): Regs
    decreases |ws|
  {
    if |ws| == 0 then r else Replay(Apply(r, ws[0]), ws[1..])
  }

  predicate PagingOn(r: Regs)
  {
    Bit(r.cr0, 31)
  }

  predicate PaeOn(r: Regs)
  {
    Bit(r.cr4, 5)
  }

  /**
   * The rules a switch into PAE paging has to keep: CR3 is loaded only while
   * paging is off, paging is turned on only once PAE is set, and PAE is not
   * changed while paging is on.
   */
  predicate Allowed(r: Regs, w: CrWrite)
  {
    match w
    case WriteCr3(_) => !PagingOn(r)
    case WriteCr0(x) => Bit(x, 31) && !PagingOn(r) ==> PaeOn(r)
    case WriteCr4(x) => PagingOn(r) ==> Bit(x, 5) == PaeOn(r)
  }

  /** Every write of `ws`, applied in order from `r`, is allowed. */
  predicate SafeFrom(r: Regs, ws: seq<CrWrite>)
    decreases |ws|
  {
    |ws| == 0 || (Allowed(r, ws[0]) && SafeFrom(Apply(r, ws[0]), ws[1..]))
  }

  /**
   * The writes `enable_pae_paging` performs from registers `r`: clear PG
   * (`cr0 &= ~0x80000000`), set PAE (`cr4 |= 0x20`), load CR3 with the PDPT,
   * set PG (`cr0 |= 0x80000000`).
   */
  function EnableSequence(r: Regs, pdpt: nat): seq<CrWrite>
  {
    var off := And(r.cr0, Not(CR0_PG, 32));
    [WriteCr0(off), WriteCr4(Or(r.cr4, CR4_PAE)), WriteCr3(pdpt), WriteCr0(Or(off, CR0_PG))]
  }

  lemma SafeCons(r: Regs, w: CrWrite, ws: seq<CrWrite>)
    requires Allowed(r, w) && SafeFrom(Apply(r, w), ws)
    ensures SafeFrom(r, [w] + ws)
  {
    assert ([w] + ws)[1..] == ws;
  }

  lemma ReplayCons(r: Regs, w: CrWrite, ws: seq<CrWrite>)
    ensures Replay(r, [w] + ws) == Replay(Apply(r, w), ws)
  {
    assert ([w] + ws)[1..] == ws;
  }

  /** PG and PAE are single bits. */
  lemma FlagBits()
    ensures CR0_PG == Pow2(31) && CR4_PAE == Pow2(5)
  {
    Pow2Word();
    assert Pow2(5) == 32;
  }

  lemma ReplayFour(r: Regs, ws: seq<CrWrite>)
    requires |ws| == 4
    ensures Replay(r, ws) == Apply(Apply(Apply(Apply(r, ws[0]), ws[1]), ws[2]), ws[3])
  {
    var r1 := Apply(r, ws[0]);
    var r2 := Apply(r1, ws[1]);
    var r3 := Apply(r2, ws[2]);
    assert ws[1..][0] == ws[1] && ws[1..][1..][0] == ws[2] && ws[1..][1..][1..][0] == ws[3];
    assert ws[1..][1..][1..][1..] == [];
    assert Replay(r3, ws[1..][1..][1..]) == Apply(r3, ws[3]);
    assert Replay(r2, ws[1..][1..]) == Replay(r3, ws[1..][1..][1..]);
    assert Replay(r1, ws[1..]) == Replay(r2, ws[1..][1..]);
  }

  /** Bit by bit, the values the sequence writes. */
  lemma EnableBits(r: Regs)
    ensures var off := And(r.cr0, Not(CR0_PG, 32));
      (forall b: nat :: Bit(off, b) <==> b < 32 && b != 31 && Bit(r.cr0, b))
      && (forall b: nat :: Bit(Or(off, CR0_PG), b) <==> Bit(off, b) || b == 31)
      && (forall b: nat :: Bit(Or(r.cr4, CR4_PAE), b) <==> Bit(r.cr4, b) || b == 5)
      && !Bit(off, 31) && Bit(Or(off, CR0_PG), 31) && Bit(Or(r.cr4, CR4_PAE), 5)
  {
    var off := And(r.cr0, Not(CR0_PG, 32));
    FlagBits();
    forall b: nat
      ensures Bit(off, b) <==> b < 32 && b != 31 && Bit(r.cr0, b)
      ensures Bit(Or(off, CR0_PG), b) <==> Bit(off, b) || b == 31
      ensures Bit(Or(r.cr4, CR4_PAE), b) <==> Bit(r.cr4, b) || b == 5
    {
      BitAnd(r.cr0, Not(CR0_PG, 32), b);
      BitNot(CR0_PG, 32, b);
      BitPow2(31, b);
      BitOr(off, CR0_PG, b);
      BitOr(r.cr4, CR4_PAE, b);
      BitPow2(5, b);
    }
    assert !Bit(off, 31) && Bit(Or(off, CR0_PG), 31) && Bit(Or(r.cr4, CR4_PAE), 5);
  }

  /**
   * Whatever state the boot code left the registers in, the sequence keeps
   * the rules and ends with paging and PAE on, CR3 at the PDPT, and every
   * other bit of the low 32 bits of CR0, and every other bit of CR4, as
   * before.
   */
  lemma EnableIsSafe(r: Regs, pdpt: nat)
    ensures SafeFrom(r, EnableSequence(r, pdpt))
    ensures var f := Replay(r, EnableSequence(r, pdpt));
      PagingOn(f) && PaeOn(f) && f.cr3 == pdpt
      && (forall b: nat :: b < 32 && b != 31 ==> (Bit(f.cr0, b) <==> Bit(r.cr0, b)))
      && (forall b: nat :: b != 5 ==> (Bit(f.cr4, b) <==> Bit(r.cr4, b)))
  {
    var off := And(r.cr0, Not(CR0_PG, 32));
    var w0, w1, w2, w3 := WriteCr0(off), WriteCr4(Or(r.cr4, CR4_PAE)), WriteCr3(pdpt), WriteCr0(Or(off, CR0_PG));
    assert EnableSequence(r, pdpt) == [w0] + ([w1] + ([w2] + [w3]));
    EnableBits(r);
    var r1 := Apply(r, w0);
    var r2 := Apply(r1, w1);
    var r3 := Apply(r2, w2);
    var f := Apply(r3, w3);
    assert r1.cr0 == off && r2.cr4 == Or(r.cr4, CR4_PAE) && f.cr0 == Or(off, CR0_PG) && f.cr4 == r2.cr4;
    assert !PagingOn(r1) && PaeOn(r2);
    assert PagingOn(f);
    assert SafeFrom(f, []);
    SafeCons(r3, w3, []);
    assert [w3] + [] == [w3];
    SafeCons(r2, w2, [w3]);
    SafeCons(r1, w1, [w2] + [w3]);
    SafeCons(r, w0, [w1] + ([w2] + [w3]));
    ReplayCons(r3, w3, []);
    ReplayCons(r2, w2, [w3]);
    ReplayCons(r1, w1, [w2] + [w3]);
    ReplayCons(r, w0, [w1] + ([w2] + [w3]));
  }

  /** Loading CR3 while paging is on breaks the rules: the first step of the sequence is needed. */
  lemma Cr3NeedsPagingOff(r: Regs, pdpt: nat)
    requires PagingOn(r)
    ensures !SafeFrom(r, [WriteCr3(pdpt)])
  {
  }
}
