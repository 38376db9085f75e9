/** What the walks of `page_table_walk.c` report, read off the bits of the entries on the way. */
module Outcomes {
  import opened Helpers
  import opened Paging
  import opened PageWalk
  import opened Translation

  // ---------------------------------------------------------------------------
  // The way

  /** The path goes through one entry of each level, and the outcome is that of the walk from there. */
  lemma {:induction false} ReadsOnce(cfg: Config, mem: Memory, level: nat, addr: bv64, v: bv64, l: nat, a: bv64)
    requires 1 <= level <= 5 && Reads(cfg, mem, level, addr, v, l, a)
    ensures 1 <= l <= level
    ensures Resolve(cfg, mem, level, addr, v) == Resolve(cfg, mem, l, a, v)
    ensures forall b :: Reads(cfg, mem, level, addr, v, l, b) <==> b == a
    ensures var below: nat := l - 1;
            forall b :: Reads(cfg, mem, level, addr, v, below, b) <==> Reads(cfg, mem, l, a, v, below, b)
  {
    hide EntryEmpty, EntryPresent, EntryMaps, EntryAddress, TableOf, LeafAddress;
    OnlyFirst(cfg, mem, level, addr, v);
    if l != level || a != addr {
      var next := EntryAddress(TableOf(mem(addr)), level - 1, v);
      ReadsOnce(cfg, mem, level - 1, next, v, l, a);
    }
  }

  lemma {:induction false} OnlyFirst(cfg: Config, mem: Memory, level: nat, addr: bv64, v: bv64)
    requires 1 <= level <= 5
    ensures forall l: nat, b :: Reads(cfg, mem, level, addr, v, l, b) ==> 1 <= l <= level && (l == level ==> b == addr)
  {
    hide EntryEmpty, EntryPresent, EntryAddress, TableOf;
    if Descends(cfg, level, mem(addr)) {
      OnlyFirst(cfg, mem, level - 1, EntryAddress(TableOf(mem(addr)), level - 1, v), v);
    }
  }

  /** Where the walk starts. */
  lemma WalkStarts(cfg: Config, mem: Memory, base: bv64, v: bv64)
    ensures WalkFrom(cfg, mem, base, v) ==
      if cfg.la57 then Resolve(cfg, mem, 5, PointerAdd(base, SelectorBits(5, v)), v)
      else Resolve(cfg, mem, 4, PointerAdd(base, SelectorBits(4, v)), v)
  {
    hide Resolve, PointerAdd, SelectorBits, Index;
    SelectorIsIndex(5, v);
    SelectorIsIndex(4, v);
  }

  /** One of the bits is set. */
  predicate Has(e: bv64, bits: bv64) {
    e & bits != 0
  }

  /** From which entries the walk goes on: level 4 may be folded, and PROTNONE stands for PRESENT
      further down. */
  predicate GoesOn(cfg: Config, level: nat, e: bv64) {
    if level == 5 then Has(e, 0x1)
    else if level == 4 then Has(e, 0x1) || (!cfg.la57 && cfg.foldedTopPresent)
    else level > 1 && Has(e, 0x101) && !Has(e, 0x80)
  }

  lemma EmptyBits(level: nat, e: bv64)
    ensures EntryEmpty(level, e) <==> level <= 2 && !Has(e, !0x60)
  {
  }

  lemma PresentBit(e: bv64)
    ensures Has(e, 0x1) <==> e & PRESENT != 0
    ensures Has(e, 0x101) <==> e & (PRESENT | PROTNONE) != 0
    ensures Has(e, 0x181) <==> e & (PRESENT | PROTNONE | PSE) != 0
    ensures Has(e, 0x80) <==> IsLeaf(e)
  {
  }

  lemma EntryPresentBits(cfg: Config, level: nat, e: bv64)
    ensures EntryPresent(cfg, level, e) <==>
      if level == 4 && !cfg.la57 && cfg.foldedTopPresent then true
      else Has(e, if level >= 4 then 0x1 else if level == 2 then 0x181 else 0x101)
  {
    hide Has, IsLeaf;
    PresentBit(e);
  }

  lemma LeafBit(level: nat, e: bv64)
    ensures EntryMaps(level, e) <==> level == 1 || (level <= 3 && Has(e, 0x80))
  {
    hide Has, IsLeaf;
    PresentBit(e);
  }

  lemma BitsTogether(e: bv64)
    ensures Has(e, 0x181) <==> Has(e, 0x101) || Has(e, 0x80)
    ensures Has(e, 0x181) ==> Has(e, !0x60) && e != 0
  {
  }

  lemma DescendsBits(cfg: Config, level: nat, e: bv64)
    requires 1 <= level <= 5
    ensures Descends(cfg, level, e) <==> GoesOn(cfg, level, e)
  {
    hide Has, EntryEmpty, EntryPresent, EntryMaps;
    EmptyBits(level, e);
    EntryPresentBits(cfg, level, e);
    LeafBit(level, e);
    BitsTogether(e);
  }

  /** Below an entry that is read, the walk reads the one that the processor would read there, or
      none. */
  lemma NextRead(cfg: Config, mem: Memory, level: nat, addr: bv64, v: bv64, l: nat, a: bv64, b: bv64)
    requires 1 <= level <= 5 && l > 1 && Reads(cfg, mem, level, addr, v, l, a)
    ensures l <= 5
    ensures Reads(cfg, mem, level, addr, v, l - 1, b) <==>
            GoesOn(cfg, l, mem(a)) && b == StructureEntry(mem(a), l - 1, v)
  {
    hide EntryEmpty, EntryPresent, EntryMaps, EntryAddress, TableOf, GoesOn, StructureEntry, Descends;
    ReadsOnce(cfg, mem, level, addr, v, l, a);
    var e, below: nat := mem(a), l - 1;
    var next := EntryAddress(TableOf(e), below, v);
    DescendsBits(cfg, l, e);
    TableOfIsAligned(e);
    SameEntryAddress(TableOf(e), below, v);
    StructureEntryMasks(e, below, v);
    OnlyFirst(cfg, mem, below, next, v);
    assert Reads(cfg, mem, level, addr, v, below, b) <==> Reads(cfg, mem, l, a, v, below, b);
    assert Reads(cfg, mem, below, next, v, below, b) <==> b == next;
  }

  // ---------------------------------------------------------------------------
  // The outcome, by the bits of an entry on the way

  /** The entry with its frame bits, which are stored inverted when it is not present, put right. */
  function Upright(e: bv64): bv64 {
    if Has(e, 0x1) then e else !e
  }

  lemma UninvertedBits(e: bv64)
    requires e != 0
    ensures Uninverted(e) == Upright(e)
  {
    hide Uninverted;
    UninvertedIs(e);
  }

  lemma LeafIsFinal(level: nat, e: bv64, v: bv64)
    requires 1 <= level <= 3 && e != 0
    ensures LeafAddress(level, e, v) == FinalAddress(level, Upright(e), v)
  {
    hide Uninverted, Upright, FinalAddress, PageAddress, PageBits, FrameMask, OffsetMask;
    UninvertedBits(e);
    SameMask(level);
    FinalIsPageAddress(level, Upright(e), v);
  }

  /** The walk from one entry. */
  lemma ResolveBits(cfg: Config, mem: Memory, l: nat, a: bv64, v: bv64)
    requires 1 <= l <= 5
    ensures GoesOn(cfg, l, mem(a)) ==> 1 <= Resolve(cfg, mem, l, a, v).level < l
    ensures !GoesOn(cfg, l, mem(a)) ==> (Resolve(cfg, mem, l, a, v) ==
      if l <= 2 && !Has(mem(a), !0x60) then NoEntry(l)
      else if l == 1 && !Has(mem(a), 0x101) then Swap(1, mem(a))
      else if l == 2 && !Has(mem(a), 0x181) then (if cfg.thpMigration then Swap(2, mem(a)) else NotPresent(2))
      else if l == 3 && !Has(mem(a), 0x101) then NotPresent(3)
      else if l >= 4 then NotPresent(l)
      else Mapped(l, FinalAddress(l, Upright(mem(a)), v)))
  {
    hide Has, EntryEmpty, EntryPresent, EntryMaps, LeafAddress, FinalAddress, Upright, EntryAddress, TableOf;
    var e := mem(a);
    EmptyBits(l, e);
    EntryPresentBits(cfg, l, e);
    LeafBit(l, e);
    BitsTogether(e);
    if GoesOn(cfg, l, e) {
      var next, below: nat := EntryAddress(TableOf(e), l - 1, v), l - 1;
      OutcomeBelow(cfg, mem, below, next, v);
    } else if l <= 3 && Has(e, 0x181) {
      LeafIsFinal(l, e, v);
    }
  }

  lemma {:induction false} OutcomeBelow(cfg: Config, mem: Memory, level: nat, addr: bv64, v: bv64)
    requires 1 <= level <= 5
    ensures 1 <= Resolve(cfg, mem, level, addr, v).level <= level
  {
    hide EntryEmpty, EntryPresent, LeafAddress, EntryAddress, TableOf;
    if Descends(cfg, level, mem(addr)) {
      OutcomeBelow(cfg, mem, level - 1, EntryAddress(TableOf(mem(addr)), level - 1, v), v);
    }
  }

  /** The outcome belongs to the last entry on the way. */
  lemma {:induction false} OutcomeIsLast(cfg: Config, mem: Memory, level: nat, addr: bv64, v: bv64) returns (a: bv64)
    requires 1 <= level <= 5
    ensures var l := Resolve(cfg, mem, level, addr, v).level;
            1 <= l <= level && Reads(cfg, mem, level, addr, v, l, a) && !GoesOn(cfg, l, mem(a))
  {
    hide Has, EntryEmpty, EntryPresent, EntryMaps, EntryAddress, TableOf, LeafAddress, GoesOn;
    a := addr;
    DescendsBits(cfg, level, mem(addr));
    if Descends(cfg, level, mem(addr)) {
      a := OutcomeIsLast(cfg, mem, level - 1, EntryAddress(TableOf(mem(addr)), level - 1, v), v);
    }
  }

  /** A page table entry on the way: nothing but accessed and dirty bits is no entry, PRESENT or
      PROTNONE is a page, and everything else is a swap entry. */
  lemma PteOutcome(cfg: Config, mem: Memory, level: nat, addr: bv64, v: bv64, a: bv64)
    requires 1 <= level <= 5 && Reads(cfg, mem, level, addr, v, 1, a)
    ensures var e, out := mem(a), Resolve(cfg, mem, level, addr, v);
            && (out == NoEntry(1) <==> !Has(e, !0x60))
            && (out == Swap(1, e) <==> Has(e, !0x60) && !Has(e, 0x101))
            && (out == Mapped(1, FinalAddress(1, Upright(e), v)) <==> Has(e, 0x101))
  {
    hide Has, Resolve, Reads, FinalAddress, Upright;
    ReadsOnce(cfg, mem, level, addr, v, 1, a);
    ResolveBits(cfg, mem, 1, a, v);
    BitsTogether(mem(a));
  }

  /** A PMD on the way, where PSE counts as presence as well. */
  lemma PmdOutcome(cfg: Config, mem: Memory, level: nat, addr: bv64, v: bv64, a: bv64)
    requires 1 <= level <= 5 && Reads(cfg, mem, level, addr, v, 2, a)
    ensures var e, out := mem(a), Resolve(cfg, mem, level, addr, v);
            && (out == NoEntry(2) <==> !Has(e, !0x60))
            && (out == Swap(2, e) <==> cfg.thpMigration && Has(e, !0x60) && !Has(e, 0x181))
            && (out == NotPresent(2) <==> !cfg.thpMigration && Has(e, !0x60) && !Has(e, 0x181))
            && (out == Mapped(2, FinalAddress(2, Upright(e), v)) <==> Has(e, 0x80))
            && (out.level == 1 <==> Has(e, 0x101) && !Has(e, 0x80))
  {
    hide Has, Resolve, Reads, FinalAddress, Upright;
    ReadsOnce(cfg, mem, level, addr, v, 2, a);
    ResolveBits(cfg, mem, 2, a, v);
    BitsTogether(mem(a));
  }

  /** A PUD on the way: PROTNONE makes a 1G page as well as PRESENT does. */
  lemma PudOutcome(cfg: Config, mem: Memory, level: nat, addr: bv64, v: bv64, a: bv64)
    requires 1 <= level <= 5 && Reads(cfg, mem, level, addr, v, 3, a)
    ensures var e, out := mem(a), Resolve(cfg, mem, level, addr, v);
            && (out == NotPresent(3) <==> !Has(e, 0x101))
            && (out == Mapped(3, FinalAddress(3, Upright(e), v)) <==> Has(e, 0x101) && Has(e, 0x80))
            && (out.level <= 2 <==> Has(e, 0x101) && !Has(e, 0x80))
  {
    hide Has, Resolve, Reads, FinalAddress, Upright;
    ReadsOnce(cfg, mem, level, addr, v, 3, a);
    ResolveBits(cfg, mem, 3, a, v);
  }

  /** An entry of level 4 or 5 on the way. */
  lemma TopOutcome(cfg: Config, mem: Memory, level: nat, addr: bv64, v: bv64, l: nat, a: bv64)
    requires 4 <= l <= level <= 5 && Reads(cfg, mem, level, addr, v, l, a)
    ensures var e, out := mem(a), Resolve(cfg, mem, level, addr, v);
            && (out == NotPresent(l) <==> !Has(e, 0x1) && !(l == 4 && !cfg.la57 && cfg.foldedTopPresent))
            && (out.level < l <==> out != NotPresent(l))
  {
    hide Has, Resolve, Reads;
    ReadsOnce(cfg, mem, level, addr, v, l, a);
    ResolveBits(cfg, mem, l, a, v);
  }
}
