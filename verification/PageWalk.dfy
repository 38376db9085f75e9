/** The walks of `page_table_walk.c` over an arbitrary physical memory, and the one recursion over
levels that they all are.
 */
module PageWalk {
  import opened Helpers
  import opened Paging

  /** The 8-byte entry at each physical address. */
  type Memory = bv64 -> bv64

  /** How the kernel was built and runs: 5-level paging in use, migration entries for transparent
      huge pages, and whether the presence test of a folded top level always succeeds, as it does
      in kernels that can run with either number of levels. */
  datatype Config = Config(la57: bool, thpMigration: bool, foldedTopPresent: bool)

  /** Levels are numbered from 1, the page table, up. */
  datatype Outcome =
    | NotPresent(level: nat)
    | NoEntry(level: nat)
    | Swap(level: nat, entry: bv64)
    | Mapped(level: nat, paddr: bv64)

  datatype Step = Stop(outcome: Outcome) | Descend

  function Top(cfg: Config): nat {
    if cfg.la57 then 5 else 4
  }

  /** The table an entry points to. */
  function TableOf(entry: bv64): bv64 {
    entry & PHYSICAL_PAGE_MASK
  }

  function IndexOffset(level: nat, v: bv64): bv64
    requires 1 <= level <= 5
  {
    Index(level, v) << 3
  }

  function PointerAdd(table: bv64, offset: bv64): bv64 {
    table + offset
  }

  function EntryAddress(table: bv64, level: nat, vaddr: bv64): bv64
    requires 1 <= level <= 5
  {
    PointerAdd(table, IndexOffset(level, vaddr))
  }

  // ---------------------------------------------------------------------------
  // The dump functions: what each decides, without what it prints

  predicate PgdPresent(cfg: Config, pgd: bv64) {
    (!cfg.la57 && cfg.foldedTopPresent) || pgd & PRESENT != 0
  }

  function DumpPgd(cfg: Config, pgd: bv64): Step {
    if !PgdPresent(cfg, pgd) then Stop(NotPresent(Top(cfg))) else Descend
  }

  function DumpP4d(p4d: bv64): Step {
    if p4d & PRESENT == 0 then Stop(NotPresent(4)) else Descend
  }

  function DumpPud(pud: bv64, vaddr: bv64): Step {
    if !PudPresentGood(pud) then Stop(NotPresent(3))
    else if IsLeaf(pud) then Stop(Mapped(3, PudPaddr(pud, vaddr)))
    else Descend
  }

  function DumpPmd(cfg: Config, pmd: bv64, vaddr: bv64): Step {
    if PmdNone(pmd) then Stop(NoEntry(2))
    else if !PmdPresent(pmd) then Stop(if cfg.thpMigration then Swap(2, pmd) else NotPresent(2))
    else if IsLeaf(pmd) then Stop(Mapped(2, PmdPaddr(pmd, vaddr)))
    else Descend
  }

  function DumpPte(pte: bv64, vaddr: bv64): Outcome {
    if PteNone(pte) then NoEntry(1)
    else if !PtePresent(pte) then Swap(1, pte)
    else Mapped(1, PtePaddr(pte, vaddr))
  }

  // ---------------------------------------------------------------------------
  // The walks, with `None` for a null pointer

  method Walk4L(cfg: Config, mem: Memory, pgdp: bv64, vaddr: bv64, p4dpOrNull: Option<bv64>) returns (out: Outcome)
    requires p4dpOrNull.None? ==> !cfg.la57
    ensures p4dpOrNull.None? ==> out == Resolve(cfg, mem, 4, pgdp, vaddr)
    ensures p4dpOrNull.Some? ==>
      out == Resolve(cfg, mem, 3, EntryAddress(TableOf(mem(p4dpOrNull.value)), 3, vaddr), vaddr)
  {
    hide PudPaddr, PmdPaddr, PtePaddr, LeafAddress, EntryAddress;
    var p4dp := p4dpOrNull;
    if p4dp.None? {
      var pgd := DumpPgd(cfg, mem(pgdp));
      if pgd.Stop? {
        return pgd.outcome;
      }
      p4dp := Some(pgdp);
    }
    var pudp := EntryAddress(TableOf(mem(p4dp.value)), 3, vaddr);
    assert p4dpOrNull.None? ==> Resolve(cfg, mem, 4, pgdp, vaddr) == Resolve(cfg, mem, 3, pudp, vaddr);
    var pud := DumpPud(mem(pudp), vaddr);
    if pud.Stop? {
      if IsLeaf(mem(pudp)) {
        PudLeafAddress(mem(pudp), vaddr);
      }
      return pud.outcome;
    }
    var pmdp := EntryAddress(TableOf(mem(pudp)), 2, vaddr);
    assert Resolve(cfg, mem, 3, pudp, vaddr) == Resolve(cfg, mem, 2, pmdp, vaddr);
    var pmd := DumpPmd(cfg, mem(pmdp), vaddr);
    if pmd.Stop? {
      if IsLeaf(mem(pmdp)) {
        PmdLeafAddress(mem(pmdp), vaddr);
      }
      return pmd.outcome;
    }
    var ptep := EntryAddress(TableOf(mem(pmdp)), 1, vaddr);
    assert Resolve(cfg, mem, 2, pmdp, vaddr) == Resolve(cfg, mem, 1, ptep, vaddr);
    PteLeafAddress(mem(ptep), vaddr);
    out := DumpPte(mem(ptep), vaddr);
  }

  method Walk5L(cfg: Config, mem: Memory, pgdp: bv64, vaddr: bv64) returns (out: Outcome)
    requires cfg.la57
    ensures out == Resolve(cfg, mem, 5, pgdp, vaddr)
  {
    var pgd := DumpPgd(cfg, mem(pgdp));
    if pgd.Stop? {
      return pgd.outcome;
    }
    var p4dp := EntryAddress(TableOf(mem(pgdp)), 4, vaddr);
    var p4d := DumpP4d(mem(p4dp));
    if p4d.Stop? {
      return p4d.outcome;
    }
    out := Walk4L(cfg, mem, pgdp, vaddr, Some(p4dp));
  }

  method Walk(cfg: Config, mem: Memory, base: bv64, vaddr: bv64) returns (out: Outcome)
    ensures out == WalkFrom(cfg, mem, base, vaddr)
  {
    var pgdp := EntryAddress(base, Top(cfg), vaddr);
    if cfg.la57 {
      out := Walk5L(cfg, mem, pgdp, vaddr);
    } else {
      out := Walk4L(cfg, mem, pgdp, vaddr, None);
    }
  }

  // ---------------------------------------------------------------------------
  // The same as one recursion over the levels

  predicate EntryEmpty(level: nat, entry: bv64) {
    level <= 2 && entry & !(DIRTY | ACCESSED) == 0
  }

  predicate EntryPresent(cfg: Config, level: nat, entry: bv64) {
    if level == 4 && !cfg.la57 && cfg.foldedTopPresent then true
    else if level >= 4 then entry & PRESENT != 0
    else if level == 2 then entry & (PRESENT | PROTNONE | PSE) != 0
    else entry & (PRESENT | PROTNONE) != 0
  }

  predicate EntryMaps(level: nat, entry: bv64): (maps: bool)
    ensures level == 1 ==> maps
    ensures level >= 4 ==> !maps
  {
    level == 1 || (level <= 3 && IsLeaf(entry))
  }

  function FrameMask(level: nat): bv64 {
    if level == 3 then PHYSICAL_PUD_PAGE_MASK else if level == 2 then PHYSICAL_PMD_PAGE_MASK else PHYSICAL_PAGE_MASK
  }

  function OffsetMask(level: nat): bv64 {
    if level == 3 then PUD_OFFSET_MASK else if level == 2 then PMD_OFFSET_MASK else PAGE_OFFSET_MASK
  }

  function FrameOf(level: nat, entry: bv64): bv64 {
    Uninverted(entry) & FrameMask(level)
  }

  function LeafAddress(level: nat, entry: bv64, vaddr: bv64): bv64 {
    PageAddress(FrameOf(level, entry), vaddr, OffsetMask(level))
  }

  function Resolve(cfg: Config, mem: Memory, level: nat, addr: bv64, vaddr: bv64): Outcome
    requires 1 <= level <= 5
  {
    var entry := mem(addr);
    if EntryEmpty(level, entry) then NoEntry(level)
    else if !EntryPresent(cfg, level, entry) then
      if level == 1 || (level == 2 && cfg.thpMigration) then Swap(level, entry) else NotPresent(level)
    else if EntryMaps(level, entry) then Mapped(level, LeafAddress(level, entry, vaddr))
    else Resolve(cfg, mem, level - 1, EntryAddress(TableOf(entry), level - 1, vaddr), vaddr)
  }

  function WalkFrom(cfg: Config, mem: Memory, base: bv64, vaddr: bv64): Outcome {
    Resolve(cfg, mem, Top(cfg), EntryAddress(base, Top(cfg), vaddr), vaddr)
  }

  lemma PfnIsFrame(entry: bv64, mask: bv64)
    requires mask & PHYSICAL_PAGE_MASK == mask
    ensures ((entry & mask) >> 12) << 12 == entry & mask
  {
  }

  lemma PudLeafAddress(entry: bv64, vaddr: bv64)
    requires IsLeaf(entry)
    ensures PudPaddr(entry, vaddr) == LeafAddress(3, entry, vaddr)
  {
    PfnIsFrame(Uninverted(entry), PHYSICAL_PUD_PAGE_MASK);
  }

  lemma PmdLeafAddress(entry: bv64, vaddr: bv64)
    requires IsLeaf(entry)
    ensures PmdPaddr(entry, vaddr) == LeafAddress(2, entry, vaddr)
  {
    PfnIsFrame(Uninverted(entry), PHYSICAL_PMD_PAGE_MASK);
  }

  lemma PteLeafAddress(entry: bv64, vaddr: bv64)
    ensures PtePaddr(entry, vaddr) == LeafAddress(1, entry, vaddr)
  {
    PfnIsFrame(Uninverted(entry), PHYSICAL_PAGE_MASK);
  }
}
