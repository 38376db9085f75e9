/** Linear-address translation as section 4.5 of the Intel SDM, Volume 3A, defines it for 4-level
and 5-level paging with 52 physical-address bits, and its agreement with the software walk.
 */
module Translation {
  import opened Helpers
  import opened Paging
  import opened PageWalk

  datatype Page = Page(level: nat, paddr: bv64)

  /** Bits 51:12 come from the table's address, bits 11:3 from the linear address, bits 2:0 are 0. */
  function StructureEntry(table: bv64, level: nat, linear: bv64): bv64
    requires 1 <= level <= 5
  {
    (table & 0x000f_ffff_ffff_f000) | SelectorBits(level, linear)
  }

  function SelectorBits(level: nat, linear: bv64): bv64
    requires 1 <= level <= 5
  {
    match level
    case 1 => (linear >> 9) & 0xff8
    case 2 => (linear >> 18) & 0xff8
    case 3 => (linear >> 27) & 0xff8
    case 4 => (linear >> 36) & 0xff8
    case 5 => (linear >> 45) & 0xff8
  }

  /** Bits that must be 0 in an entry that is present. */
  predicate ReservedBitSet(level: nat, entry: bv64) {
    if level >= 4 then entry & 0x80 != 0
    else if level == 3 && entry & 0x80 != 0 then entry & 0x3fff_e000 != 0
    else if level == 2 && entry & 0x80 != 0 then entry & 0x001f_e000 != 0
    else false
  }

  function PageBits(level: nat): bv64 {
    if level == 3 then 0x000f_ffff_c000_0000 else if level == 2 then 0x000f_ffff_ffe0_0000 else 0x000f_ffff_ffff_f000
  }

  function LinearBits(level: nat): bv64 {
    if level == 3 then 0x3fff_ffff else if level == 2 then 0x1f_ffff else 0xfff
  }

  function FinalAddress(level: nat, entry: bv64, linear: bv64): bv64 {
    (entry & PageBits(level)) | (linear & LinearBits(level))
  }

  /** None is a page fault. */
  function Translate(mem: Memory, level: nat, table: bv64, linear: bv64): Option<Page>
    requires 1 <= level <= 5
  {
    var entry := mem(StructureEntry(table, level, linear));
    if entry & 1 == 0 || ReservedBitSet(level, entry) then None
    else if level == 1 || (level <= 3 && entry & 0x80 != 0) then
      Some(Page(level, FinalAddress(level, entry, linear)))
    else Translate(mem, level - 1, entry, linear)
  }

  /** The walk from the entry at `addr` reads the entry at `a` as one of level `l`. */
  ghost predicate Reads(cfg: Config, mem: Memory, level: nat, addr: bv64, vaddr: bv64, l: nat, a: bv64)
    requires 1 <= level <= 5
  {
    || (l == level && a == addr)
    || (Descends(cfg, level, mem(addr)) &&
        Reads(cfg, mem, level - 1, EntryAddress(TableOf(mem(addr)), level - 1, vaddr), vaddr, l, a))
  }

  predicate Descends(cfg: Config, level: nat, entry: bv64) {
    !EntryEmpty(level, entry) && EntryPresent(cfg, level, entry) && !EntryMaps(level, entry)
  }

  /** An entry that the processor uses: present for it, no reserved bit set. */
  predicate Usable(level: nat, entry: bv64) {
    entry & 1 != 0 && !ReservedBitSet(level, entry)
  }

  ghost predicate PathUsable(cfg: Config, mem: Memory, level: nat, addr: bv64, vaddr: bv64)
    requires 1 <= level <= 5
  {
    forall l, a :: Reads(cfg, mem, level, addr, vaddr, l, a) ==> Usable(l, mem(a))
  }

  lemma SelectorBits1(v: bv64)
    ensures (v >> 9) & 0xff8 == ((v >> 12) & 511) << 3
  {
  }

  lemma SelectorBits2(v: bv64)
    ensures (v >> 18) & 0xff8 == ((v >> 21) & 511) << 3
  {
  }

  lemma SelectorBits3(v: bv64)
    ensures (v >> 27) & 0xff8 == ((v >> 30) & 511) << 3
  {
  }

  lemma SelectorBits4(v: bv64)
    ensures (v >> 36) & 0xff8 == ((v >> 39) & 511) << 3
  {
  }

  lemma SelectorBits5(v: bv64)
    ensures (v >> 45) & 0xff8 == ((v >> 48) & 511) << 3
  {
  }

  lemma SelectorIsIndex(level: nat, v: bv64)
    requires 1 <= level <= 5
    ensures SelectorBits(level, v) == Index(level, v) << 3
  {
    match level
    case 1 => SelectorBits1(v);
    case 2 => SelectorBits2(v);
    case 3 => SelectorBits3(v);
    case 4 => SelectorBits4(v);
    case 5 => SelectorBits5(v);
  }

  lemma IndexBits(i: bv64)
    requires i <= 511
    ensures (i << 3) & 0xff8 == i << 3
  {
  }

  function Joined(table: bv64, bits: bv64): bv64 {
    (table & 0x000f_ffff_ffff_f000) | bits
  }

  lemma JoinedIsOr(table: bv64, bits: bv64)
    requires table & 0x000f_ffff_ffff_f000 == table
    ensures Joined(table, bits) == table | bits
  {
  }

  lemma AddIsOr(table: bv64, bits: bv64)
    requires table & bits == 0
    ensures PointerAdd(table, bits) == table | bits
  {
  }

  lemma Apart(table: bv64, bits: bv64)
    requires table & 0x000f_ffff_ffff_f000 == table && bits & 0xff8 == bits
    ensures table & bits == 0
  {
  }

  lemma JoinedIsAdded(table: bv64, bits: bv64)
    requires table & 0x000f_ffff_ffff_f000 == table && bits & 0xff8 == bits
    ensures Joined(table, bits) == PointerAdd(table, bits)
  {
    hide Joined, PointerAdd;
    Apart(table, bits);
    JoinedIsOr(table, bits);
    AddIsOr(table, bits);
  }

  lemma StructureEntryJoins(table: bv64, level: nat, v: bv64)
    requires 1 <= level <= 5
    ensures StructureEntry(table, level, v) == Joined(table, IndexOffset(level, v))
  {
    hide SelectorBits, Index;
    SelectorIsIndex(level, v);
  }

  lemma IndexOffsetBits(level: nat, v: bv64)
    requires 1 <= level <= 5
    ensures IndexOffset(level, v) & 0xff8 == IndexOffset(level, v)
  {
    hide Index;
    IndexBits(Index(level, v));
  }

  lemma SameEntryAddress(table: bv64, level: nat, v: bv64)
    requires 1 <= level <= 5
    requires table & 0x000f_ffff_ffff_f000 == table
    ensures StructureEntry(table, level, v) == EntryAddress(table, level, v)
  {
    hide StructureEntry, Joined, IndexOffset, PointerAdd;
    IndexOffsetBits(level, v);
    StructureEntryJoins(table, level, v);
    JoinedIsAdded(table, IndexOffset(level, v));
  }

  lemma TableOfIsAligned(entry: bv64)
    ensures TableOf(entry) & 0x000f_ffff_ffff_f000 == TableOf(entry)
  {
  }

  lemma StructureEntryMasks(entry: bv64, level: nat, v: bv64)
    requires 1 <= level <= 5
    ensures StructureEntry(entry, level, v) == StructureEntry(TableOf(entry), level, v)
  {
    TableOfIsAligned(entry);
  }

  /** The flags of the entry above do not matter. */
  lemma StructureEntryIgnoresFlags(mem: Memory, entry: bv64, level: nat, v: bv64)
    requires 1 <= level <= 5
    ensures Translate(mem, level, entry, v) == Translate(mem, level, TableOf(entry), v)
  {
    hide StructureEntry, TableOf;
    StructureEntryMasks(entry, level, v);
  }

  lemma PresentBits(cfg: Config, level: nat, entry: bv64)
    requires 1 <= level <= 5
    requires entry & 1 != 0
    ensures EntryPresent(cfg, level, entry) && !EntryEmpty(level, entry)
  {
  }

  lemma PresentIsPlain(entry: bv64)
    requires entry & 1 != 0
    ensures Uninverted(entry) == entry
  {
    hide Uninverted;
    UninvertedIs(entry);
  }

  lemma SameMask(level: nat)
    ensures FrameMask(level) == PageBits(level)
  {
  }

  lemma PresentFrame(level: nat, entry: bv64)
    requires 1 <= level <= 3
    requires entry & 1 != 0
    ensures FrameOf(level, entry) == entry & PageBits(level)
  {
    hide Uninverted, FrameMask, PageBits;
    PresentIsPlain(entry);
    SameMask(level);
  }

  lemma FinalIsPageAddress(level: nat, entry: bv64, v: bv64)
    ensures FinalAddress(level, entry, v) == PageAddress(entry & PageBits(level), v, OffsetMask(level))
  {
    hide PageBits;
    assert OffsetMask(level) == LinearBits(level);
  }

  lemma SameLeafAddress(level: nat, entry: bv64, v: bv64)
    requires 1 <= level <= 3
    requires entry & 1 != 0
    ensures LeafAddress(level, entry, v) == FinalAddress(level, entry, v)
  {
    hide FrameOf, PageBits, FinalAddress, PageAddress, OffsetMask;
    PresentFrame(level, entry);
    FinalIsPageAddress(level, entry, v);
  }

  /** One level of the translation. */
  lemma TranslateStep(mem: Memory, level: nat, table: bv64, v: bv64)
    requires 1 <= level <= 5
    ensures var entry := mem(StructureEntry(table, level, v));
            Translate(mem, level, table, v) ==
              if !Usable(level, entry) then None
              else if EntryMaps(level, entry) then Some(Page(level, LeafAddress(level, entry, v)))
              else Translate(mem, level - 1, entry, v)
  {
    hide StructureEntry, LeafAddress, ReservedBitSet, FinalAddress;
    var entry := mem(StructureEntry(table, level, v));
    if Usable(level, entry) && EntryMaps(level, entry) {
      SameLeafAddress(level, entry, v);
    }
  }

  /** One level of the walk, for an entry that the processor can use and for one it cannot. */
  lemma ResolveStep(cfg: Config, mem: Memory, level: nat, addr: bv64, v: bv64)
    requires 1 <= level <= 5
    ensures Usable(level, mem(addr)) && EntryMaps(level, mem(addr)) ==>
              Resolve(cfg, mem, level, addr, v) == Mapped(level, LeafAddress(level, mem(addr), v))
    ensures Usable(level, mem(addr)) && !EntryMaps(level, mem(addr)) ==>
              Resolve(cfg, mem, level, addr, v) ==
              Resolve(cfg, mem, level - 1, EntryAddress(TableOf(mem(addr)), level - 1, v), v)
  {
    hide LeafAddress, EntryAddress, TableOf, ReservedBitSet, EntryMaps, EntryPresent, EntryEmpty;
    if Usable(level, mem(addr)) {
      PresentBits(cfg, level, mem(addr));
    }
  }

  lemma PathStep(cfg: Config, mem: Memory, level: nat, addr: bv64, v: bv64)
    requires 1 <= level <= 5
    ensures PathUsable(cfg, mem, level, addr, v) <==>
            Usable(level, mem(addr)) &&
            (EntryMaps(level, mem(addr)) ||
             PathUsable(cfg, mem, level - 1, EntryAddress(TableOf(mem(addr)), level - 1, v), v))
  {
    hide EntryAddress, TableOf, ReservedBitSet, EntryMaps, EntryPresent, EntryEmpty;
    var e := mem(addr);
    assert Reads(cfg, mem, level, addr, v, level, addr);
    if Usable(level, e) {
      PresentBits(cfg, level, e);
      assert Descends(cfg, level, e) <==> !EntryMaps(level, e);
      if !EntryMaps(level, e) {
        var next := EntryAddress(TableOf(e), level - 1, v);
        if PathUsable(cfg, mem, level, addr, v) {
          var below := level - 1;
          forall l, a | Reads(cfg, mem, below, next, v, l, a)
            ensures Usable(l, mem(a))
          {
            assert Reads(cfg, mem, level, addr, v, l, a);
          }
        }
      }
    }
  }

  /** The processor finds a page exactly when the walk does so by reading only entries that the
      processor can use, and then both find the same page of the same size. */
  lemma {:induction false} TranslationIsWalk(cfg: Config, mem: Memory, level: nat, table: bv64, v: bv64)
    requires 1 <= level <= Top(cfg) <= 5
    requires TableOf(table) == table
    ensures var hw := Translate(mem, level, table, v);
            var out := Resolve(cfg, mem, level, EntryAddress(table, level, v), v);
            (hw.Some? ==> out == Mapped(hw.value.level, hw.value.paddr)) &&
            (hw.Some? <==> out.Mapped? && PathUsable(cfg, mem, level, EntryAddress(table, level, v), v))
  {
    hide *;
    var addr := EntryAddress(table, level, v);
    TableOfIsAligned(table);
    SameEntryAddress(table, level, v);
    var entry := mem(addr);
    TranslateStep(mem, level, table, v);
    ResolveStep(cfg, mem, level, addr, v);
    PathStep(cfg, mem, level, addr, v);
    if Usable(level, entry) && !EntryMaps(level, entry) {
      StructureEntryIgnoresFlags(mem, entry, level - 1, v);
      TableOfTwice(entry);
      TranslationIsWalk(cfg, mem, level - 1, TableOf(entry), v);
    }
  }

  lemma TableOfTwice(entry: bv64)
    ensures TableOf(TableOf(entry)) == TableOf(entry)
  {
  }

  // ---------------------------------------------------------------------------
  // Four and five levels

  lemma {:induction false} LowLevelsIgnoreConfig(cfg: Config, cfg': Config, mem: Memory, level: nat, addr: bv64, v: bv64)
    requires 1 <= level <= 3
    requires cfg.thpMigration == cfg'.thpMigration
    ensures Resolve(cfg, mem, level, addr, v) == Resolve(cfg', mem, level, addr, v)
  {
    hide EntryAddress, TableOf, LeafAddress, IsLeaf;
    if level > 1 {
      LowLevelsIgnoreConfig(cfg, cfg', mem, level - 1, EntryAddress(TableOf(mem(addr)), level - 1, v), v);
    }
  }

  lemma {:induction false} LowLevelsStopLow(cfg: Config, mem: Memory, level: nat, addr: bv64, v: bv64)
    requires 1 <= level <= 5
    ensures Resolve(cfg, mem, level, addr, v).level <= level
  {
    hide EntryAddress, TableOf, LeafAddress, IsLeaf;
    if level > 1 {
      LowLevelsStopLow(cfg, mem, level - 1, EntryAddress(TableOf(mem(addr)), level - 1, v), v);
    }
  }

  /** The 5-level walk is the 4-level walk from the table that its top entry selects, exactly when
      the top entry is present and the 4-level walk does not pass over an absent entry below it. */
  lemma FiveLevelsAreFour(cfg: Config, mem: Memory, base: bv64, v: bv64)
    requires cfg.la57
    ensures var top := mem(EntryAddress(base, 5, v));
            var p4d := mem(EntryAddress(TableOf(top), 4, v));
            WalkFrom(cfg, mem, base, v) == WalkFrom(cfg.(la57 := false), mem, TableOf(top), v) <==>
            top & PRESENT != 0 && (p4d & PRESENT != 0 || !cfg.foldedTopPresent)
  {
    hide EntryAddress, TableOf, LeafAddress, IsLeaf;
    var cfg4 := cfg.(la57 := false);
    var top := mem(EntryAddress(base, 5, v));
    var p4dp := EntryAddress(TableOf(top), 4, v);
    var pudp := EntryAddress(TableOf(mem(p4dp)), 3, v);
    LowLevelsIgnoreConfig(cfg, cfg4, mem, 3, pudp, v);
    LowLevelsStopLow(cfg4, mem, 4, p4dp, v);
    LowLevelsStopLow(cfg4, mem, 3, pudp, v);
    assert WalkFrom(cfg, mem, base, v) ==
      if top & PRESENT == 0 then NotPresent(5) else Resolve(cfg, mem, 4, p4dp, v);
    assert Resolve(cfg, mem, 4, p4dp, v) ==
      if mem(p4dp) & PRESENT == 0 then NotPresent(4) else Resolve(cfg, mem, 3, pudp, v);
    assert WalkFrom(cfg4, mem, TableOf(top), v) ==
      if !cfg.foldedTopPresent && mem(p4dp) & PRESENT == 0 then NotPresent(4) else Resolve(cfg4, mem, 3, pudp, v);
  }

  /** Entered with a p4d pointer, `walk_4l` does what it does from the same entry taken as a top
      entry, exactly when that entry is present. */
  lemma EntryModesAgree(cfg: Config, mem: Memory, p4dp: bv64, v: bv64)
    requires !cfg.la57
    ensures Resolve(cfg, mem, 4, p4dp, v) == Resolve(cfg, mem, 3, EntryAddress(TableOf(mem(p4dp)), 3, v), v) <==>
            PgdPresent(cfg, mem(p4dp))
  {
    hide EntryAddress, TableOf, LeafAddress, IsLeaf;
    LowLevelsStopLow(cfg, mem, 3, EntryAddress(TableOf(mem(p4dp)), 3, v), v);
  }

  // ---------------------------------------------------------------------------
  // Addresses of one page

  lemma MasksApart(entry: bv64, level: nat)
    ensures (entry & FrameMask(level)) & OffsetMask(level) == 0
  {
  }

  lemma FrameIsAligned(level: nat, entry: bv64)
    ensures FrameOf(level, entry) & OffsetMask(level) == 0
  {
    hide Uninverted;
    MasksApart(Uninverted(entry), level);
  }

  /** At every level the bitwise-or of frame and offset is their sum. */
  lemma LeafAddressIsSum(level: nat, entry: bv64, v: bv64)
    ensures LeafAddress(level, entry, v) == FrameOf(level, entry) + OffsetPart(v, OffsetMask(level))
  {
    hide FrameOf, OffsetMask, PageAddress, OffsetPart;
    FrameIsAligned(level, entry);
    PageAdds(FrameOf(level, entry), OffsetMask(level), v);
  }

  predicate EquallyApart(p: bv64, q: bv64, v: bv64, w: bv64) {
    p - q == v - w
  }

  lemma CommonParts(c: bv64, d: bv64, a: bv64, b: bv64)
    ensures EquallyApart(c + a, c + b, d + a, d + b)
  {
    CancelPart(c, a, b);
    CancelPart(d, a, b);
  }

  lemma CancelPart(c: bv64, a: bv64, b: bv64)
    ensures (c + a) - (c + b) == a - b
  {
  }

  lemma SplitAddress(v: bv64, offsets: bv64)
    ensures (v & !offsets) + (v & offsets) == v
  {
    OrIsAdd(v & !offsets, v & offsets);
    assert (v & !offsets) | (v & offsets) == v;
  }

  lemma SplitParts(v: bv64, offsets: bv64)
    ensures v == PagePart(v, offsets) + OffsetPart(v, offsets)
  {
    SplitAddress(v, offsets);
  }

  function Plus(a: bv64, b: bv64): bv64 {
    a + b
  }

  lemma PartsOf(v: bv64, offsets: bv64)
    ensures v == Plus(PagePart(v, offsets), OffsetPart(v, offsets))
  {
    hide PagePart, OffsetPart;
    SplitParts(v, offsets);
  }

  lemma LeafAddressParts(level: nat, entry: bv64, v: bv64)
    ensures LeafAddress(level, entry, v) == Plus(FrameOf(level, entry), OffsetPart(v, OffsetMask(level)))
  {
    hide FrameOf, OffsetMask, OffsetPart, LeafAddress;
    LeafAddressIsSum(level, entry, v);
  }

  lemma CommonPlus(c: bv64, d: bv64, a: bv64, b: bv64)
    ensures EquallyApart(Plus(c, a), Plus(c, b), Plus(d, a), Plus(d, b))
  {
    hide EquallyApart;
    CommonParts(c, d, a, b);
  }

  lemma LeafDistance(level: nat, entry: bv64, v: bv64, w: bv64)
    requires PagePart(v, OffsetMask(level)) == PagePart(w, OffsetMask(level))
    ensures EquallyApart(LeafAddress(level, entry, v), LeafAddress(level, entry, w), v, w)
  {
    hide *;
    var m := OffsetMask(level);
    LeafAddressParts(level, entry, v);
    LeafAddressParts(level, entry, w);
    PartsOf(v, m);
    PartsOf(w, m);
    CommonPlus(FrameOf(level, entry), PagePart(v, m), OffsetPart(v, m), OffsetPart(w, m));
  }

  /** Within a leaf, addresses are as far apart in physical memory as they are in virtual memory. */
  lemma LeafKeepsDistances(level: nat, entry: bv64, v: bv64, w: bv64)
    requires PagePart(v, OffsetMask(level)) == PagePart(w, OffsetMask(level))
    ensures LeafAddress(level, entry, v) - LeafAddress(level, entry, w) == v - w
  {
    hide LeafAddress, PagePart, OffsetMask;
    LeafDistance(level, entry, v, w);
  }

  /** Two entries of one level map to the same address only if they name the same frame and the
      offsets are the same. */
  lemma LeafAddressIsInjective(level: nat, entry: bv64, entry': bv64, v: bv64, w: bv64)
    requires LeafAddress(level, entry, v) == LeafAddress(level, entry', w)
    ensures FrameOf(level, entry) == FrameOf(level, entry')
    ensures OffsetPart(v, OffsetMask(level)) == OffsetPart(w, OffsetMask(level))
  {
    hide FrameOf, OffsetMask, PageAddress, OffsetPart;
    FrameIsAligned(level, entry);
    FrameIsAligned(level, entry');
    PageAddressIsInjective(FrameOf(level, entry), FrameOf(level, entry'), OffsetMask(level), v, w);
  }

  ghost predicate SameIndices(level: nat, v: bv64, w: bv64)
    requires level <= 5
  {
    forall l :: 1 <= l <= level ==> Index(l, v) == Index(l, w)
  }

  ghost predicate SamePage(out: Outcome, out': Outcome) {
    if out.Mapped? && out'.Mapped? then
      out.level == out'.level && PagePart(out.paddr, PAGE_OFFSET_MASK) == PagePart(out'.paddr, PAGE_OFFSET_MASK)
    else out == out'
  }

  function PudPage(frame: bv64, i2: bv64, i1: bv64): bv64 {
    (frame & 0xffff_ffff_ffff_f000) | (i2 << 21) | (i1 << 12)
  }

  lemma PudPageBits(frame: bv64, v: bv64)
    ensures (frame | (v & 0x3fff_ffff)) & 0xffff_ffff_ffff_f000 == PudPage(frame, Index(2, v), Index(1, v))
  {
  }

  lemma PudPagePart(frame: bv64, v: bv64)
    ensures PagePart(PageAddress(frame, v, 0x3fff_ffff), 0xfff) == (frame | (v & 0x3fff_ffff)) & 0xffff_ffff_ffff_f000
  {
  }

  lemma PudPageOf(frame: bv64, v: bv64)
    ensures PagePart(PageAddress(frame, v, PUD_OFFSET_MASK), PAGE_OFFSET_MASK) == PudPage(frame, Index(2, v), Index(1, v))
  {
    hide PudPage, Index, PageAddress, PagePart;
    PudPagePart(frame, v);
    PudPageBits(frame, v);
  }

  function PmdPage(frame: bv64, i1: bv64): bv64 {
    (frame & 0xffff_ffff_ffff_f000) | (i1 << 12)
  }

  lemma PmdPageBits(frame: bv64, v: bv64)
    ensures (frame | (v & 0x1f_ffff)) & 0xffff_ffff_ffff_f000 == PmdPage(frame, Index(1, v))
  {
  }

  lemma PmdPagePart(frame: bv64, v: bv64)
    ensures PagePart(PageAddress(frame, v, 0x1f_ffff), 0xfff) == (frame | (v & 0x1f_ffff)) & 0xffff_ffff_ffff_f000
  {
  }

  lemma PmdPageOf(frame: bv64, v: bv64)
    ensures PagePart(PageAddress(frame, v, PMD_OFFSET_MASK), PAGE_OFFSET_MASK) == PmdPage(frame, Index(1, v))
  {
    hide PmdPage, Index, PageAddress, PagePart;
    PmdPagePart(frame, v);
    PmdPageBits(frame, v);
  }

  function PtePage(frame: bv64): bv64 {
    frame & 0xffff_ffff_ffff_f000
  }

  lemma PtePageBits(frame: bv64, v: bv64)
    ensures (frame | (v & 0xfff)) & 0xffff_ffff_ffff_f000 == PtePage(frame)
  {
  }

  lemma PtePagePart(frame: bv64, v: bv64)
    ensures PagePart(PageAddress(frame, v, 0xfff), 0xfff) == (frame | (v & 0xfff)) & 0xffff_ffff_ffff_f000
  {
  }

  lemma PtePageOf(frame: bv64, v: bv64)
    ensures PagePart(PageAddress(frame, v, PAGE_OFFSET_MASK), PAGE_OFFSET_MASK) == PtePage(frame)
  {
    hide PtePage, Index, PageAddress, PagePart;
    PtePagePart(frame, v);
    PtePageBits(frame, v);
  }

  lemma SameIndicesSameLeaf(level: nat, entry: bv64, v: bv64, w: bv64)
    requires 1 <= level <= 3 && SameIndices(level, v, w)
    ensures PagePart(LeafAddress(level, entry, v), PAGE_OFFSET_MASK) ==
      PagePart(LeafAddress(level, entry, w), PAGE_OFFSET_MASK)
  {
    hide PagePart, PageAddress, FrameOf, Index, PudPage, PmdPage, PtePage;
    var f := FrameOf(level, entry);
    assert Index(1, v) == Index(1, w);
    if level == 3 {
      PudPageOf(f, v);
      PudPageOf(f, w);
    } else if level == 2 {
      PmdPageOf(f, v);
      PmdPageOf(f, w);
    } else {
      PtePageOf(f, v);
      PtePageOf(f, w);
    }
  }

  /** Addresses that agree in all indices get the same outcome, up to the offset in the 4K page. */
  lemma {:induction false} SameIndicesSamePage(cfg: Config, mem: Memory, level: nat, addr: bv64, v: bv64, w: bv64)
    requires 1 <= level <= 5 && SameIndices(level, v, w)
    ensures SamePage(Resolve(cfg, mem, level, addr, v), Resolve(cfg, mem, level, addr, w))
  {
    hide Index, PointerAdd, LeafAddress, PagePart, TableOf, EntryPresent, EntryEmpty, EntryMaps;
    var e := mem(addr);
    if Descends(cfg, level, e) {
      SameIndicesSamePage(cfg, mem, level - 1, EntryAddress(TableOf(e), level - 1, v), v, w);
      assert IndexOffset(level - 1, v) == IndexOffset(level - 1, w);
    } else if EntryMaps(level, e) {
      SameIndicesSameLeaf(level, e, v, w);
    }
  }
}
