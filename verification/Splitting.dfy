/** Replacing a large page by a table of 512 consecutive smaller pages, and its effect on the walk and
on the processor's translation.
 */
module Splitting {
  import opened Helpers
  import opened Paging
  import opened PageWalk
  import opened Translation

  /** Present, writable, user, accessed, dirty: the flags of an entry that points to a table. */
  const TABLE_FLAGS: bv64 := 0x67

  /** Entry `i` of the table that replaces a large page at `level`, 3 for 1G and 2 for 2M: the same
      flags, the PAT bit where the smaller page has it, and the frame number stored inverted if that
      of the large page is. */
  function SmallEntry(level: nat, large: bv64, i: bv64): bv64 {
    if level == 3 then WithLargePat(Piece(3, large, i), large & PAT_LARGE) else Piece(level, large, i)
  }

  /** The entry but for the PAT bit of a page that is still large. */
  function Piece(level: nat, large: bv64, i: bv64): bv64 {
    PutFrame(SmallFlags(level, large), SmallFrame(level, large, i))
  }

  function WithLargePat(entry: bv64, pat: bv64): bv64 {
    (entry & !PAT_LARGE) | pat
  }

  function SmallFlags(level: nat, large: bv64): bv64 {
    if level == 3 then large & !PHYSICAL_PAGE_MASK
    else (large & !PHYSICAL_PAGE_MASK & !PSE) | ((large & PAT_LARGE) >> 5)
  }

  function SmallFrame(level: nat, large: bv64, i: bv64): bv64 {
    if level == 3 then FrameOf(3, large) | (i << 21) else FrameOf(2, large) | (i << 12)
  }

  function PutFrame(flags: bv64, frame: bv64): bv64 {
    if flags & PRESENT == 0 then flags | (!frame & PHYSICAL_PAGE_MASK) else flags | frame
  }

  function SplitEntry(mem: Memory, level: nat, loc: bv64, newTable: bv64, a: bv64): bv64 {
    if a == loc then newTable | TABLE_FLAGS
    else if TablePage(a) == newTable then SmallEntry(level, mem(loc), Slot(a))
    else mem(a)
  }

  /** The page that an entry lies in, and its position there. */
  function TablePage(a: bv64): bv64 {
    a & 0xffff_ffff_ffff_f000
  }

  function Slot(a: bv64): bv64 {
    (a >> 3) & 511
  }

  /** The memory after the large page entry at `loc` was replaced by a pointer to a new table. */
  function Split(mem: Memory, level: nat, loc: bv64, newTable: bv64): Memory {
    (a: bv64) => SplitEntry(mem, level, loc, newTable, a)
  }

  /** The same address found, possibly through a smaller page. */
  ghost predicate SameTarget(out: Outcome, out': Outcome) {
    if out.Mapped? then out'.Mapped? && out'.paddr == out.paddr else out' == out
  }

  /** The walk uses `loc` only as an entry of the given level, and nothing in the page `newTable`. */
  ghost predicate Separate(cfg: Config, mem: Memory, top: nat, addr: bv64, v: bv64, level: nat, loc: bv64, newTable: bv64)
    requires 1 <= top <= 5
  {
    forall l, a :: Reads(cfg, mem, top, addr, v, l, a) ==>
                     (a == loc ==> l == level) && TablePage(a) != newTable
  }

  // ---------------------------------------------------------------------------
  // Bits

  lemma TableEntry(newTable: bv64)
    requires newTable & PHYSICAL_PAGE_MASK == newTable
    ensures TableOf(newTable | TABLE_FLAGS) == newTable
  {
  }

  lemma TableEntryBits(newTable: bv64)
    ensures (newTable | TABLE_FLAGS) & 1 != 0
    ensures newTable & PHYSICAL_PAGE_MASK == newTable ==> !IsLeaf(newTable | TABLE_FLAGS)
  {
  }

  lemma TableEntryDescends(cfg: Config, level: nat, newTable: bv64)
    requires newTable & PHYSICAL_PAGE_MASK == newTable
    requires level == 2 || level == 3
    ensures Descends(cfg, level, newTable | TABLE_FLAGS)
  {
    hide EntryPresent, EntryEmpty, IsLeaf;
    TableEntryBits(newTable);
    PresentBits(cfg, level, newTable | TABLE_FLAGS);
  }

  lemma JoinedPage(newTable: bv64, offset: bv64)
    requires newTable & PHYSICAL_PAGE_MASK == newTable && offset & 0xff8 == offset
    ensures TablePage(Joined(newTable, offset)) == newTable
  {
  }

  lemma JoinedSlot(newTable: bv64, i: bv64)
    requires i <= 511
    ensures Slot(Joined(newTable, i << 3)) == i
  {
  }

  lemma NewEntryJoins(newTable: bv64, level: nat, v: bv64)
    requires 1 <= level <= 5
    requires newTable & PHYSICAL_PAGE_MASK == newTable
    ensures EntryAddress(newTable, level, v) == Joined(newTable, IndexOffset(level, v))
  {
    hide Joined, IndexOffset, PointerAdd;
    IndexOffsetBits(level, v);
    JoinedIsAdded(newTable, IndexOffset(level, v));
  }

  /** The entries of the new table are where the walk looks for them. */
  lemma NewEntryPage(newTable: bv64, level: nat, v: bv64)
    requires 1 <= level <= 5
    requires newTable & PHYSICAL_PAGE_MASK == newTable
    ensures TablePage(EntryAddress(newTable, level, v)) == newTable
  {
    hide *;
    IndexOffsetBits(level, v);
    NewEntryJoins(newTable, level, v);
    JoinedPage(newTable, IndexOffset(level, v));
  }

  lemma NewEntrySlot(newTable: bv64, level: nat, v: bv64)
    requires 1 <= level <= 5
    requires newTable & PHYSICAL_PAGE_MASK == newTable
    ensures Slot(EntryAddress(newTable, level, v)) == Index(level, v)
  {
    hide EntryAddress, Index, Slot, Joined;
    NewEntryJoins(newTable, level, v);
    JoinedSlot(newTable, Index(level, v));
  }

  lemma SmallFrameBits3(large: bv64, i: bv64)
    requires i <= 511
    ensures SmallFrame(3, large, i) & PHYSICAL_PMD_PAGE_MASK == SmallFrame(3, large, i)
  {
  }

  lemma SmallFrameBits2(large: bv64, i: bv64)
    requires i <= 511
    ensures SmallFrame(2, large, i) & PHYSICAL_PAGE_MASK == SmallFrame(2, large, i)
  {
  }

  lemma NonZero(a: bv64, b: bv64)
    requires a != 0
    ensures a | b != 0
  {
  }

  lemma PutFramePresent(flags: bv64, frame: bv64)
    requires frame & PHYSICAL_PAGE_MASK == frame
    ensures PutFrame(flags, frame) & PRESENT == flags & PRESENT
  {
  }

  lemma PutFrameInverts(flags: bv64, frame: bv64)
    requires flags != 0 && frame & PHYSICAL_PAGE_MASK == frame
    ensures NeedsInvert(PutFrame(flags, frame)) <==> flags & PRESENT == 0
  {
    PutFramePresent(flags, frame);
    NonZero(flags, frame);
    NonZero(flags, !frame & PHYSICAL_PAGE_MASK);
  }

  lemma PutFrameInverted(flags: bv64, frame: bv64, mask: bv64)
    requires flags & PHYSICAL_PAGE_MASK == 0 && flags & PRESENT == 0
    requires mask & PHYSICAL_PAGE_MASK == mask && frame & mask == frame
    ensures !PutFrame(flags, frame) & mask == frame
  {
  }

  lemma PutFramePlain(flags: bv64, frame: bv64, mask: bv64)
    requires flags & PHYSICAL_PAGE_MASK == 0 && flags & PRESENT != 0
    requires mask & PHYSICAL_PAGE_MASK == mask && frame & mask == frame
    ensures PutFrame(flags, frame) & mask == frame
  {
  }

  predicate FlagsOnly(flags: bv64) {
    flags & PHYSICAL_PAGE_MASK == 0 && flags != 0
  }

  predicate FrameIn(frame: bv64, mask: bv64) {
    mask & PHYSICAL_PAGE_MASK == mask && frame & mask == frame && frame & PHYSICAL_PAGE_MASK == frame
  }

  /** The frame put into an entry is the frame that the walk gets out of it. */
  lemma PutFrameReads(flags: bv64, frame: bv64, mask: bv64)
    requires FlagsOnly(flags) && FrameIn(frame, mask)
    ensures Uninverted(PutFrame(flags, frame)) & mask == frame
  {
    hide PutFrame, Uninverted, NeedsInvert;
    PutFrameInverts(flags, frame);
    UninvertedIs(PutFrame(flags, frame));
    if flags & PRESENT == 0 {
      PutFrameInverted(flags, frame, mask);
    } else {
      PutFramePlain(flags, frame, mask);
    }
  }

  lemma PutFrameFlags(flags: bv64, frame: bv64, bits: bv64)
    requires flags & PHYSICAL_PAGE_MASK == 0 && frame & PHYSICAL_PAGE_MASK == frame
    requires bits & PHYSICAL_PAGE_MASK == 0
    ensures PutFrame(flags, frame) & bits == flags & bits
  {
  }

  // ---------------------------------------------------------------------------
  // The small entries map the pieces of the large page

  lemma SmallFlagBits3(large: bv64)
    ensures SmallFlags(3, large) & PHYSICAL_PAGE_MASK == 0
    ensures SmallFlags(3, large) & (PRESENT | PROTNONE | PSE) == large & (PRESENT | PROTNONE | PSE)
  {
  }

  lemma SmallFlagBits2(large: bv64)
    ensures SmallFlags(2, large) & PHYSICAL_PAGE_MASK == 0
    ensures SmallFlags(2, large) & (PRESENT | PROTNONE) == large & (PRESENT | PROTNONE)
  {
  }

  /** The large entry is one that the processor or a permission fault handler may meet, not one
      that is being split already. */
  predicate Splittable(large: bv64) {
    large & (PRESENT | PROTNONE) != 0
  }

  lemma SmallFlagsOnly(level: nat, large: bv64)
    requires Splittable(large) && (level == 3 || level == 2)
    ensures FlagsOnly(SmallFlags(level, large))
  {
    hide SmallFlags;
    if level == 3 {
      SmallFlagBits3(large);
    } else {
      SmallFlagBits2(large);
    }
  }

  lemma SmallFrameIn3(large: bv64, i: bv64)
    requires i <= 511
    ensures FrameIn(SmallFrame(3, large, i), PHYSICAL_PMD_PAGE_MASK)
  {
    hide SmallFrame, FrameIn;
    SmallFrameBits3(large, i);
    FrameInPmd(SmallFrame(3, large, i));
  }

  lemma FrameInPmd(frame: bv64)
    requires frame & PHYSICAL_PMD_PAGE_MASK == frame
    ensures FrameIn(frame, PHYSICAL_PMD_PAGE_MASK)
  {
  }

  lemma SmallFrameIn2(large: bv64, i: bv64)
    requires i <= 511
    ensures FrameIn(SmallFrame(2, large, i), PHYSICAL_PAGE_MASK)
  {
    hide SmallFrame;
    SmallFrameBits2(large, i);
  }

  lemma PieceFrame3(large: bv64, i: bv64)
    requires Splittable(large) && i <= 511
    ensures FrameOf(2, Piece(3, large, i)) == SmallFrame(3, large, i)
  {
    hide SmallFlags, SmallFrame, PutFrame, Uninverted, Splittable, FlagsOnly, FrameIn;
    SmallFlagsOnly(3, large);
    SmallFrameIn3(large, i);
    PutFrameReads(SmallFlags(3, large), SmallFrame(3, large, i), PHYSICAL_PMD_PAGE_MASK);
  }

  lemma WithLargePatBits(entry: bv64, pat: bv64, bits: bv64)
    requires pat & PAT_LARGE == pat && bits & PAT_LARGE == 0
    ensures WithLargePat(entry, pat) & bits == entry & bits
  {
  }

  lemma WithLargePatInverted(entry: bv64, pat: bv64, bits: bv64)
    requires pat & PAT_LARGE == pat && bits & PAT_LARGE == 0
    ensures !WithLargePat(entry, pat) & bits == !entry & bits
  {
  }

  lemma InvertedByPresent(entry: bv64)
    requires Splittable(entry)
    ensures NeedsInvert(entry) <==> entry & PRESENT == 0
  {
  }

  lemma FewerFlags(a: bv64, b: bv64)
    requires a & (PRESENT | PROTNONE | PSE) == b & (PRESENT | PROTNONE | PSE)
    ensures a & PRESENT == b & PRESENT && (Splittable(a) <==> Splittable(b))
  {
  }

  /** The PAT bit does not get in the way of the frame. */
  lemma WithLargePatFrame(entry: bv64, pat: bv64)
    requires pat & PAT_LARGE == pat && Splittable(entry)
    ensures FrameOf(2, WithLargePat(entry, pat)) == FrameOf(2, entry)
  {
    hide WithLargePat, Uninverted, NeedsInvert, Splittable;
    var e := WithLargePat(entry, pat);
    WithLargePatBits(entry, pat, PRESENT | PROTNONE | PSE);
    FewerFlags(e, entry);
    InvertedByPresent(e);
    InvertedByPresent(entry);
    UninvertedIs(e);
    UninvertedIs(entry);
    WithLargePatBits(entry, pat, PHYSICAL_PMD_PAGE_MASK);
    WithLargePatInverted(entry, pat, PHYSICAL_PMD_PAGE_MASK);
  }

  lemma SmallFrame3(large: bv64, i: bv64)
    requires Splittable(large) && i <= 511
    ensures FrameOf(2, SmallEntry(3, large, i)) == SmallFrame(3, large, i)
  {
    hide Piece, WithLargePat, SmallFrame, FrameOf, Splittable;
    PieceFlags3(large, i);
    FewerFlags(Piece(3, large, i), large);
    LargePatBit(large);
    WithLargePatFrame(Piece(3, large, i), large & PAT_LARGE);
    PieceFrame3(large, i);
  }

  lemma LargePatBit(large: bv64)
    ensures large & PAT_LARGE & PAT_LARGE == large & PAT_LARGE
  {
  }

  lemma SmallFrame2(large: bv64, i: bv64)
    requires Splittable(large) && i <= 511
    ensures FrameOf(1, SmallEntry(2, large, i)) == SmallFrame(2, large, i)
  {
    hide SmallFlags, SmallFrame, PutFrame, Uninverted, Splittable, FlagsOnly, FrameIn;
    SmallFlagsOnly(2, large);
    SmallFrameIn2(large, i);
    PutFrameReads(SmallFlags(2, large), SmallFrame(2, large, i), PHYSICAL_PAGE_MASK);
  }

  /** Flags of the small entries that the walk looks at. */
  lemma SmallEntryFlags3(large: bv64, i: bv64)
    requires i <= 511
    ensures SmallEntry(3, large, i) & (PRESENT | PROTNONE | PSE) == large & (PRESENT | PROTNONE | PSE)
  {
    hide Piece, WithLargePat;
    PieceFlags3(large, i);
    LargePatBit(large);
    WithLargePatBits(Piece(3, large, i), large & PAT_LARGE, PRESENT | PROTNONE | PSE);
  }

  /** The PAT bit moves with the page: it stays in place in a 2M page and becomes that of a 4K page. */
  lemma SmallEntryKeepsPat3(large: bv64, i: bv64)
    ensures SmallEntry(3, large, i) & PAT_LARGE == large & PAT_LARGE
  {
    hide Piece;
    WithLargePatReads(Piece(3, large, i), large & PAT_LARGE);
  }

  lemma WithLargePatReads(entry: bv64, pat: bv64)
    ensures pat & PAT_LARGE == pat ==> WithLargePat(entry, pat) & PAT_LARGE == pat
  {
  }

  lemma SmallEntryKeepsPat2(large: bv64, i: bv64)
    requires i <= 511
    ensures SmallEntry(2, large, i) & PAT == (large & PAT_LARGE) >> 5
  {
    hide SmallFlags, SmallFrame, PutFrame;
    SmallFlagBits2(large);
    SmallFrameBits2(large, i);
    PutFrameFlags(SmallFlags(2, large), SmallFrame(2, large, i), PAT);
    SmallFlagsPat2(large);
  }

  lemma SmallFlagsPat2(large: bv64)
    ensures SmallFlags(2, large) & PAT == (large & PAT_LARGE) >> 5
  {
  }

  lemma PieceFlags3(large: bv64, i: bv64)
    requires i <= 511
    ensures Piece(3, large, i) & (PRESENT | PROTNONE | PSE) == large & (PRESENT | PROTNONE | PSE)
  {
    hide SmallFlags, SmallFrame, PutFrame;
    SmallFlagBits3(large);
    SmallFrameBits3(large, i);
    FrameBits3(SmallFrame(3, large, i));
    PutFrameFlags(SmallFlags(3, large), SmallFrame(3, large, i), PRESENT | PROTNONE | PSE);
  }

  lemma FrameBits3(frame: bv64)
    ensures frame & PHYSICAL_PMD_PAGE_MASK == frame ==> frame & PHYSICAL_PAGE_MASK == frame
  {
  }

  lemma SmallEntryFlags2(large: bv64, i: bv64)
    requires i <= 511
    ensures SmallEntry(2, large, i) & (PRESENT | PROTNONE) == large & (PRESENT | PROTNONE)
  {
    hide SmallFlags, SmallFrame, PutFrame;
    SmallFlagBits2(large);
    SmallFrameBits2(large, i);
    PutFrameFlags(SmallFlags(2, large), SmallFrame(2, large, i), PRESENT | PROTNONE);
  }

  lemma SmallPudLeaf(cfg: Config, large: bv64, i: bv64)
    requires Splittable(large) && IsLeaf(large) && i <= 511
    ensures !EntryEmpty(2, SmallEntry(3, large, i)) && EntryPresent(cfg, 2, SmallEntry(3, large, i))
    ensures EntryMaps(2, SmallEntry(3, large, i))
  {
    hide SmallEntry;
    SmallEntryFlags3(large, i);
    LeafFlags(cfg, SmallEntry(3, large, i), large);
  }

  lemma LeafFlags(cfg: Config, small: bv64, large: bv64)
    requires small & (PRESENT | PROTNONE | PSE) == large & (PRESENT | PROTNONE | PSE)
    requires IsLeaf(large)
    ensures !EntryEmpty(2, small) && EntryPresent(cfg, 2, small) && EntryMaps(2, small)
  {
  }

  lemma SmallPmdLeaf(cfg: Config, large: bv64, i: bv64)
    requires i <= 511
    ensures !EntryEmpty(1, SmallEntry(2, large, i)) && EntryPresent(cfg, 1, SmallEntry(2, large, i)) <==> Splittable(large)
  {
    hide SmallEntry;
    SmallEntryFlags2(large, i);
    PageFlags(cfg, SmallEntry(2, large, i), large);
  }

  lemma PageFlags(cfg: Config, small: bv64, large: bv64)
    requires small & (PRESENT | PROTNONE) == large & (PRESENT | PROTNONE)
    ensures !EntryEmpty(1, small) && EntryPresent(cfg, 1, small) <==> Splittable(large)
  {
  }

  // ---------------------------------------------------------------------------
  // The address in the small page is the address in the large one

  lemma PieceOfPud(frame: bv64, v: bv64)
    ensures PageAddress(frame | (Index(2, v) << 21), v, PMD_OFFSET_MASK) == PageAddress(frame, v, PUD_OFFSET_MASK)
  {
    RecomposePud(v);
  }

  lemma PieceOfPmd(frame: bv64, v: bv64)
    ensures PageAddress(frame | (Index(1, v) << 12), v, PAGE_OFFSET_MASK) == PageAddress(frame, v, PMD_OFFSET_MASK)
  {
    RecomposePmd(v);
  }

  lemma SmallPudAddress(large: bv64, v: bv64)
    requires Splittable(large)
    ensures LeafAddress(2, SmallEntry(3, large, Index(2, v)), v) == LeafAddress(3, large, v)
  {
    hide SmallEntry, PageAddress, FrameOf, Index, Splittable;
    SmallFrame3(large, Index(2, v));
    PieceOfPud(FrameOf(3, large), v);
  }

  lemma SmallPmdAddress(large: bv64, v: bv64)
    requires Splittable(large)
    ensures LeafAddress(1, SmallEntry(2, large, Index(1, v)), v) == LeafAddress(2, large, v)
  {
    hide SmallEntry, PageAddress, FrameOf, Index, Splittable;
    SmallFrame2(large, Index(1, v));
    PieceOfPmd(FrameOf(2, large), v);
  }

  // ---------------------------------------------------------------------------
  // The whole walk

  lemma SplitGoesDown(cfg: Config, mem: Memory, level: nat, loc: bv64, newTable: bv64, v: bv64)
    requires level == 2 || level == 3
    requires newTable & PHYSICAL_PAGE_MASK == newTable
    requires EntryAddress(newTable, level - 1, v) != loc
    ensures var mem', small := Split(mem, level, loc, newTable), EntryAddress(newTable, level - 1, v);
            && Resolve(cfg, mem', level, loc, v) == Resolve(cfg, mem', level - 1, small, v)
            && mem'(small) == SmallEntry(level, mem(loc), Index(level - 1, v))
  {
    hide SmallEntry, LeafAddress, EntryEmpty, EntryPresent, EntryMaps, TableOf, Index, EntryAddress, Slot, TablePage;
    TableEntry(newTable);
    TableEntryDescends(cfg, level, newTable);
    NewEntryPage(newTable, level - 1, v);
    NewEntrySlot(newTable, level - 1, v);
  }

  lemma LeafStops(cfg: Config, mem: Memory, level: nat, addr: bv64, v: bv64)
    requires 1 <= level <= 3
    requires EntryMaps(level, mem(addr))
    ensures Resolve(cfg, mem, level, addr, v).Mapped? <==>
            !EntryEmpty(level, mem(addr)) && EntryPresent(cfg, level, mem(addr))
    ensures Resolve(cfg, mem, level, addr, v).Mapped? ==>
            Resolve(cfg, mem, level, addr, v).paddr == LeafAddress(level, mem(addr), v)
  {
    hide LeafAddress, EntryEmpty, EntryPresent, EntryMaps;
  }

  /** What the split does to the walk from the entry that was replaced. */
  lemma SplitHere(cfg: Config, mem: Memory, level: nat, loc: bv64, newTable: bv64, v: bv64)
    requires level == 2 || level == 3
    requires newTable & PHYSICAL_PAGE_MASK == newTable
    requires EntryPresent(cfg, level, mem(loc)) && IsLeaf(mem(loc))
    requires EntryAddress(newTable, level - 1, v) != loc
    ensures var here := Resolve(cfg, mem, level, loc, v);
            var split := Resolve(cfg, Split(mem, level, loc, newTable), level, loc, v);
            here.Mapped? && (SameTarget(here, split) <==> Splittable(mem(loc)))
  {
    hide SmallEntry, LeafAddress, EntryEmpty, EntryPresent, IsLeaf, TableOf, Index, EntryAddress, Split, Splittable, Resolve;
    var large, mem' := mem(loc), Split(mem, level, loc, newTable);
    var i, small := Index(level - 1, v), EntryAddress(newTable, level - 1, v);
    LeafNotEmpty(level, large);
    LeafStops(cfg, mem, level, loc, v);
    SplitGoesDown(cfg, mem, level, loc, newTable, v);
    if level == 3 {
      PudSplittable(cfg, large);
      SmallPudLeaf(cfg, large, i);
      SmallPudAddress(large, v);
    } else {
      SmallPmdLeaf(cfg, large, i);
      if Splittable(large) {
        SmallPmdAddress(large, v);
      }
    }
    LeafStops(cfg, mem', level - 1, small, v);
  }

  lemma LeafNotEmpty(level: nat, entry: bv64)
    requires IsLeaf(entry)
    ensures !EntryEmpty(level, entry)
  {
  }

  lemma PudSplittable(cfg: Config, entry: bv64)
    requires EntryPresent(cfg, 3, entry)
    ensures Splittable(entry)
  {
  }

  lemma SeparateBelow(cfg: Config, mem: Memory, top: nat, addr: bv64, v: bv64, level: nat, loc: bv64, newTable: bv64)
    requires 2 <= top <= 5 && Descends(cfg, top, mem(addr))
    requires Separate(cfg, mem, top, addr, v, level, loc, newTable)
    ensures Separate(cfg, mem, top - 1, EntryAddress(TableOf(mem(addr)), top - 1, v), v, level, loc, newTable)
  {
    hide Descends, EntryAddress, TableOf, TablePage;
    var below, next := top - 1, EntryAddress(TableOf(mem(addr)), top - 1, v);
    forall l, a | Reads(cfg, mem, below, next, v, l, a)
      ensures (a == loc ==> l == level) && TablePage(a) != newTable
    {
      assert Reads(cfg, mem, top, addr, v, l, a);
    }
  }

  lemma ResolveBelow(cfg: Config, mem: Memory, mem': Memory, top: nat, addr: bv64, v: bv64)
    requires 1 <= top <= 5 && mem'(addr) == mem(addr)
    ensures Descends(cfg, top, mem(addr)) ==>
              top > 1 &&
              var next := EntryAddress(TableOf(mem(addr)), top - 1, v);
              Resolve(cfg, mem, top, addr, v) == Resolve(cfg, mem, top - 1, next, v) &&
              Resolve(cfg, mem', top, addr, v) == Resolve(cfg, mem', top - 1, next, v)
    ensures !Descends(cfg, top, mem(addr)) ==>
              Resolve(cfg, mem', top, addr, v) == Resolve(cfg, mem, top, addr, v)
  {
    hide EntryAddress, TableOf, EntryMaps, EntryPresent, EntryEmpty, LeafAddress;
  }

  /** For every address, whatever else the walk passes: the target is the same unless the entry
      that was split is on the path and was not splittable. */
  lemma {:induction false} SplitKeepsTargets(
    cfg: Config, mem: Memory, level: nat, loc: bv64, newTable: bv64, top: nat, addr: bv64, v: bv64)
    requires level == 2 || level == 3
    requires 1 <= top <= 5
    requires newTable & PHYSICAL_PAGE_MASK == newTable && TablePage(loc) != newTable
    requires EntryPresent(cfg, level, mem(loc)) && IsLeaf(mem(loc))
    requires Separate(cfg, mem, top, addr, v, level, loc, newTable)
    ensures SameTarget(Resolve(cfg, mem, top, addr, v), Resolve(cfg, Split(mem, level, loc, newTable), top, addr, v)) <==>
            (Reads(cfg, mem, top, addr, v, level, loc) ==> Splittable(mem(loc)))
    decreases top
  {
    hide Resolve, SmallEntry, Descends, IsLeaf, EntryPresent, TableOf, EntryAddress, Slot, TablePage, Splittable;
    var mem' := Split(mem, level, loc, newTable);
    assert Reads(cfg, mem, top, addr, v, top, addr);
    if addr == loc {
      NewEntryPage(newTable, level - 1, v);
      SplitHere(cfg, mem, level, loc, newTable, v);
    } else {
      ResolveBelow(cfg, mem, mem', top, addr, v);
      if Descends(cfg, top, mem(addr)) {
        SeparateBelow(cfg, mem, top, addr, v, level, loc, newTable);
        SplitKeepsTargets(cfg, mem, level, loc, newTable, top - 1, EntryAddress(TableOf(mem(addr)), top - 1, v), v);
      }
    }
  }

  // ---------------------------------------------------------------------------
  // The processor's translation

  /** Translation from a table reads the entry at `a` as one of level `l`. */
  ghost predicate TranslationReads(mem: Memory, level: nat, table: bv64, linear: bv64, l: nat, a: bv64)
    requires 1 <= level <= 5
  {
    var addr := StructureEntry(table, level, linear);
    || (l == level && a == addr)
    || (Usable(level, mem(addr)) && !EntryMaps(level, mem(addr)) &&
        TranslationReads(mem, level - 1, mem(addr), linear, l, a))
  }

  ghost predicate TranslationSeparate(mem: Memory, top: nat, table: bv64, v: bv64, level: nat, loc: bv64, newTable: bv64)
    requires 1 <= top <= 5
  {
    forall l, a :: TranslationReads(mem, top, table, v, l, a) ==>
                     (a == loc ==> l == level) && TablePage(a) != newTable
  }

  /** The same address found or a page fault both times; the page may be smaller. */
  ghost predicate SameTranslation(t: Option<Page>, t': Option<Page>) {
    if t.Some? then t'.Some? && t'.value.paddr == t.value.paddr else t'.None?
  }

  /** A page fault for a reserved bit only. */
  predicate ReservedFault(level: nat, entry: bv64) {
    entry & PRESENT != 0 && ReservedBitSet(level, entry)
  }

  lemma NoReservedBits(entry: bv64)
    ensures !ReservedBitSet(1, entry)
    ensures !IsLeaf(entry) ==> !ReservedBitSet(2, entry) && !ReservedBitSet(3, entry)
  {
  }

  lemma TableEntryUsable(level: nat, newTable: bv64)
    requires newTable & PHYSICAL_PAGE_MASK == newTable
    requires level == 2 || level == 3
    ensures Usable(level, newTable | TABLE_FLAGS) && !EntryMaps(level, newTable | TABLE_FLAGS)
  {
    hide IsLeaf, ReservedBitSet;
    TableEntryBits(newTable);
    NoReservedBits(newTable | TABLE_FLAGS);
  }

  /** Bits 13 to 20 of the pieces of a 1G page belong to no frame. */
  lemma SmallPudReserved(large: bv64, i: bv64)
    requires i <= 511 && large & PRESENT != 0
    ensures SmallEntry(3, large, i) & 0x001f_e000 == 0
  {
    hide Piece, WithLargePat;
    LargePatBit(large);
    WithLargePatBits(Piece(3, large, i), large & PAT_LARGE, 0x001f_e000);
    PieceReserved(large, i);
  }

  lemma PieceReserved(large: bv64, i: bv64)
    requires i <= 511 && large & PRESENT != 0
    ensures Piece(3, large, i) & 0x001f_e000 == 0
  {
    hide SmallFrame;
    SmallFrameBits3(large, i);
    OrReserved(large & !PHYSICAL_PAGE_MASK, SmallFrame(3, large, i));
    FlagsPresent(large);
  }

  lemma FlagsPresent(large: bv64)
    ensures large & !PHYSICAL_PAGE_MASK & PRESENT == large & PRESENT
  {
  }

  lemma OrReserved(flags: bv64, frame: bv64)
    requires flags & PHYSICAL_PAGE_MASK == 0 && frame & PHYSICAL_PMD_PAGE_MASK == frame
    ensures (flags | frame) & 0x001f_e000 == 0
  {
  }

  /** A piece is usable exactly if the large page is present; reserved bits do not carry over. */
  lemma SmallUsable(level: nat, large: bv64, i: bv64)
    requires level == 2 || level == 3
    requires IsLeaf(large) && i <= 511
    ensures Usable(level - 1, SmallEntry(level, large, i)) <==> large & PRESENT != 0
    ensures EntryMaps(level - 1, SmallEntry(level, large, i))
  {
    hide SmallEntry;
    var small := SmallEntry(level, large, i);
    if level == 3 {
      SmallEntryFlags3(large, i);
      FewerFlags(small, large);
      LeafBit(small, large);
      if large & PRESENT != 0 {
        SmallPudReserved(large, i);
      }
    } else {
      SmallEntryFlags2(large, i);
      PresentBit(small, large);
      NoReservedBits(small);
    }
  }

  lemma LeafBit(a: bv64, b: bv64)
    requires a & (PRESENT | PROTNONE | PSE) == b & (PRESENT | PROTNONE | PSE)
    ensures IsLeaf(a) <==> IsLeaf(b)
  {
  }

  lemma PresentBit(a: bv64, b: bv64)
    requires a & (PRESENT | PROTNONE) == b & (PRESENT | PROTNONE)
    ensures a & PRESENT == b & PRESENT
  {
  }

  lemma PresentSplittable(large: bv64)
    requires large & PRESENT != 0
    ensures Splittable(large)
  {
  }

  lemma NewTableEntry(mem: Memory, level: nat, loc: bv64, newTable: bv64, v: bv64)
    requires level == 2 || level == 3
    requires newTable & PHYSICAL_PAGE_MASK == newTable && TablePage(loc) != newTable
    ensures var mem' := Split(mem, level, loc, newTable);
            mem'(StructureEntry(newTable | TABLE_FLAGS, level - 1, v)) == SmallEntry(level, mem(loc), Index(level - 1, v))
  {
    hide SmallEntry, TableOf, Index, EntryAddress, StructureEntry, Slot, TablePage;
    TableEntry(newTable);
    StructureEntryMasks(newTable | TABLE_FLAGS, level - 1, v);
    SameEntryAddress(newTable, level - 1, v);
    NewEntryPage(newTable, level - 1, v);
    NewEntrySlot(newTable, level - 1, v);
  }

  /** The translation from the entry that was replaced. */
  lemma SplitHereTranslates(mem: Memory, level: nat, loc: bv64, newTable: bv64, table: bv64, v: bv64)
    requires level == 2 || level == 3
    requires newTable & PHYSICAL_PAGE_MASK == newTable && TablePage(loc) != newTable
    requires IsLeaf(mem(loc)) && StructureEntry(table, level, v) == loc
    ensures SameTranslation(Translate(mem, level, table, v), Translate(Split(mem, level, loc, newTable), level, table, v)) <==>
            !ReservedFault(level, mem(loc))
  {
    hide Translate, SmallEntry, StructureEntry, LeafAddress, Usable, IsLeaf, Split, Index, Splittable, ReservedBitSet;
    var large, mem', entry' := mem(loc), Split(mem, level, loc, newTable), newTable | TABLE_FLAGS;
    SplitAtLoc(mem, level, loc, newTable);
    TranslateStep(mem, level, table, v);
    TranslateStep(mem', level, table, v);
    TableEntryUsable(level, newTable);
    TranslateStep(mem', level - 1, entry', v);
    NewTableEntry(mem, level, loc, newTable, v);
    SmallUsable(level, large, Index(level - 1, v));
    UsableIs(level, large);
    if large & PRESENT != 0 {
      PresentSplittable(large);
      if level == 3 {
        SmallPudAddress(large, v);
      } else {
        SmallPmdAddress(large, v);
      }
    }
  }

  lemma SplitAtLoc(mem: Memory, level: nat, loc: bv64, newTable: bv64)
    ensures Split(mem, level, loc, newTable)(loc) == newTable | TABLE_FLAGS
  {
  }

  lemma UsableIs(level: nat, entry: bv64)
    ensures Usable(level, entry) <==> entry & PRESENT != 0 && !ReservedBitSet(level, entry)
  {
  }

  lemma SplitElsewhere(mem: Memory, level: nat, loc: bv64, newTable: bv64, a: bv64)
    requires a != loc && TablePage(a) != newTable
    ensures Split(mem, level, loc, newTable)(a) == mem(a)
  {
  }

  lemma TranslationSeparateHere(mem: Memory, top: nat, table: bv64, v: bv64, level: nat, loc: bv64, newTable: bv64)
    requires 1 <= top <= 5
    requires TranslationSeparate(mem, top, table, v, level, loc, newTable)
    ensures var addr := StructureEntry(table, top, v);
            (addr == loc ==> top == level) && TablePage(addr) != newTable
  {
    hide StructureEntry, Usable, EntryMaps, TablePage;
    assert TranslationReads(mem, top, table, v, top, StructureEntry(table, top, v));
  }

  lemma TranslationSeparateBelow(mem: Memory, top: nat, table: bv64, v: bv64, level: nat, loc: bv64, newTable: bv64)
    requires 2 <= top <= 5
    requires var entry := mem(StructureEntry(table, top, v)); Usable(top, entry) && !EntryMaps(top, entry)
    requires TranslationSeparate(mem, top, table, v, level, loc, newTable)
    ensures TranslationSeparate(mem, top - 1, mem(StructureEntry(table, top, v)), v, level, loc, newTable)
  {
    hide Usable, StructureEntry, EntryMaps, TablePage;
    var below, entry := top - 1, mem(StructureEntry(table, top, v));
    forall l, a | TranslationReads(mem, below, entry, v, l, a)
      ensures (a == loc ==> l == level) && TablePage(a) != newTable
    {
      assert TranslationReads(mem, top, table, v, l, a);
    }
  }

  /** For every address: the processor finds the same physical address after the split as before
      unless the entry that was split is on its path, is present and has a reserved bit set: there the
      split turns a page fault into a translation. */
  lemma {:induction false} SplitKeepsTranslation(
    mem: Memory, level: nat, loc: bv64, newTable: bv64, top: nat, table: bv64, v: bv64)
    requires level == 2 || level == 3
    requires 1 <= top <= 5
    requires newTable & PHYSICAL_PAGE_MASK == newTable && TablePage(loc) != newTable
    requires IsLeaf(mem(loc))
    requires TranslationSeparate(mem, top, table, v, level, loc, newTable)
    ensures SameTranslation(Translate(mem, top, table, v), Translate(Split(mem, level, loc, newTable), top, table, v)) <==>
            (TranslationReads(mem, top, table, v, level, loc) ==> !ReservedFault(level, mem(loc)))
    decreases top
  {
    hide Translate, Split, StructureEntry, LeafAddress, Usable, EntryMaps, IsLeaf, TablePage, ReservedFault,
         TranslationSeparate;
    var mem' := Split(mem, level, loc, newTable);
    var addr := StructureEntry(table, top, v);
    TranslationSeparateHere(mem, top, table, v, level, loc, newTable);
    if addr == loc {
      SplitHereTranslates(mem, level, loc, newTable, table, v);
    } else {
      SplitElsewhere(mem, level, loc, newTable, addr);
      TranslateStep(mem, top, table, v);
      TranslateStep(mem', top, table, v);
      if Usable(top, mem(addr)) && !EntryMaps(top, mem(addr)) {
        TranslationSeparateBelow(mem, top, table, v, level, loc, newTable);
        SplitKeepsTranslation(mem, level, loc, newTable, top - 1, mem(addr), v);
      }
    }
  }

  // ---------------------------------------------------------------------------
  // A page that is not splittable

  function OnePmd(a: bv64): bv64 {
    if a == 0x1000 then 0x80 else 0
  }

  /** A 2M entry with only PSE: the walk prints address 0 for it, and nothing after the split. */
  lemma HalfSplitPage(cfg: Config)
    ensures var mem: Memory := OnePmd;
            && Resolve(cfg, mem, 2, 0x1000, 0).Mapped?
            && !SameTarget(Resolve(cfg, mem, 2, 0x1000, 0), Resolve(cfg, Split(mem, 2, 0x1000, 0x2000), 2, 0x1000, 0))
  {
    var mem: Memory := OnePmd;
    HalfSplitBits(cfg);
    NewEntryPage(0x2000, 1, 0);
    SplitHere(cfg, mem, 2, 0x1000, 0x2000, 0);
  }

  lemma HalfSplitBits(cfg: Config)
    ensures EntryPresent(cfg, 2, 0x80) && IsLeaf(0x80) && !Splittable(0x80)
    ensures TablePage(0x1000) != 0x2000
  {
  }
}
