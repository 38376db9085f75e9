/** x86-64 page table entries: the bits, the address arithmetic, and the kernel macros that
`page_table_walk.c` uses. The macros are not part of the repository and are written out here.
 */
module Paging {

  const PRESENT: bv64 := 0x1
  const ACCESSED: bv64 := 0x20
  const DIRTY: bv64 := 0x40
  const PSE: bv64 := 0x80
  const PAT: bv64 := 0x80
  const PROTNONE: bv64 := 0x100
  const PAT_LARGE: bv64 := 0x1000

  const PHYSICAL_PAGE_MASK: bv64 := 0x000f_ffff_ffff_f000
  const PHYSICAL_PMD_PAGE_MASK: bv64 := 0x000f_ffff_ffe0_0000
  const PHYSICAL_PUD_PAGE_MASK: bv64 := 0x000f_ffff_c000_0000

  const PAGE_OFFSET_MASK: bv64 := 0xfff
  const PMD_OFFSET_MASK: bv64 := 0x1f_ffff
  const PUD_OFFSET_MASK: bv64 := 0x3fff_ffff

  // ---------------------------------------------------------------------------
  // Inverted entries

  predicate NeedsInvert(val: bv64) {
    val != 0 && val & PRESENT == 0
  }

  function Flip(val: bv64): bv64 {
    (val & !PHYSICAL_PAGE_MASK) | (!val & PHYSICAL_PAGE_MASK)
  }

  function InvertIfNeeded(val: bv64): bv64 {
    if NeedsInvert(val) then Flip(val) else val
  }

  /** All ones when the frame number of the entry is stored inverted. */
  function ProtnoneMask(val: bv64): bv64 {
    if NeedsInvert(val) then 0xffff_ffff_ffff_ffff else 0
  }

  function Uninverted(val: bv64): bv64 {
    val ^ ProtnoneMask(val)
  }

  function PudPfnMask(pud: bv64): bv64 {
    if pud & PSE != 0 then PHYSICAL_PUD_PAGE_MASK else PHYSICAL_PAGE_MASK
  }

  function PmdPfnMask(pmd: bv64): bv64 {
    if pmd & PSE != 0 then PHYSICAL_PMD_PAGE_MASK else PHYSICAL_PAGE_MASK
  }

  function PudPfn(pud: bv64): bv64 {
    (Uninverted(pud) & PudPfnMask(pud)) >> 12
  }

  function PmdPfn(pmd: bv64): bv64 {
    (Uninverted(pmd) & PmdPfnMask(pmd)) >> 12
  }

  function PtePfn(pte: bv64): bv64 {
    (Uninverted(pte) & PHYSICAL_PAGE_MASK) >> 12
  }

  function PudPaddr(pud: bv64, vaddr: bv64): bv64 {
    PageAddress(PudPfn(pud) << 12, vaddr, PUD_OFFSET_MASK)
  }

  function PmdPaddr(pmd: bv64, vaddr: bv64): bv64 {
    PageAddress(PmdPfn(pmd) << 12, vaddr, PMD_OFFSET_MASK)
  }

  function PtePaddr(pte: bv64, vaddr: bv64): bv64 {
    PageAddress(PtePfn(pte) << 12, vaddr, PAGE_OFFSET_MASK)
  }

  // ---------------------------------------------------------------------------
  // Presence. The dirty and accessed bits alone do not make an entry: some processors set them
  // by mistake, and the none tests of the kernel ignore them.

  predicate PudPresentGood(pud: bv64) {
    pud & (PRESENT | PROTNONE) != 0
  }

  predicate PmdNone(pmd: bv64) {
    pmd & !(DIRTY | ACCESSED) == 0
  }

  predicate PmdPresent(pmd: bv64) {
    pmd & (PRESENT | PROTNONE | PSE) != 0
  }

  predicate PteNone(pte: bv64) {
    pte & !(DIRTY | ACCESSED) == 0
  }

  predicate PtePresent(pte: bv64) {
    pte & (PRESENT | PROTNONE) != 0
  }

  predicate IsLeaf(entry: bv64) {
    entry & PSE != 0
  }

  // ---------------------------------------------------------------------------
  // Facts about inversion

  lemma XorOnes(x: bv64)
    ensures x ^ 0xffff_ffff_ffff_ffff == !x
  {
  }

  lemma UninvertedIs(val: bv64)
    ensures NeedsInvert(val) ==> Uninverted(val) == !val
    ensures !NeedsInvert(val) ==> Uninverted(val) == val
  {
    hide NeedsInvert;
    XorOnes(val);
  }

  /** Undoing the inversion undoes it, except that one value is taken for an empty entry after it. */
  lemma InvertIsInvolution(val: bv64)
    ensures InvertIfNeeded(InvertIfNeeded(val)) == val <==> val != PHYSICAL_PAGE_MASK
  {
    if NeedsInvert(val) {
      FlipTwice(val);
      FlipKeepsPresent(val);
      FlipToZero(val);
    }
  }

  lemma FlipIsXor(val: bv64)
    ensures Flip(val) == val ^ PHYSICAL_PAGE_MASK
  {
  }

  lemma FlipTwice(val: bv64)
    ensures Flip(Flip(val)) == val
  {
    FlipIsXor(val);
    FlipIsXor(Flip(val));
  }

  lemma FlipKeepsPresent(val: bv64)
    ensures Flip(val) & PRESENT == val & PRESENT
  {
    FlipIsXor(val);
  }

  lemma FlipToZero(val: bv64)
    ensures Flip(val) == 0 <==> val == PHYSICAL_PAGE_MASK
  {
    FlipIsXor(val);
  }

  /** The dumped value shows, under the mask of each level, the frame used for the address. */
  lemma InvertShowsFrame(val: bv64, mask: bv64)
    requires mask & PHYSICAL_PAGE_MASK == mask
    ensures InvertIfNeeded(val) & mask == Uninverted(val) & mask
  {
    FlipIsXor(val);
  }

  lemma InvertShowsPudPfn(val: bv64)
    ensures (InvertIfNeeded(val) & PudPfnMask(val)) >> 12 == PudPfn(val)
  {
    InvertShowsFrame(val, PudPfnMask(val));
  }

  lemma InvertShowsPmdPfn(val: bv64)
    ensures (InvertIfNeeded(val) & PmdPfnMask(val)) >> 12 == PmdPfn(val)
  {
    InvertShowsFrame(val, PmdPfnMask(val));
  }

  lemma InvertShowsPtePfn(val: bv64)
    ensures (InvertIfNeeded(val) & PHYSICAL_PAGE_MASK) >> 12 == PtePfn(val)
  {
    InvertShowsFrame(val, PHYSICAL_PAGE_MASK);
  }

  /** Every flag outside the mask reads the same before and after. */
  lemma InvertKeepsFlags(val: bv64, flag: bv64)
    requires flag & PHYSICAL_PAGE_MASK == 0
    ensures InvertIfNeeded(val) & flag == val & flag
  {
    FlipIsXor(val);
  }

  /** The PAT bit of a large page lies inside the mask: it reads the same when nothing was
      inverted, and only then. */
  lemma InvertSpoilsLargePat(val: bv64)
    ensures InvertIfNeeded(val) & PAT_LARGE == val & PAT_LARGE <==> !NeedsInvert(val)
  {
    FlipIsXor(val);
  }

  // ---------------------------------------------------------------------------
  // Facts about addresses

  /** Bits of a virtual address that select an entry at the given level, and that are left over
      for the page offset when the walk ends there. Level 1 is the page table. */
  function Index(level: nat, vaddr: bv64): (i: bv64)
    requires 1 <= level <= 5
    ensures i <= 511
  {
    match level
    case 1 => (vaddr >> 12) & 511
    case 2 => (vaddr >> 21) & 511
    case 3 => (vaddr >> 30) & 511
    case 4 => (vaddr >> 39) & 511
    case 5 => (vaddr >> 48) & 511
  }

  /** The indices and the offset are all of the address: the low 48 bits put together again. */
  lemma Recompose4(vaddr: bv64)
    ensures (Index(4, vaddr) << 39) | (Index(3, vaddr) << 30) | (Index(2, vaddr) << 21) | (Index(1, vaddr) << 12)
            | (vaddr & PAGE_OFFSET_MASK) == vaddr & 0xffff_ffff_ffff
  {
  }

  lemma Recompose5(vaddr: bv64)
    ensures (Index(5, vaddr) << 48) | (vaddr & 0xffff_ffff_ffff) == vaddr & 0x1ff_ffff_ffff_ffff
  {
  }

  lemma RecomposePmd(vaddr: bv64)
    ensures (Index(1, vaddr) << 12) | (vaddr & PAGE_OFFSET_MASK) == vaddr & PMD_OFFSET_MASK
  {
  }

  lemma RecomposePud(vaddr: bv64)
    ensures (Index(2, vaddr) << 21) | (vaddr & PMD_OFFSET_MASK) == vaddr & PUD_OFFSET_MASK
  {
  }

  lemma OrIsAdd(a: bv64, b: bv64)
    requires a & b == 0
    ensures a | b == a + b
  {
  }

  function OffsetPart(vaddr: bv64, offsets: bv64): bv64 {
    vaddr & offsets
  }

  function PagePart(vaddr: bv64, offsets: bv64): bv64 {
    vaddr & !offsets
  }

  /** The address formula of all page sizes. */
  function PageAddress(frame: bv64, vaddr: bv64, offsets: bv64): bv64 {
    frame | (vaddr & offsets)
  }

  /** Within a page the address formula adds the offset to the start of the page without carry. */
  lemma PageAdds(frame: bv64, offsets: bv64, v: bv64)
    requires frame & offsets == 0
    ensures PageAddress(frame, v, offsets) == frame + OffsetPart(v, offsets)
  {
    OrIsAdd(frame, v & offsets);
  }

  /** Frame and offset can be read back from the address. */
  lemma PageAddressParts(frame: bv64, offsets: bv64, v: bv64)
    requires frame & offsets == 0
    ensures OffsetPart(PageAddress(frame, v, offsets), offsets) == OffsetPart(v, offsets)
    ensures PagePart(PageAddress(frame, v, offsets), offsets) == frame
  {
  }

  /** Equal addresses come from equal offsets in equal frames. */
  lemma PageAddressIsInjective(frame: bv64, frame': bv64, offsets: bv64, v: bv64, w: bv64)
    requires frame & offsets == 0 && frame' & offsets == 0
    requires PageAddress(frame, v, offsets) == PageAddress(frame', w, offsets)
    ensures frame == frame' && OffsetPart(v, offsets) == OffsetPart(w, offsets)
  {
    PageAddressParts(frame, offsets, v);
    PageAddressParts(frame', offsets, w);
  }
}
