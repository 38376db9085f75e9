/** `userspace/pageinfo.c`: decoding of /proc/[pid]/pagemap and /proc/kpageflags words, and the
command line. Files are functions from offsets to words; output is a sequence of lines.
 */
module PageInfo {
  import opened Helpers
  import opened NumberText

  const PAGE_OFFSET_MASK: bv64 := 0xfff

  const PM_PRESENT: bv64 := 0x8000_0000_0000_0000
  const PM_SWAP: bv64 := 0x4000_0000_0000_0000
  const PM_FILE: bv64 := 0x2000_0000_0000_0000
  const PM_UFFD_WP: bv64 := 0x0200_0000_0000_0000
  const PM_MMAP_EXCLUSIVE: bv64 := 0x0100_0000_0000_0000
  const PM_SOFT_DIRTY: bv64 := 0x0080_0000_0000_0000
  const PM_PFRAME_MASK: bv64 := 0x007f_ffff_ffff_ffff
  const PM_SWAP_TYPE_MASK: bv64 := 0x1f
  const PM_SWAP_OFFSET_MASK: bv64 := 0x007f_ffff_ffff_ffe0
  const PM_FLAGS: bv64 := 0xe380_0000_0000_0000

  const KPF_FLAGS: bv64 := 0x07ff_ffff
  const KPF_PGTABLE: bv64 := 0x0400_0000
  const KPF_HACK_FLAGS: bv64 := 0x07ff_0000_0000

  /** The words that stand for flags in the output: of pagemap, of kpageflags, and of kpageflags
      with the hack argument. The remaining ones are the fixed words around them. */
  datatype Word =
    | PRESENT | SWAP | FILE_OR_SHANON | UFFD_WP | MMAP_EXCLUSIVE | SOFT_DIRTY
    | LOCKED | ERROR | REFERENCED | UPTODATE | DIRTY | LRU | ACTIVE | SLAB
    | WRITEBACK | RECLAIM | BUDDY | MMAP | ANON | SWAPCACHE | SWAPBACKED | COMPOUND_HEAD
    | COMPOUND_TAIL | HUGE | UNEVICTABLE | HWPOISON | NOPAGE | KSM | THP | BALLOON
    | ZERO_PAGE | IDLE
    | RESERVED | MLOCKED | MAPPEDTODISK | PRIVATE | PRIVATE_2 | OWNER_PRIVATE | ARCH | UNCACHED
    | SOFTDIRTY | ARCH_2 | ARCH_3
    | HackSeparator | HackHeading | NoKnownFlags

  const KPF_NAMES_0_TO_8 := [LOCKED, ERROR, REFERENCED, UPTODATE, DIRTY, LRU, ACTIVE, SLAB, WRITEBACK]
  const KPF_NAMES_9_TO_17 :=
    [RECLAIM, BUDDY, MMAP, ANON, SWAPCACHE, SWAPBACKED, COMPOUND_HEAD, COMPOUND_TAIL, HUGE]
  const KPF_NAMES_18_TO_25 := [UNEVICTABLE, HWPOISON, NOPAGE, KSM, THP, BALLOON, ZERO_PAGE, IDLE]

  // The names of bits 0 to 25, in order; KPF_PGTABLE, bit 26, has none.
  const KPF_NAMES := KPF_NAMES_0_TO_8 + KPF_NAMES_9_TO_17 + KPF_NAMES_18_TO_25

  const HACK_NAMES_32_TO_37 := [RESERVED, MLOCKED, MAPPEDTODISK, PRIVATE, PRIVATE_2, OWNER_PRIVATE]
  const HACK_NAMES_38_TO_42 := [ARCH, UNCACHED, SOFTDIRTY, ARCH_2, ARCH_3]

  // The names of bits 32 to 42, in order.
  const HACK_NAMES := HACK_NAMES_32_TO_37 + HACK_NAMES_38_TO_42

  predicate IsSet(mask: bv64, word: bv64) {
    word & mask != 0
  }

  function Name(mask: bv64, x: Word, word: bv64): seq<Word> {
    if IsSet(mask, word) then [x] else []
  }

  /** The names of the flags that are set, of which the first is that of the bit in `mask` and each
      other one that of the next higher bit. */
  function Names(list: seq<Word>, mask: bv64, word: bv64): seq<Word> {
    if list == [] then []
    else Name(mask, list[0], word) + Names(list[1..], mask << 1, word)
  }

  function PagemapNames(pm: bv64): seq<Word> {
    Name(PM_PRESENT, PRESENT, pm) + Name(PM_SWAP, SWAP, pm) + Name(PM_FILE, FILE_OR_SHANON, pm) +
    Name(PM_UFFD_WP, UFFD_WP, pm) + Name(PM_MMAP_EXCLUSIVE, MMAP_EXCLUSIVE, pm) + Name(PM_SOFT_DIRTY, SOFT_DIRTY, pm)
  }

  // ---------------------------------------------------------------------------
  // Output

  datatype Line =
    | Address(virtual: bool, addr: bv64, page: bv64)
    | PhysicalAddress(paddr: bv64, page: bv64, pfn: bv64)
    | SwapEntry(swapType: bv64, offset: bv64)
    | Pagemap(word: bv64, names: seq<Word>)
    | PageDoesNotExist(word: bv64)
    | KpageFlags(flags: bv64, words: seq<Word>)
    | KpageCount(count: bv64)
    | PathOverflow

  /** The contents of the files read, by pid and offset or by offset. */
  datatype Files = Files(pagemap: (string, bv64) -> bv64, kpageflags: bv64 -> bv64, kpagecount: bv64 -> bv64)

  function PfnOf(pm: bv64): bv64 {
    pm & PM_PFRAME_MASK
  }

  function PaddrOf(pm: bv64, vaddr: bv64): bv64 {
    (PfnOf(pm) << 12) | (vaddr & PAGE_OFFSET_MASK)
  }

  function SwapType(pm: bv64): bv64 {
    pm & PM_SWAP_TYPE_MASK
  }

  function SwapOffset(pm: bv64): bv64 {
    (pm & PM_SWAP_OFFSET_MASK) >> 5
  }

  function PagemapOffset(vaddr: bv64): bv64 {
    (vaddr >> 12) * 8
  }

  function KpageOffset(pfn: bv64): bv64 {
    pfn * 8
  }

  function DumpPagemap(pm: bv64, vaddr: bv64): seq<Line> {
    (if IsSet(PM_PRESENT, pm) then [PhysicalAddress(PaddrOf(pm, vaddr), PfnOf(pm) << 12, PfnOf(pm))]
     else if IsSet(PM_SWAP, pm) then [SwapEntry(SwapType(pm), SwapOffset(pm))]
     else []) +
    (if IsSet(PM_FLAGS, pm) then [Pagemap(pm, PagemapNames(pm))] else [PageDoesNotExist(pm)])
  }

  /** What is printed after the kpageflags word. */
  function KpageWords(kpf: bv64, hack: bool): seq<Word> {
    var mask := if hack then KPF_FLAGS | KPF_HACK_FLAGS else KPF_FLAGS;
    if IsSet(mask, kpf) then
      Names(KPF_NAMES, 0x1, kpf) +
      (if hack && IsSet(KPF_HACK_FLAGS, kpf) then
         [if IsSet(KPF_FLAGS, kpf) then HackSeparator else HackHeading] + Names(HACK_NAMES, 0x1_0000_0000, kpf)
       else [])
    else [NoKnownFlags]
  }

  function DumpKpage(files: Files, pfn: bv64, hack: bool): seq<Line> {
    var kpf := files.kpageflags(KpageOffset(pfn));
    [KpageFlags(kpf, KpageWords(kpf, hack)), KpageCount(files.kpagecount(KpageOffset(pfn)))]
  }

  /** The array in which read_pagemap puts the path together. */
  const PATH_SIZE := 128

  function PagemapPath(pid: string): string {
    "/proc/" + pid + "/pagemap"
  }

  predicate PathFits(pid: string) {
    |PagemapPath(pid)| + 1 <= PATH_SIZE
  }

  /** Where the path does not fit into its array, the output ends with `PathOverflow`: what the
      program does then is not part of this model. */
  function DumpPageInfo(files: Files, pid: Option<string>, addr: bv64, hack: bool): seq<Line> {
    [Address(pid.Some?, addr, addr & !PAGE_OFFSET_MASK)] +
    match pid
    case Some(p) =>
      if !PathFits(p) then [PathOverflow] else
      var pm := files.pagemap(p, PagemapOffset(addr));
      DumpPagemap(pm, addr) + (if IsSet(PM_PRESENT, pm) then DumpKpage(files, PfnOf(pm), hack) else [])
    case None => DumpKpage(files, addr >> 12, hack)
  }

  // ---------------------------------------------------------------------------
  // Command line

  datatype Outcome =
    | Usage
    | InvalidPid
    | InvalidAddress
    | Report(pid: Option<string>, addr: nat, hack: bool)

  /** The three documented forms, with the address text still unread. */
  datatype Request = Request(pid: Option<string>, address: string, hack: bool)

  /** The program name, then `PADDR`, `PID VADDR` or `self VADDR`, then perhaps `hack`. */
  function RequestOf(argv: seq<string>): Option<Request> {
    if |argv| == 2 then Some(Request(None, argv[1], false))
    else if |argv| == 3 && argv[2] == "hack" then Some(Request(None, argv[1], true))
    else if |argv| == 3 then Some(Request(Some(argv[1]), argv[2], false))
    else if |argv| == 4 && argv[3] == "hack" then Some(Request(Some(argv[1]), argv[2], true))
    else None
  }

  /** The three documented forms and what else there is: `hack` counts only at the end of three or
      four arguments, and any other number of arguments is not understood. */
  lemma RequestForms(argv: seq<string>)
    ensures |argv| == 2 ==> RequestOf(argv) == Some(Request(None, argv[1], false))
    ensures |argv| == 3 && argv[2] == "hack" ==> RequestOf(argv) == Some(Request(None, argv[1], true))
    ensures |argv| == 3 && argv[2] != "hack" ==> RequestOf(argv) == Some(Request(Some(argv[1]), argv[2], false))
    ensures |argv| == 4 && argv[3] == "hack" ==> RequestOf(argv) == Some(Request(Some(argv[1]), argv[2], true))
    ensures RequestOf(argv).None? <==> |argv| < 2 || |argv| > 4 || (|argv| == 4 && argv[3] != "hack")
  {
  }

  /** A decimal numeral from 1 to INT_MAX, with space and sign allowed in front. */
  ghost predicate IsPid(s: string) {
    exists space, sign, digits ::
      Numeral(s, space, sign, "", digits, 10, 10) && sign != "-" && 1 <= Number(digits, 10) <= 0x7fff_ffff
  }

  /** A C integer constant of at most 64 bits, with space and sign allowed in front. */
  ghost predicate IsAddress(s: string, addr: nat) {
    exists space, sign, prefix, digits, b ::
      Numeral(s, space, sign, prefix, digits, 0, b) && Number(digits, b) <= ULONG_MAX &&
      addr == Signed(sign, Number(digits, b))
  }

  /** A minus sign negates modulo 2^64. */
  function Signed(sign: string, n: nat): nat
    requires n <= ULONG_MAX
  {
    if sign == "-" && n > 0 then ULONG_MAX + 1 - n else n
  }

  /** `main` up to the call of dump_page_info. */
  method ParseArguments(argv: seq<string>) returns (out: Outcome)
    ensures out.Usage? <==> RequestOf(argv).None?
    ensures RequestOf(argv).Some? ==>
              var request := RequestOf(argv).value;
              var badPid := request.pid.Some? && request.pid.value != "self" && !IsPid(request.pid.value);
              && (out.InvalidPid? <==> badPid)
              && (out.InvalidAddress? <==> !badPid && forall a :: !IsAddress(request.address, a))
              && (out.Report? ==> out.pid == request.pid && out.hack == request.hack && IsAddress(request.address, out.addr))
  {
    hide IsPid, IsAddress, Strtol, Strtoul;
    var argc := |argv|;
    var pid := None;
    var hack := false;
    if argc > 4 {
      return Usage;
    }
    if argc >= 3 && argv[argc - 1] == "hack" {
      hack := true;
      argc := argc - 1;
    }
    if argc != 2 && argc != 3 {
      return Usage;
    }
    if argc == 3 {
      pid := Some(argv[1]);
      if argv[1] != "self" {
        var tmp := Strtol(argv[1], 10);
        PidIsNumeral(argv[1]);
        if tmp.end == 0 || tmp.end != |argv[1]| || tmp.erange || tmp.value < 1 || tmp.value > 0x7fff_ffff {
          return InvalidPid;
        }
      }
    }
    var text := argv[argc - 1];
    var addr := Strtoul(text, 0);
    AddressIsNumeral(text);
    if addr.end == 0 || addr.end != |text| || addr.erange {
      return InvalidAddress;
    }
    out := Report(pid, addr.value, hack);
  }

  lemma PidIsNumeral(s: string)
    ensures var r := Strtol(s, 10);
            IsPid(s) <==> r.end == |s| != 0 && !r.erange && 1 <= r.value <= 0x7fff_ffff
  {
    var r := Strtol(s, 10);
    if r.end == |s| != 0 && !r.erange && 1 <= r.value <= 0x7fff_ffff {
      var space, sign, prefix, digits, b := FullScanIsNumeral(s, 10);
    }
    if IsPid(s) {
      var space, sign, digits :| Numeral(s, space, sign, "", digits, 10, 10) && sign != "-" && 1 <= Number(digits, 10) <= 0x7fff_ffff;
      NumeralIsFullScan(s, space, sign, "", digits, 10, 10);
    }
  }

  /** The PIDs accepted, spelled out: white space, a plus sign or none, any number of zeros, and a
      number from 1 to 2147483647 in decimal. */
  lemma PidIsDecimal(s: string)
    ensures IsPid(s) <==> exists space, sign, t, n ::
              SignedDecimal(s, space, sign, t, n) && sign != "-" && 1 <= n <= 2147483647
  {
    hide Number, Numeral, SignedDecimal;
    if IsPid(s) {
      var space, sign, digits :| Numeral(s, space, sign, "", digits, 10, 10) && sign != "-" && 1 <= Number(digits, 10) <= 0x7fff_ffff;
      DecimalIsNumeral(s, space, sign, digits, Number(digits, 10));
    }
    if exists space, sign, t, n :: SignedDecimal(s, space, sign, t, n) && sign != "-" && 1 <= n <= 2147483647 {
      var space, sign, t, n :| SignedDecimal(s, space, sign, t, n) && sign != "-" && 1 <= n <= 2147483647;
      DecimalIsNumeral(s, space, sign, t, n);
    }
  }

  /** The addresses accepted, spelled out, and what they denote: a minus sign negates modulo 2^64. */
  lemma AddressIsConstant(s: string, addr: nat)
    ensures IsAddress(s, addr) <==> exists space, sign, t, n: nat ::
              SignedConstant(s, space, sign, t, n) && n <= 0xffff_ffff_ffff_ffff &&
              addr == if sign == "-" && n > 0 then 0x1_0000_0000_0000_0000 - n else n
  {
    hide Number, Numeral, SignedConstant;
    if IsAddress(s, addr) {
      var space, sign, prefix, digits, b :| Numeral(s, space, sign, prefix, digits, 0, b) && Number(digits, b) <= ULONG_MAX &&
        addr == Signed(sign, Number(digits, b));
      NumeralIsConstant(s, space, sign, prefix, digits, b);
    }
    if exists space, sign, t, n: nat :: SignedConstant(s, space, sign, t, n) && n <= 0xffff_ffff_ffff_ffff &&
              addr == if sign == "-" && n > 0 then 0x1_0000_0000_0000_0000 - n else n {
      var space, sign, t, n: nat :| SignedConstant(s, space, sign, t, n) && n <= 0xffff_ffff_ffff_ffff &&
              addr == if sign == "-" && n > 0 then 0x1_0000_0000_0000_0000 - n else n;
      var prefix, digits, b := ConstantIsNumeral(s, space, sign, t, n);
    }
  }

  /** Whether a PID is accepted says nothing about its length: "0...01" is accepted with any number
      of zeros, and its path fits exactly up to 113 characters. */
  lemma AcceptedPidsFit(n: nat)
    requires n > 0
    ensures var pid := Zeros(n - 1) + Digits(1, 10); IsPid(pid) && |pid| == n
    ensures forall pid: string :: |pid| == n ==> (PathFits(pid) <==> n <= 113)
  {
    hide IsPid, Spells;
    var pid := Zeros(n - 1) + Digits(1, 10);
    DigitsSpellThemselves(n - 1, 1, 10);
    assert pid == "" + "" + pid;
    assert SignedDecimal(pid, "", "", pid, 1);
    PidIsDecimal(pid);
  }

  lemma AddressIsNumeral(s: string)
    ensures var r := Strtoul(s, 0);
            if r.end == |s| != 0 && !r.erange then r.value >= 0 && IsAddress(s, r.value)
            else forall a :: !IsAddress(s, a)
    ensures forall a :: IsAddress(s, a) ==> a == Strtoul(s, 0).value
  {
    var r := Strtoul(s, 0);
    if r.end == |s| != 0 && !r.erange {
      var space, sign, prefix, digits, b := FullScanIsNumeral(s, 0);
    }
    forall a | IsAddress(s, a)
      ensures r.end == |s| != 0 && !r.erange && a == r.value
    {
      var space, sign, prefix, digits, b :| Numeral(s, space, sign, prefix, digits, 0, b) && Number(digits, b) <= ULONG_MAX &&
        a == Signed(sign, Number(digits, b));
      NumeralIsFullScan(s, space, sign, prefix, digits, 0, b);
    }
  }

  // ---------------------------------------------------------------------------
  // Pagemap words

  lemma FlagBitsAreApart()
    ensures PM_FLAGS == PM_PRESENT | PM_SWAP | PM_FILE | PM_UFFD_WP | PM_MMAP_EXCLUSIVE | PM_SOFT_DIRTY
    ensures PM_FLAGS & PM_PFRAME_MASK == 0
    ensures PM_SWAP_TYPE_MASK & PM_SWAP_OFFSET_MASK == 0
    ensures PM_SWAP_TYPE_MASK | PM_SWAP_OFFSET_MASK == PM_PFRAME_MASK
  {
  }

  /** Swap type and offset together are exactly the frame bits. */
  lemma SwapIsLossless(pm: bv64)
    ensures (SwapOffset(pm) << 5) | SwapType(pm) == PfnOf(pm)
  {
  }

  function EncodeSwap(flags: bv64, swapType: bv64, offset: bv64): bv64 {
    flags | swapType | (offset << 5)
  }

  lemma SwapTypeRoundTrip(flags: bv64, swapType: bv64, offset: bv64)
    requires flags & PM_FLAGS == flags && swapType <= 0x1f && offset < 0x4_0000_0000_0000
    ensures SwapType(EncodeSwap(flags, swapType, offset)) == swapType
  {
  }

  lemma SwapOffsetRoundTrip(flags: bv64, swapType: bv64, offset: bv64)
    requires flags & PM_FLAGS == flags && swapType <= 0x1f && offset < 0x4_0000_0000_0000
    ensures SwapOffset(EncodeSwap(flags, swapType, offset)) == offset
  {
  }

  /** The frame number and the flags of a present page do not disturb each other. */
  lemma PfnRoundTrip(flags: bv64, pfn: bv64)
    requires flags & PM_FLAGS == flags && pfn & PM_PFRAME_MASK == pfn
    ensures PfnOf(flags | pfn) == pfn && (flags | pfn) & PM_FLAGS == flags
  {
  }

  lemma SwapFlagsRoundTrip(flags: bv64, swapType: bv64, offset: bv64)
    requires flags & PM_FLAGS == flags && swapType <= 0x1f && offset < 0x4_0000_0000_0000
    ensures EncodeSwap(flags, swapType, offset) & PM_FLAGS == flags
  {
  }

  // ---------------------------------------------------------------------------
  // The address printed, used as an argument

  /** What is left of a frame number in an address of 64 bits. */
  function Truncated(pfn: bv64): bv64 {
    pfn & 0x000f_ffff_ffff_ffff
  }

  lemma PaddrPfn(pm: bv64, vaddr: bv64)
    ensures PaddrOf(pm, vaddr) >> 12 == Truncated(PfnOf(pm))
  {
  }

  lemma OffsetsDiffer(p: bv64, q: bv64)
    requires p < 0x80_0000_0000_0000 && q < 0x80_0000_0000_0000
    ensures KpageOffset(p) == KpageOffset(q) <==> p == q
  {
  }

  lemma PfnBound(pm: bv64)
    ensures PfnOf(pm) < 0x80_0000_0000_0000 && Truncated(PfnOf(pm)) < 0x80_0000_0000_0000
  {
  }

  lemma TruncatedIsSame(pfn: bv64)
    ensures Truncated(pfn) == pfn <==> pfn < 0x10_0000_0000_0000
  {
  }

  lemma WordRoundTrip(w: bv64)
    ensures w as nat <= ULONG_MAX && (w as nat) as bv64 == w
  {
  }

  lemma HexIsRead(name: string, n: nat)
    requires n <= ULONG_MAX
    ensures var text := "0x" + Digits(n, 16);
            && RequestOf([name, text]) == Some(Request(None, text, false))
            && RequestOf([name, text, "hack"]) == Some(Request(None, text, true))
            && forall a :: IsAddress(text, a) <==> a == n
  {
    hide Digits, Strtoul, IsAddress, Signed;
    ConstantsAreRead(n);
    AddressIsNumeral("0x" + Digits(n, 16));
  }

  /** The physical address printed for a page, given as the PADDR argument, is accepted and read as
      the same number. */
  lemma PaddrIsReadBack(name: string, pm: bv64, vaddr: bv64)
    ensures var text := "0x" + Digits(PaddrOf(pm, vaddr) as nat, 16);
            && RequestOf([name, text]) == Some(Request(None, text, false))
            && RequestOf([name, text, "hack"]) == Some(Request(None, text, true))
            && forall a :: IsAddress(text, a) <==> a == PaddrOf(pm, vaddr) as nat
    ensures (PaddrOf(pm, vaddr) as nat) as bv64 == PaddrOf(pm, vaddr)
  {
    hide *;
    WordRoundTrip(PaddrOf(pm, vaddr));
    HexIsRead(name, PaddrOf(pm, vaddr) as nat);
  }

  /** In virtual mode, if the path fits, the kpage words are those of the frame number of the entry;
      in physical mode, for the address printed, those of the frame number modulo 2^52. These are the
      same words, whatever the files hold, exactly if the frame number is below 2^52. */
  lemma PaddrSelects(files: Files, pid: string, vaddr: bv64, hack: bool)
    requires IsSet(PM_PRESENT, files.pagemap(pid, PagemapOffset(vaddr)))
    ensures var pm := files.pagemap(pid, PagemapOffset(vaddr));
            var paddr := PaddrOf(pm, vaddr);
            && DumpPageInfo(files, Some(pid), vaddr, hack) ==
               [Address(true, vaddr, vaddr & !PAGE_OFFSET_MASK)] +
               (if PathFits(pid) then
                  [PhysicalAddress(paddr, PfnOf(pm) << 12, PfnOf(pm)), Pagemap(pm, PagemapNames(pm))] +
                  DumpKpage(files, PfnOf(pm), hack)
                else [PathOverflow])
            && DumpPageInfo(files, None, paddr, hack) ==
               [Address(false, paddr, paddr & !PAGE_OFFSET_MASK)] + DumpKpage(files, Truncated(PfnOf(pm)), hack)
            && ((forall any: Files :: DumpKpage(any, Truncated(PfnOf(pm)), hack) == DumpKpage(any, PfnOf(pm), hack)) <==>
                PfnOf(pm) < 0x10_0000_0000_0000)
  {
    hide *;
    var pm := files.pagemap(pid, PagemapOffset(vaddr));
    VirtualLines(files, pid, vaddr, hack);
    PhysicalLines(files, pm, vaddr, hack);
    SameWords(PfnOf(pm), pm, hack);
  }

  lemma VirtualLines(files: Files, pid: string, vaddr: bv64, hack: bool)
    requires IsSet(PM_PRESENT, files.pagemap(pid, PagemapOffset(vaddr)))
    ensures var pm := files.pagemap(pid, PagemapOffset(vaddr));
            DumpPageInfo(files, Some(pid), vaddr, hack) ==
              [Address(true, vaddr, vaddr & !PAGE_OFFSET_MASK)] +
              (if PathFits(pid) then
                 [PhysicalAddress(PaddrOf(pm, vaddr), PfnOf(pm) << 12, PfnOf(pm)), Pagemap(pm, PagemapNames(pm))] +
                 DumpKpage(files, PfnOf(pm), hack)
               else [PathOverflow])
  {
    hide PaddrOf, PfnOf, DumpKpage, PagemapNames, PagemapOffset, PathFits;
    PresentHasFlags(files.pagemap(pid, PagemapOffset(vaddr)));
  }

  lemma PhysicalLines(files: Files, pm: bv64, vaddr: bv64, hack: bool)
    ensures DumpPageInfo(files, None, PaddrOf(pm, vaddr), hack) ==
      [Address(false, PaddrOf(pm, vaddr), PaddrOf(pm, vaddr) & !PAGE_OFFSET_MASK)] +
      DumpKpage(files, Truncated(PfnOf(pm)), hack)
  {
    hide PaddrOf, PfnOf, Truncated, DumpKpage;
    PaddrPfn(pm, vaddr);
  }

  lemma SamePlace(pfn: bv64, pm: bv64)
    requires pfn == PfnOf(pm)
    ensures KpageOffset(Truncated(pfn)) == KpageOffset(pfn) <==> pfn < 0x10_0000_0000_0000
  {
    hide KpageOffset, Truncated, PfnOf;
    PfnBound(pm);
    TruncatedIsSame(pfn);
    OffsetsDiffer(Truncated(pfn), pfn);
  }

  /** Words read at different places differ for some files. */
  lemma SameWords(pfn: bv64, pm: bv64, hack: bool)
    requires pfn == PfnOf(pm)
    ensures (forall any: Files :: DumpKpage(any, Truncated(pfn), hack) == DumpKpage(any, pfn, hack)) <==>
            pfn < 0x10_0000_0000_0000
  {
    hide Truncated, PfnOf, KpageOffset, KpageWords;
    SamePlace(pfn, pm);
    TruncatedIsSame(pfn);
    if forall any: Files :: DumpKpage(any, Truncated(pfn), hack) == DumpKpage(any, pfn, hack) {
      var offsets := Files((pid, offset) => 0, offset => 0, offset => offset);
      assert DumpKpage(offsets, Truncated(pfn), hack)[1] == DumpKpage(offsets, pfn, hack)[1];
    }
  }

  // ---------------------------------------------------------------------------
  // The whole output

  /** The lines for a pagemap word: frame number and physical address of a page that is present, type
      and offset of one in swap, and the flags, if there are any. */
  lemma PagemapLines(pm: bv64, vaddr: bv64)
    ensures var pfn := pm & 0x007f_ffff_ffff_ffff;
            DumpPagemap(pm, vaddr) ==
              if IsSet(0x8000_0000_0000_0000, pm) then
                [PhysicalAddress((pfn << 12) | (vaddr & 0xfff), pfn << 12, pfn), Pagemap(pm, PagemapNames(pm))]
              else if IsSet(0x4000_0000_0000_0000, pm) then
                [SwapEntry(pm & 0x1f, (pm >> 5) & 0x3_ffff_ffff_ffff), Pagemap(pm, PagemapNames(pm))]
              else if IsSet(0x2380_0000_0000_0000, pm) then [Pagemap(pm, PagemapNames(pm))]
              else [PageDoesNotExist(pm)]
  {
    hide PagemapNames, PaddrOf, PfnOf, SwapType, SwapOffset, IsSet;
    PfnBits(pm, vaddr);
    SwapTypeBits(pm);
    SwapOffsetBits(pm);
    FlagBits(pm);
  }

  lemma PfnBits(pm: bv64, vaddr: bv64)
    ensures PfnOf(pm) == pm & 0x007f_ffff_ffff_ffff
    ensures PaddrOf(pm, vaddr) == ((pm & 0x007f_ffff_ffff_ffff) << 12) | (vaddr & 0xfff)
  {
  }

  lemma SwapTypeBits(pm: bv64)
    ensures SwapType(pm) == pm & 0x1f
  {
  }

  /** The lines for a frame: the words at eight times its number. */
  lemma KpageLines(files: Files, pfn: bv64, hack: bool)
    ensures DumpKpage(files, pfn, hack) ==
      [KpageFlags(files.kpageflags(pfn * 8), KpageWords(files.kpageflags(pfn * 8), hack)),
       KpageCount(files.kpagecount(pfn * 8))]
  {
    hide KpageWords;
  }

  /** The whole output in virtual mode, if the path fits: what the word at eight times the page number
      says and, if the page is present, the lines for its frame. */
  lemma VirtualOutput(files: Files, pid: string, vaddr: bv64, hack: bool)
    ensures var pm := files.pagemap(pid, (vaddr >> 12) * 8);
            var pfn := pm & 0x007f_ffff_ffff_ffff;
            DumpPageInfo(files, Some(pid), vaddr, hack) ==
              [Address(true, vaddr, vaddr & 0xffff_ffff_ffff_f000)] +
              (if |pid| > 113 then [PathOverflow]
               else DumpPagemap(pm, vaddr) + (if IsSet(0x8000_0000_0000_0000, pm) then DumpKpage(files, pfn, hack) else []))
  {
    hide DumpPagemap, DumpKpage, IsSet, PfnOf, PagemapOffset, PathFits;
    var pm := files.pagemap(pid, (vaddr >> 12) * 8);
    OffsetBits(vaddr);
    PfnBits(pm, vaddr);
    PathLength(pid);
    AddressMask(vaddr);
  }

  lemma OffsetBits(vaddr: bv64)
    ensures PagemapOffset(vaddr) == (vaddr >> 12) * 8
  {
  }

  lemma PathLength(pid: string)
    ensures PathFits(pid) <==> |pid| <= 113
  {
  }

  /** The whole output in physical mode. */
  lemma PhysicalOutput(files: Files, addr: bv64, hack: bool)
    ensures DumpPageInfo(files, None, addr, hack) ==
      [Address(false, addr, addr & 0xffff_ffff_ffff_f000)] + DumpKpage(files, addr >> 12, hack)
  {
    hide DumpKpage;
    AddressMask(addr);
  }

  /** For a page in swap, whatever its type, offset and flags, these are what is printed, and there is
      no line of kpageflags or kpagecount. */
  lemma SwappedOutput(files: Files, pid: string, vaddr: bv64, hack: bool, flags: bv64, swapType: bv64, offset: bv64)
    requires |pid| <= 113
    requires flags & 0x6380_0000_0000_0000 == flags && flags & 0x4000_0000_0000_0000 != 0
    requires swapType <= 0x1f && offset < 0x4_0000_0000_0000
    requires files.pagemap(pid, (vaddr >> 12) * 8) == flags | swapType | (offset << 5)
    ensures var pm := flags | swapType | (offset << 5);
            DumpPageInfo(files, Some(pid), vaddr, hack) ==
              [Address(true, vaddr, vaddr & 0xffff_ffff_ffff_f000), SwapEntry(swapType, offset), Pagemap(pm, PagemapNames(pm))]
  {
    hide DumpPageInfo, DumpPagemap, PagemapNames, IsSet;
    var pm := flags | swapType | (offset << 5);
    VirtualOutput(files, pid, vaddr, hack);
    PagemapLines(pm, vaddr);
    SwapBits(flags, swapType, offset);
  }

  lemma SwapBits(flags: bv64, swapType: bv64, offset: bv64)
    requires flags & 0x6380_0000_0000_0000 == flags && flags & 0x4000_0000_0000_0000 != 0
    requires swapType <= 0x1f && offset < 0x4_0000_0000_0000
    ensures var pm := flags | swapType | (offset << 5);
            && !IsSet(0x8000_0000_0000_0000, pm) && IsSet(0x4000_0000_0000_0000, pm)
            && pm & 0x1f == swapType && (pm >> 5) & 0x3_ffff_ffff_ffff == offset
  {
  }

  ghost predicate Decreasing(words: seq<Word>) {
    forall i, j :: 0 <= i < j < |words| ==> Bit(words[i]) > Bit(words[j])
  }

  lemma NameAppended(words: seq<Word>, mask: bv64, x: Word, pm: bv64)
    requires Decreasing(words) && forall y :: y in words ==> Bit(y) > Bit(x)
    ensures Decreasing(words + Name(mask, x, pm))
    ensures forall y :: y in words + Name(mask, x, pm) <==> y in words || (y == x && IsSet(mask, pm))
  {
    hide Bit, IsSet;
  }

  lemma OneName(mask: bv64, x: Word, pm: bv64)
    ensures Decreasing(Name(mask, x, pm))
    ensures forall y :: y in Name(mask, x, pm) <==> y == x && IsSet(mask, pm)
  {
    hide Bit, IsSet;
  }

  lemma PagemapBits()
    ensures Bit(PRESENT) == 63 && Bit(SWAP) == 62 && Bit(FILE_OR_SHANON) == 61
    ensures Bit(UFFD_WP) == 57 && Bit(MMAP_EXCLUSIVE) == 56 && Bit(SOFT_DIRTY) == 55
  {
  }

  /** Which names a pagemap word has, from the highest bit down. */
  lemma PagemapWords(pm: bv64)
    ensures PRESENT in PagemapNames(pm) <==> IsSet(0x8000_0000_0000_0000, pm)
    ensures SWAP in PagemapNames(pm) <==> IsSet(0x4000_0000_0000_0000, pm)
    ensures FILE_OR_SHANON in PagemapNames(pm) <==> IsSet(0x2000_0000_0000_0000, pm)
    ensures UFFD_WP in PagemapNames(pm) <==> IsSet(0x0200_0000_0000_0000, pm)
    ensures MMAP_EXCLUSIVE in PagemapNames(pm) <==> IsSet(0x0100_0000_0000_0000, pm)
    ensures SOFT_DIRTY in PagemapNames(pm) <==> IsSet(0x0080_0000_0000_0000, pm)
    ensures forall x :: x in PagemapNames(pm) ==> x in {PRESENT, SWAP, FILE_OR_SHANON, UFFD_WP, MMAP_EXCLUSIVE, SOFT_DIRTY}
    ensures Decreasing(PagemapNames(pm))
  {
    hide Bit, IsSet, Name, Decreasing, PagemapNames;
    PagemapBits();
    NamesAre(pm);
  }

  function FirstNames(pm: bv64): seq<Word> {
    Name(PM_PRESENT, PRESENT, pm) + Name(PM_SWAP, SWAP, pm) + Name(PM_FILE, FILE_OR_SHANON, pm)
  }

  lemma FirstNamesAre(pm: bv64)
    ensures Decreasing(FirstNames(pm))
    ensures forall x :: x in FirstNames(pm) <==>
              || (x == PRESENT && IsSet(PM_PRESENT, pm)) || (x == SWAP && IsSet(PM_SWAP, pm))
              || (x == FILE_OR_SHANON && IsSet(PM_FILE, pm))
  {
    hide Bit, IsSet, Name, Decreasing;
    PagemapBits();
    var one := Name(PM_PRESENT, PRESENT, pm);
    var two := one + Name(PM_SWAP, SWAP, pm);
    assert FirstNames(pm) == two + Name(PM_FILE, FILE_OR_SHANON, pm);
    hide FirstNames;
    OneName(PM_PRESENT, PRESENT, pm);
    NameAppended(one, PM_SWAP, SWAP, pm);
    NameAppended(two, PM_FILE, FILE_OR_SHANON, pm);
  }

  lemma NamesAre(pm: bv64)
    ensures Decreasing(PagemapNames(pm))
    ensures forall x :: x in PagemapNames(pm) <==>
              || (x == PRESENT && IsSet(PM_PRESENT, pm)) || (x == SWAP && IsSet(PM_SWAP, pm))
              || (x == FILE_OR_SHANON && IsSet(PM_FILE, pm)) || (x == UFFD_WP && IsSet(PM_UFFD_WP, pm))
              || (x == MMAP_EXCLUSIVE && IsSet(PM_MMAP_EXCLUSIVE, pm)) || (x == SOFT_DIRTY && IsSet(PM_SOFT_DIRTY, pm))
  {
    hide Bit, IsSet, Name, Decreasing;
    PagemapBits();
    FirstNamesAre(pm);
    var three := FirstNames(pm);
    var four := three + Name(PM_UFFD_WP, UFFD_WP, pm);
    var five := four + Name(PM_MMAP_EXCLUSIVE, MMAP_EXCLUSIVE, pm);
    assert PagemapNames(pm) == five + Name(PM_SOFT_DIRTY, SOFT_DIRTY, pm);
    hide FirstNames, PagemapNames;
    NameAppended(three, PM_UFFD_WP, UFFD_WP, pm);
    NameAppended(four, PM_MMAP_EXCLUSIVE, MMAP_EXCLUSIVE, pm);
    NameAppended(five, PM_SOFT_DIRTY, SOFT_DIRTY, pm);
  }

  lemma SwapOffsetBits(pm: bv64)
    ensures SwapOffset(pm) == (pm >> 5) & 0x3_ffff_ffff_ffff
  {
  }

  lemma AddressMask(addr: bv64)
    ensures addr & !PAGE_OFFSET_MASK == addr & 0xffff_ffff_ffff_f000
  {
  }

  lemma FlagBits(pm: bv64)
    ensures IsSet(PM_FLAGS, pm) <==>
      IsSet(0x8000_0000_0000_0000, pm) || IsSet(0x4000_0000_0000_0000, pm) || IsSet(0x2380_0000_0000_0000, pm)
  {
  }

  lemma PresentHasFlags(pm: bv64)
    requires IsSet(PM_PRESENT, pm)
    ensures IsSet(PM_FLAGS, pm)
  {
  }

  // ---------------------------------------------------------------------------
  // The words printed for kpageflags

  /** The two words agree in the bits of the mask. */
  predicate Same(mask: bv64, k: bv64, l: bv64) {
    k & mask == l & mask
  }

  predicate OneBit(mask: bv64) {
    mask & (mask - 1) == 0
  }

  function Or(a: bv64, b: bv64): bv64 {
    a | b
  }

  /** `n` bits from the one in `mask` up. */
  function Span(mask: bv64, n: nat): bv64
    decreases n
  {
    if n == 0 then 0 else Or(mask, Span(mask << 1, n - 1))
  }

  lemma SameBoth(k: bv64, l: bv64, a: bv64, b: bv64)
    requires Same(a, k, l) && Same(b, k, l)
    ensures Same(Or(a, b), k, l)
  {
  }

  lemma SameFirst(k: bv64, l: bv64, a: bv64, b: bv64)
    requires Same(Or(a, b), k, l)
    ensures Same(a, k, l)
  {
  }

  lemma SameSecond(k: bv64, l: bv64, a: bv64, b: bv64)
    requires Same(Or(a, b), k, l)
    ensures Same(b, k, l)
  {
  }

  lemma SameNothing(k: bv64, l: bv64)
    ensures Same(0, k, l)
  {
  }

  lemma OneBitOf(mask: bv64, k: bv64)
    requires OneBit(mask)
    ensures k & mask == 0 || k & mask == mask
  {
  }

  lemma NextBit(mask: bv64)
    requires OneBit(mask)
    ensures OneBit(mask << 1)
  {
  }

  lemma SetIsSame(mask: bv64, k: bv64, l: bv64)
    requires OneBit(mask)
    ensures IsSet(mask, k) == IsSet(mask, l) <==> Same(mask, k, l)
  {
    OneBitOf(mask, k);
    OneBitOf(mask, l);
  }

  lemma {:induction false} NamesAreListed(list: seq<Word>, mask: bv64, k: bv64, x: Word)
    requires x in Names(list, mask, k)
    ensures x in list
  {
    hide IsSet;
    if !(IsSet(mask, k) && x == list[0]) {
      NamesAreListed(list[1..], mask << 1, k, x);
    }
  }

  lemma HeadName(list: seq<Word>, mask: bv64, k: bv64, l: bv64)
    requires list != [] && Distinct(list)
    requires IsSet(mask, k) && !IsSet(mask, l)
    ensures Names(list, mask, k) != Names(list, mask, l)
  {
    hide IsSet;
    if Names(list, mask, k) == Names(list, mask, l) {
      assert Names(list, mask, k)[0] == list[0];
      NamesAreListed(list[1..], mask << 1, l, list[0]);
    }
  }

  lemma SameSpan(mask: bv64, n: nat, k: bv64, l: bv64)
    requires n > 0
    ensures Same(Span(mask, n), k, l) <==> Same(mask, k, l) && Same(Span(mask << 1, n - 1), k, l)
  {
    hide Same, Or;
    var a, b := mask, Span(mask << 1, n - 1);
    if Same(Or(a, b), k, l) {
      SameFirst(k, l, a, b);
      SameSecond(k, l, a, b);
    } else if Same(a, k, l) && Same(b, k, l) {
      SameBoth(k, l, a, b);
    }
  }

  /** The names printed from a list tell all the bits that have a name in it. */
  lemma {:induction false} NamesTellBits(list: seq<Word>, mask: bv64, k: bv64, l: bv64)
    requires Distinct(list) && OneBit(mask)
    ensures Names(list, mask, k) == Names(list, mask, l) <==> Same(Span(mask, |list|), k, l)
  {
    hide IsSet, Same, OneBit, Span;
    if list == [] {
      SpanOfNone(mask);
      SameNothing(k, l);
    } else {
      var rest := list[1..];
      NextBit(mask);
      NamesTellBits(rest, mask << 1, k, l);
      SetIsSame(mask, k, l);
      SameSpan(mask, |list|, k, l);
      if IsSet(mask, k) && !IsSet(mask, l) {
        HeadName(list, mask, k, l);
      } else if IsSet(mask, l) && !IsSet(mask, k) {
        HeadName(list, mask, l, k);
      } else {
        var h := if IsSet(mask, k) then [list[0]] else [];
        assert Names(list, mask, k)[|h|..] == Names(rest, mask << 1, k);
        assert Names(list, mask, l)[|h|..] == Names(rest, mask << 1, l);
      }
    }
  }

  lemma SpanOfNone(mask: bv64)
    ensures Span(mask, 0) == 0
  {
  }

  const KPF_PRINTED: bv64 := 0x03ff_ffff

  lemma KpfSpan()
    ensures Span(0x1, 26) == KPF_PRINTED
  {
    assert Span(0x2000, 13) == 0x3ff_e000;
  }

  lemma HackSpan()
    ensures Span(0x1_0000_0000, 11) == KPF_HACK_FLAGS
  {
  }

  /** The number of the flag that a word stands for; the fixed words have one between the two lists. */
  function Bit(x: Word): nat {
    match x
    case LOCKED => 0
    case ERROR => 1
    case REFERENCED => 2
    case UPTODATE => 3
    case DIRTY => 4
    case LRU => 5
    case ACTIVE => 6
    case SLAB => 7
    case WRITEBACK => 8
    case RECLAIM => 9
    case BUDDY => 10
    case MMAP => 11
    case ANON => 12
    case SWAPCACHE => 13
    case SWAPBACKED => 14
    case COMPOUND_HEAD => 15
    case COMPOUND_TAIL => 16
    case HUGE => 17
    case UNEVICTABLE => 18
    case HWPOISON => 19
    case NOPAGE => 20
    case KSM => 21
    case THP => 22
    case BALLOON => 23
    case ZERO_PAGE => 24
    case IDLE => 25
    case RESERVED => 32
    case MLOCKED => 33
    case MAPPEDTODISK => 34
    case PRIVATE => 35
    case PRIVATE_2 => 36
    case OWNER_PRIVATE => 37
    case ARCH => 38
    case UNCACHED => 39
    case SOFTDIRTY => 40
    case ARCH_2 => 41
    case ARCH_3 => 42
    case SOFT_DIRTY => 55
    case MMAP_EXCLUSIVE => 56
    case UFFD_WP => 57
    case FILE_OR_SHANON => 61
    case SWAP => 62
    case PRESENT => 63
    case _ => 31
  }

  lemma KpfBits0(i: nat)
    requires i < 9
    ensures Bit(KPF_NAMES_0_TO_8[i]) == i
  {
  }

  lemma KpfBits9(i: nat)
    requires i < 9
    ensures Bit(KPF_NAMES_9_TO_17[i]) == i + 9
  {
  }

  lemma KpfBits18(i: nat)
    requires i < 8
    ensures Bit(KPF_NAMES_18_TO_25[i]) == i + 18
  {
  }

  lemma KpfBits(i: nat)
    requires i < |KPF_NAMES|
    ensures |KPF_NAMES| == 26 && Bit(KPF_NAMES[i]) == i
  {
    hide Bit;
    if i < 9 {
      KpfBits0(i);
    } else if i < 18 {
      KpfBits9(i - 9);
    } else {
      KpfBits18(i - 18);
    }
  }

  lemma HackBits32(i: nat)
    requires i < 6
    ensures Bit(HACK_NAMES_32_TO_37[i]) == i + 32
  {
  }

  lemma HackBits38(i: nat)
    requires i < 5
    ensures Bit(HACK_NAMES_38_TO_42[i]) == i + 38
  {
  }

  lemma HackBits(i: nat)
    requires i < |HACK_NAMES|
    ensures |HACK_NAMES| == 11 && Bit(HACK_NAMES[i]) == i + 32
  {
    hide Bit;
    if i < 6 {
      HackBits32(i);
    } else {
      HackBits38(i - 6);
    }
  }

  lemma ListsAreDistinct()
    ensures Distinct(KPF_NAMES) && Distinct(HACK_NAMES)
  {
    hide Bit;
    forall i, j | 0 <= i < j < |KPF_NAMES|
      ensures KPF_NAMES[i] != KPF_NAMES[j]
    {
      KpfBits(i);
      KpfBits(j);
    }
    forall i, j | 0 <= i < j < |HACK_NAMES|
      ensures HACK_NAMES[i] != HACK_NAMES[j]
    {
      HackBits(i);
      HackBits(j);
    }
  }

  predicate IsFixedWord(x: Word) {
    x == HackSeparator || x == HackHeading || x == NoKnownFlags
  }

  lemma FixedBit(x: Word)
    ensures IsFixedWord(x) ==> Bit(x) == 31
  {
  }

  function KpfNames(k: bv64): seq<Word> {
    Names(KPF_NAMES, 0x1, k)
  }

  function HackNames(k: bv64): seq<Word> {
    Names(HACK_NAMES, 0x1_0000_0000, k)
  }

  lemma KpfNamesAreNames(k: bv64, x: Word)
    requires x in KpfNames(k)
    ensures !IsFixedWord(x)
  {
    hide Bit, IsFixedWord;
    FixedBit(x);
    NamesAreListed(KPF_NAMES, 0x1, k, x);
    var i :| 0 <= i < |KPF_NAMES| && KPF_NAMES[i] == x;
    KpfBits(i);
  }

  lemma NamesOfZero(list: seq<Word>, mask: bv64)
    ensures Names(list, mask, 0) == []
  {
    if list != [] {
      NamesOfZero(list[1..], mask << 1);
      NoneSet(mask);
    }
  }

  lemma NoneSet(mask: bv64)
    ensures !IsSet(mask, 0)
  {
  }

  lemma SameAsZero(mask: bv64, k: bv64)
    ensures Same(mask, k, 0) <==> k & mask == 0
  {
  }

  lemma KpfNamesTell(k: bv64, l: bv64)
    ensures KpfNames(k) == KpfNames(l) <==> Same(KPF_PRINTED, k, l)
    ensures KpfNames(k) == [] <==> !IsSet(KPF_PRINTED, k)
  {
    hide Names, Same, Span, Distinct;
    ListsAreDistinct();
    KpfBits(0);
    KpfSpan();
    NamesTellBits(KPF_NAMES, 0x1, k, l);
    NamesTellBits(KPF_NAMES, 0x1, k, 0);
    NamesOfZero(KPF_NAMES, 0x1);
    SameAsZero(KPF_PRINTED, k);
  }

  lemma HackNamesTell(k: bv64, l: bv64)
    ensures HackNames(k) == HackNames(l) <==> Same(KPF_HACK_FLAGS, k, l)
    ensures HackNames(k) == [] <==> !IsSet(KPF_HACK_FLAGS, k)
  {
    hide Names, Same, Span, Distinct;
    ListsAreDistinct();
    HackBits(0);
    HackSpan();
    NamesTellBits(HACK_NAMES, 0x1_0000_0000, k, l);
    NamesTellBits(HACK_NAMES, 0x1_0000_0000, k, 0);
    NamesOfZero(HACK_NAMES, 0x1_0000_0000);
    SameAsZero(KPF_HACK_FLAGS, k);
  }

  lemma PrintedOrPgtable(k: bv64)
    ensures IsSet(KPF_FLAGS, k) <==> IsSet(KPF_PRINTED, k) || IsSet(KPF_PGTABLE, k)
  {
  }

  lemma FlagsOrHack(k: bv64)
    ensures IsSet(KPF_FLAGS | KPF_HACK_FLAGS, k) <==> IsSet(KPF_FLAGS, k) || IsSet(KPF_HACK_FLAGS, k)
  {
  }

  /** Some documented flag is set. */
  predicate Documented(k: bv64) {
    IsSet(KPF_PRINTED, k) || IsSet(KPF_PGTABLE, k)
  }

  /** What is printed after the names of documented flags. */
  function WordsAfter(k: bv64, hack: bool): seq<Word> {
    if hack && IsSet(KPF_HACK_FLAGS, k) then [if Documented(k) then HackSeparator else HackHeading] + HackNames(k)
    else if Documented(k) then []
    else [NoKnownFlags]
  }

  lemma KpageWordsAre(k: bv64, hack: bool)
    ensures KpageWords(k, hack) == KpfNames(k) + WordsAfter(k, hack)
  {
    hide Names, IsSet, Same;
    PrintedOrPgtable(k);
    FlagsOrHack(k);
    KpfNamesTell(k, k);
  }

  lemma WordsAfterTell(k: bv64, l: bv64, hack: bool)
    ensures WordsAfter(k, hack) == WordsAfter(l, hack) <==>
            Documented(k) == Documented(l) && (hack ==> HackNames(k) == HackNames(l))
  {
    hide IsSet, HackNames, Documented, Same;
    HackNamesTell(k, l);
    HackNamesTell(l, k);
    if hack && IsSet(KPF_HACK_FLAGS, k) {
      assert WordsAfter(k, hack)[1..] == HackNames(k);
    }
    if hack && IsSet(KPF_HACK_FLAGS, l) {
      assert WordsAfter(l, hack)[1..] == HackNames(l);
    }
  }

  lemma EarlyTail(a: seq<Word>, t: seq<Word>, b: seq<Word>, u: seq<Word>)
    requires |a| < |b| && !IsFixedWord(b[|a|])
    requires t != [] ==> IsFixedWord(t[0])
    ensures a + t != b + u
  {
    assert (b + u)[|a|] == b[|a|];
    if t != [] {
      assert (a + t)[|a|] == t[0];
    } else {
      assert |a + t| < |b + u|;
    }
  }

  /** Names followed by nothing or by a fixed word come apart in one way only. */
  lemma TailsApart(a: seq<Word>, t: seq<Word>, b: seq<Word>, u: seq<Word>)
    requires forall x :: x in a || x in b ==> !IsFixedWord(x)
    requires (t != [] ==> IsFixedWord(t[0])) && (u != [] ==> IsFixedWord(u[0]))
    ensures a + t == b + u <==> a == b && t == u
  {
    hide IsFixedWord;
    if |a| < |b| {
      EarlyTail(a, t, b, u);
    } else if |b| < |a| {
      EarlyTail(b, u, a, t);
    } else {
      assert a == (a + t)[..|a|] && b == (b + u)[..|b|];
      assert t == (a + t)[|a|..] && u == (b + u)[|b|..];
    }
  }

  /** What the words tell: all documented bits but KPF_PGTABLE, with the hack argument all bits of
      the other list as well, and KPF_PGTABLE, which has no name, exactly when no other documented
      bit is set. */
  lemma KpageWordsTell(k: bv64, l: bv64, hack: bool)
    ensures KpageWords(k, hack) == KpageWords(l, hack) <==>
            && Same(KPF_PRINTED, k, l)
            && (hack ==> Same(KPF_HACK_FLAGS, k, l))
            && (!IsSet(KPF_PRINTED, k) ==> Same(KPF_PGTABLE, k, l))
  {
    hide KpageWords, KpfNames, HackNames, WordsAfter, Same, IsSet;
    KpageWordsAre(k, hack);
    KpageWordsAre(l, hack);
    KpfNamesTell(k, l);
    KpfNamesTell(l, k);
    HackNamesTell(k, l);
    WordsAfterTell(k, l, hack);
    PgtableBit(k, l);
    forall x | x in KpfNames(k) || x in KpfNames(l)
      ensures !IsFixedWord(x)
    {
      if x in KpfNames(k) {
        KpfNamesAreNames(k, x);
      } else {
        KpfNamesAreNames(l, x);
      }
    }
    FixedFirst(k, hack);
    FixedFirst(l, hack);
    TailsApart(KpfNames(k), WordsAfter(k, hack), KpfNames(l), WordsAfter(l, hack));
  }

  lemma FixedFirst(k: bv64, hack: bool)
    ensures WordsAfter(k, hack) != [] ==> IsFixedWord(WordsAfter(k, hack)[0])
  {
    hide IsSet, HackNames, Documented;
  }

  lemma PgtableBit(k: bv64, l: bv64)
    ensures Same(KPF_PGTABLE, k, l) <==> IsSet(KPF_PGTABLE, k) == IsSet(KPF_PGTABLE, l)
  {
  }

  // ---------------------------------------------------------------------------
  // Which word stands for which bit

  /** Bit `i`, counted from the one in `mask`. */
  function BitAt(mask: bv64, i: nat): bv64
    decreases i
  {
    if i == 0 then mask else BitAt(mask << 1, i - 1)
  }

  lemma {:induction false} BitAtSum(mask: bv64, i: nat, j: nat)
    ensures BitAt(mask, i + j) == BitAt(BitAt(mask, i), j)
    decreases i
  {
    if i > 0 {
      BitAtSum(mask << 1, i - 1, j);
    }
  }

  lemma {:induction false} NameAt(list: seq<Word>, mask: bv64, k: bv64, i: nat)
    requires Distinct(list) && i < |list|
    ensures list[i] in Names(list, mask, k) <==> IsSet(BitAt(mask, i), k)
    decreases i
  {
    hide IsSet;
    var rest := list[1..];
    if i == 0 {
      if list[0] in Names(rest, mask << 1, k) {
        NamesAreListed(rest, mask << 1, k, list[0]);
      }
    } else {
      assert rest[i - 1] == list[i] != list[0];
      NameAt(rest, mask << 1, k, i - 1);
    }
  }

  /** A word is printed as a name from one of the lists or as one of the fixed words. */
  lemma WordsAreIn(k: bv64, hack: bool, x: Word)
    ensures x in KpageWords(k, hack) <==>
      || x in KpfNames(k)
      || (hack && IsSet(KPF_HACK_FLAGS, k) && (x in HackNames(k) || x == if Documented(k) then HackSeparator else HackHeading))
      || (x == NoKnownFlags && !Documented(k) && !(hack && IsSet(KPF_HACK_FLAGS, k)))
  {
    hide KpageWords, KpfNames, HackNames, Documented, IsSet;
    KpageWordsAre(k, hack);
  }

  lemma KpfNameBit(k: bv64, x: Word)
    requires x in KpfNames(k)
    ensures Bit(x) < 26
  {
    hide Names, Bit;
    NamesAreListed(KPF_NAMES, 0x1, k, x);
    var i :| 0 <= i < |KPF_NAMES| && KPF_NAMES[i] == x;
    KpfBits(i);
  }

  lemma HackNameBit(k: bv64, x: Word)
    requires x in HackNames(k)
    ensures 32 <= Bit(x) < 43
  {
    hide Names, Bit;
    NamesAreListed(HACK_NAMES, 0x1_0000_0000, k, x);
    var i :| 0 <= i < |HACK_NAMES| && HACK_NAMES[i] == x;
    HackBits(i);
  }

  lemma KpfWord(k: bv64, hack: bool, i: nat)
    requires i < 26
    ensures |KPF_NAMES| == 26 && (KPF_NAMES[i] in KpageWords(k, hack) <==> IsSet(BitAt(0x1, i), k))
  {
    hide Names, KpageWords, IsSet, Bit, Documented, IsFixedWord, Distinct, BitAt;
    KpfBits(0);
    var x := KPF_NAMES[i];
    KpfBits(i);
    ListsAreDistinct();
    NameAt(KPF_NAMES, 0x1, k, i);
    WordsAreIn(k, hack, x);
    FixedBits();
    if x in HackNames(k) {
      HackNameBit(k, x);
    }
  }

  lemma HackWord(k: bv64, hack: bool, i: nat)
    requires i < 11
    ensures |HACK_NAMES| == 11 && (HACK_NAMES[i] in KpageWords(k, hack) <==> hack && IsSet(BitAt(0x1_0000_0000, i), k))
  {
    hide Names, KpageWords, IsSet, Bit, Documented, IsFixedWord, Distinct, BitAt, Same;
    HackBits(0);
    var x := HACK_NAMES[i];
    HackBits(i);
    ListsAreDistinct();
    NameAt(HACK_NAMES, 0x1_0000_0000, k, i);
    WordsAreIn(k, hack, x);
    HackNamesTell(k, k);
    FixedBits();
    if x in KpfNames(k) {
      KpfNameBit(k, x);
    }
  }

  lemma FixedBits()
    ensures Bit(HackSeparator) == Bit(HackHeading) == Bit(NoKnownFlags) == 31
  {
  }

  lemma Words0To8(k: bv64, hack: bool)
    ensures LOCKED in KpageWords(k, hack) <==> k & 0x1 != 0
    ensures ERROR in KpageWords(k, hack) <==> k & 0x2 != 0
    ensures REFERENCED in KpageWords(k, hack) <==> k & 0x4 != 0
    ensures UPTODATE in KpageWords(k, hack) <==> k & 0x8 != 0
    ensures DIRTY in KpageWords(k, hack) <==> k & 0x10 != 0
    ensures LRU in KpageWords(k, hack) <==> k & 0x20 != 0
    ensures ACTIVE in KpageWords(k, hack) <==> k & 0x40 != 0
    ensures SLAB in KpageWords(k, hack) <==> k & 0x80 != 0
    ensures WRITEBACK in KpageWords(k, hack) <==> k & 0x100 != 0
  {
    hide Names, KpageWords, BitAt, Bit;
    KpfWord(k, hack, 0);
    KpfWord(k, hack, 1);
    KpfWord(k, hack, 2);
    KpfWord(k, hack, 3);
    KpfWord(k, hack, 4);
    KpfWord(k, hack, 5);
    KpfWord(k, hack, 6);
    KpfWord(k, hack, 7);
    KpfWord(k, hack, 8);
    BitsFrom0();
  }

  lemma BitsFrom0()
    ensures BitAt(0x1, 0) == 0x1
    ensures BitAt(0x1, 1) == 0x2
    ensures BitAt(0x1, 2) == 0x4
    ensures BitAt(0x1, 3) == 0x8
    ensures BitAt(0x1, 4) == 0x10
    ensures BitAt(0x1, 5) == 0x20
    ensures BitAt(0x1, 6) == 0x40
    ensures BitAt(0x1, 7) == 0x80
    ensures BitAt(0x1, 8) == 0x100
  {
  }

  lemma Words9To17(k: bv64, hack: bool)
    ensures RECLAIM in KpageWords(k, hack) <==> k & 0x200 != 0
    ensures BUDDY in KpageWords(k, hack) <==> k & 0x400 != 0
    ensures MMAP in KpageWords(k, hack) <==> k & 0x800 != 0
    ensures ANON in KpageWords(k, hack) <==> k & 0x1000 != 0
    ensures SWAPCACHE in KpageWords(k, hack) <==> k & 0x2000 != 0
    ensures SWAPBACKED in KpageWords(k, hack) <==> k & 0x4000 != 0
    ensures COMPOUND_HEAD in KpageWords(k, hack) <==> k & 0x8000 != 0
    ensures COMPOUND_TAIL in KpageWords(k, hack) <==> k & 0x1_0000 != 0
    ensures HUGE in KpageWords(k, hack) <==> k & 0x2_0000 != 0
  {
    hide Names, KpageWords, BitAt, Bit;
    KpfWord(k, hack, 9);
    KpfWord(k, hack, 10);
    KpfWord(k, hack, 11);
    KpfWord(k, hack, 12);
    KpfWord(k, hack, 13);
    KpfWord(k, hack, 14);
    KpfWord(k, hack, 15);
    KpfWord(k, hack, 16);
    KpfWord(k, hack, 17);
    BitsFrom9();
  }

  lemma BitsFrom9()
    ensures BitAt(0x1, 9) == 0x200
    ensures BitAt(0x1, 10) == 0x400
    ensures BitAt(0x1, 11) == 0x800
    ensures BitAt(0x1, 12) == 0x1000
    ensures BitAt(0x1, 13) == 0x2000
    ensures BitAt(0x1, 14) == 0x4000
    ensures BitAt(0x1, 15) == 0x8000
    ensures BitAt(0x1, 16) == 0x1_0000
    ensures BitAt(0x1, 17) == 0x2_0000
  {
    BitAtSum(0x1, 9, 0);
    BitAtSum(0x1, 9, 1);
    BitAtSum(0x1, 9, 2);
    BitAtSum(0x1, 9, 3);
    BitAtSum(0x1, 9, 4);
    BitAtSum(0x1, 9, 5);
    BitAtSum(0x1, 9, 6);
    BitAtSum(0x1, 9, 7);
    BitAtSum(0x1, 9, 8);
    BitsFrom0();
    BitAtSum(0x1, 8, 1);
  }

  lemma Words18To25(k: bv64, hack: bool)
    ensures UNEVICTABLE in KpageWords(k, hack) <==> k & 0x4_0000 != 0
    ensures HWPOISON in KpageWords(k, hack) <==> k & 0x8_0000 != 0
    ensures NOPAGE in KpageWords(k, hack) <==> k & 0x10_0000 != 0
    ensures KSM in KpageWords(k, hack) <==> k & 0x20_0000 != 0
    ensures THP in KpageWords(k, hack) <==> k & 0x40_0000 != 0
    ensures BALLOON in KpageWords(k, hack) <==> k & 0x80_0000 != 0
    ensures ZERO_PAGE in KpageWords(k, hack) <==> k & 0x100_0000 != 0
    ensures IDLE in KpageWords(k, hack) <==> k & 0x200_0000 != 0
  {
    hide Names, KpageWords, BitAt, Bit;
    KpfWord(k, hack, 18);
    KpfWord(k, hack, 19);
    KpfWord(k, hack, 20);
    KpfWord(k, hack, 21);
    KpfWord(k, hack, 22);
    KpfWord(k, hack, 23);
    KpfWord(k, hack, 24);
    KpfWord(k, hack, 25);
    BitsFrom18();
  }

  lemma BitsFrom18()
    ensures BitAt(0x1, 18) == 0x4_0000
    ensures BitAt(0x1, 19) == 0x8_0000
    ensures BitAt(0x1, 20) == 0x10_0000
    ensures BitAt(0x1, 21) == 0x20_0000
    ensures BitAt(0x1, 22) == 0x40_0000
    ensures BitAt(0x1, 23) == 0x80_0000
    ensures BitAt(0x1, 24) == 0x100_0000
    ensures BitAt(0x1, 25) == 0x200_0000
  {
    BitEighteen();
    BitAtSum(0x1, 18, 0);
    BitAtSum(0x1, 18, 1);
    BitAtSum(0x1, 18, 2);
    BitAtSum(0x1, 18, 3);
    BitAtSum(0x1, 18, 4);
    BitAtSum(0x1, 18, 5);
    BitAtSum(0x1, 18, 6);
    BitAtSum(0x1, 18, 7);
  }

  lemma BitEighteen()
    ensures BitAt(0x1, 18) == 0x4_0000
  {
    BitAtSum(0x1, 9, 9);
  }

  lemma HackWords32To37(k: bv64, hack: bool)
    ensures RESERVED in KpageWords(k, hack) <==> hack && k & 0x1_0000_0000 != 0
    ensures MLOCKED in KpageWords(k, hack) <==> hack && k & 0x2_0000_0000 != 0
    ensures MAPPEDTODISK in KpageWords(k, hack) <==> hack && k & 0x4_0000_0000 != 0
    ensures PRIVATE in KpageWords(k, hack) <==> hack && k & 0x8_0000_0000 != 0
    ensures PRIVATE_2 in KpageWords(k, hack) <==> hack && k & 0x10_0000_0000 != 0
    ensures OWNER_PRIVATE in KpageWords(k, hack) <==> hack && k & 0x20_0000_0000 != 0
  {
    hide Names, KpageWords, BitAt, Bit;
    HackWord(k, hack, 0);
    HackWord(k, hack, 1);
    HackWord(k, hack, 2);
    HackWord(k, hack, 3);
    HackWord(k, hack, 4);
    HackWord(k, hack, 5);
    HackBitsFrom32();
  }

  lemma HackWords38To42(k: bv64, hack: bool)
    ensures ARCH in KpageWords(k, hack) <==> hack && k & 0x40_0000_0000 != 0
    ensures UNCACHED in KpageWords(k, hack) <==> hack && k & 0x80_0000_0000 != 0
    ensures SOFTDIRTY in KpageWords(k, hack) <==> hack && k & 0x100_0000_0000 != 0
    ensures ARCH_2 in KpageWords(k, hack) <==> hack && k & 0x200_0000_0000 != 0
    ensures ARCH_3 in KpageWords(k, hack) <==> hack && k & 0x400_0000_0000 != 0
  {
    hide Names, KpageWords, BitAt, Bit;
    HackWord(k, hack, 6);
    HackWord(k, hack, 7);
    HackWord(k, hack, 8);
    HackWord(k, hack, 9);
    HackWord(k, hack, 10);
    HackBitsFrom32();
  }

  lemma HackBitsFrom32()
    ensures BitAt(0x1_0000_0000, 0) == 0x1_0000_0000
    ensures BitAt(0x1_0000_0000, 1) == 0x2_0000_0000
    ensures BitAt(0x1_0000_0000, 2) == 0x4_0000_0000
    ensures BitAt(0x1_0000_0000, 3) == 0x8_0000_0000
    ensures BitAt(0x1_0000_0000, 4) == 0x10_0000_0000
    ensures BitAt(0x1_0000_0000, 5) == 0x20_0000_0000
    ensures BitAt(0x1_0000_0000, 6) == 0x40_0000_0000
    ensures BitAt(0x1_0000_0000, 7) == 0x80_0000_0000
    ensures BitAt(0x1_0000_0000, 8) == 0x100_0000_0000
    ensures BitAt(0x1_0000_0000, 9) == 0x200_0000_0000
    ensures BitAt(0x1_0000_0000, 10) == 0x400_0000_0000
  {
  }

  /** Which of the fixed words appear. */
  lemma FixedWords(k: bv64, hack: bool)
    ensures HackSeparator in KpageWords(k, hack) <==> hack && k & 0x07ff_0000_0000 != 0 && k & 0x07ff_ffff != 0
    ensures HackHeading in KpageWords(k, hack) <==> hack && k & 0x07ff_0000_0000 != 0 && k & 0x07ff_ffff == 0
    ensures NoKnownFlags in KpageWords(k, hack) <==>
              k & 0x07ff_ffff == 0 && !(hack && k & 0x07ff_0000_0000 != 0)
  {
    hide KpageWords, KpfNames, HackNames, Documented, Bit;
    FixedWord(k, hack, HackSeparator);
    FixedWord(k, hack, HackHeading);
    FixedWord(k, hack, NoKnownFlags);
    DocumentedBits(k);
  }

  lemma DocumentedBits(k: bv64)
    ensures Documented(k) <==> k & 0x07ff_ffff != 0
  {
    PrintedOrPgtable(k);
  }

  lemma FixedWord(k: bv64, hack: bool, x: Word)
    requires IsFixedWord(x)
    ensures x in KpageWords(k, hack) <==>
      || (hack && IsSet(KPF_HACK_FLAGS, k) && x == if Documented(k) then HackSeparator else HackHeading)
      || (x == NoKnownFlags && !Documented(k) && !(hack && IsSet(KPF_HACK_FLAGS, k)))
  {
    hide KpageWords, KpfNames, HackNames, Documented, Bit, IsSet;
    WordsAreIn(k, hack, x);
    FixedBit(x);
    if x in KpfNames(k) {
      KpfNameBit(k, x);
    }
    if x in HackNames(k) {
      HackNameBit(k, x);
    }
  }

  ghost predicate Increasing(words: seq<Word>) {
    forall i, j :: 0 <= i < j < |words| ==> Bit(words[i]) < Bit(words[j])
  }

  lemma {:induction false} NamesIncrease(list: seq<Word>, mask: bv64, k: bv64)
    requires Increasing(list)
    ensures Increasing(Names(list, mask, k))
  {
    hide Bit, IsSet;
    if list != [] {
      var rest := Names(list[1..], mask << 1, k);
      NamesIncrease(list[1..], mask << 1, k);
      forall i | 0 <= i < |rest|
        ensures Bit(list[0]) < Bit(rest[i])
      {
        NamesAreListed(list[1..], mask << 1, k, rest[i]);
        var j :| 0 <= j < |list[1..]| && list[1..][j] == rest[i];
        assert list[j + 1] == rest[i];
      }
    }
  }

  lemma IncreasingAppend(a: seq<Word>, b: seq<Word>)
    requires Increasing(a) && Increasing(b)
    requires forall i, j :: 0 <= i < |a| && 0 <= j < |b| ==> Bit(a[i]) < Bit(b[j])
    ensures Increasing(a + b)
  {
    hide Bit;
  }

  lemma ListsIncrease()
    ensures Increasing(KPF_NAMES) && Increasing(HACK_NAMES)
  {
    hide Bit;
    forall i, j | 0 <= i < j < |KPF_NAMES|
      ensures Bit(KPF_NAMES[i]) < Bit(KPF_NAMES[j])
    {
      KpfBits(i);
      KpfBits(j);
    }
    forall i, j | 0 <= i < j < |HACK_NAMES|
      ensures Bit(HACK_NAMES[i]) < Bit(HACK_NAMES[j])
    {
      HackBits(i);
      HackBits(j);
    }
  }

  /** The words come in the order of the flags, with the separator or heading between the lists. */
  lemma WordsInOrder(k: bv64, hack: bool)
    ensures Increasing(KpageWords(k, hack))
  {
    hide Bit, Names, KpageWords, IsSet, Documented, Same;
    var first, names := KpfNames(k), HackNames(k);
    ListsIncrease();
    NamesIncrease(KPF_NAMES, 0x1, k);
    NamesIncrease(HACK_NAMES, 0x1_0000_0000, k);
    KpageWordsAre(k, hack);
    FixedBits();
    forall x | x in names
      ensures 32 <= Bit(x)
    {
      HackNameBit(k, x);
    }
    forall x | x in first
      ensures Bit(x) < 26
    {
      KpfNameBit(k, x);
    }
    if hack && IsSet(KPF_HACK_FLAGS, k) {
      IncreasingAppend([if Documented(k) then HackSeparator else HackHeading], names);
    }
    IncreasingAppend(first, WordsAfter(k, hack));
  }
}
