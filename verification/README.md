# Models and proofs for linux-kernel-experiments

A Dafny project beside six of the repository's programs. `dafny verify dfyconfig.toml` checks it.

| file | models |
|---|---|
| `TaskTree.dfy`, `TaskWalk.dfy` | `modules/task_bfs_dfs.c` |
| `Paging.dfy`, `PageWalk.dfy`, `Translation.dfy`, `Outcomes.dfy`, `Splitting.dfy` | `modules/page_table_walk.c` |
| `RebootNotifier.dfy` | `modules/reboot_notifier.c` |
| `NumberText.dfy`, `PageInfo.dfy` | `userspace/pageinfo.c` |
| `HashTable.dfy` | `modules/test_hashtable.c` |
| `CharDevice.dfy` | `modules/test_chardev.c` |

`Helpers.dfy` holds what several of them use.

## What is modelled, and what came out

**Process tree listing.** `DumpChildrenTree` is one loop for both modes over linked heap nodes, with `q`,
`tail`, allocation, freeing and reference counting as in the C code. Every access to a node demands that it
has not been freed, and freeing demands it too. Success or failure of allocation number `k` is `oracle(k)`,
for an arbitrary `oracle`. If nothing fails, the listing is the level order or the reversed postorder (which
is the preorder of the mirrored tree), and all references are given back. If allocation `n` fails, the
contract says exactly which processes were listed, which references stay taken, and that the number of
references left over is the length of the list plus 1 in BFS mode and plus 2 in DFS mode: `out_nomem` frees
the nodes but puts nothing. `ModInit` shows the same from outside: the references are balanced if and only
if no allocation fails; the reference that `find_get_pid` takes on a `struct pid` is never put. The smallest
leak, a parent whose only child gets no node, is `OutOfMemoryAtOnlyChild`. The tree is a finite value that
does not change during the walk, and processes in it are told apart by value, which their pids make
distinct.

**Page table walk.** Memory is an arbitrary function from physical addresses to 64-bit entries, so tables
may be shared or refer to themselves. The walks are proved equal to one recursion over levels, and that
recursion is compared with linear-address translation as section 4.5 of the Intel SDM, Volume 3A, defines it
(52 physical-address bits; accessed and dirty flags, access rights and other features do not enter). The
processor finds a page exactly when the walk finds one while reading only entries that are present for the
processor and have no reserved bit set; then both find the same. What the walk reports otherwise is read off
the bits of the last entry on its way (`PteOutcome` and its like): an entry with PROTNONE alone is mapped,
with its frame put right, and at the lowest level every other entry that is not empty is a swap entry. The
kernel macros are not in the repository: index shifts 12, 21, 30, 39 and 48, a 52-bit physical page mask,
inversion of the frame number of nonzero entries without PRESENT, leaf tests by PSE, none tests that ignore
the accessed and dirty bits, and a PMD presence test that accepts PSE. Kernels that can run with either
number of levels define the presence test of a folded top level as always true; whether it is so is a field
of `Config`, and `FiveLevelsAreFour` shows what it does: a 4-level walk then passes over an absent top entry
instead of reporting it. Splitting a large page keeps every address for the walk, unless the page is a 2M
page with neither PRESENT nor PROTNONE (only PSE, as while it is being split, `HalfSplitPage`), whose pieces
are swap entries to the walk. For the processor it keeps every address too, unless the large entry is
present and has a reserved bit set: the fault then goes away, because the pieces have no such bit.

**Reboot notifier.** Any number of calls and one worker interleave. No call returns before the worker is
done. At most one call that waited returns, in any run; after that no call returns that has not returned
already, and this includes a second call made long after the worker is done (`SecondCallBlocks`). No call is
refused in any state, and a schedule of actions on the shared state takes all of them that are possible when
their turn comes. A run takes at most three steps for each call and one for the worker, so that it comes to
rest when no more calls come in. When all is quiet, all calls have returned if and only if at most one of
them tested the completion while it was zero.

**pageinfo.** Command line, decoding and output are modelled with numbers read as section 7.22.1.4 of ISO
C11 says. The numbers accepted are spelled out by division: a PID is white space, perhaps a plus sign, zeros
and a number from 1 to 2147483647 in decimal, and an address an integer constant of C in base 8, 10 or 16,
perhaps signed. The address printed in virtual mode is accepted as the PADDR argument and read as the same
number; it selects the same kpageflags and kpagecount words, whatever the files hold, if and only if the
frame number is below 2^52. A PID of any length is accepted if its value is in range, but the path made from
it fits the array of 128 characters only up to 113; beyond that the model stops. For every word read, the
lines printed are given in full: frame and address of a page that is present, type and offset of one in
swap, and each name exactly when its bit is set, in the order of the bits. The words printed for kpageflags
tell all known bits but KPF_PGTABLE, which has no print line; that bit can be told exactly when no other
documented bit is set. Output is a sequence of lines, and the names in a line a sequence of words.

**Hash table and character device.** Buckets are linked lists of nodes that hold the next node and the
address of the pointer to themselves, and deletion uses these links alone. The table finds an element if and
only if one with that name was added and not deleted, whatever collides. Reads of any sizes deliver what one
read of their total does and leave the same offset; they are pieces of the endless repetition of the content
until the offset passes 2^64, and beyond that if and only if the content is one that looks the same 2^64
characters later, which "mebeim" is not. An empty content makes the first nonempty read divide by zero.

## Model

| member | source | states |
|---|---|---|
| TaskWalk.DumpChildrenTree | modules/task_bfs_dfs.c:91-166 | for every pattern of allocation failures: each node allocated is freed exactly once and not touched afterwards; all allocations succeed if and only if the run completes; a complete run lists level order or reversed postorder and leaves exactly the caller's root reference given up; a run that fails stops where `FailedAt` says |
| TaskWalk.ModInit | modules/task_bfs_dfs.c:168-187 | error returned; references balanced if and only if there is no process or no allocation fails, and never fewer than before; the struct pid reference is kept |
| TaskWalk.ProgressFails | modules/task_bfs_dfs.c:129-135 | a failing allocation inside the loop leaves the listing, the gets and the puts of `FailedAt`, in which the references kept number the list length plus 1 or 2 |
| TaskWalk.ProgressStep | modules/task_bfs_dfs.c:109-149 | a turn of the loop keeps the invariant that listing and pending list make up the visiting order, and that the reference about to be put is held |
| TaskWalk.ProgressEnds | modules/task_bfs_dfs.c:109-158 | with nothing pending the listing is complete, one allocation was made per process, and only the root reference is gone |
| TaskWalk.HeldIsPending | modules/task_bfs_dfs.c:109-149 | at the head of the loop the references held are those of before, without that on the root, and one for each task on the list |
| TaskWalk.OutOfMemoryAtOnlyChild | modules/task_bfs_dfs.c:129-135 | a parent with one child whose node cannot be allocated: the parent is listed, and both stay referenced in either mode |
| TaskWalk.FailureLeaks | modules/task_bfs_dfs.c:160-166 | a failure inside the loop always leaves more references held than before |
| TaskWalk.Walker.VisitHead | modules/task_bfs_dfs.c:110-147 | the pending list after a turn up to a failing allocation or the end, the references taken, and that `tail` addresses the last link |
| TaskWalk.Walker.EnqueueChildren | modules/task_bfs_dfs.c:129-147 | children are queued or stacked in list order until an allocation fails |
| TaskWalk.Walker.PushFront | modules/task_bfs_dfs.c:137-146 | the new node becomes the head of a list that stays acyclic |
| TaskWalk.Walker.Append | modules/task_bfs_dfs.c:137-143 | the new node is linked through `tail`, which then addresses its link |
| TaskWalk.Walker.PopHead | modules/task_bfs_dfs.c:113-115 | the head leaves the list and is freed once |
| TaskWalk.Walker.EndTurn | modules/task_bfs_dfs.c:151-155 | freeing the head after its children were appended keeps `tail` on the last link while the list is not empty |
| TaskWalk.Walker.FreeList | modules/task_bfs_dfs.c:160-165 | what is left of the list is freed |
| TaskTree.BfsIsLevelOrder | modules/task_bfs_dfs.c:106-156 | the queue discipline visits the levels of any tree one after the other |
| TaskTree.DfsIsReversedPostorder | modules/task_bfs_dfs.c:109-147 | the stack discipline, read backwards, is the left-to-right postorder |
| TaskTree.DfsIsMirroredPreorder | modules/task_bfs_dfs.c:109-147 | the stack discipline is the preorder of the mirrored tree |
| TaskTree.OrdersArePermutations | modules/task_bfs_dfs.c:109-156 | both orders list all of the tree, each process as often as it occurs |
| TaskTree.NoRepetition | modules/task_bfs_dfs.c:109-156 | in a tree of distinct processes each is listed once |
| TaskTree.ParentsFirst | modules/task_bfs_dfs.c:109-156 | every parent is listed before its children |
| TaskTree.NextPendingSize | modules/task_bfs_dfs.c:109-156 | the total size of pending subtrees drops by one per turn |
| TaskTree.VisitDiscovers | modules/task_bfs_dfs.c:129-147 | what is visited is what was pending and the children of what is visited |
| PageWalk.Walk | modules/page_table_walk.c:456-459 | the outcome is that of the recursion over levels, for either number of levels |
| PageWalk.Walk4L | modules/page_table_walk.c:273-405 | the same for both ways of entering the 4-level walk |
| PageWalk.Walk5L | modules/page_table_walk.c:407-419 | the same for the 5-level walk |
| Translation.TranslationIsWalk | modules/page_table_walk.c:239-419 | the processor's translation is the walk's outcome, exactly on walks that read only usable entries |
| Translation.FiveLevelsAreFour | modules/page_table_walk.c:380-419 | the 5-level walk is the 4-level walk from the table of its top entry, with the exact condition |
| Translation.EntryModesAgree | modules/page_table_walk.c:386-393 | the two ways of entering agree exactly when the entry is present |
| Translation.SameIndicesSamePage | modules/page_table_walk.c:239-405 | addresses with equal indices get the same outcome, up to the offset in the 4K page |
| Translation.LeafAddressIsSum | modules/page_table_walk.c:141-154 | at every level the bitwise-or adds the offset to the frame without carry |
| Translation.LeafAddressIsInjective | modules/page_table_walk.c:141-154 | equal addresses come from equal frames and equal offsets |
| Translation.LeafKeepsDistances | modules/page_table_walk.c:141-154 | addresses in one page of any level are as far apart as what they are mapped to |
| Outcomes.WalkStarts | modules/page_table_walk.c:456-459 | the walk starts at the entry that the bits of the top level select, in the table given |
| Outcomes.NextRead | modules/page_table_walk.c:380-419 | below each entry read, the walk reads the one that the processor would read there, exactly if the bits let it go on |
| Outcomes.OutcomeIsLast | modules/page_table_walk.c:380-419 | the outcome belongs to the last entry read |
| Outcomes.PteOutcome | modules/page_table_walk.c:351-378 | which bits of a PTE on the way give no entry, a swap entry or a page, and which page |
| Outcomes.PmdOutcome | modules/page_table_walk.c:301-349 | the same for a PMD, with and without migration entries |
| Outcomes.PudOutcome | modules/page_table_walk.c:273-299 | the same for a PUD, where PROTNONE is presence as well |
| Outcomes.TopOutcome | modules/page_table_walk.c:239-271 | an entry of level 4 or 5 is reported absent exactly without PRESENT, unless the level is folded |
| Paging.Recompose4 | modules/page_table_walk.c:256-377 | four indices and the offset make up the low 48 bits of an address |
| Paging.Recompose5 | modules/page_table_walk.c:243 | with the fifth index, the low 57 bits |
| Paging.InvertIsInvolution | modules/page_table_walk.c:166-175 | inverting twice gives the value back if and only if it is not the mask itself |
| Paging.InvertShowsPudPfn | modules/page_table_walk.c:273-293 | the dumped value shows the frame used in the printed address, 1G |
| Paging.InvertShowsPmdPfn | modules/page_table_walk.c:301-343 | the same, 2M |
| Paging.InvertShowsPtePfn | modules/page_table_walk.c:351-377 | the same, 4K |
| Paging.InvertKeepsFlags | modules/page_table_walk.c:177-214 | flags outside the mask read the same in the dumped value |
| Paging.InvertSpoilsLargePat | modules/page_table_walk.c:286-289 | the PAT bit of a large page reads the same if and only if nothing was inverted |
| Splitting.SplitKeepsTargets | modules/page_table_walk.c:286-405 | for every address, splitting a 1G or 2M page keeps the outcome's address if and only if the entry is not on the path or is splittable |
| Splitting.SplitHere | modules/page_table_walk.c:273-378 | the same at the entry that is split |
| Splitting.SplitKeepsTranslation | modules/page_table_walk.c:286-405 | for every address, splitting keeps the processor's translation if and only if the entry is not on its path or is not a present one with a reserved bit set |
| Splitting.SplitHereTranslates | modules/page_table_walk.c:273-378 | the same at the entry that is split |
| Splitting.HalfSplitPage | modules/page_table_walk.c:301-343 | a 2M entry with PSE alone is mapped for the walk, and its pieces are not |
| Splitting.SmallEntryKeepsPat3 | modules/page_table_walk.c:286-289 | the 2M pieces of a 1G page keep its PAT bit |
| Splitting.SmallEntryKeepsPat2 | modules/page_table_walk.c:325-329 | the 4K pieces of a 2M page have its PAT bit in their own place |
| RebootNotifier.SafeRuns | modules/reboot_notifier.c:21-42 | in every run no call returns before complete(), tokens are conserved, at most one waiting call returns |
| RebootNotifier.ExhaustedForever | modules/reboot_notifier.c:22-28 | once a waiting call has returned, the calls that have returned stay the same for ever |
| RebootNotifier.OpenForever | modules/reboot_notifier.c:21-42 | if no call waited before the worker was done, the token persists and none ever waits |
| RebootNotifier.RunsAreShort | modules/reboot_notifier.c:21-42 | every run takes at most three steps for each call that comes in, besides what there was to do at its start |
| RebootNotifier.RunsComeToRest | modules/reboot_notifier.c:21-42 | from every state a run without new calls gets to where all is quiet |
| RebootNotifier.EarlyTestsWait | modules/reboot_notifier.c:22-28 | the calls blocked or woken in a run are as many as tests were made while the completion was zero |
| RebootNotifier.QuiescentCalls | modules/reboot_notifier.c:21-42 | when all is quiet, all calls have returned if and only if at most one test was made while the completion was zero, and how many are blocked |
| RebootNotifier.SecondCallBlocks | modules/reboot_notifier.c:21-29 | a second call after the first one has returned is blocked in every continuation |
| RebootNotifier.CallsAreServed | modules/reboot_notifier.c:21-29 | in every state a new call can come in and test; it returns at once if the counter is not zero and waits otherwise |
| RebootNotifier.CallsProceed | modules/reboot_notifier.c:22-41 | a call can test until it has, a waiting call can return exactly while the counter is not zero, and the worker can complete exactly once |
| RebootNotifier.WaitingCallReturns | modules/reboot_notifier.c:21-42 | a call that tests before the worker is done returns after it |
| RebootNotifier.RunsAreTaken | modules/reboot_notifier.c:21-49 | a schedule that is a run is taken as a whole |
| RebootNotifier.Module.Run | modules/reboot_notifier.c:21-49 | a schedule of actions on the shared state takes every action that is possible when its turn comes and skips the others, and the result is that of the run |
| RebootNotifier.Module.CheckDone | modules/reboot_notifier.c:22 | the test and the branch taken |
| RebootNotifier.Module.WaitForCompletion | modules/reboot_notifier.c:24 | a call that gets through takes one token |
| RebootNotifier.Module.WorkerComplete | modules/reboot_notifier.c:37-41 | the worker adds one token |
| NumberText.ConstantsAreRead | userspace/pageinfo.c:282-288 | a number written in decimal, octal or hexadecimal is read back by strtoul |
| NumberText.NumberIsSpelled | userspace/pageinfo.c:272-288 | the strings that stand for a number in a base are those that spell it: written by division, in either case, after zeros |
| NumberText.FullScanIsNumeral | userspace/pageinfo.c:272-288 | what is converted in full is a numeral with that value |
| NumberText.NumeralIsFullScan | userspace/pageinfo.c:272-288 | every numeral is converted in full |
| PageInfo.ParseArguments | userspace/pageinfo.c:249-291 | usage error, invalid PID, invalid address or report, each exactly for the command lines it is meant for |
| PageInfo.PidIsNumeral | userspace/pageinfo.c:273-275 | a PID is accepted if and only if it is a decimal numeral from 1 to INT_MAX |
| PageInfo.RequestForms | userspace/pageinfo.c:257-266 | the documented forms of the command line, and which others there are |
| PageInfo.PidIsDecimal | userspace/pageinfo.c:273-275 | the PIDs accepted, spelled out |
| PageInfo.AddressIsConstant | userspace/pageinfo.c:282-285 | the addresses accepted, spelled out, and what they denote |
| PageInfo.AcceptedPidsFit | userspace/pageinfo.c:130-134 | there is an accepted PID of every length, and its path fits the array if and only if it has at most 113 characters |
| PageInfo.AddressIsNumeral | userspace/pageinfo.c:283-285 | an address is accepted if and only if it is a C integer constant of 64 bits, and it is read as its value |
| PageInfo.PaddrIsReadBack | userspace/pageinfo.c:136-143 | the printed physical address is accepted as PADDR and denotes that number only |
| PageInfo.PaddrSelects | userspace/pageinfo.c:224-240 | lines of both modes, as far as the path fits; the same words are read from all files if and only if the frame number is below 2^52 |
| PageInfo.VirtualOutput | userspace/pageinfo.c:224-236 | all lines in virtual mode, and where in the files they come from |
| PageInfo.PhysicalOutput | userspace/pageinfo.c:227-240 | all lines in physical mode |
| PageInfo.SwappedOutput | userspace/pageinfo.c:143-166 | for a page in swap, whatever its type and offset, these are printed, and nothing of kpageflags or kpagecount |
| PageInfo.PagemapLines | userspace/pageinfo.c:136-166 | the lines for every pagemap word, by its bits |
| PageInfo.PagemapWords | userspace/pageinfo.c:153-159 | each name is printed exactly when its bit is set, from the highest bit down |
| PageInfo.KpageLines | userspace/pageinfo.c:168-222 | both words for a frame are read at eight times its number |
| PageInfo.Words0To8 | userspace/pageinfo.c:176-184 | each name is printed exactly when its bit is set |
| PageInfo.Words9To17 | userspace/pageinfo.c:185-193 | the same |
| PageInfo.Words18To25 | userspace/pageinfo.c:194-201 | the same |
| PageInfo.HackWords32To37 | userspace/pageinfo.c:203-210 | the same, with the hack argument |
| PageInfo.HackWords38To42 | userspace/pageinfo.c:211-215 | the same |
| PageInfo.FixedWords | userspace/pageinfo.c:203-219 | exactly when separator, heading and "no known flags" are printed |
| PageInfo.WordsInOrder | userspace/pageinfo.c:175-219 | the words come in the order of the bits, the two lists one after the other |
| PageInfo.SwapIsLossless | userspace/pageinfo.c:48-52 | swap type and offset together are exactly the frame bits |
| PageInfo.SwapTypeRoundTrip | userspace/pageinfo.c:50 | an encoded swap type is decoded |
| PageInfo.SwapOffsetRoundTrip | userspace/pageinfo.c:51-52 | an encoded swap offset is decoded |
| PageInfo.SwapFlagsRoundTrip | userspace/pageinfo.c:42-54 | the flags are not disturbed by them |
| PageInfo.PfnRoundTrip | userspace/pageinfo.c:42-54 | frame number and flags do not disturb each other |
| PageInfo.NamesTellBits | userspace/pageinfo.c:176-215 | the names printed from a list tell all bits that have a name in it |
| PageInfo.KpageWordsTell | userspace/pageinfo.c:168-219 | the words printed are equal for two kpageflags words if and only if these agree in all printed bits and, if no other documented bit is set, in KPF_PGTABLE |
| HashTable.MyStupidHash | modules/test_hashtable.c:32-40 | the key is the sum of the characters before the first zero, modulo 2^32 |
| HashTable.KeyIsAdditive | modules/test_hashtable.c:36-37 | additive over concatenation, modulo 2^32 |
| HashTable.KeyIgnoresOrder | modules/test_hashtable.c:32-40 | strings with the same characters in any order have the same key |
| HashTable.AddHead | modules/test_hashtable.c:73-74 | a node put at the head of a list is linked both ways |
| HashTable.DelInit | modules/test_hashtable.c:95-96 | a node taken out through its own links leaves the rest of its list linked both ways |
| HashTable.Table.Add | modules/test_hashtable.c:73-74 | the element becomes the head of its bucket; the other buckets stay, and the collection grows by it |
| HashTable.Delete | modules/test_hashtable.c:95-96 | the element leaves its bucket, whose order stays; the other buckets stay, and the collection loses it and nothing else; a node in no list stays as it is |
| HashTable.Table.Lookup | modules/test_hashtable.c:83-92 | an element with that name is found if and only if the collection has one, and the elements seen are those of the bucket up to it |
| HashTable.Table.ForEach | modules/test_hashtable.c:77-80 | each element of the collection is visited once, bucket by bucket and each bucket from its head |
| HashTable.MyHashTableInit | modules/test_hashtable.c:43-99 | both keys are 324, in bucket 6 (`KeysCollide`); "oof" is listed before "foo" and printed as a match before "foo" is found; the table ends empty |
| CharDevice.OpenFile.ReadMebeim | modules/test_chardev.c:38-52 | characters delivered, what is not written, the new offset, and the division by zero |
| CharDevice.ReadsCompose | modules/test_chardev.c:38-52 | reading n and then m characters is reading n + m, for every offset |
| CharDevice.ReadsAreOneRead | modules/test_chardev.c:38-52 | the same for any sequence of reads: what they deliver and the offset they leave |
| CharDevice.StreamRepeats | modules/test_chardev.c:44-47 | the stream starts with the content and repeats it |
| CharDevice.ReadsAreStream | modules/test_chardev.c:44-47 | up to offset 2^64 reads are consecutive pieces of the endless repetition |
| CharDevice.WrapIsSeamless | modules/test_chardev.c:38-52 | across the wrap this holds for all reads if and only if the content survives it |

## Left out

- Printing and message formats, except the number text of physical addresses; process names, states and parent pids.
- `dump_task_threads` and changes of child lists during the walk: the code takes no lock that would order them.
- Control registers, MSRs, `phys_to_virt`, locking and mm lookup in `walk`, `walk_kernel` and `walk_user`.
- Type and offset of swap entries in the page table walk (`dump_swap_entry`) and the zero page test: they come from kernel macros alone.
- Non-canonical addresses: the processor rejects them before section 4.5 applies, the walk maps them, and `Translate` begins where that section does.
- Access rights, protection keys, NXE and physical address widths below 52 bits in the processor's translation.
- Time: the worker's sleep is any delay, and a waiting call may be woken at any later moment.
- `unregister_reboot_notifier` and module removal in `modules/reboot_notifier.c`.
- What `userspace/pageinfo.c` does once a path has overflowed its array.
- Files that cannot be opened or read to the end in `userspace/pageinfo.c`: reads are functions from offsets to words.
- The xxhash variant of the key in `modules/test_hashtable.c`.
- Device registration in `modules/test_chardev.c`, and faults while writing to the user's buffer.
- The remaining programs of the repository: wrappers over kernel interfaces, hardware experiments and queries over foreign libraries.
