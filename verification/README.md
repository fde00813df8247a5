# XC-OS in Dafny

Models of six parts of the kernel and its tools, with the properties they are built for.

- **Page allocator** (`Buddy*.dfy`, `IntrusiveLists.dfy`, `PageAllocator.dfy`). `BuddyHeap` is the allocator as
  functions on free lists, bitmap, order map and counter; `BuddyInvariant` says when these views agree with the
  live blocks; the other files prove what every call and every run keeps, the canonical form of the free sets,
  completeness, what boot leaves behind for every memory map, and when defragmentation is right. A free is harmless
  unless it names a page of a live block behind its head. `PageAllocator.Pmm` is the code in place, on link fields
  inside free pages and arrays, proved against those functions. HEAP_START is symbolic; `BuddyBoot` and `BuddyReach`
  say exactly which values the invariant needs, and what the shipped value does instead.
- **XCFS** (`Xcfs*.dfy`, `Paths*.dfy`). `XcfsVolume` has the operations as functions on cache and disk, `XcfsLaws`
  and `XcfsDelete` what one call keeps, `XcfsOutcomes` when it goes through, `XcfsRuns` what every run keeps, and
  `Xcfs.Driver` the code in place. The layout is symbolic, with the metadata in front of the data area. Deletion is
  described for every table order: conditions that fail are stated exactly (`Safe`, `FrontUntouched`), and `XcfsLoss`
  has a run that loses a file. A run is calm when it creates nothing beneath a regular file, no file above 0xFFFFFE00
  bytes, and deletes only where compaction moves no file onto a waiting one.
- **Image injector** (`Inject*.dfy`): the second implementation of the same format. An image is healthy when its check
  passes and no two files share a sector.
- **Paging and program loading** (`Paging.dfy`, `PageRanges.dfy`, `PageSets.dfy`, `UserHeap.dfy`, `Mmu.dfy`,
  `Elf*.dfy`): page directory and tables as typed frames of physical memory, the flat page map they refine, the
  memory system calls told by pages and by bytes, and the loader as a statement about every virtual byte, from
  executables put together byte by byte.
- **Random numbers** (`Random.dfy`), **calendar** (`Calendar.dfy`), **editor buffer** (`EditorText.dfy`, `Editor.dfy`).

`Options.dfy`, `Powers.dfy` and `Ranges.dfy` are shared. `dafny verify dfyconfig.toml` checks everything.

Where code and intent differ the model follows the code:

- `get_order` gives requests above 2^31 bytes a block that is too small (`BuddyTheorems.GetOrderLeast`).
- With HEAP_START at 1 MB block indices are aligned only up to order 8 (`BuddyBoot.ShippedStartGrantsTwice`); boot
  and every run from it are coherent exactly when it is aligned to every tile (`BuddyReach.RunsCoherentIff`).
- `init_pmm` drops an entry that reaches 4 GB as a whole (`BuddyBoot.ClipIs`).
- `pmm_defragment` can list pages of no region (`BuddyHole.DefragmentListsHole`, exactly when:
  `BuddyDefrag.DefragmentKeepsIff`).
- `np` leaves a slash behind after `..`, so a later name gets two (`PathsAgree.DoubleSlash`, exactly when:
  `PathsAgree.AgreeExactly`).
- The constants of `config.cfg` put the bitmap into the data area (`XcfsLaws.ShippedBitmapHitsData`,
  exactly when: `XcfsLaws.SaveKeepsDataIff`).
- `xcfs_delete` can move a file onto one it has yet to move (`XcfsLoss.TwoDeletionsLoseAFile`, exactly when:
  `XcfsContent.KeepsContentIff`) and can leave changed slots unsaved
  (`XcfsLoss.TwoDeletionsLoseASlot`, exactly when: `XcfsDelete.DeleteKeepsSyncedIff`).
- `sys_mmap` and `sys_brk` report success even when the last page found no frame for its table, and lose the frame
  meant for the page (`Mmu.MmapOneFrame`, exactly when: `Mmu.OutcomesApart`, `UserHeap.BrkKeepsHeapIff`).
- Mapping a page that is mapped already loses the frame it had, as two `sys_mmap` calls for one address do, or a
  `sys_brk` after one that failed half way (`Mmu.MmapTwice`, exactly when: `PageRanges.RangeLosesNothingIff`).
- `sys_mmap` of more than 0xFFFFF000 bytes returns its base and maps nothing (`Mmu.PageCountIff`).
- The check of the injector does not see files that share a sector (`InjectVolume.CheckMissesOverlap`, exactly when:
  `InjectVolume.PassesDisjointIff`).

## Model

| member | source | states |
|---|---|---|
| BuddyInvariant.SplitStep | src/drivers/memory/pmm.c:269-286 | halving a listed block keeps the lists aligned, disjoint, duplicate-free and covering |
| BuddyInvariant.MergeStep | src/drivers/memory/pmm.c:335-347 | joining a block with its listed buddy keeps the same four facts |
| BuddyRuns.SplitKeeps | src/drivers/memory/pmm.c:269-286 | the whole split loop keeps the free side coherent and loses no page |
| BuddyRuns.MergeKeeps | src/drivers/memory/pmm.c:335-347 | the whole merge loop keeps the free side coherent, loses no page, and leaves no two buddies listed |
| BuddyRuns.MallocOutcome | src/drivers/memory/pmm.c:253-302 | on a coherent heap the defensive returns are never taken: a request fails only for want of a list, else it gets the head of the first non-empty list |
| BuddyRuns.MallocKeepsInv | src/drivers/memory/pmm.c:253-302 | a granted block was not live, and lists, bitmap, order map and counter agree again with it live; a refused request changes nothing |
| BuddyRuns.MallocKeepsCoalesced | src/drivers/memory/pmm.c:253-302 | a request never leaves two buddies listed |
| BuddyHeap.InHeapIff | src/drivers/memory/pmm.c:309-314 | the addresses that a free accepts are those of the pages of the heap, the one at HEAP_START among them |
| BuddyHeap.FreeAddressIs | src/drivers/memory/pmm.c:306-315 | freeing the address of a page frees that page |
| BuddyRuns.FreeOutcome | src/drivers/memory/pmm.c:306-349 | freeing a live block clears exactly its bits and order and lists the merged block |
| BuddyRuns.FreeKeepsInv | src/drivers/memory/pmm.c:306-349 | after freeing a live block the four views agree without it, and coalesced heaps stay coalesced |
| BuddySteps.OccupyLive | src/drivers/memory/pmm.c:292-295 | marking a free run as allocated keeps bitmap and order map matched with the live blocks |
| BuddySteps.OccupyFree | src/drivers/memory/pmm.c:292-295 | and keeps the free side coherent |
| BuddySteps.ReleaseLive | src/drivers/memory/pmm.c:326-329 | clearing a live block keeps bitmap and order map matched with the blocks left |
| BuddySteps.ReleaseFree | src/drivers/memory/pmm.c:326-329 | and makes its run a block that can be listed |
| BuddyCanonical.FreeRunIsListed | src/drivers/memory/pmm.c:253-349 | on a coalesced heap every free aligned run lies inside one listed block |
| BuddyCanonical.ListedIffMaximal | src/drivers/memory/pmm.c:253-349 | a block is listed exactly when it is a maximal free aligned run |
| BuddyCanonical.CanonicalForm | src/drivers/memory/pmm.c:253-349 | the free sets are determined by the free pages alone |
| BuddyCanonical.MallocFailsIff | src/drivers/memory/pmm.c:253-302 | a request returns null exactly when it is empty or no aligned run of its order is entirely free |
| BuddyTheorems.FreeKeepsInvIff | src/drivers/memory/pmm.c:306-349 | freeing any page number keeps the heap coherent exactly when it is not inside a live block behind its head |
| BuddyTheorems.StepKeeps | src/drivers/memory/pmm.c:253-349 | every harmless call keeps coherence and coalescing |
| BuddyTheorems.RunKeeps | src/drivers/memory/pmm.c:253-349 | so does every run of harmless calls |
| BuddyTheorems.SameLiveSameHeap | src/drivers/memory/pmm.c:253-349 | two coherent coalesced heaps with the same live blocks have the same bitmap, order map, counter and free sets |
| BuddyTheorems.RunReturnsToStart | src/drivers/memory/pmm.c:253-349 | a run that ends with the live blocks it began with, in any order of frees, ends with the same heap |
| BuddyTheorems.MergeUndoesSplit | src/drivers/memory/pmm.c:269-347 | merging from a split-off half gives the lists of merging the whole |
| BuddyTheorems.MallocThenFree | src/drivers/memory/pmm.c:253-349 | a request followed by its free restores lists as sequences, bitmap, order map and counter |
| BuddyTheorems.GetOrderLeast | src/drivers/memory/pmm.c:80-90 | the order is the least that holds the request, exactly up to 2^31 bytes |
| BuddyTheorems.SameLiveSameMaps | src/drivers/memory/pmm.c:253-349 | two coherent heaps, coalesced or not, with the same live blocks have the same bitmap, order map and counter |
| BuddyReach.ReachableCoherent | src/drivers/memory/pmm.c:163-349 | every heap reached from boot by harmless calls is coherent, regions that touch included, and has the bitmap, order map and counter of boot once nothing is live |
| BuddyReach.RunsCoherentIff | src/drivers/memory/pmm.c:163-349 | every such run stays coherent exactly when HEAP_START is a multiple of the size of every tile |
| BuddyReach.ReachableHeap | src/drivers/memory/pmm.c:163-349 | with gaps between the regions and HEAP_START a multiple of the largest block it is coalesced too, and has the free sets of boot once nothing is live |
| BuddyReach.WholeHeapNeverDefragments | src/drivers/memory/pmm.c:361-402 | on every heap reached from one region that starts at HEAP_START defragmenting changes nothing |
| BuddyDefrag.DefragmentIdleIff | src/drivers/memory/pmm.c:361-402 | on a coalesced heap defragmenting changes nothing exactly when its merge guard never holds |
| BuddyDefrag.DefragmentKeepsIff | src/drivers/memory/pmm.c:361-402 | defragmenting keeps the free side of a coherent heap coherent exactly when no free run has a clear buddy with a page of no region in it |
| BuddyDefrag.NoCandidateIff | src/drivers/memory/pmm.c:361-402 | on a coherent coalesced heap that is exactly when the merge guard never holds |
| BuddyDefrag.CoalescedKeepsIff | src/drivers/memory/pmm.c:361-402 | so there the free side stays coherent exactly when the merge guard never holds |
| BuddyDefrag.DefragmentCoalesces | src/drivers/memory/pmm.c:361-402 | under that condition, coalesced or not before, the four views stay in agreement and no two buddies are left listed |
| BuddyDefrag.DefragmentIsCanonical | src/drivers/memory/pmm.c:361-402 | and the blocks left on the lists are determined by the free pages alone |
| BuddyDefrag.CandidateHasHole | src/drivers/memory/pmm.c:361-402 | where the lower orders are coalesced a free buddy that is not listed contains a page of no region |
| BuddyDefrag.DefragmentIdleOnWholeHeap | src/drivers/memory/pmm.c:361-402 | without such pages defragmenting a coalesced heap changes nothing |
| BuddyHole.DefragmentListsHole | src/drivers/memory/pmm.c:361-402 | boot with two regions of one page each and a page between them leaves a coherent coalesced heap; defragmenting it lists a block with that page, and a request for two pages is given the block |
| BuddyInit.TileOrderIsGreedy | src/drivers/memory/pmm.c:220-228 | the tile is aligned, fits, and no larger order does both |
| BuddyInit.TileUnfolds | src/drivers/memory/pmm.c:219-231 | the tiling loop takes one such block after the other and never leaves early |
| BuddyInit.TileKeepsInv | src/drivers/memory/pmm.c:219-231 | tiling a region lists exactly its pages, as disjoint blocks |
| BuddyInit.TileKeepsCoalesced | src/drivers/memory/pmm.c:219-231 | and leaves no two buddies listed |
| BuddyInit.IndexAlignedIff | src/drivers/memory/pmm.c:95-108 | address alignment is index alignment exactly when HEAP_START has it too |
| BuddyInit.BootIsCoherent | src/drivers/memory/pmm.c:163-249 | after start-up all usable pages are listed, none is live, and the views agree |
| BuddyBoot.BootIsCoherentIff | src/drivers/memory/pmm.c:163-249 | for disjoint regions exactly when HEAP_START is a multiple of the size of every tile |
| BuddyBoot.RegionsDisjoint | src/drivers/memory/pmm.c:189-217 | usable entries of the memory map that do not overlap give regions that do not overlap |
| BuddyBoot.MapBootsIff | src/drivers/memory/pmm.c:163-249 | for every memory map with such entries the regions lie in the heap and are disjoint, and the boot heap is coherent exactly when they can be tiled in alignment |
| BuddyInit.BootIsCoalesced | src/drivers/memory/pmm.c:163-249 | and no two buddies are listed, when regions do not touch |
| BuddyBoot.ClipIsWithin | src/drivers/memory/pmm.c:192-211 | a clipped range lies in its entry, in 32 bits and behind HEAP_START |
| BuddyBoot.ClipIs | src/drivers/memory/pmm.c:192-211 | an entry is kept exactly when it is usable, not empty, and ends behind HEAP_START and below 4 GB, and then from HEAP_START on |
| BuddyBoot.ToPagesIs | src/drivers/memory/pmm.c:215-217 | rounding keeps exactly the pages that lie in the range from end to end |
| BuddyBoot.HighEntryWraps | src/drivers/memory/pmm.c:215-217 | an entry that starts in the last page of the address space gives a region that starts at address 0 |
| BuddyBoot.RegionsCover | src/drivers/memory/pmm.c:189-217 | a page behind HEAP_START lies in a region exactly when a usable entry that ends below 4 GB holds all its bytes |
| BuddyBoot.UsableIffOffered | src/drivers/memory/pmm.c:163-249 | the usable pages after boot are exactly those |
| BuddyBoot.HeapPagesIs | src/drivers/memory/pmm.c:212-243 | the heap is sized by the highest end of an entry that is kept, in whole pages rounded up |
| BuddyBoot.ToPagesIsWithin | src/drivers/memory/pmm.c:215-217 | rounding to pages stays inside the range, except in the last page of the address space, where it wraps |
| BuddyBoot.RegionsInHeap | src/drivers/memory/pmm.c:189-241 | the regions lie inside the heap that the bitmap is sized for |
| BuddyBoot.SplitStaysIff | src/drivers/memory/pmm.c:269-286 | the split loop ends at the block it started from exactly when that block is index-aligned |
| BuddyBoot.TilesAlignedIff | src/drivers/memory/pmm.c:219-231 | tiling lists index-aligned blocks only, exactly when HEAP_START is aligned to every tile |
| BuddyBoot.ShippedStartGrantsTwice | src/include/memory/pmm.h:7 | with HEAP_START at 1 MB two requests for a megabyte are both given page 0 |
| IntrusiveLists.PushLinked | src/drivers/memory/pmm.c:123-130 | pushing keeps the link fields spelling the lists |
| IntrusiveLists.PopLinked | src/drivers/memory/pmm.c:131-140 | so does popping the head |
| IntrusiveLists.UnlinkLinked | src/drivers/memory/pmm.c:141-162 | so does unlinking from the middle |
| PageAllocator.Pmm.AddBlockToList | src/drivers/memory/pmm.c:123-130 | the in-place push is the push on sequences |
| PageAllocator.Pmm.RemoveBlockFromList | src/drivers/memory/pmm.c:131-140 | the in-place pop is the pop on sequences |
| PageAllocator.Pmm.RemoveSpecificBlock | src/drivers/memory/pmm.c:141-162 | the traversal finds the block exactly if it is listed and unlinks it |
| PageAllocator.Pmm.IsBuddyFree | src/drivers/memory/pmm.c:112-122 | answers exactly whether the run is inside the heap and clear |
| PageAllocator.Pmm.MarkPages | src/drivers/memory/pmm.c:292-294 | sets or clears exactly the pages of the block |
| PageAllocator.Pmm.GetOrderOf | src/drivers/memory/pmm.c:80-90 | the loop computes the order of a request |
| PageAllocator.Pmm.FindNonEmpty | src/drivers/memory/pmm.c:257-260 | the loop finds the first order with a listed block |
| PageAllocator.Pmm.SplitBlock | src/drivers/memory/pmm.c:269-286 | the split loop over link fields is the split on sequences |
| PageAllocator.Pmm.Grant | src/drivers/memory/pmm.c:261-301 | the granted heap, with the block zeroed, in place |
| PageAllocator.Pmm.Malloc | src/drivers/memory/pmm.c:253-302 | the request in place is the request on the abstract heap, and every reachable heap stays coherent |
| PageAllocator.Pmm.MergeBlock | src/drivers/memory/pmm.c:335-347 | the merge loop over link fields is the merge on sequences |
| PageAllocator.Pmm.Release | src/drivers/memory/pmm.c:322-348 | the released heap in place |
| PageAllocator.Pmm.Free | src/drivers/memory/pmm.c:306-349 | freeing the address of a live block, the one at HEAP_START included, releases exactly that block, and every address of no live block changes nothing; any pointer that is not inside a live block |
| PageAllocator.Pmm.TakeAndReturn | src/drivers/memory/pmm.c:253-349 | a request and the free of what it returned leave lists, bitmap, order map, counter and live blocks as they were |
| PageAllocator.Pmm.TileOrderAt | src/drivers/memory/pmm.c:220-227 | the two loops compute the greedy order |
| PageAllocator.Pmm.AddRegion | src/drivers/memory/pmm.c:219-231 | the tiling loop in place lists exactly the pages of the region |
| PageAllocator.Pmm.HighestEndOf | src/drivers/memory/pmm.c:176-183 | the first pass finds the capped end of memory |
| PageAllocator.Pmm.AddRegions | src/drivers/memory/pmm.c:189-234 | the second pass tiles what `BuddyBoot.ClipIs` and `BuddyBoot.ToPagesIs` leave of every entry |
| PageAllocator.Pmm.InitPmm | src/drivers/memory/pmm.c:163-249 | start-up builds a coherent heap with nothing live; its pages are exactly those that a usable entry below 4 GB holds whole, and it reaches to the highest end of such an entry, in pages rounded up |
| PageAllocator.Pmm.FindCandidate | src/drivers/memory/pmm.c:367-384 | the scan finds the first listed block whose buddy is inside the heap and clear |
| PageAllocator.Pmm.JoinBuddies | src/drivers/memory/pmm.c:385-396 | unlinks a block and its listed buddy and lists the pair one order up, keeping the free side coherent |
| PageAllocator.Pmm.DefragmentOrder | src/drivers/memory/pmm.c:362-401 | the passes over one order are those on sequences, when every buddy they find free is listed |
| PageAllocator.Pmm.Defragment | src/drivers/memory/pmm.c:361-402 | on every heap where no free run has a clear buddy with a page of no region in it, merges included, the routine in place is the routine on sequences, ends, keeps the four views in agreement and leaves no two buddies listed |
| Random.Rng.RandSeed | src/lib/random.c:6-8 | sets the state |
| Random.Rng.RandNext | src/lib/random.c:9-12 | advances the state by the recurrence, 32-bit product included, and returns it |
| Random.Rng.RandMax | src/lib/random.c:13-16 | stays below the bound |
| Random.Rng.RandRange | src/lib/random.c:17-20 | stays in the range |
| Random.DividesGeom | src/lib/random.c:3-5 | a power of two divides the geometric sum of the multiplier exactly when it divides the number of terms |
| Random.GapDivides | src/lib/random.c:9-12 | two states agree modulo 2^k exactly when 2^k divides their distance |
| Random.PeriodModPow2 | src/lib/random.c:9-12 | for every seed the sequence modulo 2^k has period exactly 2^k |
| Random.EveryResidueOnce | src/lib/random.c:9-12 | any 2^k consecutive states take each residue modulo 2^k exactly once |
| Random.EveryValueOnce | src/lib/random.c:9-12 | any 2^31 consecutive calls return each value below 2^31 exactly once |
| Calendar.DatetimeToUnix | src/lib/time.c:67-82 | the loops compute the seconds since 1970, cut to 32 bits |
| Calendar.UnixToDatetime | src/lib/time.c:84-110 | the result is the valid date with that many seconds |
| Calendar.YearsClosed | src/lib/time.c:67-75 | the days before a year in closed form, by the 4, 100 and 400 year rules |
| Calendar.FourCenturies | src/lib/time.c:63-65 | any 400 years have 146097 days |
| Calendar.MonthsClosed | src/lib/time.c:70-79 | the days before each month, one more behind the February of a leap year |
| Calendar.SecondsClosed | src/lib/time.c:67-82 | the seconds of a date in closed form |
| Calendar.OrderMatches | src/lib/time.c:67-110 | calendar order of valid dates is numeric order of timestamps, and equal timestamps mean equal dates |
| Calendar.UnixRoundTrip | src/lib/time.c:67-110 | timestamp to date and back is the identity on all 32-bit timestamps |
| Calendar.DateRoundTrip | src/lib/time.c:67-110 | date to timestamp and back is the identity on a valid date exactly until 32 bits run out |
| Paths.NormLoop | extra/xcfs_inject.py:184-192 | the loop is the fold over segments |
| Paths.NormIsClean | extra/xcfs_inject.py:184-192 | the result has no empty, `.` or `..` segment, for every path |
| Paths.NormIdempotent | extra/xcfs_inject.py:184-192 | normalising twice is normalising once, for every path |
| PathsLaws.NormGoesOn | extra/xcfs_inject.py:184-192 | normalising goes on from a path as normalising left it |
| PathsLaws.NormStep | extra/xcfs_inject.py:184-192 | one more segment: nothing for an empty one or a dot, a name is put behind, two dots take a name away and stay at the root |
| Paths.NpInPlace | src/drivers/fs/xcfs.c:25-70 | the buffer edits compute the scan |
| Paths.PopInPlace | src/drivers/fs/xcfs.c:54-57 | popping leaves the slash unless at the root |
| PathsAgree.ScanIsReduce | src/drivers/fs/xcfs.c:46-65 | the scan is a stack machine with one extra bit, whether a slash is left over |
| PathsAgree.NpIsReduce | src/drivers/fs/xcfs.c:25-70 | the result of `np` is what that machine leaves |
| PathsAgree.NpIsRooted | src/drivers/fs/xcfs.c:25-70 | the result starts with one slash and not with two |
| PathsLaws.RelativeIs | src/drivers/fs/xcfs.c:29-34 | a relative path means the path behind the current directory and a slash |
| PathsAgree.Agree | src/drivers/fs/xcfs.c:25-70 | `np` equals `_norm` on every absolute path in which no name follows a `..` that left a non-root path |
| PathsAgree.AgreeExactly | src/drivers/fs/xcfs.c:25-70 | the two agree on an absolute path exactly when no name follows such a `..` after the last segment at which `np` is back at the root |
| PathsAgree.AgreeIff | src/drivers/fs/xcfs.c:25-70 | the two agree on all leading parts of a path exactly when no name follows such a `..` anywhere |
| PathsAgree.DoubleSlash | src/drivers/fs/xcfs.c:54-60 | `/a/b/../c` becomes `/a//c` in one and `/a/c` in the other |
| XcfsVolume.HonestIff | src/drivers/fs/xcfs.c:272-273 | an extent has room for its size exactly up to 0xFFFFFE00 bytes |
| XcfsVolume.SectorsLeast | src/drivers/fs/xcfs.c:272-273 | no smaller number of sectors would hold the file; a size above that counts as one sector |
| XcfsVolume.LoadRebuilds | src/drivers/fs/xcfs.c:173-196 | when cache and disk agree, loading rebuilds the same header, entries and bitmap |
| XcfsVolume.LoadRebuildsIff | src/drivers/fs/xcfs.c:173-196 | with header and bitmap saved, exactly when the used slots are saved too |
| XcfsVolume.BitmapFitsIff | src/include/fs/xcfs.h:52 | the bitmap fits the megabyte that the driver keeps for it exactly up to 8388608 sectors |
| XcfsCompact.ShiftedApart | src/drivers/fs/xcfs.c:324-346 | whatever the table order, the extents after compaction are disjoint and inside the data area |
| XcfsCompact.AscendingIsSafe | src/drivers/fs/xcfs.c:324-346 | in ascending order no file is moved onto one still to be moved |
| XcfsContent.SafeKeeps | src/drivers/fs/xcfs.c:324-346 | then every other file keeps its sectors at every stage of the loop |
| XcfsContent.KeepsContentIff | src/drivers/fs/xcfs.c:324-346 | compaction keeps every file on every disk exactly when no file is moved onto a waiting one |
| XcfsContent.StageBitsExact | src/drivers/fs/xcfs.c:322-343 | under the same condition the bitmap is exactly the union of the extents at every stage |
| XcfsContent.BitsExactIff | src/drivers/fs/xcfs.c:322-343 | after the loop the bitmap is exactly the union of the extents if and only if no file was moved onto a waiting one |
| XcfsContent.StaysHoleFree | src/drivers/fs/xcfs.c:324-346 | a volume without holes has none after compaction, whatever the order |
| XcfsTree.AddKeepsTreeIff | src/drivers/fs/xcfs.c:244-297 | adding an entry keeps the tree exactly when its parent is a directory |
| XcfsTree.RemoveKeepsTreeIff | src/drivers/fs/xcfs.c:348-357 | swapping the last entry in keeps the tree exactly when nothing had the removed entry as parent |
| XcfsTree.DirnameOfName | src/drivers/fs/xcfs.c:85-92 | the directory of a directory path, a slash and a name is that directory, or the root when nothing stands in front of the slash |
| XcfsTree.DirnameIff | src/drivers/fs/xcfs.c:80-94 | for every path the directory cut off is the one that a name without slash lies in |
| XcfsTree.FindParentLies | src/drivers/fs/xcfs.c:80-94 | the parent found is the first entry with that directory as its path, and none is found exactly when there is none |
| XcfsTree.TreeLies | src/drivers/fs/xcfs.c:244-297 | in a tree every entry but the root lies in the directory it names as its parent |
| XcfsTree.ChildIffDirname | src/drivers/fs/xcfs.c:80-94 | in a tree an entry names a directory as its parent exactly when its path is that of the directory, a slash, and a name |
| XcfsTree.BasenameOfName | src/drivers/fs/xcfs.c:428-429 | the name behind a directory path and a slash is that name |
| XcfsTree.SlotsAreInside | src/drivers/fs/xcfs.c:416-437 | the entries listed for a directory are those whose path is its path, a slash, and a name, in table order |
| XcfsTree.ListedNames | src/drivers/fs/xcfs.c:416-437 | a name is listed exactly when the path of the directory, a slash, and the name is the path of an entry, and it is listed once |
| XcfsLaws.FormatLaw | src/drivers/fs/xcfs.c:203-242 | a fresh volume is coherent, agrees with its disk, has no bit set, and holds the protected root alone |
| XcfsLaws.MkdirLaw | src/drivers/fs/xcfs.c:244-262 | appends one directory entry exactly when room, new path and parent are there; extents, bitmap, data and agreement with the disk stay |
| XcfsLaws.PlaceIsFirst | src/drivers/fs/xcfs.c:119-133 | the run found is the first that is long enough, and none is found only if there is none |
| XcfsLaws.CreateLaw | src/drivers/fs/xcfs.c:264-297 | appends the file on zeroed sectors of its own and changes no other data sector; refuses otherwise unchanged |
| XcfsLaws.WriteLaw | src/drivers/fs/xcfs.c:367-414 | a write touches only the file, and reading any number of the bytes returns what was written |
| XcfsLaws.SaveKeepsDataIff | src/drivers/fs/xcfs.c:152-156 | saving the bitmap leaves the data area alone, whatever is on the disk, exactly when the bitmap sectors are apart from it |
| XcfsLaws.SaveKeepsDataInside | src/drivers/fs/xcfs.c:152-156 | for a volume that holds both, exactly when the bitmap ends at or before the first data sector |
| XcfsLaws.ShippedBitmapHitsData | config.cfg:10-12 | with the shipped constants saving the bitmap leaves the data area alone exactly on volumes of at most 9249 sectors |
| XcfsOutcomes.MkdirIff | src/drivers/fs/xcfs.c:244-262 | `xcfs_mkdir` goes through exactly with a free slot, a new path, and an entry for the directory the path lies in |
| XcfsOutcomes.CreateIff | src/drivers/fs/xcfs.c:264-297 | `xcfs_create` goes through exactly when, besides, enough clear bits stand in a row |
| XcfsOutcomes.DeleteIff | src/drivers/fs/xcfs.c:299-317 | `xcfs_delete` removes a slot exactly when it is the first with the path, not the root, not protected, and no directory with children |
| XcfsOutcomes.WriteIff | src/drivers/fs/xcfs.c:389-402 | `xcfs_write` goes through exactly on a file that is not read-only and has room for the data |
| XcfsOutcomes.ReadIs | src/drivers/fs/xcfs.c:367-387 | `xcfs_read` returns the bytes of the file from the front, as many as asked for and no more than it has, each from its sector |
| XcfsOutcomes.ReadFailsIff | src/drivers/fs/xcfs.c:367-373 | `xcfs_read` returns nothing exactly when the path is absent or no file |
| XcfsOutcomes.CreatedReadsZeros | src/drivers/fs/xcfs.c:264-297 | a file created and never written reads as zeros |
| XcfsOutcomes.FlagIsBit | src/include/fs/xcfs.h:19-21 | a flag is set exactly when its bit is |
| Xcfs.ReaddirIff | src/drivers/fs/xcfs.c:416-421 | there is a listing exactly of a path whose first entry is a directory |
| Xcfs.ListingIs | src/drivers/fs/xcfs.c:422-436 | the listing has a record for each of the first entries listed, with kind, flags, size and the name cut to 255 characters |
| XcfsDelete.DeleteKeepsOk | src/drivers/fs/xcfs.c:299-365 | after any deletion the volume is well formed with disjoint extents in the data area |
| XcfsDelete.DeleteKeepsExactIff | src/drivers/fs/xcfs.c:299-365 | after a deletion the bitmap is exactly the union of the extents left if and only if the deletion was safe |
| XcfsDelete.DeleteKeepsContent | src/drivers/fs/xcfs.c:299-365 | after a safe deletion every file left has its path, size and sectors |
| XcfsDelete.DeleteKeepsTreeIff | src/drivers/fs/xcfs.c:348-357 | a deletion keeps the tree exactly when the entry had no children |
| XcfsDelete.DeletedDirectoryLeavesTree | src/drivers/fs/xcfs.c:312-316 | deleting a directory always leaves a tree |
| XcfsDelete.DeleteKeepsSyncedIff | src/drivers/fs/xcfs.c:348-363 | after a deletion cache and disk agree, and a remount sees the volume as it is, exactly when no slot in front of the deleted one changed |
| XcfsDelete.OrderedFrontUntouched | src/drivers/fs/xcfs.c:348-363 | which holds with files in ascending order and children behind their parents |
| XcfsDelete.DeleteKeepsHoleFree | src/drivers/fs/xcfs.c:299-365 | a volume without holes has none after a deletion |
| XcfsLoss.SecondDeleteIsUnsafe | src/drivers/fs/xcfs.c:351-352 | with four files of one sector in ascending order deleting the first is safe, and deleting the second then is not |
| XcfsLoss.TwoDeletionsLoseAFile | src/drivers/fs/xcfs.c:203-414 | format, four creations, four writes, delete the first two files: after the first deletion the third file reads as written, after the second it reads as the fourth |
| XcfsLoss.TwoDeletionsLoseASlot | src/drivers/fs/xcfs.c:158-414 | after that run cache and disk disagree: a remount finds the fourth file at the sector it had before the second deletion moved it |
| XcfsRuns.StepKeepsTree | src/drivers/fs/xcfs.c:244-414 | every operation that creates nothing beneath a regular file keeps the tree, whatever the extents are |
| XcfsRuns.FormattedRunIsTree | src/drivers/fs/xcfs.c:203-437 | in every such run from a fresh volume paths are distinct, root is slot 0, every other entry lies in the directory it names as its parent, and listings are exactly the directory contents |
| XcfsRuns.FormattedRunLists | src/drivers/fs/xcfs.c:203-437 | in such a run on paths as `np` returns them a name is listed in a directory exactly when directory path, slash and name are the path of an entry, and once |
| XcfsRuns.StepKeepsSound | src/drivers/fs/xcfs.c:244-414 | every calm operation keeps extents disjoint, the bitmap exact and the tree |
| XcfsRuns.RunKeepsSound | src/drivers/fs/xcfs.c:244-414 | so does every calm run |
| XcfsRuns.StepKeepsFile | src/drivers/fs/xcfs.c:244-414 | an operation that neither writes nor deletes a file leaves its size and sectors |
| XcfsRuns.RunKeepsFile | src/drivers/fs/xcfs.c:244-414 | so does every calm run that does not touch it |
| XcfsRuns.WrittenStays | src/drivers/fs/xcfs.c:244-414 | what was written is read back after any calm run that does not touch the file |
| XcfsRuns.CreateKeepsNoHoles | src/drivers/fs/xcfs.c:119-133 | first fit puts a new file right behind the others on a volume without holes |
| XcfsRuns.RunKeepsNoHoles | src/drivers/fs/xcfs.c:244-414 | a calm run never leaves a hole |
| XcfsRuns.StepKeepsSynced | src/drivers/fs/xcfs.c:244-414 | a calm operation whose deletion touches no slot in front keeps cache and disk in agreement |
| XcfsRuns.RunRemounts | src/drivers/fs/xcfs.c:158-414 | after a run of those a remount sees the volume as it is |
| Xcfs.Driver.FindPath | src/drivers/fs/xcfs.c:74-78 | the loop finds the first entry with that path |
| Xcfs.Driver.FindParentOf | src/drivers/fs/xcfs.c:80-94 | finds the first entry whose path is the one in front of the last slash, or the root |
| Xcfs.Driver.MarkBits | src/drivers/fs/xcfs.c:96-117 | sets or clears exactly the sectors inside the bitmap |
| Xcfs.Driver.FindRun | src/drivers/fs/xcfs.c:119-133 | one pass finds the first run that is long enough |
| Xcfs.Driver.SaveEntryRange | src/drivers/fs/xcfs.c:141-150 | writes exactly the slots of the range |
| Xcfs.Driver.SaveBitmapSectors | src/drivers/fs/xcfs.c:152-156 | writes exactly the bitmap sectors |
| Xcfs.Driver.Format | src/drivers/fs/xcfs.c:203-242 | the formatted volume, coherent and saved |
| Xcfs.Driver.LoadTable | src/drivers/fs/xcfs.c:187-193 | the slots the header counts, from the disk |
| Xcfs.Driver.LoadBitmap | src/drivers/fs/xcfs.c:194-196 | the bitmap sectors in a row |
| Xcfs.Driver.Init | src/drivers/fs/xcfs.c:158-201 | loads a volume of this version or formats one |
| Xcfs.Driver.Mkdir | src/drivers/fs/xcfs.c:244-262 | is the abstract operation and keeps the volume sound |
| Xcfs.Driver.Create | src/drivers/fs/xcfs.c:264-297 | is the abstract operation and keeps the volume sound |
| Xcfs.Driver.CopySectors | src/drivers/fs/xcfs.c:336-340 | the ascending copy never reads a sector it wrote |
| Xcfs.Driver.CompactFiles | src/drivers/fs/xcfs.c:318-346 | the loop computes the compacted table, bitmap and disk |
| Xcfs.Driver.RemoveEntry | src/drivers/fs/xcfs.c:348-358 | swaps the last entry in and re-parents its children |
| Xcfs.Driver.Delete | src/drivers/fs/xcfs.c:299-365 | is the abstract deletion, refusals included |
| Xcfs.Driver.Read | src/drivers/fs/xcfs.c:367-387 | returns the first bytes of the file, or nothing |
| Xcfs.Driver.Write | src/drivers/fs/xcfs.c:389-414 | is the abstract write and keeps the volume sound |
| Xcfs.Driver.Readdir | src/drivers/fs/xcfs.c:416-437 | lists the first entries whose parent is the directory, names cut to 255 characters |
| InjectVolume.CountAgreesIff | extra/xcfs_inject.py:226 | script and driver count the same sectors exactly up to 0xFFFFFE00 bytes |
| InjectVolume.LoadRestores | extra/xcfs_inject.py:66-130 | the next start sees the image as the last one left it |
| InjectOutcomes.LoadedIs | extra/xcfs_inject.py:66-130 | what loads is a volume of this format whose data area starts inside it and whose metadata are on the disk |
| InjectLaws.PutsHealthy | extra/xcfs_inject.py:235-267 | putting data on sectors of its own keeps the check passing and files disjoint |
| InjectLaws.PutsBytes | extra/xcfs_inject.py:215-221 | the path then holds exactly the data |
| InjectLaws.PutsOthers | extra/xcfs_inject.py:235-267 | no other path changes its bytes |
| InjectLaws.InPlacePuts | extra/xcfs_inject.py:241-246 | overwriting in place puts the data on sectors of its own |
| InjectLaws.RelocatedPuts | extra/xcfs_inject.py:247-253 | relocating does, freeing the old sectors and no others |
| InjectLaws.AppendedPuts | extra/xcfs_inject.py:255-267 | creating does |
| InjectLaws.OverwriteLaw | extra/xcfs_inject.py:235-253 | a successful overwrite keeps health and agreement with the image file |
| InjectLaws.CreateFileLaw | extra/xcfs_inject.py:255-267 | a successful creation does |
| InjectLaws.InjectLaw | extra/xcfs_inject.py:223-233 | a successful inject puts the host bytes at the path, leaves every other path, and keeps health and agreement |
| InjectLaws.OverwriteEntry | extra/xcfs_inject.py:235-253 | overwriting changes no path, kind or parent and no other entry, and never sets the protected flag |
| InjectLaws.InjectKeepsTree | extra/xcfs_inject.py:199-205 | a successful inject keeps the directory tree |
| InjectOutcomes.InjectedLies | extra/xcfs_inject.py:199-205 | after it every entry but the root lies in the directory it names as its parent |
| InjectOutcomes.InjectIff | extra/xcfs_inject.py:223-267 | `inject` goes through exactly when path and size fit and the path names a file that may be overwritten and has room, or names nothing and there are a slot, a directory and room |
| InjectOutcomes.CreatedEntry | extra/xcfs_inject.py:255-264 | a new file gets the last slot, the size of the data, and the flags given without the protected one |
| InjectVolume.CheckMissesOverlap | extra/xcfs_inject.py:66-182 | an image with two files on one sector loads and passes the check |
| InjectVolume.OwnedCountIff | extra/xcfs_inject.py:165-182 | the files own at most as many sectors as they count, and as many exactly when no two share one |
| InjectVolume.PassesDisjointIff | extra/xcfs_inject.py:165-182 | an image that passes the check, and whose set bits all belong to a file, has no two files on one sector exactly when as many bits are set as the files count sectors |
| InjectLaws.SessionsLaw | extra/xcfs_inject.py:287-317 | after every sequence of successful starts the image loads, passes the check, has disjoint files, and holds at every path the bytes last injected there |
| InjectLaws.StartLaw | extra/xcfs_inject.py:287-317 | one start on a healthy image, whether it goes through or ends early, leaves a healthy image with the bytes of a job that went through and all other paths as they were |
| InjectLaws.StartsLaw | extra/xcfs_inject.py:287-317 | so does every sequence of starts, those that end early among them |
| Injector.Script.Open | extra/xcfs_inject.py:66-130 | loads exactly the images the header checks let through |
| Injector.Script.Check | extra/xcfs_inject.py:165-182 | counts no error exactly when paths are distinct, the root is first, and files lie on marked sectors |
| Injector.Script.FileErrors | extra/xcfs_inject.py:174-180 | counts no error exactly for a file in the data area on marked sectors |
| Injector.Script.FindFree | extra/xcfs_inject.py:152-163 | one pass finds the first run that is long enough |
| Injector.Script.MarkSectors | extra/xcfs_inject.py:142-150 | sets or clears exactly the sectors inside the bitmap |
| Injector.Script.WriteData | extra/xcfs_inject.py:215-221 | writes the padded chunks, or ends at the end of the volume |
| Injector.Script.Overwrite | extra/xcfs_inject.py:235-253 | is the abstract overwrite, refusals included |
| Injector.Script.CreateFile | extra/xcfs_inject.py:255-267 | is the abstract creation, refusals included |
| Injector.Script.Inject | extra/xcfs_inject.py:223-233 | is the abstract inject; a refusal after a passed check changes nothing |
| Injector.Script.Start | extra/xcfs_inject.py:287-317 | one start with a host file: the image afterwards, and the same image as before when the start ends early |
| Paging.TableKeeps | src/drivers/memory/vmm.c:103-114 | a new table unmaps exactly the 4 MB entry of its slot and keeps tables and frames apart |
| Paging.PteAlone | src/drivers/memory/vmm.c:115-119 | one table entry is one page |
| Paging.SetKeeps | src/drivers/memory/vmm.c:115-119 | mapping a loose frame changes only its page, and no two entries share a frame |
| Paging.ClearKeeps | src/kernel/syscall/syscall.c:145-150 | clearing an entry and freeing its frame unmaps only that page |
| Paging.EntryFields | src/include/memory/vmm.h:5-15 | frame number, 4 MB bit and present bit of an entry put together from its fields |
| Paging.PageRights | src/drivers/memory/vmm.c:22-41 | the program may read and write a page of a table as the flags of its own entry say, since the directory entries of tables are open |
| PageRanges.RangeNext | src/kernel/syscall/syscall.c:115-126 | one more page of a mapping loop: fresh zero frame, everything else kept, no frame that was free lost, and exactly the frames needed taken |
| PageRanges.NewSlotsStep | src/drivers/memory/vmm.c:22-41 | one more page needs one more frame, or two when its slot has no table and no earlier page of the range touches it |
| PageRanges.ShortMeans | src/kernel/syscall/syscall.c:115-126 | when the frames run out exactly at the last table, the last page maps to what it did before and one frame that was free is in no free list, entry or table |
| PageRanges.RangeLosesNothingIff | src/drivers/memory/vmm.c:115-119 | mapping a range loses no frame, of those free and those in use before, exactly when no page of the range was mapped by a table entry |
| PageRanges.NothingLostIff | src/kernel/syscall/syscall.c:115-126 | a call loses no frame exactly when besides the frames needed for the pages it got to were there |
| PageRanges.RemapLoses | src/kernel/syscall/syscall.c:155-172 | mapping a page again, as a second `sys_brk` after one that failed half way does, loses the frame it had |
| PageRanges.UnmapLosesNothing | src/kernel/syscall/syscall.c:129-153 | unmapping a range loses no frame and finds none |
| PageRanges.UnmapNext | src/kernel/syscall/syscall.c:138-151 | one more page of the unmapping loop frees exactly its frame |
| PageRanges.MapThenUnmap | src/kernel/syscall/syscall.c:110-153 | mapping and unmapping a range unmaps it and gives back every free frame but those that became tables; lost are exactly the frames that the range held before |
| Mmu.AddressSpace.CreateSpace | src/drivers/memory/vmm.c:201-221 | a fresh space maps what the kernel maps by 4 MB entries, for the user, and nothing else |
| Mmu.AddressSpace.GetPageTable | src/drivers/memory/vmm.c:22-41 | finds the table of a slot or makes an empty one, never in place of an entry with bit 7 |
| Mmu.AddressSpace.MapPageIn | src/drivers/memory/vmm.c:103-119 | changes its own page, and the other 1023 pages only where a 4 MB entry had to go; gives up exactly when a table is needed and no frame is left |
| Mmu.AddressSpace.UnmapPage | src/drivers/memory/vmm.c:120-131 | unmaps its own page only |
| Mmu.AddressSpace.GetPhysical | src/drivers/memory/vmm.c:132-146 | reports the flat map, 4 MB entries included |
| Mmu.AddressSpace.MapFresh | src/kernel/syscall/syscall.c:115-126 | maps the whole range afresh when the frames needed are free; leaves out the last page but reports success when one is missing and the last page alone needs its table; fails otherwise; lost are the frames that the pages it got to held, and one that was free in the second case |
| Mmu.AddressSpace.SysMmap | src/kernel/syscall/syscall.c:110-128 | with frames enough maps afresh exactly the pages that start in the bytes asked for; returns its base with every page fresh, its base with the last page left out, or -1, in exactly those cases, with the same frames lost; above 0xFFFFF000 bytes it returns its base and maps nothing |
| Mmu.AddressSpace.SysMunmap | src/kernel/syscall/syscall.c:129-153 | the table entries of the pages that start in the bytes given go, and exactly their frames become free |
| Mmu.AddressSpace.SysBrk | src/kernel/syscall/syscall.c:155-172 | with frames enough exactly the pages that start between the old break and the new one are fresh, every other page keeps its mapping, and the break moves; else it moves with the last page left out, or fails, in exactly those cases, with the same frames lost |
| Mmu.OutcomeOnPages | src/kernel/syscall/syscall.c:110-172 | the three outcomes of a page loop, told by the set of its pages and the frames for them |
| UserHeap.BrkKeepsHeapIff | src/kernel/syscall/syscall.c:155-172 | a call keeps every byte between the start of the heap and the break on a mapped page exactly when not just the table of the last page found no frame |
| UserHeap.HeapStaysMapped | src/kernel/syscall/syscall.c:155-172 | so every run of calls on a fresh space without such a one has every byte of the heap on a mapped page, and the program can write it |
| Mmu.OutcomesApart | src/kernel/syscall/syscall.c:110-126 | every page fresh if and only if the frames needed are free; success with a page left out if and only if one frame is missing and the last page alone needs its table, and then that page maps to what it did before and a frame is lost |
| Mmu.OneFrameIsShort | src/kernel/syscall/syscall.c:110-126 | a space with one free frame and no table is such a case for one page |
| Mmu.MmapOneFrame | src/kernel/syscall/syscall.c:110-126 | there `sys_mmap` of one page returns its base, the page is not mapped, and the frame is gone |
| Mmu.StopsWhere | src/kernel/syscall/syscall.c:115-126 | how many pages a call maps is decided beforehand: page after page while a frame is left for the next one |
| Mmu.MmapTwice | src/kernel/syscall/syscall.c:110-126 | two calls of `sys_mmap` for one page in a space with three free frames both return their base, and the frame of the first is in no free list, entry or table |
| Mmu.PageCountIff | src/kernel/syscall/syscall.c:113 | the page count holds the length exactly up to 0xFFFFF000 bytes and is 0 above |
| ElfEncode.HeaderReads | src/include/elf.h:14-34 | the fields of an ELF header put together byte by byte are read back, whatever stands behind it |
| ElfEncode.AcceptedIff | src/kernel/elf.c:9-18 | an image is accepted exactly when it is a 32-bit executable for the 386 with an entry point |
| ElfEncode.HeadersFitIff | src/kernel/elf.c:28 | the program headers pass their check exactly when they end inside the file, by a sum of 32 bits |
| ElfEncode.SegmentReads | src/include/elf.h:36-45 | a program header put together byte by byte is read back field by field |
| ElfEncode.AssembledReads | src/kernel/elf.c:9-35 | in header, program headers and payload, one after the other, the loader finds what went in |
| ElfLoader.PokeAlone | src/kernel/elf.c:66-77 | a byte written through the tables changes that virtual byte and no other |
| ElfLoader.NowLoaded | src/kernel/elf.c:46-78 | after mapping and copying every byte of the segment reads as the file byte or zero |
| ElfLoader.LoadedStays | src/kernel/elf.c:33-79 | a segment that shares no page with the next stays loaded |
| ElfLoader.CopyBytes | src/kernel/elf.c:66-77 | the copy loop through directory and table copies the bytes and changes nothing else |
| ElfLoader.LoadSegment | src/kernel/elf.c:33-78 | loads the segment exactly when it passes the range and bounds checks |
| ElfProgram.LoadAssembled | src/kernel/elf.c:20-87 | an assembled executable loads exactly when it has an entry point and its segments pass the checks, written out; then every byte of every segment reads as its file byte or zero, on pages that the program may read, and write exactly when PF_W is set |
| ElfLoader.LoadSegments | src/kernel/elf.c:33-79 | the loop succeeds exactly when every loadable segment passes its checks, and then all of them are loaded when no two share a page |
| ElfLoader.ElfLoad | src/kernel/elf.c:20-87 | succeeds exactly for images that pass every check, and then every byte of every loadable segment reads as it should when no two share a page |
| EditorText.KeyCodes | src/kernel/editor.c:214-254 | which code is which key |
| EditorText.LinesJoin | src/kernel/editor.c:39-51 | the lines hold no newline, and joined by newlines they are the text |
| EditorText.InsertRefines | src/kernel/editor.c:53-59 | inserting edits the line, or splits it at a newline |
| EditorText.AroundRefines | src/kernel/editor.c:60-72 | Backspace, Delete and the side arrows around a character join lines or stay in one, as they should |
| EditorText.UpRefines | src/kernel/editor.c:222-232 | up moves one row with the column cut to the line above |
| EditorText.DownRefines | src/kernel/editor.c:233-243 | down moves one row with the column cut to the line below |
| EditorText.PressRefines | src/kernel/editor.c:222-253 | every key does on lines, row and column what it means, inside the buffer |
| EditorText.TypedRefines | src/kernel/editor.c:187-254 | so does every key sequence |
| EditorText.InsertThenBackspaceIff | src/kernel/editor.c:53-66 | insert then Backspace is the identity exactly when the buffer has room, or at the very start |
| Editor.Memmove | src/lib/string.c:98-115 | overlapping moves in either direction copy as if taken out first |
| Editor.Buffer.LineStartAt | src/kernel/editor.c:39-42 | the loop finds the line start |
| Editor.Buffer.LineEndAt | src/kernel/editor.c:43-46 | the loop finds the line end |
| Editor.Buffer.LineOfAt | src/kernel/editor.c:47-51 | counting newlines gives the row |
| Editor.Buffer.Ins | src/kernel/editor.c:53-59 | inserts at the cursor, in place |
| Editor.Buffer.Delb | src/kernel/editor.c:60-66 | deletes in front of the cursor, in place |
| Editor.Buffer.Delf | src/kernel/editor.c:67-72 | deletes at the cursor, in place |
| Editor.Buffer.MoveUp | src/kernel/editor.c:222-232 | the in-place cursor arithmetic is the up move |
| Editor.Buffer.MoveDown | src/kernel/editor.c:233-243 | and the down move |
| Editor.Buffer.OnKey | src/kernel/editor.c:214-254 | each key keeps the buffer bounds and does what it means on the lines |

## Left out

- PageAllocator.Pmm.Defragment: the in-place form asks for a heap on which no free run has a clear buddy with a page of no region in it, which are exactly the heaps that stay coherent (`BuddyDefrag.DefragmentKeepsIff`); a merge that takes in other pages can put one page on two lists, where one link field cannot follow the sequences, and is stated on sequences only. So `JoinBuddies` and `DefragmentOrder` ask for listed buddies.
- PageAllocator.Pmm.Grant: pages stand for their bytes, and of a zeroed page the first word, which holds the list link, is modelled.
- PageAllocator.Pmm.InitPmm: E820 sums that overflow 64 bits, overlapping regions, ranges that start in the last page of the address space, the `total_usable` print-outs and the kernel image inside the heap are not part of this model.
- PageAllocator.Pmm.Free: frees of a page inside a live block behind its head are outside the contract; `BuddyTheorems.FreeKeepsInvIff` shows that they are exactly the frees that break the heap.
- Spinlocks and atomic updates of the allocator: it is modelled for one caller at a time.
- The packing of the bitmaps into bytes: they are sequences and arrays of bits.
- XcfsVolume.FormatOn: the bitmap is as long as the volume needs; the driver keeps one megabyte for it, which volumes above 8388608 sectors overflow (`XcfsVolume.BitmapFitsIff`).
- Xcfs.Driver.Create: file sizes above 0xFFFFFE00 bytes, for which the sector count wraps around.
- Xcfs.Driver.Init: disks whose header names a volume that does not fit the disk; sectors have one of four kinds, where the code reads any bytes, and an entry fills its sector, where the code's entries are 508 bytes long.
- XcfsCompact.Shifted: where the start sector of a moved file is smaller than the length of the deleted one the entry stays as it is, and the code's 32-bit difference wraps around; this needs extents that overlap, as a new file's can after an unsafe deletion.
- Paths.NpInPlace: paths of 248 characters or more, for which the code returns early.
- Timestamps, `xcfs_stat`, `xcfs_chdir` and `xcfs_list`: they add nothing to the state described here.
- Reads and writes of the disk that fail.
- Injector.Script.Open: the search for the header sector, the configuration file and the host file are parameters; failing ends the script.
- Injector.Script.Inject: paths are the bytes of their UTF-8 encoding, whose number the length limit counts.
- InjectLaws.SessionsLaw: an image whose sectors are not of the kinds its layout calls for ends the script; the script itself would go on with any bytes.
- Mmu.AddressSpace.MapPageIn: the frame handed in is one that the allocator gave out and no table entry maps, as in every caller; frames are typed as table or bytes, so that a table is never seen as data.
- Mmu.AddressSpace.CreateSpace: a kernel directory with 4 MB entries only, as `vmm_init` builds it; with tables in it the copy would share them.
- ElfLoader.ElfLoad: asks for program headers inside the image, sums that do not wrap around, and enough free frames for the pages and their tables; what `proc_free` gives back after a refused image, the process record and the kernel stack are not part of this model. `ElfProgram.LoadAssembled` asks for the same.
- `vmm_destroy_space`, `vmm_alloc_pages` and `vmm_free_pages`: they walk 4 MB entries as tables or address ranges that such entries cover.
- TLB flushes, control registers and the page counter of `vmm.c`.
- Calendar.DatetimeToUnix: years are not cut to 16 bits, and months above 13 would read past the table.
- Editor.Buffer.OnKey: the command line behind `:`, saving, and all drawing.
- The scheduler: its queue keeps no property over runs worth stating, since taking the head does not update the tail.
- Shell, commands, fonts, keyboard, sound, graphics, boot stages and drivers other than the file system's disk.
