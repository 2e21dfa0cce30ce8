# A verified model of the kernel's memory manager, driver lifecycle and boot path

This project models the parts of the kernel that carry state across many calls, and proves what
every run of them keeps. `dafny verify dfyconfig.toml` checks all of it.

**Memory.** The x86-64 page-table editor (`radix_tree`) is modelled over table memory, with a walk
that splits large leaves and allocates missing tables, and pruning of empty ones. Its tables come
from the frame allocator (`pmm`): a bitmap of frames, a free counter per 2 MiB block, and two
intrusive lists that index the fully and partly free blocks. The virtual allocator (`vmm`) sits on
both: a sorted table of ranges with guard pages, each page backed by its own frame, rolled back on
failure. The main results are:

- every sequence of map, protect and unmap requests refines the same edits of a flat map from pages
  to frames and flags, and a translation afterwards reports what the flat map says
  (`FlatMap.PerformThenTranslate`); nothing mapped otherwise is ever mapped over
  (`FlatMap.Entitled`), and a request is refused only for its arguments, for what is mapped there, or
  when no frame is free while a table of its range is missing (`FlatMap.Excused`);
- unmapping splits what straddles its ends, removes exactly its range, and reports mappings that
  tile it (`AddressSpaces.AddressSpace.UnmapRange`);
- after every write of a table slot no cached translation disagrees with the tree, whatever the
  processor loads before the write and between write and flush (`Tlb.WriteKeepsCoherent`), so no
  frame goes back while a stale translation reaches it (`Coherent`, kept by every method of
  `AddressSpace`);
- any sequence of virtual-allocator calls conserves the union of free frames, table frames and
  mapped frames, reaches no panic and changes nothing outside its two windows
  (`Vmm.VirtualAllocator.Serve`), and this holds from the boot description on (`Startup.Session`),
  which comes up whenever every section has a page and there are as many managed frames as the
  image has 2 MiB blocks; every table of the tree can be read through the direct map exactly as far
  as the memory map describes the image (`Startup.TablesReachable`);
- an allocation of pages is refused only if the range table is full, the range fits nowhere, or there
  were fewer free frames than its pages and their tables need (`Vmm.VirtualAllocator.Alloc`, counted
  in `Footprint.FramesRanOut`);
- the frame allocator's index always agrees with its bitmap, and an allocation fails exactly when no
  aligned free run exists (`Pmm.FrameAllocator.Alloc`).

**Drivers.** Registry construction, the three-colour depth-first start with retry, the capability
table and the reverse-order exit. A ghost history records every run, completion, failure and exit
of a driver; the theorems are about that history, which the numbered calls into the drivers
determine (`LifecycleState.OneOutcome`).

**Boot path.** The component graph's topological sort and its runner, and the Multiboot2 walk that
validates once and then iterates unchecked (section 3.6 of the Multiboot2 Specification 2.0).

**Concurrency.** The allocator under its spinlock and the C++ one-time construction guard (section
3.3.2 of the Itanium C++ ABI), as interleavings of single atomic steps of any number of threads; the
allocator's calls are proved linearizable (`LockedAllocator.CallsAreSequential`).

## How to read the model

- Addresses, sizes and counters are unbounded naturals. Where the source's 64-bit arithmetic wraps
  and a caller can notice, the wrap is written out (`Vmm.WrappedUp`, `Vmm.UpTo`, `Pages.FrameOf`).
- A panic sets `halted`. Contracts say exactly when it is set, or that it never is.
- The page tree holds decoded entries. `Paging` models the 64-bit words bit by bit and proves that
  tables of words that show the tree (`Represents`) keep showing it through every write, split and
  clear, and that comparing raw words is comparing entries.
- `View` is the flat map a tree denotes. `Changed(before, after, root, first, n, edit)` says that the
  edit happened on exactly `n` pages from `first` and nowhere else.
- `Local(lay, lay', first, n)` says that only tables serving the run of `n` pages from `first` came or
  went; `TablesFor(first, n)` is their number; `Starved` means no frame is free and one is missing.
- `Account` is the set of frames that are free or hold a table that came from the allocator.
- In-place state is a class with `Valid()`; ghost fields name the abstract lists, the table layout,
  the cached translations and the history.
- Many method bodies begin with `hide *`, so that each step rests on a small named lemma.

Where the code and its comments differ the code is followed: `populate` also reserves the range of
the ACPI root pointer, because its walk over the boot record meets that range like any other.
`exit_all` leaves drivers marked as visited, so a later `init_all` never brings them back:
`Lifecycle.Lifecycle.Restart` shows it, and `InitAll` says precisely which drivers are up after a
successful start. A driver that had failed before the exit can then run although what it depends on
is down and the capability it looks up is null: `Lifecycle.RunOnDeadDependency` is such a run from the
constructor on, and `InitAll` states when a successful start runs every driver on live dependencies.

## Model

| member | source | states |
|---|---|---|
| Pages.IndexIsSlot | arch/common/mmu/traits.hpp:28-31 | the index computed from address bits is the slot of the address's page, modulo the table size |
| Pages.RoundingUp | kernel/core/utils/bits.hpp:57-67 | rounding up yields the next multiple of the alignment, by less than one alignment; rounding down likewise |
| Paging.SizesAreShifts | arch/common/mmu/traits.hpp:33-41 | level and page size convert into each other by the shift, nine bits a level, and the byte count is two to the shift |
| Words.MaskIsPowerMinusOne | kernel/core/utils/bits.hpp:45-49 | the mask of n bits is the number 2^n - 1, and all ones from the word width on |
| Bitmap.PopcountIsCardinality | kernel/core/utils/bitmap.hpp:56-59 | the population count of a word is the number of members it holds |
| Bitmap.Bits.Apply | kernel/core/utils/bitmap.hpp:61-90 | exactly the members of the range take the value, through masks of at most two partial words |
| Bitmap.Bits.SetRange | kernel/core/utils/bitmap.hpp:227-230 | the set becomes its union with the range |
| Bitmap.Bits.ClearRange | kernel/core/utils/bitmap.hpp:232-235 | the set loses exactly the range |
| Bitmap.Bits.FindSet | kernel/core/utils/bitmap.hpp:237-248 | the least member in the words given, or NPOS exactly when there is none |
| Bitmap.Bits.FindSetIn | kernel/core/utils/bitmap.hpp:250-289 | the least member in any range of indices, or NPOS exactly when there is none |
| Bitmap.Bits.CountSet | kernel/core/utils/bitmap.hpp:296-304 | the number of members in the words given |
| Bitmap.Bits.CountSetIn | kernel/core/utils/bitmap.hpp:306-329 | the number of members in any range of indices |
| Bitmap.Bits.ShiftUp | kernel/core/utils/bitmap.hpp:92-119 | in place, every member moves up by the count and those past the end are dropped |
| Bitmap.Bits.ShiftDown | kernel/core/utils/bitmap.hpp:121-148 | in place, every member moves down by the count and those below zero are dropped |
| Bitmap.MovedUp | kernel/core/utils/bitmap.hpp:92-119 | the words the shift computes denote the moved set |
| Bitmap.MovedDown | kernel/core/utils/bitmap.hpp:121-148 | the words the shift computes denote the moved set |
| BlockList.ListEnds | kernel/mm/pmm.cpp:78-100 | following the links from the head visits each block of the list once and ends: the list is acyclic |
| BlockList.UnlinkKeepsList | kernel/mm/pmm.cpp:89-100 | joining a member's neighbours leaves the list without it, back links included |
| Pmm.FrameAllocator.Push | kernel/mm/pmm.cpp:78-87 | the block heads its list, the other list and all counters are unchanged |
| Pmm.FrameAllocator.Unlink | kernel/mm/pmm.cpp:89-100 | the block leaves its list, the other list and all counters are unchanged |
| Pmm.FrameAllocator.SetFree | kernel/mm/pmm.cpp:67-116 | one counter changes, and each list again holds exactly the blocks whose counters put them there |
| Pmm.FrameAllocator.TakeWhole | kernel/mm/pmm.cpp:118-126 | exactly the frames of the given blocks stop being free, and index and bitmap still agree |
| Pmm.FrameAllocator.FindWholeRun | kernel/mm/pmm.cpp:128-145 | an aligned run of fully free blocks, or NIL exactly when there is none |
| Pmm.FrameAllocator.TakeFrame | kernel/mm/pmm.cpp:150-164 | one free frame is taken, from a partly free block if there is one, and it fails only when nothing is free |
| Pmm.FrameAllocator.TakeFrom | kernel/mm/pmm.cpp:156-164 | a listed block holds a free frame, so the panic is not reached |
| Pmm.FrameAllocator.TakeBlocks | kernel/mm/pmm.cpp:165-173 | a large request takes an aligned free run and fails exactly when there is none |
| Pmm.FrameAllocator.Alloc | kernel/mm/pmm.cpp:238-252 | for every size an aligned run that was entirely free, failure exactly when none exists, a single frame from a partly free block if there is one |
| Pmm.FrameAllocator.Free | kernel/mm/pmm.cpp:254-279 | exactly the run becomes free; it panics exactly on a misaligned, out-of-range or partly free run |
| Pmm.AllocThenFree | kernel/mm/pmm.cpp:238-279 | what was allocated may be released, and releasing it restores the free set |
| Pmm.RunIsBlocks | kernel/mm/pmm.cpp:134-142 | a run of blocks is free exactly when each block's counter is full |
| Pmm.FullBlock | kernel/mm/pmm.cpp:67-76 | a counter never exceeds a block, and is full exactly when each frame of the block is free |
| Pmm.BrokenIs | kernel/mm/pmm.cpp:67-76 | a counter is between zero and full exactly when the block has a free and a taken frame |
| Pmm.ListsApart | kernel/mm/pmm.cpp:67-76 | no block is on both lists, and the second list is empty exactly when no block is partly free |
| Pmm.FrameAllocator.Mark | kernel/mm/pmm.cpp:176-194 | usable ranges are rounded inwards and reserved ones outwards, clipped to managed memory |
| Pmm.FrameAllocator.ClaimRegions | kernel/mm/pmm.cpp:201-208 | a pass over the memory map frees what is inside usable regions, or reserves what touches the others |
| Pmm.FrameAllocator.ReserveAll | kernel/mm/pmm.cpp:209-221 | every frame that touches one of the ranges is reserved |
| Pmm.ModulesTouch | kernel/mm/pmm.cpp:209-221 | what is reserved for the modules is what the range of some module touches |
| Pmm.FrameAllocator.Populate | kernel/mm/pmm.cpp:223-234 | a frame is free afterwards exactly when it is inside one usable region and touches nothing reserved; index and bitmap agree |
| Pmm.FrameAllocator.CountBlocks | kernel/mm/pmm.cpp:232-233 | the counters and lists built from the bitmap agree with it |
| PageTree.SplitKeepsView | arch/x86_64/mmu/paging.hpp:101-108 | splitting a 2 MiB or 1 GiB leaf changes no page's frame or flags |
| PageTree.LinkEmptyKeepsView | arch/common/mmu/radix_tree.hpp:76-80 | hanging an empty table in an empty slot changes no page |
| PageTree.UnlinkKeepsView | arch/common/mmu/radix_tree.hpp:111-120 | cutting off an empty table changes no page |
| PageTree.LinkKeepsTree | arch/common/mmu/radix_tree.hpp:80-88 | the tree stays well formed: every table is reached by exactly one path and nothing lies outside the tree |
| PageTree.UnlinkKeepsTree | arch/common/mmu/radix_tree.hpp:117-118 | the same when an empty table leaves |
| PageTree.StoreKeepsTree | arch/common/mmu/radix_tree.hpp:134-146 | the same when a leaf is written or cleared |
| PageTree.EditIsLocal | arch/common/mmu/radix_tree.hpp:61-93 | writing one slot affects only the pages that slot serves |
| Tlb.OnlySlotIsStale | arch/x86_64/mmu/mmu.hpp:64-72 | after a slot is rewritten the only cached entry that can disagree is the old content of that slot |
| Tlb.LoadsKeepCoherent | arch/x86_64/mmu/mmu.hpp:64-72 | whatever the processor loads from the tables, no cached entry disagrees with them |
| Tlb.WriteKeepsCoherent | arch/x86_64/mmu/mmu.hpp:64-72 | for every set of loads before the write and every set between write and flush, flushing the page of a slot that was present, and nothing else, leaves no entry that disagrees |
| Footprint.FramesRanOut | arch/x86_64/mmu/mmu.hpp:43-53 | when the allocator is empty after an operation on a run, it had no more frames than the run has tables, not counting those that stayed and plus the frames lent, and fewer if a table is still missing |
| Edits.Compose | arch/common/mmu/radix_tree.hpp:197-198 | edits of adjacent runs compose to the edit of the joined run |
| Edits.StoreStep | arch/common/mmu/radix_tree.hpp:134-146 | a single slot store realises the edit of the pages it serves |
| Paging.LeafDecodes | arch/x86_64/mmu/paging.hpp:81-99 | the leaf word decodes to the frame, truncated to bits 12 to 51, and the effective flags |
| Paging.LeafNumber | arch/x86_64/mmu/paging.hpp:81-99 | the number written for a leaf: the address truncated to bits 12 to 51 and one literal power of two for each property |
| Paging.TableNumber | arch/x86_64/mmu/paging.hpp:76-79 | the number written for a table: its address plus present, writable and user |
| Paging.AddressSurvives | arch/x86_64/mmu/paging.hpp:53-56 | the address read back is the one written exactly when it is page-aligned and below 2^52 |
| Paging.ProtRoundTrip | arch/x86_64/mmu/paging.hpp:58-74 | the protection read back is the one asked for, up to global and no-execute where the processor has them off |
| Paging.TableDecodes | arch/x86_64/mmu/paging.hpp:76-79 | a table word decodes to a pointer to its frame |
| Paging.ProtectDecodes | arch/common/mmu/radix_tree.hpp:146-146 | rewriting a leaf with its own address keeps its frame |
| Paging.SplitDecodes | arch/x86_64/mmu/paging.hpp:101-108 | each word of a split decodes to the matching piece of the split leaf |
| Paging.Split | arch/x86_64/mmu/paging.hpp:101-108 | the loop fills a whole table with those words |
| Paging.DecodeInjective | arch/common/mmu/radix_tree.hpp:130-131 | two words the source can have written are equal exactly when they decode alike |
| Paging.LeavesAreClean | arch/x86_64/mmu/paging.hpp:81-99 | leaf words set no stray bit |
| Paging.TablesAreClean | arch/x86_64/mmu/paging.hpp:76-79 | table words and cleared slots set no stray bit |
| Paging.SplitsAreClean | arch/x86_64/mmu/paging.hpp:101-108 | split words set no stray bit |
| Paging.SlotWritten | arch/x86_64/mmu/mmu.hpp:64-72 | writing a word over a slot writes its entry, in tables of words that show the tree |
| Paging.MappedSlot | arch/common/mmu/radix_tree.hpp:127-134 | the words still show the tree after a leaf is mapped |
| Paging.ProtectedSlot | arch/common/mmu/radix_tree.hpp:146-146 | and after a leaf is protected through the address read back from its word |
| Paging.ClearedSlot | arch/common/mmu/radix_tree.hpp:180-180 | and after a slot is cleared |
| Paging.EmptyTableLinked | arch/common/mmu/radix_tree.hpp:76-80 | and after a zeroed table is linked |
| Paging.SplitTableLinked | arch/common/mmu/radix_tree.hpp:85-88 | and after a leaf is split into a new table |
| Paging.TableUnlinked | arch/common/mmu/radix_tree.hpp:117-118 | and after an empty table is cut off |
| Paging.ConflictTest | arch/common/mmu/radix_tree.hpp:130-131 | in such tables comparing the word with the new leaf is comparing the entry |
| AddressSpaces.AddressSpace.constructor | arch/common/mmu/radix_tree.hpp:206-209 | boot tables that form a well-formed tree in the image are adopted with the invariant |
| AddressSpaces.AddressSpace.Replace | arch/x86_64/mmu/mmu.hpp:64-72 | one slot is written, the processor loads what it likes before the write and between write and flush, and the cache is what it then held, less the flushed page if the slot was present; no entry disagrees with the tree |
| AddressSpaces.AddressSpace.AllocTable | arch/x86_64/mmu/mmu.hpp:43-53 | a zeroed table in a frame that was free and is no longer; it fails only when no frame is free |
| AddressSpaces.AddressSpace.FreeTable | arch/x86_64/mmu/mmu.hpp:55-62 | a table that left the tree goes back to the allocator unless the image holds it |
| AddressSpaces.AddressSpace.SplitInto | arch/common/mmu/radix_tree.hpp:81-89 | no page changes, no frame is lost, one table is added; failure changes nothing and means that no frame is free |
| AddressSpaces.AddressSpace.LinkNew | arch/common/mmu/radix_tree.hpp:76-80 | a missing table is linked without changing any page; failure changes nothing and means that no frame is free |
| AddressSpaces.AddressSpace.Walk | arch/common/mmu/radix_tree.hpp:61-93 | the path to the target level; no page changes even when it runs out of memory half way, tables are added on the path only, and it runs out only when no frame is free and a table of the path is missing |
| AddressSpaces.AddressSpace.WalkToLeaf | arch/common/mmu/radix_tree.hpp:95-109 | the slot of a leaf of the target size, splitting a larger one if need be; an error means an unmapped page, smaller leaves there, or no free frame |
| AddressSpaces.AddressSpace.IsTableEmpty | arch/common/mmu/radix_tree.hpp:52-59 | true exactly when every slot is empty |
| AddressSpaces.AddressSpace.Prune | arch/common/mmu/radix_tree.hpp:111-120 | exactly the tables of the path below some level go, each of them empty but for the pointer to the one below, and the next one holds an entry or is the root; no page changes, no frame is lost |
| Pruning.PrunedMore | arch/common/mmu/radix_tree.hpp:111-120 | one more bare table goes: the others keep their slots |
| Pruning.PathIsClean | arch/common/mmu/radix_tree.hpp:111-120 | where pruning stops at an entry or the root, no empty table is left on the path |
| AddressSpaces.AddressSpace.MapLeaf | arch/common/mmu/radix_tree.hpp:122-137 | exactly the leaf's pages map to consecutive frames, or no page changes; success only where each page was unmapped or mapped so already; refused exactly for bad arguments as such, and otherwise only for a page mapped otherwise, smaller leaves in the way, or no free frame |
| AddressSpaces.AddressSpace.ProtectLeaf | arch/common/mmu/radix_tree.hpp:139-149 | exactly the leaf's pages get the new flags, or no page changes; the same reasons for failure, with an unmapped page in place of one mapped otherwise |
| AddressSpaces.AddressSpace.SplitAt | arch/common/mmu/radix_tree.hpp:151-164 | afterwards no leaf larger than the target crosses the boundary; no page changes, nothing at all where no leaf is cut, and failure means that no frame is free |
| AddressSpaces.AddressSpace.RemoveLeaf | arch/common/mmu/radix_tree.hpp:166-184 | exactly one leaf's pages are unmapped and reported, no empty table but the root is left on the path, and no other table goes |
| AddressSpaces.AddressSpace.MapRange | arch/common/mmu/radix_tree.hpp:187-222 | success maps exactly the range, failure at most a prefix, and no page mapped otherwise is ever mapped over; frames are conserved; a failure is due to the arguments, a page mapped otherwise, smaller leaves in the way, or no free frame while a table of the range is missing; a range in place is left as it is |
| AddressSpaces.AddressSpace.ProtectRange | arch/common/mmu/radix_tree.hpp:187-230 | success changes the flags of exactly the range, failure of at most a prefix, and only for the arguments, an unmapped page, smaller leaves, or no free frame while a table of the range is missing; 4 KiB pages need no frame |
| AddressSpaces.AddressSpace.UnmapRange | arch/common/mmu/radix_tree.hpp:233-257 | success removes exactly the range and failure at most a prefix; the reports tile what was removed; released frames are exactly those of the removed pages; a failure is due to the arguments, to a hole in the range, or, before anything is removed, to no free frame while a table for a split is missing; no table outside the range comes or goes and none moves |
| AddressSpaces.AddressSpace.Translate | arch/common/mmu/radix_tree.hpp:259-274 | the answer is the flat map's, with the size of the leaf that serves the page; an error exactly when unmapped or not canonical |
| FlatMap.Perform | arch/common/mmu/radix_tree.hpp:216-257 | any sequence of requests leaves the tree equal to the flat map edited the same way, and conserves frames; a request edits only pages it may (mapping none that is mapped otherwise, protecting and unmapping mapped ones), and each refusal has its reason in the state before and after it |
| FlatMap.PerformUntil | arch/x86_64/mmu/mmu.cpp:118-145 | the same for requests performed up to the first failure, with every other page as it was |
| FlatMap.PerformThenTranslate | arch/common/mmu/radix_tree.hpp:216-274 | after any requests, each with the effect it names, a translation reports the flat map so edited; frames are conserved |
| FlatMap.OneMore | arch/common/mmu/radix_tree.hpp:216-257 | one more edit of the tree is one more edit of the flat map |
| FlatMap.TilesAreMapped | arch/common/mmu/radix_tree.hpp:239-254 | the reports of an unmap describe pages that were mapped |
| FlatMap.TracedDenotes | arch/common/mmu/radix_tree.hpp:216-257 | a run of requests, step by step, denotes the flat map edited by its effects and spares every other page |
| Traces.MappedAlong | arch/common/mmu/radix_tree.hpp:216-257 | a page that no request of a run unmaps stays mapped throughout, by leaves no larger |
| Traces.LocalAlong | arch/common/mmu/radix_tree.hpp:61-120 | a run of requests within a region adds and drops tables of that region only |
| Traces.PathAlong | arch/common/mmu/radix_tree.hpp:111-120 | while a page stays mapped the tables above it neither go nor move |
| RangeTable.Table.FindGap | kernel/mm/vmm.cpp:34-59 | the lowest gap that fits with its guard page, an error exactly when none fits or the table is full |
| RangeTable.Table.StartOf | kernel/mm/vmm.cpp:34-42 | the lowest page of the window clear of every earlier range and its guard; every later range lies at or above it |
| RangeTable.LowestIsGapStart | kernel/mm/vmm.cpp:34-42 | that address is where the gap starts |
| RangeTable.GapIsPlaceable | kernel/mm/vmm.cpp:54-56 | the found gap is the lowest address where the range fits beside the others |
| RangeTable.PlaceableNeedsGap | kernel/mm/vmm.cpp:54-58 | any place where a range fits lies in a gap the search considers |
| RangeTable.Table.Insert | kernel/mm/vmm.cpp:61-68 | the entry is inserted at its index, the others keep their order |
| RangeTable.Table.Erase | kernel/mm/vmm.cpp:70-76 | the entry is removed, the others keep their order |
| RangeTable.InsertKeepsOrder | kernel/mm/vmm.cpp:61-68 | inserting into a fitting gap keeps the table sorted, in the window and guarded |
| RangeTable.EraseKeepsOrder | kernel/mm/vmm.cpp:70-76 | erasing keeps it so |
| RangeTable.GuardPages | kernel/mm/vmm.cpp:34-59 | behind every range of an ordered table 4096 bytes stay free, up to the next range and to the end of the window |
| Vmm.VirtualAllocator.Release | kernel/mm/vmm.cpp:78-91 | a fully mapped run is unmapped and every frame handed back; the panic is not reached |
| Vmm.VirtualAllocator.Back | kernel/mm/vmm.cpp:93-115 | every page on a frame of its own, or no page changed and every frame back; it fails only with fewer free frames than the pages and their tables need |
| Vmm.VirtualAllocator.Alloc | kernel/mm/vmm.cpp:119-135 | all or nothing: lowest place, distinct frames, requested protection, everything else untouched; a proper request fails only if the table is full, nothing fits, or the frames are fewer than the pages and their tables need |
| Vmm.VirtualAllocator.Free | kernel/mm/vmm.cpp:137-159 | succeeds exactly for a live range named by its base and a size that needs as many pages, never for a size whose rounding wraps, and returns its frames |
| Vmm.VirtualAllocator.AllocThenFree | kernel/mm/vmm.cpp:119-159 | freeing with the very size that was asked for succeeds and restores the table of ranges |
| Vmm.Named | kernel/mm/vmm.cpp:144-150 | which live range a base and a size name: the one whose pages the size needs, none when rounding wraps |
| Vmm.VirtualAllocator.Protect | kernel/mm/vmm.cpp:161-179 | succeeds exactly for page-aligned parts of live ranges, changes exactly those pages, takes no frame |
| Vmm.VirtualAllocator.MapMmio | kernel/mm/vmm.cpp:188-209 | the aperture maps to itself in its window, uncached; refused exactly for a request outside the window, and otherwise fails only when no frame is left and there were fewer than the request has tables; repeating a request succeeds and changes nothing |
| Aperture.MmioTakes | kernel/mm/vmm.cpp:188-206 | a request never meets a page mapped otherwise |
| Aperture.MmioMapped | kernel/mm/vmm.cpp:199-205 | every page of the window stays unmapped or mapped to the frame at its own distance, and mapped pages stay mapped |
| Aperture.MmioRights | kernel/mm/vmm.cpp:199-205 | device pages are uncached, writable, not executable and not for user code |
| Vmm.VirtualAllocator.Serve | kernel/mm/vmm.cpp:119-209 | over any sequence of calls frames are conserved, no panic is reached, no page outside the two windows changes, and what is mapped in the MMIO window stays so |
| Vmm.VirtualAllocator.Step | kernel/mm/vmm.cpp:119-209 | one call conserves frames and changes the two windows only |
| WindowSteps.AllocStep | kernel/mm/vmm.cpp:128-132 | backing a gap and inserting the range keeps window, table and frames in agreement |
| WindowSteps.FreeStep | kernel/mm/vmm.cpp:152-153 | releasing a range and erasing it keeps them in agreement |
| BootTables.Tables.LinkTables | arch/x86_64/mmu/mmu.cpp:73-86 | the upper tables point at the lower ones and nowhere else |
| BootTables.Tables.Fill2M | arch/x86_64/mmu/mmu.cpp:88-93 | consecutive directory entries map consecutive 2 MiB blocks, the rest of the directory is unchanged |
| BootTables.Tables.FillRegion | arch/x86_64/mmu/mmu.cpp:98-114 | exactly the 2 MiB blocks the region overlaps get their identity entry |
| BootTables.Tables.FillDirectMap | arch/x86_64/mmu/mmu.cpp:95-116 | the direct map has an entry for a block exactly when some non-defective region overlaps it |
| BootTables.Tables.Build | arch/x86_64/mmu/mmu.cpp:160-169 | both windows hold exactly the described leaves |
| BootTables.BootTree | arch/x86_64/mmu/mmu.cpp:73-116 | the boot tables are a well-formed tree |
| BootTables.DirectMapView | arch/x86_64/mmu/mmu.cpp:95-116 | a direct-map page maps to its own frame exactly when described memory overlaps its block |
| BootTables.UsableIsDescribed | arch/x86_64/mmu/mmu.cpp:97-106 | every frame inside a usable region is covered by the direct map |
| KernelImage.ProtectImage | arch/x86_64/mmu/mmu.cpp:118-145 | nothing outside the kernel's window changes; on success each page of it has its final rights; over the boot tables it fails only for a section without a page or with fewer free frames than the image has 2 MiB blocks |
| KernelImage.FinalMap | arch/x86_64/mmu/mmu.cpp:127-145 | text, then read-only data, then the data behind them win in this order, and the pages around the image are unmapped |
| KernelImage.SectionRights | arch/x86_64/mmu/mmu.cpp:127-131 | text is executable and not writable, read-only data neither, data behind it writable and not executable; no section is both, and no user access |
| KernelImage.EarlyRights | arch/x86_64/mmu/mmu.cpp:163-168 | before the protection the image is writable, executable and not for user code |
| KernelImage.BootMapsImage | arch/x86_64/mmu/mmu.cpp:88-93 | the boot tables map the image's 2 MiB blocks at the kernel's window and nothing else there |
| KernelImage.RanOut | arch/x86_64/mmu/mmu.cpp:118-145 | a run of requests in that window that stops had fewer frames to start from than the image has blocks |
| Startup.Start | arch/x86_64/mmu/mmu.cpp:154-181 | from any boot description: it succeeds whenever every section has a page and at least as many frames are managed as the image has 2 MiB blocks; then the allocators' invariants hold, the image has its final rights, and the direct map reaches exactly the frames whose blocks the memory map describes |
| Startup.DirectMapStays | arch/x86_64/mmu/mmu.hpp:32-41 | the direct map is the same whatever the virtual allocator does |
| Startup.DirectMapRights | arch/x86_64/mmu/mmu.cpp:95-116 | the direct map is writable, not executable, cached and not for user code |
| Startup.Session | kernel/mm/vmm.cpp:119-209 | boot followed by any calls: it comes up under the same condition, and then there is no panic, no frame is lost, the image keeps its rights, every managed frame is reachable, and every table too if the memory map describes the image |
| Startup.TablesReachable | arch/x86_64/mmu/mmu.hpp:38-41 | the boot tables can be read through the direct map exactly when the memory map describes their blocks |
| Startup.UndescribedImage | arch/x86_64/mmu/mmu.cpp:95-116 | with usable memory described from 16 MiB only, frames are reachable but a root table below is not |
| Digraphs.PathGoesBack | kernel/device/lifecycle.cpp:460-496 | in a list where each node follows its dependencies, paths lead to earlier nodes only |
| Digraphs.BackEdge | kernel/device/lifecycle.cpp:466-468 | meeting a node that is still being visited means a real cycle |
| Digraphs.ListedIsAcyclic | kernel/device/lifecycle.cpp:545-553 | when every node is listed after its dependencies there is no cycle |
| Lifecycle.Lifecycle.FindNode | kernel/device/lifecycle.cpp:99-127 | the node of that name, or none exactly when no node has it |
| Lifecycle.Lifecycle.AddDrivers | kernel/device/lifecycle.cpp:129-147 | one node per driver, refused for a missing or repeated name or too many drivers |
| Lifecycle.Lifecycle.AttachEntries | kernel/device/lifecycle.cpp:171-215 | a node has its entry (exit) function exactly when a record names it, at most one per driver |
| Lifecycle.Lifecycle.ProviderRecordCount | kernel/device/lifecycle.cpp:149-160 | the number of records that provide the capability |
| Lifecycle.Lifecycle.ValidateProviderRecords | kernel/device/lifecycle.cpp:257-277 | every provider record is complete, registered and not one of several for a singleton |
| Lifecycle.Lifecycle.ValidateDependencyRecords | kernel/device/lifecycle.cpp:217-255 | every dependency record is complete and names registered drivers and provided capabilities |
| Lifecycle.Lifecycle.BuildRegistry | kernel/device/lifecycle.cpp:279-322 | accepted exactly when the records have no defect; the error names a defect they have |
| Lifecycle.Lifecycle.RegisterCapabilities | kernel/device/lifecycle.cpp:324-350 | the table grows by the driver's capabilities in order with its resolvers' pointers, all of them exactly when every resolver call returns a pointer and they fit; else the error is that of the first call that returns null or finds the table full |
| Lifecycle.Lifecycle.FindCapability | kernel/device/lifecycle.cpp:591-601 | the pointer of the first entry of that name, null exactly when there is none |
| LifecycleState.LookupIsFirst | kernel/device/lifecycle.cpp:591-601 | what a lookup means: the pointer of the first entry with the same name |
| Lifecycle.Lifecycle.RunDriver | kernel/device/lifecycle.cpp:431-458 | the driver runs only when safe; it completes once when its entry function and its resolvers succeed and there is room, and stops with the error of the first that does not |
| LifecycleState.OneOutcome | kernel/device/lifecycle.cpp:431-458 | the calls numbered from a run on determine whether it works, and the one error it fails with |
| Lifecycle.Lifecycle.Visit | kernel/device/lifecycle.cpp:460-496 | terminates on every graph, leaves nothing marked as visiting, and fails only for a defect, a real cycle or a driver that failed |
| Lifecycle.Lifecycle.VisitDriverDependencies | kernel/device/lifecycle.cpp:391-412 | on success every driver named as a dependency has completed |
| Lifecycle.Lifecycle.VisitCapabilityDependencies | kernel/device/lifecycle.cpp:414-429 | on success every provider of every required capability has completed |
| Lifecycle.Lifecycle.VisitCapabilityProviders | kernel/device/lifecycle.cpp:354-389 | on success the capability has a provider and all its providers have completed |
| LifecycleState.ReadyIsSafe | kernel/device/lifecycle.cpp:470-486 | when a driver is run all its transitive dependencies have completed, they are up exactly when none was exited since, and capabilities of providers that are up resolve |
| Lifecycle.RunOnDeadDependency | kernel/device/lifecycle.cpp:460-578 | a run of start, exit and start from the constructor on, in which the second start runs a driver although the driver it depends on was exited and is down and the capability it requires is null |
| LifecycleState.LookupSourced | kernel/device/lifecycle.cpp:324-350 | a name found in a table whose entries come from drivers run since the last exit is one that such a driver provides |
| Lifecycle.Lifecycle.ResolvesOnlyProvided | kernel/device/lifecycle.cpp:591-601 | between any calls a capability resolves only if a driver that provides it was run since the last exit |
| Lifecycle.StartIsLive | kernel/device/lifecycle.cpp:532-556 | a start that succeeds runs every driver with all it depends on up exactly when no driver it had to run depends on one that was exited |
| LifecycleState.Complete | kernel/device/lifecycle.cpp:451-453 | a completed driver goes to the end of a topological order without repetition, within the list's capacity |
| Lifecycle.Lifecycle.InitAll | kernel/device/lifecycle.cpp:532-556 | success means no defect, no cycle, every driver completed once; which drivers are up; every driver it ran had all it depends on up exactly when none it had to run depends on an exited one; why a failure happened; and with neither defect nor cycle, good calls and room in the table, it succeeds |
| Lifecycle.NothingToFail | kernel/device/lifecycle.cpp:460-556 | a failed start had a defect, a cycle, a call that went wrong, or no room for the capabilities |
| LifecycleState.ProvidedBound | kernel/device/lifecycle.cpp:324-350 | distinct drivers together provide no more capabilities than there are records |
| Lifecycle.Lifecycle.ExitAll | kernel/device/lifecycle.cpp:558-578 | drivers exit in the reverse of their completion order and the tables are emptied |
| Lifecycle.ExitsBeforeDependencies | kernel/device/lifecycle.cpp:558-578 | a driver is exited before everything it depends on, directly or not |
| Lifecycle.Lifecycle.Restart | kernel/device/lifecycle.cpp:532-578 | a start after an exit of everything succeeds without calling any driver |
| Lifecycle.Lifecycle.Session | kernel/device/lifecycle.cpp:532-578 | over any starts and exits every driver run had completed dependencies, all of them up exactly when none was exited since; no driver completes twice, or completes without its entry function having succeeded; capabilities come from drivers run since the last exit |
| InitGraph.ConcatKeepsOrder | kernel/init/init_graph.hpp:38-50 | joining lists without repetition keeps members and dependency order |
| InitGraph.FilterKeepsOrder | kernel/init/init_graph.hpp:53-72 | the filter keeps exactly the members not excluded, each behind its remaining dependencies |
| InitGraph.SortListSorts | kernel/init/init_graph.hpp:80-106 | a sorted list has no repetition, holds exactly what the roots need, and puts each component behind its dependencies |
| InitGraph.RefusedListIsCyclic | kernel/init/init_graph.hpp:93-104 | the sort is refused only for a real cycle |
| InitGraph.SortCorrect | kernel/init/init_graph.hpp:74-106 | the sort is refused exactly when the roots need a cycle |
| InitGraph.RunList | kernel/init/init_graph.hpp:108-146 | components are initialised in order up to the first failure |
| InitGraph.RunAfter | kernel/init/init_graph.hpp:165-183 | a component is initialised only after everything it needs succeeded or was satisfied before, and the answer is true exactly when in the end everything the roots need succeeded or was satisfied before |
| Multiboot2.WellFormed | kernel/boot/multiboot2/iterator.hpp:25-53 | accepts exactly the blocks whose tags form a chain inside them up to an END tag |
| Multiboot2.ChainUnique | kernel/boot/multiboot2/iterator.hpp:55-93 | the chain of tags is determined by the block |
| Multiboot2.TagIs | kernel/boot/multiboot2/iterator.hpp:74-80 | a tag's type and size from their four bytes each, and the next tag behind the padding to a multiple of eight |
| Multiboot2.NumberBytes | kernel/boot/multiboot2/spec.hpp:70-80 | numbers of two, four and eight bytes, the lowest byte first |
| Multiboot2.EntryInside | kernel/boot/multiboot2/iterator.hpp:109-119 | every memory map entry lies inside its tag, whatever the entry size |
| Multiboot2.Adapter.ReadText | kernel/boot/multiboot2/spec.hpp:82-100 | the bytes up to the first zero byte or the end of the tag, cut to the capacity |
| Multiboot2.Adapter.ReadPalette | kernel/boot/multiboot2/spec.hpp:210-223 | the announced colours, as many as the tag holds |
| Multiboot2.Adapter.TranslateMemoryMap | kernel/boot/multiboot2/adapter.cpp:54-85 | the regions that the tag's bytes show are appended: as many as fit behind the fixed part, base, length and kind from their bytes; refused exactly for small tags or entries; panics exactly when they do not fit |
| Multiboot2.RegionsUnique | kernel/boot/multiboot2/adapter.cpp:54-85 | no other list of regions shows the same memory map tag |
| Multiboot2.Adapter.TranslateModule | kernel/boot/multiboot2/adapter.cpp:87-99 | the module that the tag's bytes show is appended with its command line, none for an empty range; panics exactly when it does not fit |
| Multiboot2.Adapter.TranslateFramebuffer | kernel/boot/multiboot2/adapter.cpp:101-149 | the record shows what the bytes of the tag say, field by field; refused exactly for missing channels or too large a palette; nothing else changes |
| Multiboot2.FramebufferUnique | kernel/boot/multiboot2/adapter.cpp:101-149 | no other record shows the same tag |
| Multiboot2.Adapter.TranslateAcpi | kernel/boot/multiboot2/adapter.cpp:152-164 | the higher revision wins and the earlier record on a tie; the range changes exactly when the revision rises; nothing else changes |
| Multiboot2.Adapter.TranslateTag | kernel/boot/multiboot2/adapter.cpp:166-188 | one tag is applied to the record or refused |
| Multiboot2.RefusedIs | kernel/boot/multiboot2/adapter.cpp:19-36 | which tags are refused, in terms of their bytes |
| Multiboot2.AppliedHolds | kernel/boot/multiboot2/adapter.cpp:166-188 | a record that holds the tags so far holds one more afterwards |
| Multiboot2.Adapter.Parse | kernel/boot/multiboot2/adapter.cpp:207-221 | the unchecked walk visits exactly the chain, stops at END, and the record holds exactly what the tags say |
| Multiboot2.Load | kernel/boot/boot_info.cpp:16-29 | check then parse: a record that holds the block's tags, or the reason there is none, a panic for too many entries included |
| LockedAllocator.StepKeepsInv | kernel/sync/spinlock.hpp:27-51 | each atomic step keeps one thread at most inside, frames disjoint, and what a thread has seen free stays free |
| LockedAllocator.RunIsSafe | kernel/mm/pmm.cpp:238-279 | in every run no double free is reached and no frame appears or disappears |
| LockedAllocator.CallsAreSequential | kernel/mm/pmm.cpp:238-279 | the finished calls, in the order of their unlocks, are a run of the sequential allocator: linearizability, failures and the preference for partly free blocks included |
| LockedAllocator.RuledIsStep | kernel/mm/pmm.cpp:128-174 | a search that ruled out every candidate found no aligned free run |
| LockedAllocator.MutualExclusion | kernel/sync/spinlock.hpp:27-51 | at most one thread is between acquire and release |
| LockedAllocator.FreeLockIsTaken | kernel/sync/spinlock.hpp:27-51 | a spinning thread that finds the lock free tries again, and a try then takes the lock |
| LockedAllocator.NoOverlap | kernel/mm/pmm.cpp:238-279 | no frame is held by two threads, and no held frame is free |
| Guard.StepKeepsInv | kernel/runtime/cxx_abi.cpp:28-54 | each step keeps the guard word in agreement with who is constructing |
| Guard.ConstructsAlone | kernel/runtime/cxx_abi.cpp:28-44 | one constructing thread at most, and acquire returns 0 only after a release |
| Guard.TryIs | kernel/runtime/cxx_abi.cpp:28-44 | a try constructs exactly when nothing was released and nobody constructs, and is done exactly after a release |
| Guard.ReleaseIsFinal | kernel/runtime/cxx_abi.cpp:46-49 | after a release no thread is ever told to construct |
| Guard.AbortReopens | kernel/runtime/cxx_abi.cpp:51-54 | after an abort the next thread to try constructs |

## Left out

- AddressSpaces.AddressSpace.MapRange: the range must not wrap 2^64, which the source does not check either.
- AddressSpaces.AddressSpace.ProtectRange: the same.
- FlatMap.Perform: the same for each request.
- FlatMap.PerformUntil: the same for each request.
- FlatMap.PerformThenTranslate: the same for each request.
- AddressSpaces.AddressSpace.Translate: has a `modifies` clause because it shares the walk, and promises that nothing changes.
- AddressSpaces.AddressSpace.UnmapRange: the removal callback is a flag (hand frames back or not) and the list of reports, not an arbitrary function.
- Vmm.VirtualAllocator.Protect: its arguments are 64-bit numbers, stated as a precondition.
- KernelImage.ProtectImage: the linker's section bounds are parameters, ordered and inside the kernel's window.
- Accessed and dirty bits: the processor never changes an entry in the model, so a repeated map of the same page is always recognised.
- Table memory is a map from frames to tables, not an array reached through the direct map. The source reads tables through that map, so the model says what the code does only where the memory map describes the image; `Startup` proves that this is exactly what is needed and that every table is reachable then.
- The cached translations are a set of slots the processor may have loaded; partial paging-structure caches and other processors are not modelled.
- Locks inside the sequential classes: `pmm` and `vmm` calls are atomic there; the interleaving model covers `pmm`.
- The driver model's buffers are sequences with proved bounds instead of fixed arrays; names stand for node pointers.
- What drivers and components do inside their functions: each call's outcome is a parameter.
- The counters and lists of the frame allocator in the interleaving model: it sees the free set only, and reads in one step whether a block is partly free.
- The kernel heap hands `vmm` calls to a third-party allocator whose chunks are its own; printing and the POSIX stubs keep no state between calls; the ACPI and CPU set-up code reads fixed tables once. None of them keeps an invariant of this repository across calls.
