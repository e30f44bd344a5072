# KTF memory management, scheduling and number conversion in Dafny

A model of the core of KTF, a small x86-64 kernel for tests, with proofs of
what that core keeps over whole runs:

- `Frames`, `Merging`, `Supply`, `Tiling`, `Layout`, `Pmm`: the buddy allocator
  for physical frames (mm/pmm.c).  The lists are sequences of frames; `Cover`
  counts how many frames of a family of lists hold a page; `Climb` says from the
  free lists alone in which block a frame ends up that is given back.  A `Stock`
  is the free lists with the number of free frame descriptors, and `Stops` and
  `Answers` say from the stock alone what a request does.  `Pieces` are the
  frames a range of memory is cut into.
- `PageTable`, `PageTables`, `MapRuns`, `Address`: four-level page tables that
  are only reachable through one temporary mapping window
  (arch/x86/pagetables.c).  `Direct()` is the memory of tables without the
  entry that moves the window; `Translate` is the walk of the processor
  (sections 4.5 and 4.6 of Intel SDM Volume 3A).
- `Cutting`, `Ranges`, `Unmaps`, `Areas`, `Gfp`: mapping and unmapping physical
  ranges at several aliases.  Addresses are 64-bit sums that wrap around.
- `Vmm`: get_free_pages and put_pages, which join frames and tables (mm/vmm.c).
- `Bits`, `SlabArena`, `Slab`: kmalloc and kfree over the page allocator
  (mm/slab.c).
- `Boot`: from a memory map to the state in which all invariants hold.
- `Semaphore`: counting semaphores under every interleaving (lib/semaphore.c).
- `Sched`, `Smp`: the scheduler on one CPU and on all (common/sched.c,
  common/cpu.c).
- `Strings`: strtoul, strtol and the number conversions of vsnprintf
  (lib/string.c).
- `List`: the intrusive rings on the heap (include/list.h) behind the lists that
  the other modules model as sequences.

panic, BUG and ASSERT stop the kernel; methods that can reach one return
`stopped`, say from the state before the call when that may happen, and promise
the rest for the case that they return.  Page frames taken for frame descriptors
or page tables on the way appear as `taken` or `kept`.  A predicate `P` that is
`forall state :: PAs(state, ..)` is `PAs(InLoop, ..)`, to be unfolded on demand.

## Model

| member | source | states |
|---|---|---|
| `Frames.CoverOnceIffNoSharedPage` | mm/pmm.c:601-664 | no page is covered twice by free and busy lists together exactly if no two queued frames share a page |
| `Frames.SplitAligned` | mm/pmm.c:526-539 | both halves of a frame aligned to 2^min(order, 9) are aligned for the smaller order |
| `Frames.MergeAligned` | mm/pmm.c:541-574 | whichever half the merge starts from, the union is aligned for the larger order |
| `Frames.SplitHalvesPair` | include/mm/pmm.h:65-67 | for which alignment of a frame each of its halves finds the other one by the sibling rule, both directions |
| `Pmm.FindMaxAvailOrder` | mm/pmm.c:265-272 | the largest order that fits a size |
| `Pmm.FindLargerFrame` | mm/pmm.c:503-512 | the first order above the given one that has a frame |
| `Pmm.FrameAllocator.ReserveFrame` | mm/pmm.c:68-78 | exactly this frame moves from free to busy, with one reference |
| `Pmm.FrameAllocator.ReturnFrame` | mm/pmm.c:80-90 | exactly this frame moves back, without one |
| `Pmm.FrameAllocator.NewFramesArray` | mm/pmm.c:100-125 | takes the first free 4K frame for descriptors, exactly that, and stops exactly without one |
| `Pmm.FrameAllocator.AddFrame` | mm/pmm.c:243-263 | the stock becomes exactly `Added`: one more free frame in front of or behind its list, and one 4K frame less if a page of descriptors is needed; stops exactly if there is none then |
| `Pmm.FrameAllocator.SplitFrame` | mm/pmm.c:526-539 | the two halves replace the first frame of the list, and the stock becomes exactly `Split`; free pages minus free frames fall by exactly one |
| `Pmm.FrameAllocator.TryCreate4kFrames` | mm/pmm.c:576-595 | terminates with the stock `Refill`, or stops exactly where splitting the least larger frame again and again does not come to two 4K frames |
| `Pmm.FrameAllocator.GetFreeFrames` | mm/pmm.c:620-644 | NULL exactly if no frame of the order or above was free at entry; stops exactly if `Stops` holds of the stock at entry; otherwise the answer is the first frame of the list, and nothing else changes, or the start of the first frame of the least larger order, of which one frame is left in each order between and nothing else changes but for the descriptor pages that are needed |
| `Pmm.FrameAllocator.GetFreeFramesCond` | mm/pmm.c:601-618 | stops exactly if no two 4K frames can be made; otherwise the first frame that meets the condition, of the least order that has one, or none if none does |
| `Pmm.FrameAllocator.MergeFrames` | mm/pmm.c:541-574 | the free lists at entry decide the block it ends with (`Climb`), what is left of the lists (`PutIn`), and that it stops exactly if the block is of the largest order and has a free sibling; the free pages stay the same, and the block has no free sibling otherwise |
| `Merging.JoinStep` | mm/pmm.c:541-574 | joining a frame with its sibling is one step of the climb, so that the end of the chain is settled before the first join |
| `Merging.TopPair` | mm/pmm.c:514-515 | 1G at page 0 put back while the next 1G is free stops the kernel |
| `Pmm.FrameAllocator.SplitThenMerge` | mm/pmm.c:526-574 | split and merge of a half give the frame back exactly if that half finds the other one; otherwise the half remains; and exactly when it stops |
| `Pmm.NoHalfMeets` | include/mm/pmm.h:65-67 | 4M at page 512 are a frame of which neither half finds the other |
| `Pmm.FrameAllocator.PutFreeFrames` | mm/pmm.c:646-664 | exactly the busy frame with that number and order is freed; the free lists at entry decide in which block it ends up, what the lists then hold, and whether the kernel stops |
| `Pmm.FrameAllocator.Run` | mm/pmm.c:601-664 | after any run of requests and returns all frames are disjoint, aligned and counted, and cover the same pages |
| `Pmm.FrameAllocator.ProcessMemoryRange` | mm/pmm.c:294-349 | the four loops tile the range, each page once, with aligned frames, which are exactly `Pieces`; stops exactly if the 4K frames do not suffice for the descriptors of one of them |
| `Pmm.FrameAllocator.InitPmm` | mm/pmm.c:383-410 | every page of the memory map is managed exactly once, in a state that every run keeps; above 4K each free list holds the frames of its order as they lie in memory, every 2M block that lies whole in a region behind its early part is free for a 2M request; how many 4K frames are left; stops exactly if among the first j frames there are fewer than j/127 of 4K, for some j |
| `Supply.NeedIff` | mm/pmm.c:152-199 | a descriptor costs a page exactly if none or 128 to 130 are left |
| `Supply.SplitSlack` | mm/pmm.c:526-539 | each split brings the free lists one step closer to single pages, so that splitting comes to an end |
| `Supply.BrokenStep` | mm/pmm.c:629-637 | splitting what the breaking up of a frame has come to is one step of it, and there is a page for its descriptor exactly if the list of 4K frames is long enough |
| `Layout.CutIsBoundary` | mm/pmm.c:313-321 | the first loop ends at the first 2M boundary at or above both the start of the range and 8M, or with the range |
| `Layout.PiecesByAddress` | mm/pmm.c:294-342 | every frame of a range, by address and order |
| `Layout.RangeByAddress` | mm/pmm.c:294-342 | what starts below the boundary are 4K frames, in front of their list for the first region; behind it there are exactly as many frames of the largest order that fits as there is room for |
| `Layout.BlockInPiece` | mm/pmm.c:325-335 | every whole 2M block behind the boundary lies in one frame of 2M or more |
| `Layout.ListsAfter` | mm/pmm.c:252-263 | above 4K each list gets the frames of its order, one behind the other, whatever is taken for descriptors |
| `Layout.EarlyInFront` | mm/pmm.c:253-321 | in the 4K list, what is left of the early frames comes before all others |
| `Layout.RunsOutIff` | mm/pmm.c:100-125 | frames can be added one after the other, with descriptor pages taken on the way, exactly if among any first j of them there is a 4K frame for each 127 |
| `Layout.EnoughEarly` | mm/pmm.c:383-410 | a memory map whose first region has an early 4K frame for each 127 frames of the whole map does not stop init_pmm |
| `Address.SamePage` | include/arch/x86/pagetable.h:191-204 | canonical addresses share their table indices down to a level exactly if they lie in one page of that level |
| `PageTable.HangTree` | arch/x86/pagetables.c:235-261 | hanging a fresh table below an entry keeps the tables disjoint trees, one for each address space |
| `PageTable.MapFromCorrect` | arch/x86/pagetables.c:267-312 | the way down and the leaf make exactly the page translate to the frame and keep all else |
| `PageTable.UserPathKept` | arch/x86/pagetables.c:215-261 | a path that is open to user mode at every level survives a mapping that does not cut it |
| `PageTable.NoneMissing` | arch/x86/pagetables.c:235-261 | a mapping has to create no table exactly if the table of its level is there |
| `PageTable.MissingKept` | arch/x86/pagetables.c:267-312 | after a mapping no address lacks more tables than before, except below the page that it maps |
| `PageTable.UnmapTranslates` | arch/x86/pagetables.c:442-502 | clearing the entry of a page unmaps that page and nothing else |
| `PageTable.SlotIff` | arch/x86/pagetables.c:442-502 | there is an entry to clear exactly if the address is mapped or its L1 table exists |
| `PageTables.AddressSpaces.constructor` | arch/x86/pagetables.c:423-440 | the smallest tables with the window and the page of its entry: all invariants hold, only that page translates, and the L1 table exists for all pages beside the window |
| `PageTables.AddressSpaces.TmpMapMfn` | arch/x86/pagetables.c:44-49 | the store through the mapped address of the window's entry brings the frame into the window, whatever the tables are |
| `PageTables.AddressSpaces.CleanPagetable` | arch/x86/pagetables.c:194-197 | the table in the window is cleared, entry by entry, and no other |
| `PageTables.AddressSpaces.GetCr3Mfn` | arch/x86/pagetables.c:199-213 | the root of the address space, created if needed, without any change of a translation |
| `PageTables.AddressSpaces.GetPgentryMfn` | arch/x86/pagetables.c:235-261 | through the window exactly what the directly addressed tables would see: a fresh table is hung, or the flags are joined |
| `PageTables.AddressSpaces.Vmap` | arch/x86/pagetables.c:267-312 | refused exactly for a misaligned or non-canonical address; otherwise the page translates to the frame and nothing else changes in either address space; exactly the tables that are not there are created, nothing happens to the frame allocator if all are, and it does not stop while more 4K frames are free than that |
| `PageTables.AddressSpaces.VmapPage` | arch/x86/pagetables.c:314-368 | the same for the three sizes, with rights: the page is open to user mode if USER was given and propagated, and no entry on other ways loses rights or tables |
| `PageTables.AddressSpaces.Vunmap` | arch/x86/pagetables.c:442-502 | success exactly if the address was mapped or its L1 table exists; then the frame and order of the page come back, the page is not mapped any more, and nothing else changes |
| `PageTables.AddressSpaces.GetVaMfnOrder` | arch/x86/pagetables.c:524-578 | the translation, exactly if there is one and it leads to memory |
| `MapRuns.VmapAll` | arch/x86/pagetables.c:215-368 | over any sequence of mappings no present entry loses USER or RW unless a call replaces it, and user paths stay open until they are cut; more than four 4K frames for each mapping are enough |
| `Unmaps.MapThenUnmapPage` | arch/x86/pagetables.c:267-502 | the same frame and order come back, the page is unmapped and all other addresses translate as before; it takes the tables that are not there and no more |
| `Cutting.PlanTiles` | arch/x86/pagetables.c:716-747 | the chunks tile the range from its first page to its rounded end, each aligned to its size, although the size left wraps; the closing BUG_ON does not fire |
| `Cutting.OverflowRefused` | arch/x86/pagetables.c:700-714 | without overflow the range is the rounded one; with overflow it is refused except in one case, given exactly |
| `Ranges.VmapChunk` | arch/x86/pagetables.c:624-639 | one chunk at one alias, at its address modulo 2^64, when the answer is taken for a failure, and that it takes the tables that are not there and no more |
| `Ranges.VmapRange` | arch/x86/pagetables.c:700-754 | when it is refused, when it fails and exactly what is mapped by then, and that otherwise all pages of the range are mapped at all aliases, at addresses modulo 2^64, and nothing else changes; it takes at most the tables that its chunks lack at entry, nothing if they lack none, and stops only if they lack some and no more 4K frames are free than that |
| `Ranges.RangeIsMapped` | arch/x86/pagetables.c:641-754 | in terms of addresses: every page of the range translates to itself at every alias, with the rights that were asked for there |
| `Areas.UserRights` | arch/x86/pagetables.c:673-698 | in the user's tables a page of the range is writable at every alias exactly as asked; with VMAP_USER it is open to user mode in the user area, and at every other alias it is closed |
| `Areas.KernelRights` | arch/x86/pagetables.c:648-671 | in the kernel's tables a page of the range is writable at every alias exactly as asked; its user alias is closed to user mode unless VMAP_KERNEL_USER_ACCESS is given, and the others unless USER was asked for |
| `Unmaps.VunmapRange` | arch/x86/pagetables.c:756-854 | success exactly if all that was mapped is memory; then nothing of the range is mapped any more at an alias, unless the range crosses the end of the address space there, and then all of it still is; no other address changes in any case |
| `Unmaps.MapThenUnmapRange` | arch/x86/pagetables.c:700-854 | with the same arguments the second undoes the first at exactly those aliases at which the range does not cross the end of the address space; all other addresses translate as before; when the first fails, and when it may stop |
| `Areas.PlanGig` | arch/x86/pagetables.c:719-728 | a range is cut into a 1G page exactly if it holds a whole aligned one and starts on a page boundary |
| `Areas.MappableIff` | arch/x86/pagetables.c:641-698 | the ranges that are mapped without an error, by their address and size alone, in all areas and also beyond their ends |
| `Areas.MappedWhere` | include/arch/x86/page.h:227-250 | at which addresses a range is mapped without an error: those of the area if it ends at the end of the address space, low ones otherwise; and that it crosses the end exactly if it ends right there |
| `Areas.TargetsApart` | include/arch/x86/page.h:154-167 | the aliases of vmap_flags overlap exactly if two of them lie closer in one address space, around its end, than the range is long |
| `Areas.IdentityPageZero` | arch/x86/pagetables.c:653-657 | an identity mapping of page 0 is made, and the answer 0 still counts as a failure |
| `Areas.KernelPageZero` | arch/x86/pagetables.c:648-651 | the page at 2G is mapped at kernel address 0, and the answer 0 counts as a failure |
| `Areas.KernelAbove2G` | drivers/fb/fb.c:56-58 | the next page is mapped at kernel address 0x1000, without an error |
| `Areas.LastKernelPage` | arch/x86/pagetables.c:794-804 | the last page below 2G is mapped at the end of the address space, where vunmap_range passes it over |
| `Areas.UserGigabyte` | arch/x86/pagetables.c:664-680 | one aligned 1G of memory does not fit at user addresses, and 4K less does |
| `Areas.RangeRefolds` | arch/x86/pagetables.c:700-714 | a range that overflows and is accepted, as its first page alone |
| `Gfp.AnswerIsMapped` | mm/vmm.c:36-89 | the address answered is that of an alias the kernel was asked to map, modulo 2^64 in both |
| `Gfp.AnswerFindsFrame` | mm/vmm.c:63-119 | once the range is mapped, the address answered translates to the first page of the frame |
| `Gfp.DirectMapOnly` | mm/vmm.c:36-61 | GFP_KERNEL_MAP alone asks for the one target that `Vmm` maps |
| `Gfp.OnlyAlias` | mm/vmm.c:36-61 | for which flags there is no other alias, which put_pages would leave mapped |
| `Gfp.RequestsApart` | mm/vmm.c:36-61 | no request for up to 2G, and so for no frame, maps a page at two addresses that overlap |
| `Vmm.HeadIsWhole` | arch/x86/pagetables.c:719-742 | a frame is mapped by one page of its own order exactly if it is 4K, 2M or an aligned 1G |
| `Vmm.NotGivenBack` | mm/vmm.c:121-129 | two frames the allocator can hand out that are not one page, so that put_pages does not return them |
| `Vmm.PageAllocator.MapDescriptors` | mm/pmm.c:100-125 | the pages of descriptors a request took are mapped in the direct map, and nothing else; stops only if one of them needs a page table, as the lock of the frame allocator is held |
| `Vmm.PageAllocator.MapDescriptor` | mm/pmm.c:100-125 | for one page it stops exactly if a page table is missing, and otherwise leaves the frame allocator alone |
| `Vmm.PageAllocator.GetFreePages` | mm/vmm.c:91-119 | NULL exactly without a frame, and then nothing changes; otherwise a new frame, the one that get_free_frames answers for the state at entry, all of it mapped and writable in the direct map, and every other page that left the free lists is a descriptor page or a page table; stops only if `MayStop` holds of the state at entry: the frame allocator does, a descriptor page has no page table, or the frame lacks page tables and no more 4K frames are left than that |
| `Vmm.ListedServed` | mm/vmm.c:91-119 | a request whose list has a frame may stop only for want of the frame's own page tables |
| `Vmm.PageServed` | include/mm/vmm.h:48-50 | a page is answered with five 4K frames free, or with two if its page table is there |
| `Vmm.PageCost` | arch/x86/pagetables.c:267-312 | a page of the direct map lacks three tables at most |
| `Vmm.PageAllocator.GetFreePage` | include/mm/vmm.h:48-50 | it never answers NULL; with five 4K frames free it does not stop, and takes four of them at most |
| `Vmm.PageAllocator.PutPages` | mm/vmm.c:121-129 | the frame goes back exactly if it is one page, into a block that the free lists before the call decide, as they decide whether the kernel stops; its first page is unmapped, and nothing else |
| `Vmm.PageAllocator.GetThenPut` | mm/vmm.c:91-129 | for 4K and 2M the two calls restore the free pages and all translations, but for pages kept for descriptors and tables; stops only where the first may or where the merge of the second ends beside a free 1G |
| `Vmm.PageAllocator.LiveFrame` | mm/vmm.c:91-119 | every page of what is handed out is mapped and writable in the direct map, busy, and no page table |
| `Vmm.PageAllocator.Run` | mm/vmm.c:91-129 | after any run the blocks held are disjoint, busy, no page tables, and every page of theirs is mapped and writable; free pages are unmapped, and no page is lost |
| `Bits.RoundUp` | include/lib.h:488-497 | next_power_of_two gives the least power of two not below its argument, up to 2^31, and 0 beyond |
| `Bits.LogOfPow2` | include/lib.h:50-52 | log2 of a power of two is its exponent |
| `Bits.PowerTest` | mm/slab.c:72-75 | the test of a number and the one below for common bits accepts exactly the powers of two |
| `SlabArena.InitializeSlab` | mm/slab.c:47-86 | refuses a NULL base and any size but the slab sizes; otherwise the free list holds every block once |
| `SlabArena.SizeClass` | mm/slab.c:183-204 | the order of every request, which ones are refused, and which ones have no order |
| `SlabArena.UsedCount` | mm/slab.c:88-121 | slab_allocs is the number of blocks handed out |
| `SlabArena.NarrowExact` | mm/slab.c:192-196 | the block is as large as the request exactly below 4G |
| `SlabArena.NarrowedRequest` | mm/slab.c:192-196 | a request for 4G and 16 bytes is served with 16 |
| `SlabArena.NoOrder` | mm/slab.c:198-210 | a request for one byte over 2G has no order |
| `Slab.SlabAllocator.TakePage` | include/mm/vmm.h:48-50 | a page that was not held, behind a new frame; it never answers NULL, and does not stop with five 4K frames free |
| `Slab.SlabAllocator.GivePage` | mm/vmm.c:121-129 | the page and its frame are free again, merged as the free lists before the call decide, as they decide whether the kernel stops |
| `Slab.SlabAllocator.SlabAlloc` | mm/slab.c:88-106 | a free block, or NULL exactly without one; BUG_ON does not fire |
| `Slab.SlabAllocator.SlabFree` | mm/slab.c:108-121 | the block is free again; BUG_ON does not fire |
| `Slab.SlabAllocator.SlabMetaAlloc` | mm/slab.c:123-178 | a descriptor that was not in use, from a page that has one, and then no page is taken and the memory below stays the same, or else from exactly one new page |
| `Slab.SlabAllocator.NewSlab` | mm/slab.c:215-268 | a block of a new slab, for one page, or two if no page of descriptors has room; five or nine free 4K frames are enough |
| `Slab.SlabAllocator.Kmalloc` | mm/slab.c:183-268 | NULL exactly above 2048 bytes, without stopping; otherwise a block that was not in use and fits; no page is taken if a slab of the order has room, one if only a descriptor page has, two otherwise, and four 4K frames for each and one more are enough; all pages stay accounted for |
| `Slab.SlabAllocator.Kfree` | mm/slab.c:287-339 | stops for a pointer into no slab; a live block is freed, with the slab's page if it was the last block there and the descriptor page if it was the last descriptor; for a live block the kernel stops exactly if putting these pages back into the free lists at entry does |
| `Slab.OneAnswer` | mm/slab.c:287-335 | the pages that go back with a block are settled by the slabs before the call |
| `Slab.SlabAllocator.LiveBlockMapped` | mm/slab.c:236-248 | every live block is backed by a busy frame that is mapped there, writable, and is no page table |
| `Slab.SlabAllocator.Run` | mm/slab.c:183-339 | after any run blocks do not overlap and no page is lost; when all are freed, every page is free again but for frame descriptors and page tables |
| `Slab.OneExtent` | mm/slab.c:287-299 | the slab that holds a live block is unique |
| `Slab.LiveBlocksApart` | mm/slab.c:77-106 | live blocks do not overlap |
| `Slab.LiveBlockFits` | mm/slab.c:183-264 | a live block is aligned to its size, lies in a page without descriptors, is at least as large as asked for and less than twice as large |
| `Slab.AllReturned` | mm/slab.c:287-335 | without live blocks there is no slab, and no page is held |
| `Boot.Boot` | common/setup.c:210-238 | a memory map leads to a state in which all these invariants hold and every page is managed once; stops if the 4K frames of the map do not suffice for its descriptors, and otherwise only if fewer than five are left then |
| `Boot.UnmapOfNothing` | arch/x86/pagetables.c:442-502 | _vunmap of a page of the kernel image that is not mapped succeeds |
| `Semaphore.FromStart` | lib/semaphore.c:40-90 | counter, units granted and units to be given back make up the initial value and what was posted, modulo 2^32, in every interleaving |
| `Semaphore.BoundedOvergrant` | lib/semaphore.c:40-90 | if atomic_sub_return answered the new value, no more than that would be granted; as it answers the value from before, at most one request's units more |
| `Semaphore.OverdrawnIffShared` | include/arch/x86/atomic.h:100-107 | some interleaving grants more than there is exactly if two threads use the semaphore |
| `Semaphore.BothLetIn` | lib/semaphore.c:40-54 | with one unit two threads are let in |
| `Sched.ScheduleTask` | common/sched.c:177-197 | -EEXIST without a CPU; otherwise a ready task joins the end of the queue as scheduled, and any other stops the kernel |
| `Sched.Cpu.OnePass` | common/sched.c:262-274 | one pass in place visits every task once, in order, and calls BUG for none |
| `Sched.Cpu.RunTasks` | common/sched.c:255-281 | after how many passes the queue is empty, and what ran by then |
| `Sched.Cpu.RunToEnd` | common/sched.c:255-281 | where no task loops it comes to an end, with the queue empty and every task run as often as asked |
| `Sched.EndsIffNoneLoops` | common/sched.c:237-276 | run_tasks ends exactly if no task was set to loop |
| `Sched.Finishes` | common/sched.c:237-276 | the number of passes it takes |
| `Sched.PassNearer` | common/sched.c:237-276 | each pass brings the queue as many visits closer to its end as it has tasks |
| `Sched.RunsOf` | common/sched.c:199-276 | how often each task has run after any number of passes |
| `Sched.RanAsAsked` | common/sched.c:237-253 | once the queue is empty each task has run exactly as often as asked |
| `Smp.AllTasksDone` | include/sched.h:115-119 | in every interleaving of the CPUs, execute_tasks returns only after every task of every CPU has run as often as asked |
| `Smp.RunKeeps` | common/cpu.c:109-140 | what every interleaving keeps: runs done and owed make up the runs asked for, and the boot processor is right about the queues it has seen empty |
| `Strings.Strtoul` | lib/string.c:49-104 | for any base, the value of the digits, or ULONG_MAX if that is larger, and where they end |
| `Strings.Strtol` | lib/string.c:106-194 | the value with its sign, or the end of the range it lies beyond, and where the digits end |
| `Strings.Converts` | lib/string.c:68-77 | strtol converts something exactly if a digit follows the sign; strtoul also misses the bare prefix |
| `Strings.BarePrefixMissed` | lib/string.c:68-73 | nothing of "0x" is converted, although it starts with a digit |
| `Strings.Ksprintn` | lib/string.c:205-218 | the digits of the number, which fit into the buffer of 65 bytes in every base |
| `Strings.Sink.PChar` | lib/string.c:225 | never more than `size` bytes are written, and all are counted |
| `Strings.Sink.Finish` | lib/string.c:245-251 | what the buffer holds in the end |
| `Strings.Sink.PrintNumber` | lib/string.c:439-482 | the text of a number with all its flags, and exactly when the loop over the digits does not end |
| `Strings.NoRoomForDigit` | lib/string.c:475-476 | printing 7 into one byte does not come to an end |
| `Strings.PrintedRead` | lib/string.c:49-194 | whatever the flags, a printed number is read back with its sign and magnitude |
| `Strings.PrintedReadPlain` | lib/string.c:49-194 | the same with base 0: decimal without padding zeros, and octal and hexadecimal with the prefix of '#' |
| `Strings.FrontSkipped` | lib/string.c:52-66 | spaces, tabs and a sign in front change nothing but the sign |
| `Strings.PrintThenStrtoul` | lib/string.c:49-104 | every 64-bit number in every base comes back; also with base 0, where the text shows its base |
| `Strings.PrintThenStrtol` | lib/string.c:106-194 | every long comes back, LONG_MIN included; also with base 0, where the text shows its base |
| `List.ListInit` | include/list.h:42-45 | a head alone is a ring |
| `List.ListInsert` | include/list.h:47-53 | the ring with one more element at that place |
| `List.ListAdd` | include/list.h:55-57 | the element comes first |
| `List.ListAddTail` | include/list.h:59-61 | the element comes last |
| `List.ListUnlink` | include/list.h:63-68 | the ring without the element |
| `List.ListIsEmpty` | include/list.h:70-72 | true exactly for the head alone |
| `List.AddThenUnlink` | include/list.h:47-68 | unlinking undoes adding |
| `List.ForEachSafe` | include/list.h:93-96 | every element is visited once, in order, even if the body unlinks it |

## Findings

Where the code does not do what its comments, its callers or a standard ask for, the
model follows the code.  Each entry names the lemma with an input at which it
shows, and the condition that decides.

- Semaphores can be overdrawn.  atomic_sub_return is xadd and answers the value
  from before, so sem_trywait lets two threads in on one unit
  (`Semaphore.BothLetIn`).  It happens in some interleaving exactly if two
  threads share the semaphore (`Semaphore.OverdrawnIffShared`), and by at most
  one request (`Semaphore.BoundedOvergrant`).
- snprintf does not return if the buffer has no room for the digits of a
  number: PCHAR does not evaluate `*p--` then (`Strings.NoRoomForDigit`).  The
  exact condition is in `Strings.Sink.PrintNumber`.
- put_pages loses frames that are not one page.  It unmaps the first page only
  and looks for a busy frame of that page's order, which there is not
  (`Vmm.NotGivenBack`).  A frame goes back exactly if `OnePage` holds
  (`Vmm.PageAllocator.PutPages`).
- VMAP_KERNEL adds 2G below the end of the address space, so that from 2G on the
  64-bit sum wraps around.  The page at 2G is mapped at address 0 and reported as
  a failure (`Areas.KernelPageZero`); the pages behind it are mapped at low
  addresses without an error (`Areas.KernelAbove2G`), as for a framebuffer above
  2G (drivers/fb/fb.c:57).  A range is mapped at the addresses of the area
  exactly if it ends at most at 2G (`Areas.MappedWhere`), and without an error
  exactly if it fits (`Areas.MappableIff`).
- vunmap_range leaves a range that ends at the end of the address space mapped,
  and reports success: the end wraps to 0 (`Areas.LastKernelPage`).  vmap_range is
  undone at an alias exactly if the range does not cross the end there
  (`Unmaps.MapThenUnmapRange`), which for a range that was mapped means that it
  does not end right there (`Areas.MappedWhere`).
- An identity mapping of page 0 is made and reported as a failure
  (`Areas.IdentityPageZero`); `_vmap` never answers MAP_FAILED, although its
  comment says so.
- A range that holds a whole aligned 1G page cannot be mapped at user
  addresses, which start at 4M (`Areas.UserGigabyte`, `Areas.MappableIff`).
- vmap_range and vunmap_range refuse a range that runs over the end of the
  address space, except where it falls back into its own first page
  (`Areas.RangeRefolds`, `Cutting.OverflowRefused`).
- kmalloc narrows sizes to 32 bits: from 4G on a block is smaller than what was
  asked for (`SlabArena.NarrowedRequest`, `SlabArena.NarrowExact`), and sizes
  above 2G have no order (`SlabArena.NoOrder`, `SlabArena.SizeClass`).
- A frame above 2M is only aligned to 2M, and then a split may not be undone by a
  merge: neither half of 4M at page 512 finds the other (`Pmm.NoHalfMeets`).
  `Frames.SplitHalvesPair` and `Pmm.FrameAllocator.SplitThenMerge` say when.
- Giving back a frame stops the kernel if, merged with its free siblings, it is 1G
  next to another free 1G (`Merging.TopPair`).  `Jams` is the condition on the
  free lists before the call, exact in `Pmm.FrameAllocator.PutFreeFrames`,
  `Vmm.PageAllocator.PutPages` and `Slab.SlabAllocator.Kfree`.
- `_vunmap` succeeds on an address that is not mapped
  (`Boot.UnmapOfNothing`), exactly if its L1 table exists
  (`PageTables.AddressSpaces.Vunmap`).
- The threshold for new descriptor pages does not keep descriptors in reserve.
  total_free_frames starts at 0 and does not count the 127 descriptors of
  early_frames, so that it is 127 too small, or huge after it went below 0: a
  page is taken with none or with 128 to 130 descriptors left, not with two
  (`Supply.NeedIff`).
- strtoul does not convert the "0" of a bare "0x"; section 7.22.1.4 of ISO C11
  asks for it, and strtol does it (`Strings.BarePrefixMissed`, `Strings.Converts`).

## Left out

- Locks and the concurrency of the allocators and page tables: each public operation is one step.
- Which page a descriptor lies in: descriptors are counted.  A frame for a page table that needs a new page of them stops the kernel, as new_frames_array maps it with vmap_lock, which is held already (arch/x86/pagetables.c:246, mm/pmm.c:111); so does a descriptor page that needs a page table (mm/pmm.c:626).
- Reclaiming pages of descriptors (mm/pmm.c:127-150); destroying a frame frees its slot only.  put_frames_array asks for it before the last slot is marked free, where its ASSERT would stop the kernel (mm/pmm.c:136-150, mm/pmm.c:200-215).
- Reference counts above 1, and the flags of a frame other than its place in a list.
- `Pmm.FrameAllocator.InitPmm`: for the available regions from the first one on; that there is one from 1M on with 8M, and that it gives enough early frames, are not checked (mm/pmm.c:274-292, mm/pmm.c:368-381).
- TLB, caching, NX, global and accessed bits; an entry is a frame number with present, rw, user and huge.
- `PageTables.AddressSpaces.constructor`: the window's way and its entry page only, in one L1 table; the other mappings of the boot code are absent.
- `PageTables.AddressSpaces.GetPgentryMfn`: asks for an entry that is not a large page, which the code would take for a table.
- `PageTables.AddressSpaces.Vmap`: asks for a page that no larger page covers and that is not the window's; the code does not check either.
- `PageTables.AddressSpaces.VmapPage`: asks for the same.
- `PageTables.AddressSpaces.GetVaMfnOrder`: asks for an address other than the window's, whose translation changes with every step.
- `Pmm.FrameAllocator.Run`: for runs that do not stop; when a single request does is stated there.
- `Vmm.PageAllocator.Run`: the same.
- `Ranges.VmapRange`: when it stops is bounded and not exact, as a 4K frame may still be had by splitting; asks for aliases that do not overlap; `Areas.TargetsApart` says for which flags they do.
- `Unmaps.VunmapRange`: states the effect on ranges that are mapped in whole blocks, as vmap_range leaves them.
- `Vmm.PageAllocator.GetFreePages`: with GFP_KERNEL_MAP alone, and for memory whose direct map ends below the kernel image; other flags appear in `Gfp` only.
- `Slab.SlabAllocator.Kmalloc`: asks for a size with an order or above the largest one; for the others meta_slab_list is indexed below 0.
- `Slab.SlabAllocator.Run`: for requests of sizes that `Kmalloc` is stated for, and runs that do not stop.
- `Slab.SlabAllocator.Kfree`: asks for a live block or a pointer into no slab; the code does not tell a block that is free already.
- The contents of blocks, kzalloc, and the links of free lists inside free blocks: free lists are sequences of addresses.
- `Boot.Boot`: the tables hold the window only, with its entry in the same L1 table, not the mappings of the kernel image and devices.
- `Semaphore.BoundedOvergrant`: for waits of at least one unit and counts that fit 32 bits; beyond that `Semaphore.FromStart` holds modulo 2^32.
- `Sched.Cpu.RunTasks`: watches a number of passes, because a task that loops keeps it running for ever; `Sched.Cpu.RunToEnd` is the whole of it without such a task.  The flags by which CPUs wait for each other are in `Smp`.
- Scheduling a task while its CPU runs, new_task, user mode and wait_for_task_group; that execute_tasks returns at all.
- vsnprintf other than its number conversions: the format itself, strings and characters; widths near INT_MAX.
- The lists of `Pmm`, `Slab` and `Sched` are values; `List` proves the operations on the heap that they stand for.
- Drivers, interrupts, ACPI, PCI, multiboot, traps, command line and symbols.
