/**
  Page allocation: get_free_pages and put_pages of mm/vmm.c with
  GFP_KERNEL_MAP alone, which join the frame allocator and the page tables.
  A frame is mapped in the direct map, at VIRT_KERNEL_MAP plus its physical
  address, for as long as it is handed out.
 */
module Vmm {
  import opened Wrappers
  import opened Frames
  import opened PageTable
  import opened Address
  import opened Supply
  import opened Merging
  import opened Pmm
  import opened PageTables
  import opened Cutting
  import opened Ranges
  import opened Unmaps
  import opened Areas

  /** L1_PROT, L2_PROT and L3_PROT, which are the same flags here. */
  const PAGE_PROT := PROT

  /** The first page behind a frame. */
  function EndOf(f: Frame): nat {
    f.mfn + Pow2(f.order)
  }

  /** The order of the first page vmap_range cuts a frame into. */
  function HeadOrder(f: Frame): (order: nat)
    ensures order in {0, 9, 18}
  {
    LeafOrder(ChunkDepth(Bytes(f.mfn), Bytes(Pow2(f.order))))
  }

  /** A frame is one page exactly if its order is that of a page and it is aligned like one. */
  predicate OnePage(f: Frame) {
    f.order == 0 || f.order == 9 || (f.order == 18 && f.mfn % 0x4_0000 == 0)
  }

  /**
    A frame of the allocator is mapped by a single page of its own order
    exactly in these cases; that 2M frames are among them is due to their
    alignment.
   */
  lemma HeadIsWhole(f: Frame)
    requires f.order <= MAX_PAGE_ORDER && FrameOk(f, f.order, 1)
    ensures HeadOrder(f) == f.order <==> OnePage(f)
    ensures Pow2(HeadOrder(f)) == PagesOf(HeadOrder(f)) <= Pow2(f.order)
    ensures PageAligned(f.mfn, DepthOf(HeadOrder(f)))
  {
    Pow2Orders();
    Pow2Grows(f.order, 9);
    Pow2Grows(f.order, 18);
    if f.order >= 9 {
      HalvesIffMultiple(f.mfn, 9);
    }
    HeadAligned(f.mfn);
  }

  /** Two frames the allocator hands out and put_pages does not give back: two pages, and 1G that is only 2M aligned. */
  lemma NotGivenBack(f: Frame)
    requires f == Frame(2, 1, 1) || f == Frame(512, 18, 1)
    ensures FrameOk(f, f.order, 1) && !OnePage(f) && HeadOrder(f) != f.order
  {
    Pow2Orders();
    assert Pow2(1) == 2;
    HalvesIffMultiple(512, 9);
    HeadIsWhole(f);
  }

  lemma HeadAligned(mfn: nat)
    ensures Bytes(mfn) % 0x20_0000 == 0 <==> mfn % 512 == 0
    ensures Bytes(mfn) % 0x4000_0000 == 0 <==> mfn % 0x4_0000 == 0
  {
  }

  lemma Pow2Grows(a: nat, b: nat)
    ensures a < b ==> 2 * Pow2(a) <= Pow2(b)
    ensures a >= b ==> Pow2(b) <= Pow2(a)
  {
    if a < b {
      Pow2Monotonic(a + 1, b);
    } else {
      Pow2Monotonic(b, a);
    }
  }

  // ---- what is kept about the frames handed out ------------------------

  /** Free pages are not mapped. */
  ghost predicate FreeUnmapped(m: Mem, r: Roots, free: Lists) {
    forall p: nat {:trigger Cover(free, p)} :: Cover(free, p) >= 1 ==> Found(m, r, MAP_AREA, p) == NotMapped
  }

  ghost predicate FrameUnmapped(m: Mem, r: Roots, f: Frame) {
    forall p: nat {:trigger Covers(f, p)} :: Covers(f, p) ==> Found(m, r, MAP_AREA, p) == NotMapped
  }

  /** A frame handed out is busy, is not a page table, starts with a page of its own, and is mapped as a whole. */
  ghost predicate LiveOk(m: Mem, r: Roots, pool: Pool, f: Frame) {
    Owned(pool, f) && HeadIs(Found(m, r, MAP_AREA, f.mfn), f) && WholeMapped(m, r, f)
  }

  /** Every page of the frame is mapped in the direct map, and writable. */
  ghost predicate WholeMapped(m: Mem, r: Roots, f: Frame) {
    MappedTo(m, r, MAP_AREA, f.mfn, EndOf(f), true)
  }

  ghost predicate Owned(pool: Pool, f: Frame) {
    f.order < |pool.busy| && f in pool.busy[f.order] && f.mfn !in pool.tables
  }

  predicate HeadIs(w: Translation, f: Frame) {
    w.Page? && w.mfn == f.mfn && w.order == HeadOrder(f)
  }

  ghost predicate AllLive(m: Mem, r: Roots, pool: Pool, live: set<Frame>) {
    && FreeUnmapped(m, r, pool.free)
    && forall f :: f in live ==> LiveOk(m, r, pool, f)
  }

  /** The direct map of all memory ends below the kernel image at VIRT_KERNEL_BASE. */
  ghost predicate BelowKernel(pool: Pool) {
    forall p: nat {:trigger Cover(pool.free, p)} :: Cover(pool.free, p) + Cover(pool.busy, p) >= 1 ==> p < 0x7_FFF8_0000
  }

  /** The window and its entry lie in the kernel image. */
  ghost predicate InKernel(f: Fixed) {
    && 0xFFFF_FFFF_8000_0000 <= f.window < 0x1_0000_0000_0000_0000
    && 0xFFFF_FFFF_8000_0000 <= f.entry < 0x1_0000_0000_0000_0000
  }

  ghost predicate Unshared(pool: Pool) {
    && ListsOk(pool.free, 0) && ListsOk(pool.busy, 1)
    && forall p: nat :: Cover(pool.free, p) + Cover(pool.busy, p) <= 1
  }

  /** Two busy frames have no page in common, nor has a busy frame with the free ones. */
  lemma BusyApart(pool: Pool, f: Frame, g: Frame, p: nat)
    requires Unshared(pool) && f.order < ORDERS && f in pool.busy[f.order] && Covers(f, p)
    ensures Cover(pool.free, p) == 0 && Cover(pool.busy, p) == 1
    ensures g.order < ORDERS && g in pool.busy[g.order] && g != f ==> !Covers(g, p)
  {
    var i :| 0 <= i < |pool.busy[f.order]| && pool.busy[f.order][i] == f;
    CoverAt(pool.busy, f.order, i, p);
    if g.order < ORDERS && g in pool.busy[g.order] && g != f && Covers(g, p) {
      var j :| 0 <= j < |pool.busy[g.order]| && pool.busy[g.order][j] == g;
      CoverTwice(pool.busy, f.order, i, g.order, j, p);
    }
  }

  /** Below the kernel image the direct map does not wrap around, and its addresses are canonical. */
  lemma DirectMap(p: nat)
    requires p < 0x7_FFF8_0000
    ensures VaOf(MAP_AREA, p) == MAP_AREA.base + 4096 * p && Canonical(VaOf(MAP_AREA, p))
    ensures PageAt(MAP_AREA, VaOf(MAP_AREA, p)) == p && AlignedTo(VaOf(MAP_AREA, p), 3)
  {
    PageAtVa(MAP_AREA, p);
  }

  /** Every page of a frame is memory below the kernel image, and its addresses are canonical. */
  lemma InTheMap(pool: Pool, f: Frame, p: nat)
    requires Unshared(pool) && BelowKernel(pool)
    requires f.order < ORDERS && f in pool.busy[f.order] && Covers(f, p)
    ensures p < 0x7_FFF8_0000 && Canonical(VaOf(MAP_AREA, p)) && VaOf(MAP_AREA, p) == MAP_AREA.base + 4096 * p
  {
    BusyApart(pool, f, f, p);
    DirectMap(p);
  }

  lemma FrameInTheMap(pool: Pool, f: Frame)
    requires Unshared(pool) && BelowKernel(pool) && f.order < ORDERS && f in pool.busy[f.order]
    ensures EndOf(f) <= 0x7_FFF8_0000 && AllCanonical(MAP_AREA, f.mfn, EndOf(f))
  {
    InTheMap(pool, f, EndOf(f) - 1);
    forall p | f.mfn <= p < EndOf(f) ensures Canonical(VaOf(MAP_AREA, p)) {
      DirectMap(p);
    }
  }

  lemma OffTheMap(f: Fixed, first: nat, limit: nat)
    requires InKernel(f) && limit <= 0x7_FFF8_0000
    ensures Off(f, MAP_AREA, first, limit)
  {
    KernelPage(f.window);
    KernelPage(f.entry);
  }

  lemma KernelPage(va: nat)
    requires 0xFFFF_FFFF_8000_0000 <= va < 0x1_0000_0000_0000_0000
    ensures PageAt(MAP_AREA, va) >= 0x7_FFF8_0000
  {
    assert (va - MAP_AREA.base) % 0x1_0000_0000_0000_0000 == va - MAP_AREA.base;
  }

  // ---- steps -----------------------------------------------------------

  /** Frames that turn busy, some of them as new tables, are none of those handed out. */
  lemma MovedOwned(before: Pool, after: Pool, taken: seq<Frame>, f: Frame)
    requires Unshared(before) && Moved(before, after, taken) && Owned(before, f)
    ensures Owned(after, f)
  {
    MovedFacts(before, after, taken);
    BusyApart(before, f, f, f.mfn);
  }

  lemma MovedLive(m: Mem, r: Roots, before: Pool, after: Pool, taken: seq<Frame>, live: set<Frame>)
    requires Unshared(before) && Moved(before, after, taken) && AllLive(m, r, before, live)
    ensures AllLive(m, r, after, live)
  {
    MovedFacts(before, after, taken);
    forall p: nat | Cover(after.free, p) >= 1 ensures Found(m, r, MAP_AREA, p) == NotMapped {
      assert Cover(after.free, p) + Count(taken, p) == Cover(before.free, p);
    }
    forall f | f in live ensures LiveOk(m, r, after, f) {
      assert LiveOk(m, r, before, f);
      MovedOwned(before, after, taken, f);
    }
  }

  lemma MovedBelow(before: Pool, after: Pool, taken: seq<Frame>)
    requires BelowKernel(before) && Moved(before, after, taken)
    ensures BelowKernel(after)
  {
    MovedPages(before, after, taken);
    PagesBelow(before, after);
  }

  /** What is done to the addresses of pages [f.mfn, f.mfn + n) of a busy frame does not touch the others. */
  lemma OthersLive(m: Mem, r: Roots, m': Mem, r': Roots, pool: Pool, live: set<Frame>, f: Frame, n: nat)
    requires Unshared(pool) && AllLive(m, r, pool, live) && BelowKernel(pool)
    requires f.order < ORDERS && f in pool.busy[f.order] && n <= Pow2(f.order)
    requires KeptOutside(m, r, m', r', MAP_AREA, f.mfn, f.mfn + n)
    ensures AllLive(m', r', pool, live - {f})
  {
    forall p: nat | Cover(pool.free, p) >= 1 ensures Found(m', r', MAP_AREA, p) == NotMapped {
      if Covers(f, p) {
        BusyApart(pool, f, f, p);
      }
      assert p < 0x7_FFF8_0000;
      OutsidePage(m, r, m', r', f, n, p);
    }
    forall g | g in live - {f} ensures LiveOk(m', r', pool, g) {
      OtherLive(m, r, m', r', pool, g, f, n);
    }
  }

  lemma OtherLive(m: Mem, r: Roots, m': Mem, r': Roots, pool: Pool, g: Frame, f: Frame, n: nat)
    requires Unshared(pool) && LiveOk(m, r, pool, g) && BelowKernel(pool) && g != f
    requires f.order < ORDERS && f in pool.busy[f.order] && n <= Pow2(f.order)
    requires KeptOutside(m, r, m', r', MAP_AREA, f.mfn, f.mfn + n)
    ensures LiveOk(m', r', pool, g)
  {
    forall p | g.mfn <= p < EndOf(g) ensures SameOrMore(Found(m, r, MAP_AREA, p), Found(m', r', MAP_AREA, p)) {
      assert Covers(g, p);
      InTheMap(pool, g, p);
      BusyApart(pool, g, f, p);
      OutsidePage(m, r, m', r', f, n, p);
    }
    RangeStays(m, r, m', r', MAP_AREA, g.mfn, EndOf(g), true);
  }

  lemma OutsidePage(m: Mem, r: Roots, m': Mem, r': Roots, f: Frame, n: nat, p: nat)
    requires KeptOutside(m, r, m', r', MAP_AREA, f.mfn, f.mfn + n) && p < 0x7_FFF8_0000 && !(f.mfn <= p < f.mfn + n)
    ensures SameOrMore(Found(m, r, MAP_AREA, p), Found(m', r', MAP_AREA, p))
  {
    DirectMap(p);
  }

  /** Another frame that is not mapped stays so. */
  lemma StillUnmapped(m: Mem, r: Roots, m': Mem, r': Roots, pool: Pool, f: Frame, n: nat, g: Frame)
    requires Unshared(pool) && BelowKernel(pool) && f.order < ORDERS && f in pool.busy[f.order] && n <= Pow2(f.order)
    requires g.order < ORDERS && g in pool.busy[g.order] && g != f && FrameUnmapped(m, r, g)
    requires KeptOutside(m, r, m', r', MAP_AREA, f.mfn, f.mfn + n)
    ensures FrameUnmapped(m', r', g)
  {
    forall p: nat | Covers(g, p) ensures Found(m', r', MAP_AREA, p) == NotMapped {
      InTheMap(pool, g, p);
      BusyApart(pool, g, f, p);
      OutsidePage(m, r, m', r', f, n, p);
    }
  }

  // ---- the frames a request takes --------------------------------------

  /** The frames from the i-th on are busy, no tables, and not mapped yet. */
  ghost predicate Pending(m: Mem, r: Roots, pool: Pool, frames: seq<Frame>, i: nat) {
    forall j :: i <= j < |frames| ==> Waiting(m, r, pool, frames[j])
  }

  ghost predicate Waiting(m: Mem, r: Roots, pool: Pool, f: Frame) {
    f.order < ORDERS && Owned(pool, f) && FrameUnmapped(m, r, f)
  }

  ghost predicate Distinct(frames: seq<Frame>) {
    forall i, j :: 0 <= i < j < |frames| ==> frames[i] != frames[j]
  }

  ghost function FrameSet(frames: seq<Frame>): set<Frame> {
    set f | f in frames
  }

  lemma CountTwice(l: seq<Frame>, i: nat, j: nat, p: nat)
    requires i < j < |l| && Covers(l[i], p) && Covers(l[j], p)
    ensures Count(l, p) >= 2
  {
    CountRemove(l, i, p);
    assert RemoveAt(l, i)[j - 1] == l[j];
    CountRemove(RemoveAt(l, i), j - 1, p);
  }

  /** Frames just taken were free, hence distinct, not mapped, not tables, and none of the busy ones. */
  lemma TakenWait(m: Mem, r: Roots, before: Pool, after: Pool, taken: seq<Frame>)
    requires Unshared(before) && FreeUnmapped(m, r, before.free) && before.tables == after.tables
    requires forall t :: t in before.tables ==> Frame(t, 0, 1) in before.busy[0]
    requires Moved(before, after, taken) && forall f :: f in taken ==> f.order < ORDERS
    ensures Pending(m, r, after, taken, 0) && Distinct(taken)
    ensures forall f :: f in taken ==> f.order < |before.busy| && f !in before.busy[f.order]
  {
    MovedFacts(before, after, taken);
    forall j, p: nat | 0 <= j < |taken| && Covers(taken[j], p)
      ensures Cover(before.free, p) == 1 && Count(taken, p) == 1
    {
      CountAt(taken, j, p);
      assert Cover(after.free, p) + Count(taken, p) == Cover(before.free, p);
    }
    forall j | 0 <= j < |taken|
      ensures Waiting(m, r, after, taken[j]) && taken[j] !in before.busy[taken[j].order]
    {
      OneTakenWaits(m, r, before, after, taken, j);
    }
    forall i, j | 0 <= i < j < |taken| ensures taken[i] != taken[j] {
      if taken[i] == taken[j] {
        CountTwice(taken, i, j, taken[i].mfn);
      }
    }
  }

  lemma OneTakenWaits(m: Mem, r: Roots, before: Pool, after: Pool, taken: seq<Frame>, j: nat)
    requires Unshared(before) && FreeUnmapped(m, r, before.free) && before.tables == after.tables
    requires forall t :: t in before.tables ==> Frame(t, 0, 1) in before.busy[0]
    requires Moved(before, after, taken) && j < |taken| && taken[j].order < ORDERS
    requires forall p: nat :: Covers(taken[j], p) ==> Cover(before.free, p) == 1
    ensures Waiting(m, r, after, taken[j]) && taken[j] !in before.busy[taken[j].order]
  {
    MovedFacts(before, after, taken);
    var f := taken[j];
    assert Covers(f, f.mfn);
    if f in before.busy[f.order] {
      BusyApart(before, f, f, f.mfn);
    }
    if f.mfn in before.tables {
      BusyApart(before, Frame(f.mfn, 0, 1), f, f.mfn);
    }
  }

  /** What a request took, with the frame itself in front. */
  lemma TakenInOrder(before: Pool, between: Pool, after: Pool, kept: seq<Frame>, f: Frame)
    requires Moved(before, between, kept + [f]) && Moved(between, after, [])
    ensures Moved(before, after, [f] + kept)
  {
    var taken, taken' := kept + [f], [f] + kept;
    MovedTrans(before, between, after, taken, []);
    assert taken + [] == taken;
    MovedFacts(before, after, taken);
    forall p: nat ensures Count(taken, p) == Count(taken', p) {
      CountAppend(kept, [f], p);
      CountAppend([f], kept, p);
    }
    forall o, g | 0 <= o < |after.busy|
      ensures g in after.busy[o] <==> g in before.busy[o] || (g in taken' && g.order == o)
    {
      assert g in taken <==> g in taken';
    }
    MovedBy(before, after, taken');
  }

  lemma GrownStays(a: Pool, b: Pool, c: Pool)
    requires Grown(a, b, []) && Moved(b, c, []) && b.tables == c.tables
    ensures Grown(a, c, [])
  {
    var none: seq<Frame> := [];
    MovedTrans(a, b, c, none, none);
    assert none + none == none;
  }

  /** Without a new table no frame was taken for one. */
  lemma NoneTaken(before: Pool, after: Pool, taken: seq<Frame>)
    requires Unshared(before) && (forall t :: t in before.tables ==> Frame(t, 0, 1) in before.busy[0])
    requires Grown(before, after, taken) && after.tables == before.tables
    ensures taken == []
  {
    if taken != [] {
      var t := taken[0].mfn;
      assert t in MfnsOf(taken);
      MovedFacts(before, after, taken);
      CountAt(taken, 0, t);
      BusyApart(before, Frame(t, 0, 1), Frame(t, 0, 1), t);
    }
  }

  lemma NoneIffSame(before: Pool, after: Pool, taken: seq<Frame>)
    requires Unshared(before) && (forall t :: t in before.tables ==> Frame(t, 0, 1) in before.busy[0])
    requires Grown(before, after, taken)
    ensures taken == [] <==> after.tables == before.tables
  {
    if after.tables == before.tables {
      NoneTaken(before, after, taken);
    }
  }

  /** A whole frame in bytes, as get_free_pages asks vmap_range for it, ends where the frame ends. */
  lemma FrameRange(first: nat, pages: nat)
    requires pages >= 1 && first + pages <= 0x7_FFF8_0000
    ensures RangeEnd(4096 * first, 4096 * pages) == 4096 * (first + pages) <= 0x7FFF_8000_0000
  {
  }

  const MAP_TARGET := Target(MAP_AREA, PAGE_PROT, false)

  /** The first chunk of the plan for a frame is its head. */
  lemma PlannedHead(m: Mem, r: Roots, f: Frame, plan: seq<Cut>)
    requires |plan| > 1 && plan[0].page == f.mfn && plan[0].to <= 3 && LeafOrder(plan[0].to) == HeadOrder(f)
    requires Planned(m, r, MAP_AREA, plan, |plan| - 1)
    ensures HeadIs(Found(m, r, MAP_AREA, f.mfn), f)
  {
  }

  lemma FrameFits(paddr: nat, size: nat)
    requires paddr < RangeEnd(paddr, size) <= 0x7FFF_8000_0000
    ensures RangeFits(MAP_AREA, paddr, size)
  {
    ZeroPages(MAP_AREA);
  }

  /** How vmap_range cuts a frame. */
  lemma FramePlan(f: Frame, paddr: nat, size: nat) returns (plan: seq<Cut>)
    requires paddr == Bytes(f.mfn) && size == Bytes(Pow2(f.order)) && EndOf(f) <= 0x7_FFF8_0000
    ensures paddr < RangeEnd(paddr, size) <= 0x7FFF_8000_0000
    ensures paddr / 4096 == f.mfn && RangeEnd(paddr, size) / 4096 == EndOf(f)
    ensures PlanFor(plan, paddr, size) && |plan| > 1 && Mappable([MAP_TARGET], plan)
    ensures plan[0].page == f.mfn && plan[0].to <= 3 && LeafOrder(plan[0].to) == HeadOrder(f) && plan == FrameCuts(f)
  {
    FrameRange(f.mfn, Pow2(f.order));
    plan := PlanExists(paddr, size);
    PlanGig(plan, paddr, size);
    FrameFits(paddr, size);
    MappableIff([MAP_TARGET], plan, paddr, size);
  }

  /** Nothing lies in the way of a frame that is not mapped. */
  lemma FrameReady(m: Mem, r: Roots, f: Frame, fixed: Fixed, plan: seq<Cut>, paddr: nat, size: nat)
    requires FrameUnmapped(m, r, f) && InKernel(fixed) && EndOf(f) <= 0x7_FFF8_0000
    requires PlanFor(plan, paddr, size) && paddr / 4096 == f.mfn && RangeEnd(paddr, size) / 4096 == EndOf(f)
    ensures Ready(m, r, [MAP_TARGET], plan, fixed, EndOf(f))
  {
    OffTheMap(fixed, f.mfn, EndOf(f));
    forall k | 0 <= k < |plan| - 1 ensures RoomAt(m, r, MAP_AREA, plan[k]) {
      ChunkOfPlan(plan, paddr, size, RangeEnd(paddr, size), k);
      PlanGrows(plan, paddr, size, RangeEnd(paddr, size), k);
      assert Covers(f, plan[k].page);
    }
  }

  /** Mapping a frame keeps what is known of the others, and makes it one of them. */
  lemma FrameMapped(m: Mem, r: Roots, m': Mem, r': Roots, pool: Pool, pool': Pool, taken: seq<Frame>, live: set<Frame>,
                    f: Frame, n: nat)
    requires Unshared(pool) && Unshared(pool') && Moved(pool, pool', taken) && AllLive(m, r, pool, live)
    requires f.order < ORDERS && Owned(pool, f) && f !in live && BelowKernel(pool) && n <= Pow2(f.order)
    requires KeptOutside(m, r, m', r', MAP_AREA, f.mfn, f.mfn + n)
    requires HeadIs(Found(m', r', MAP_AREA, f.mfn), f) && WholeMapped(m', r', f)
    ensures AllLive(m', r', pool', live + {f}) && BelowKernel(pool')
  {
    MovedOwned(pool, pool', taken, f);
    MovedLive(m, r, pool, pool', taken, live);
    MovedBelow(pool, pool', taken);
    OthersLive(m, r, m', r', pool', live, f, n);
    assert live - {f} == live;
  }

  /** vmap_range of a whole frame, in terms of the frame. */
  lemma WholeFrame(m: Mem, r: Roots, m': Mem, r': Roots, f: Frame, plan: seq<Cut>, paddr: nat, size: nat)
    requires PlanFor(plan, paddr, size) && paddr / 4096 == f.mfn && RangeEnd(paddr, size) / 4096 == EndOf(f)
    requires RangeDone(m, r, m', r', [MAP_TARGET], plan)
    ensures WholeMapped(m', r', f) && KeptOutside(m, r, m', r', MAP_AREA, f.mfn, EndOf(f))
    ensures Planned(m', r', MAP_AREA, plan, |plan| - 1)
  {
    RangeIsMapped(m, r, m', r', [MAP_TARGET], plan, paddr, size);
    assert Reached(m', r', [MAP_TARGET][0], plan, |plan| - 1);
    forall s, va: nat | !Inside(MAP_AREA, f.mfn, EndOf(f), s, va)
      ensures !InsideAny([MAP_TARGET], f.mfn, EndOf(f), s, va)
    {
    }
  }

  /** vmap_kern_4k of a descriptor page, in terms of the frame. */
  lemma OnePageMapped(m: Mem, r: Roots, m': Mem, r': Roots, g: Frame)
    requires g.order == 0 && g.mfn < 0x7_FFF8_0000
    requires OthersKept(m, r, m', r', Kernel, IxOf(VaOf(MAP_AREA, g.mfn)), 3)
    requires PageMapped(m', r', Kernel, IxOf(VaOf(MAP_AREA, g.mfn)), g.mfn, 3, PAGE_PROT, false)
    ensures KeptOutside(m, r, m', r', MAP_AREA, g.mfn, g.mfn + 1)
    ensures HeadIs(Found(m', r', MAP_AREA, g.mfn), g) && WholeMapped(m', r', g)
  {
    DirectMap(g.mfn);
    forall s, va: nat | Canonical(va) && !Inside(MAP_AREA, g.mfn, g.mfn + 1, s, va)
      ensures SameOrMore(Translate(m, r, s, IxOf(va)), Translate(m', r', s, IxOf(va)))
    {
      BesideChunk(m, r, m', r', MAP_AREA, g.mfn, 3, s, va);
    }
    PageFrame(m', r', Kernel, IxOf(VaOf(MAP_AREA, g.mfn)), g.mfn, 3, PAGE_PROT, false);
    HeadOfPage(g);
    PageFrameIs(Found(m', r', MAP_AREA, g.mfn), g.mfn, 3, PAGE_PROT, false);
    OnePageWhole(m', r', g);
  }

  lemma OnePageWhole(m: Mem, r: Roots, g: Frame)
    requires g.order == 0 && g.mfn < 0x7_FFF8_0000 && FrameIs(Found(m, r, MAP_AREA, g.mfn), g.mfn, 3, true)
    ensures WholeMapped(m, r, g)
  {
    DirectMap(g.mfn);
    HeadOfPage(g);
    NewBlock(m, r, MAP_AREA, g.mfn, g.mfn, g.mfn, 3, true);
  }

  lemma HeadOfPage(g: Frame)
    requires g.order == 0
    ensures HeadOrder(g) == 0 && EndOf(g) == g.mfn + 1
  {
    assert Pow2(0) == 1;
  }

  /** Frames just taken are known to nobody. */
  lemma FramesTaken(m: Mem, r: Roots, before: Pool, after: Pool, taken: seq<Frame>, mapped: set<Frame>)
    requires Unshared(before) && AllLive(m, r, before, mapped) && before.tables == after.tables && BelowKernel(before)
    requires forall t :: t in before.tables ==> Frame(t, 0, 1) in before.busy[0]
    requires Moved(before, after, taken) && forall f :: f in taken ==> f.order < ORDERS
    ensures Pending(m, r, after, taken, 0) && Distinct(taken) && FrameSet(taken) !! mapped
    ensures AllLive(m, r, after, mapped) && BelowKernel(after)
  {
    TakenWait(m, r, before, after, taken);
    MovedLive(m, r, before, after, taken, mapped);
    MovedBelow(before, after, taken);
    forall f | f in taken ensures f !in mapped {
      assert f in mapped ==> LiveOk(m, r, before, f);
    }
  }

  /** A page of descriptors can be mapped: nothing is there, and it is not the window. */
  lemma DescriptorReady(m: Mem, r: Roots, pool: Pool, g: Frame, fixed: Fixed, windowIx: Path, entryIx: Path)
    requires Unshared(pool) && BelowKernel(pool) && g.order == 0 && Waiting(m, r, pool, g)
    requires Places(fixed, windowIx, entryIx) && InKernel(fixed)
    ensures g.mfn < 0x7_FFF8_0000 && Acceptable(VaOf(MAP_AREA, g.mfn), 3) && Found(m, r, MAP_AREA, g.mfn) == NotMapped
    ensures var ix := IxOf(VaOf(MAP_AREA, g.mfn)); ix[..4] != windowIx[..4] && ix[..4] != entryIx[..4]
  {
    assert Covers(g, g.mfn);
    InTheMap(pool, g, g.mfn);
    DirectMap(g.mfn);
    OffTheMap(fixed, g.mfn, g.mfn + 1);
    BesideFixed(fixed, MAP_AREA, windowIx, entryIx, g.mfn, g.mfn, 3, g.mfn + 1);
  }

  /** The next page of descriptors is not among those mapped so far. */
  lemma NotMappedYet(kept: seq<Frame>, f: Frame, i: nat, live: set<Frame>, arrays: set<Frame>)
    requires i < |kept| && Distinct(kept + [f]) && FrameSet(kept + [f]) !! live + arrays
    ensures kept[i] !in live + (arrays + FrameSet(kept[..i])) &&
      FrameSet(kept[..i + 1]) == FrameSet(kept[..i]) + {kept[i]}
    ensures kept[..i + 1] == kept[..i] + [kept[i]]
  {
    var all := kept + [f];
    assert all[i] == kept[i] && all[i] in FrameSet(all);
    forall j | 0 <= j < i ensures kept[..i][j] != kept[i] {
      assert all[j] == kept[j] != all[i];
    }
  }

  lemma LastWaits(kept: seq<Frame>, f: Frame, live: set<Frame>, arrays: set<Frame>)
    requires Distinct(kept + [f]) && FrameSet(kept + [f]) !! live + arrays
    ensures f !in live + (arrays + FrameSet(kept))
  {
    var all := kept + [f];
    assert all[|kept|] == f && f in FrameSet(all);
    forall j | 0 <= j < |kept| ensures kept[j] != f {
      assert all[j] == kept[j];
    }
  }

  /** The frames still to be mapped go on waiting while one of them is mapped. */
  lemma PendingNext(m: Mem, r: Roots, m': Mem, r': Roots, pool: Pool, pool': Pool, taken: seq<Frame>,
                    frames: seq<Frame>, i: nat, n: nat)
    requires Unshared(pool) && Unshared(pool') && Moved(pool, pool', taken) && BelowKernel(pool')
    requires i < |frames| && Distinct(frames) && Pending(m, r, pool, frames, i) && n <= Pow2(frames[i].order)
    requires KeptOutside(m, r, m', r', MAP_AREA, frames[i].mfn, frames[i].mfn + n)
    ensures Pending(m', r', pool', frames, i + 1)
  {
    assert Waiting(m, r, pool, frames[i]);
    MovedOwned(pool, pool', taken, frames[i]);
    forall j | i + 1 <= j < |frames| ensures Waiting(m', r', pool', frames[j]) {
      assert Waiting(m, r, pool, frames[j]);
      MovedOwned(pool, pool', taken, frames[j]);
      StillUnmapped(m, r, m', r', pool', frames[i], n, frames[j]);
    }
  }

  // ---- what changes in the address spaces ------------------------------

  /** The address lies in one of the frames, seen through the direct map. */
  ghost predicate InFrames(frames: seq<Frame>, s: Space, va: nat) {
    exists i :: 0 <= i < |frames| && Inside(MAP_AREA, frames[i].mfn, EndOf(frames[i]), s, va)
  }

  /** No address but those of the frames in the direct map changed its translation or lost a right. */
  ghost predicate KeptBut(m: Mem, r: Roots, m': Mem, r': Roots, frames: seq<Frame>) {
    forall s, va: nat :: Canonical(va) && !InFrames(frames, s, va) ==>
      SameOrMore(Translate(m, r, s, IxOf(va)), Translate(m', r', s, IxOf(va)))
  }

  lemma KeptButMore(m0: Mem, r0: Roots, m: Mem, r: Roots, m': Mem, r': Roots, frames: seq<Frame>, f: Frame, n: nat)
    requires KeptBut(m0, r0, m, r, frames) && KeptOutside(m, r, m', r', MAP_AREA, f.mfn, f.mfn + n) &&
      n <= Pow2(f.order)
    ensures KeptBut(m0, r0, m', r', frames + [f])
  {
    forall s, va: nat | Canonical(va) && !InFrames(frames + [f], s, va)
      ensures SameOrMore(Translate(m0, r0, s, IxOf(va)), Translate(m', r', s, IxOf(va)))
    {
      NotInFrames(frames, f, s, va);
      assert SameOrMore(Translate(m0, r0, s, IxOf(va)), Translate(m, r, s, IxOf(va)));
      assert !Inside(MAP_AREA, f.mfn, f.mfn + n, s, va);
    }
  }

  lemma KeptButFrame(m0: Mem, r0: Roots, m: Mem, r: Roots, m': Mem, r': Roots, frames: seq<Frame>, f: Frame)
    requires KeptBut(m0, r0, m, r, frames) && KeptOutside(m, r, m', r', MAP_AREA, f.mfn, EndOf(f))
    ensures KeptBut(m0, r0, m', r', frames + [f])
  {
    KeptButMore(m0, r0, m, r, m', r', frames, f, Pow2(f.order));
  }

  lemma NotInFrames(frames: seq<Frame>, f: Frame, s: Space, va: nat)
    requires !InFrames(frames + [f], s, va)
    ensures !InFrames(frames, s, va) && !Inside(MAP_AREA, f.mfn, EndOf(f), s, va)
  {
    var all := frames + [f];
    assert all[|frames|] == f;
    assert forall i :: 0 <= i < |frames| ==> all[i] == frames[i];
  }

  lemma MapChunk(page: nat, to: nat)
    requires 1 <= to <= 3 && PageAligned(page, to) && page < 0x7_FFF8_0000
    ensures Acceptable(VaOf(MAP_AREA, page), to)
  {
    ChunkGood(MAP_AREA, page, to);
  }

  /** A chunk of the direct map was cleared, and nothing else. */
  lemma ChunkCleared(m: Mem, r: Roots, m': Mem, page: nat, to: nat)
    requires 1 <= to <= 3 && page + PagesAt(to) <= 0x7_FFF8_0000 && Acceptable(VaOf(MAP_AREA, page), to)
    requires OthersKept(m, r, m', r, Kernel, IxOf(VaOf(MAP_AREA, page)), to)
    requires PageCleared(m', r, Kernel, IxOf(VaOf(MAP_AREA, page)), to)
    ensures forall p :: page <= p < page + PagesAt(to) ==> Found(m', r, MAP_AREA, p) == NotMapped
    ensures KeptOutside(m, r, m', r, MAP_AREA, page, page + PagesAt(to))
  {
    forall p | page <= p < page + PagesAt(to) ensures Found(m', r, MAP_AREA, p) == NotMapped {
      DirectMap(p);
      ChunkAddresses(MAP_AREA, page, to, VaOf(MAP_AREA, p));
    }
    forall s, va: nat | Canonical(va) && !Inside(MAP_AREA, page, page + PagesAt(to), s, va)
      ensures SameOrMore(Translate(m, r, s, IxOf(va)), Translate(m', r, s, IxOf(va)))
    {
      BesideChunk(m, r, m', r, MAP_AREA, page, to, s, va);
    }
  }

  /** vunmap_kern at a frame's address clears its first page, and nothing else. */
  lemma HeadCleared(m: Mem, r: Roots, m': Mem, pool: Pool, live: set<Frame>, f: Frame, to: nat)
    requires Unshared(pool) && AllLive(m, r, pool, live) && f in live && f.order < ORDERS
    requires BelowKernel(pool) && to == DepthOf(HeadOrder(f))
    requires OthersKept(m, r, m', r, Kernel, IxOf(VaOf(MAP_AREA, f.mfn)), to)
    requires PageCleared(m', r, Kernel, IxOf(VaOf(MAP_AREA, f.mfn)), to)
    ensures AllLive(m', r, pool, live - {f}) && HeadUnmapped(m', r, f)
    ensures KeptOutside(m, r, m', r, MAP_AREA, f.mfn, f.mfn + PagesAt(to))
  {
    assert LiveOk(m, r, pool, f);
    HeadIsWhole(f);
    FrameInTheMap(pool, f);
    MapChunk(f.mfn, to);
    ChunkCleared(m, r, m', f.mfn, to);
    OthersLive(m, r, m', r, pool, live, f, PagesAt(to));
  }

  ghost predicate HeadUnmapped(m: Mem, r: Roots, f: Frame) {
    forall p :: f.mfn <= p < f.mfn + PagesOf(HeadOrder(f)) ==> Found(m, r, MAP_AREA, p) == NotMapped
  }

  /** Exactly the frame `f` went from busy to free. */
  ghost predicate GaveBack(before: Pool, after: Pool, f: Frame) {
    && before.tables == after.tables && |before.busy| == |after.busy|
    && (forall p: nat :: Cover(after.free, p) == Cover(before.free, p) + Hit(f, p))
    && (forall p: nat :: Cover(after.busy, p) + Hit(f, p) == Cover(before.busy, p))
    && (forall k, g :: 0 <= k < |before.busy| ==> (g in after.busy[k] <==> g in before.busy[k] && g != f))
  }

  lemma BackLive(m: Mem, r: Roots, before: Pool, after: Pool, f: Frame, live: set<Frame>)
    requires AllLive(m, r, before, live) && f !in live && FrameUnmapped(m, r, f) && GaveBack(before, after, f)
    ensures AllLive(m, r, after, live)
  {
    forall p: nat | Cover(after.free, p) >= 1 ensures Found(m, r, MAP_AREA, p) == NotMapped {
      assert Cover(after.free, p) == Cover(before.free, p) + Hit(f, p);
    }
    forall g | g in live ensures LiveOk(m, r, after, g) {
      assert LiveOk(m, r, before, g);
    }
  }

  /** Every page is free or busy as often as before. */
  ghost predicate SamePages(before: Pool, after: Pool) {
    forall p: nat {:trigger Cover(after.free, p)} ::
      Cover(after.free, p) + Cover(after.busy, p) == Cover(before.free, p) + Cover(before.busy, p)
  }

  lemma MovedPages(before: Pool, after: Pool, taken: seq<Frame>)
    requires Moved(before, after, taken)
    ensures SamePages(before, after)
  {
    MovedFacts(before, after, taken);
    SameTotal(before.free, before.busy, after.free, after.busy, taken);
  }

  lemma BackPages(before: Pool, after: Pool, f: Frame)
    requires GaveBack(before, after, f)
    ensures SamePages(before, after)
  {
    forall p: nat
      ensures Cover(after.free, p) + Cover(after.busy, p) == Cover(before.free, p) + Cover(before.busy, p)
    {
      assert Cover(after.free, p) == Cover(before.free, p) + Hit(f, p);
    }
  }

  lemma PagesBelow(before: Pool, after: Pool)
    requires BelowKernel(before) && SamePages(before, after)
    ensures BelowKernel(after)
  {
    forall p: nat | Cover(after.free, p) + Cover(after.busy, p) >= 1 ensures p < 0x7_FFF8_0000 {
      assert Cover(before.free, p) + Cover(before.busy, p) >= 1;
    }
  }

  /** A frame whose first page is smaller than itself is not busy under the order of that page. */
  lemma HeadNotBusy(pool: Pool, f: Frame)
    requires Unshared(pool) && f.order < ORDERS && f in pool.busy[f.order] && !OnePage(f)
    ensures HeadOrder(f) < ORDERS && Frame(f.mfn, HeadOrder(f), 1) !in pool.busy[HeadOrder(f)]
  {
    HeadIsWhole(f);
    BusyApart(pool, f, Frame(f.mfn, HeadOrder(f), 1), f.mfn);
  }

  /** Taking a frame along with others and giving it back takes the others. */
  lemma TakenAndBack(before: Pool, between: Pool, after: Pool, f: Frame, kept: seq<Frame>)
    requires Unshared(before) && Moved(before, between, [f] + kept) && GaveBack(between, after, f) && f.order < ORDERS
    ensures Moved(before, after, kept)
  {
    var taken := [f] + kept;
    MovedFacts(before, between, taken);
    forall p: nat
      ensures Count(taken, p) == Hit(f, p) + Count(kept, p)
      ensures Cover(after.free, p) + Count(kept, p) == Cover(before.free, p)
      ensures Cover(after.busy, p) == Cover(before.busy, p) + Count(kept, p)
    {
      CountAppend([f], kept, p);
      assert Cover(between.free, p) + Count(taken, p) == Cover(before.free, p);
      assert Cover(between.busy, p) == Cover(before.busy, p) + Count(taken, p);
    }
    assert Count(taken, f.mfn) <= 1;
    if f in kept {
      var i :| 0 <= i < |kept| && kept[i] == f;
      CountAt(kept, i, f.mfn);
    }
    if f in before.busy[f.order] {
      BusyApart(before, f, f, f.mfn);
    }
    forall k, g | 0 <= k < |before.busy|
      ensures g in after.busy[k] <==> g in before.busy[k] || (g in kept && g.order == k)
    {
      assert g in between.busy[k] <==> g in before.busy[k] || (g in taken && g.order == k);
      assert g in taken <==> g == f || g in kept;
      assert g in before.busy[k] ==> g.order == k;
    }
    MovedBy(before, after, kept);
  }

  /** Every frame is a page of descriptors or a page table. */
  ghost predicate Accounted(frames: seq<Frame>, descriptors: seq<Frame>, tables: set<nat>) {
    forall g :: g in frames ==> g in descriptors || g.mfn in tables
  }

  lemma AccountedMore(descriptors: seq<Frame>, before: Pool, after: Pool, more: seq<Frame>)
    requires Grown(before, after, more)
    ensures Accounted(descriptors + more, descriptors, after.tables)
  {
    forall g | g in descriptors + more ensures g in descriptors || g.mfn in after.tables {
      if g in more {
        assert g.mfn in MfnsOf(more);
      }
    }
  }

  /** All addresses of a frame are as little mapped after the two calls as before; those of descriptors stay mapped. */
  lemma RoundTrip(m0: Mem, r0: Roots, m1: Mem, r1: Roots, m2: Mem, r2: Roots, pool0: Pool, pool1: Pool, pool2: Pool,
                  f: Frame, kept: seq<Frame>, descriptors: seq<Frame>)
    requires Unshared(pool0) && FreeUnmapped(m0, r0, pool0.free) && f.order < ORDERS && EndOf(f) <= 0x7_FFF8_0000
    requires Moved(pool0, pool1, [f] + kept) && GaveBack(pool1, pool2, f)
    requires KeptBut(m0, r0, m1, r1, descriptors + [f])
    requires PagesOf(HeadOrder(f)) == Pow2(f.order) && HeadUnmapped(m2, r2, f)
    requires KeptOutside(m1, r1, m2, r2, MAP_AREA, f.mfn, f.mfn + PagesOf(HeadOrder(f)))
    ensures Moved(pool0, pool2, kept) && KeptBut(m0, r0, m2, r2, descriptors)
  {
    TakenAndBack(pool0, pool1, pool2, f, kept);
    forall s, va: nat | Canonical(va) && !InFrames(descriptors, s, va)
      ensures SameOrMore(Translate(m0, r0, s, IxOf(va)), Translate(m2, r2, s, IxOf(va)))
    {
      if Inside(MAP_AREA, f.mfn, EndOf(f), s, va) {
        FrameAddress(m0, r0, m2, r2, pool0, pool1, f, kept, va);
      } else {
        StillOutside(descriptors, f, s, va);
        assert SameOrMore(Translate(m0, r0, s, IxOf(va)), Translate(m1, r1, s, IxOf(va)));
      }
    }
  }

  lemma StillOutside(frames: seq<Frame>, f: Frame, s: Space, va: nat)
    requires !InFrames(frames, s, va) && !Inside(MAP_AREA, f.mfn, EndOf(f), s, va)
    ensures !InFrames(frames + [f], s, va)
  {
    var all := frames + [f];
    assert forall i :: 0 <= i < |frames| ==> all[i] == frames[i];
  }

  lemma FrameAddress(m0: Mem, r0: Roots, m2: Mem, r2: Roots, pool0: Pool, pool1: Pool, f: Frame, kept: seq<Frame>,
                     va: nat)
    requires FreeUnmapped(m0, r0, pool0.free) && Moved(pool0, pool1, [f] + kept) && Canonical(va)
    requires Inside(MAP_AREA, f.mfn, EndOf(f), Kernel, va) && EndOf(f) <= 0x7_FFF8_0000
    requires PagesOf(HeadOrder(f)) == Pow2(f.order) && HeadUnmapped(m2, r2, f)
    ensures SameOrMore(Translate(m0, r0, Kernel, IxOf(va)), Translate(m2, r2, Kernel, IxOf(va)))
  {
    var p := PageAt(MAP_AREA, va);
    SamePageIndices(va);
    WasFree(m0, r0, pool0, pool1, f, kept, p);
    assert Found(m2, r2, MAP_AREA, p) == NotMapped;
  }

  lemma SamePageIndices(va: nat)
    requires Canonical(va) && PageAt(MAP_AREA, va) < 0x7_FFF8_0000
    ensures IxOf(va) == IxOf(VaOf(MAP_AREA, PageAt(MAP_AREA, va)))
  {
    var p := PageAt(MAP_AREA, va);
    var x := (va - MAP_AREA.base) % 0x1_0000_0000_0000_0000;
    DirectMap(p);
    assert x == 4096 * p + x % 4096;
    assert va == MAP_AREA.base + x;
    SameIndices(MAP_AREA, p, x % 4096);
  }

  lemma WasFree(m0: Mem, r0: Roots, pool0: Pool, pool1: Pool, f: Frame, kept: seq<Frame>, p: nat)
    requires FreeUnmapped(m0, r0, pool0.free) && Moved(pool0, pool1, [f] + kept) && Covers(f, p)
    ensures Found(m0, r0, MAP_AREA, p) == NotMapped
  {
    MovedFacts(pool0, pool1, [f] + kept);
    CountAppend([f], kept, p);
    assert Cover(pool1.free, p) + Count([f] + kept, p) == Cover(pool0.free, p);
  }

  // ---- runs ------------------------------------------------------------

  datatype Request = Get(order: nat) | Put(i: nat)

  /** The addresses held are those of exactly the frames handed out, each once. */
  ghost predicate Hands(addresses: seq<nat>, frames: seq<Frame>, live: set<Frame>) {
    && |addresses| == |frames|
    && (forall i :: 0 <= i < |frames| ==> frames[i] in live && addresses[i] == VaOf(MAP_AREA, frames[i].mfn))
    && (forall i, j :: 0 <= i < j < |frames| ==> frames[i] != frames[j])
    && (forall f :: f in live ==> f in frames)
  }

  lemma HandsAdd(addresses: seq<nat>, frames: seq<Frame>, live: set<Frame>, f: Frame)
    requires Hands(addresses, frames, live) && f !in live
    ensures Hands(addresses + [VaOf(MAP_AREA, f.mfn)], frames + [f], live + {f})
  {
    var all := frames + [f];
    assert all[|frames|] == f;
    forall g | g in live + {f} ensures g in all {
      if g != f {
        var i :| 0 <= i < |frames| && frames[i] == g;
        assert all[i] == g;
      }
    }
  }

  lemma HandsDrop(addresses: seq<nat>, frames: seq<Frame>, live: set<Frame>, i: nat)
    requires Hands(addresses, frames, live) && i < |frames|
    ensures Hands(addresses[..i] + addresses[i + 1..], frames[..i] + frames[i + 1..], live - {frames[i]})
  {
    var rest := frames[..i] + frames[i + 1..];
    forall g | g in live - {frames[i]} ensures g in rest {
      var j :| 0 <= j < |frames| && frames[j] == g;
      assert rest[if j < i then j else j - 1] == g;
    }
  }

  ghost predicate NoneShared(frames: seq<Frame>) {
    forall i, j, p: nat :: 0 <= i < j < |frames| ==> !(Covers(frames[i], p) && Covers(frames[j], p))
  }

  lemma LiveApart(m: Mem, r: Roots, pool: Pool, mapped: set<Frame>, live: set<Frame>, addresses: seq<nat>,
                  frames: seq<Frame>)
    requires Unshared(pool) && AllLive(m, r, pool, mapped) && live <= mapped && Hands(addresses, frames, live)
    ensures NoneShared(frames)
  {
    forall i, j, p: nat | 0 <= i < j < |frames| ensures !(Covers(frames[i], p) && Covers(frames[j], p)) {
      assert LiveOk(m, r, pool, frames[i]) && LiveOk(m, r, pool, frames[j]);
      if Covers(frames[i], p) {
        BusyApart(pool, frames[i], frames[j], p);
      }
    }
  }

  // ---- the page tables a request needs ---------------------------------

  /** How many page tables a page of the direct map lacks. */
  function DirectLack(m: Mem, r: Roots, to: nat, p: nat): nat
    requires to <= 3
  {
    Lacking(m, r, Kernel, to, IxOf(VaOf(MAP_AREA, p)))
  }

  /** Except at these frames no page of the direct map lacks more tables than before. */
  ghost predicate SparedBut(m0: Mem, r0: Roots, m: Mem, r: Roots, kept: seq<Frame>) {
    forall p: nat, to: nat {:trigger DirectLack(m, r, to, p)} ::
      p < 0x7_FFF8_0000 && to <= 3 && (forall g :: g in kept ==> g.mfn != p) ==>
        DirectLack(m, r, to, p) <= DirectLack(m0, r0, to, p)
  }

  lemma SparedNone(m: Mem, r: Roots)
    ensures SparedBut(m, r, m, r, [])
  {
  }

  lemma SparedNext(m0: Mem, r0: Roots, m: Mem, r: Roots, m': Mem, r': Roots, kept: seq<Frame>, i: nat)
    requires i < |kept| && SparedBut(m0, r0, m, r, kept[..i]) && SparedBut(m, r, m', r', [kept[i]])
    ensures SparedBut(m0, r0, m', r', kept[..i + 1])
  {
    assert kept[..i + 1] == kept[..i] + [kept[i]];
    forall p: nat, to: nat | p < 0x7_FFF8_0000 && to <= 3 && (forall g :: g in kept[..i + 1] ==> g.mfn != p)
      ensures DirectLack(m', r', to, p) <= DirectLack(m0, r0, to, p)
    {
      assert kept[i] in kept[..i + 1];
      assert forall g :: g in kept[..i] ==> g in kept[..i + 1];
      assert DirectLack(m, r, to, p) <= DirectLack(m0, r0, to, p);
    }
  }

  lemma PageSpares(m: Mem, r: Roots, m': Mem, r': Roots, g: Frame)
    requires g.mfn < 0x7_FFF8_0000 && TablesKept(m, r, m', r', Kernel, IxOf(VaOf(MAP_AREA, g.mfn)), 3)
    ensures SparedBut(m, r, m', r', [g])
  {
    DirectMap(g.mfn);
    forall p: nat, to: nat | p < 0x7_FFF8_0000 && to <= 3 && (forall f :: f in [g] ==> f.mfn != p)
      ensures DirectLack(m', r', to, p) <= DirectLack(m, r, to, p)
    {
      assert g in [g];
      DirectMap(p);
      ChunkAddresses(MAP_AREA, g.mfn, 3, VaOf(MAP_AREA, p));
    }
  }

  /** How vmap_range cuts a frame, and how many page tables it lacks. */
  function FrameCuts(f: Frame): seq<Cut> {
    var paddr, size := Bytes(f.mfn), Bytes(Pow2(f.order));
    Plan(paddr, size, RangeEnd(paddr, size))
  }

  function FrameCost(m: Mem, r: Roots, f: Frame): nat {
    RangeCost(m, r, [MAP_TARGET], FrameCuts(f))
  }

  lemma {:induction false} SumLess(a: seq<nat>, b: seq<nat>, n: nat)
    requires n <= |a| && n <= |b| && forall i :: 0 <= i < n ==> a[i] <= b[i]
    ensures Sum(a, n) <= Sum(b, n)
  {
    if n > 0 {
      SumLess(a, b, n - 1);
    }
  }

  lemma CostOfCut(m: Mem, r: Roots, plan: seq<Cut>, k: nat)
    requires k < |plan| && plan[k].to <= 3
    ensures Costs(m, r, [MAP_TARGET], plan)[k] == DirectLack(m, r, plan[k].to, plan[k].page)
  {
    var l := Lacks(m, r, [MAP_TARGET], plan[k]);
    assert Sum(l, 1) == Sum(l, 0) + l[0];
  }

  lemma CutOfFrame(f: Frame, plan: seq<Cut>, k: nat)
    requires EndOf(f) <= 0x7_FFF8_0000 && plan == FrameCuts(f) && k + 1 < |plan|
    ensures plan[k].to <= 3 && Covers(f, plan[k].page)
  {
    var paddr, size := Bytes(f.mfn), Bytes(Pow2(f.order));
    FrameRange(f.mfn, Pow2(f.order));
    var p := PlanExists(paddr, size);
    ChunkOfPlan(plan, paddr, size, RangeEnd(paddr, size), k);
    PlanGrows(plan, paddr, size, RangeEnd(paddr, size), k);
  }

  /** A frame lacks no more tables once other pages are mapped. */
  lemma CostSpared(m0: Mem, r0: Roots, m: Mem, r: Roots, f: Frame, kept: seq<Frame>)
    requires SparedBut(m0, r0, m, r, kept) && EndOf(f) <= 0x7_FFF8_0000
    requires forall g :: g in kept ==> !Covers(f, g.mfn)
    ensures FrameCost(m, r, f) <= FrameCost(m0, r0, f)
  {
    var plan := FrameCuts(f);
    CutsSpared(m0, r0, m, r, f, kept, plan, Costs(m, r, [MAP_TARGET], plan), Costs(m0, r0, [MAP_TARGET], plan));
  }

  lemma CutsSpared(m0: Mem, r0: Roots, m: Mem, r: Roots, f: Frame, kept: seq<Frame>, plan: seq<Cut>, costs: seq<nat>,
                   costs0: seq<nat>)
    requires SparedBut(m0, r0, m, r, kept) && EndOf(f) <= 0x7_FFF8_0000 && plan == FrameCuts(f) && |plan| >= 1
    requires forall g :: g in kept ==> !Covers(f, g.mfn)
    requires costs == Costs(m, r, [MAP_TARGET], plan) && costs0 == Costs(m0, r0, [MAP_TARGET], plan)
    ensures Sum(costs, |plan| - 1) <= Sum(costs0, |plan| - 1)
  {
    forall k | 0 <= k < |plan| - 1 ensures costs[k] <= costs0[k] {
      CutOfFrame(f, plan, k);
      CostOfCut(m, r, plan, k);
      CostOfCut(m0, r0, plan, k);
    }
    SumLess(costs, costs0, |plan| - 1);
  }

  lemma CutsOfPage(f: Frame, plan: seq<Cut>)
    requires f.order == 0 && f.mfn < 0x7_FFF8_0000 && plan == FrameCuts(f)
    ensures |plan| == 2 && plan[0].to == 3 && plan[0].page == f.mfn
  {
    var paddr := 4096 * f.mfn;
    assert Pow2(0) == 1;
    FrameRange(f.mfn, 1);
    assert plan == Plan(paddr, 4096, paddr + 4096);
    assert ChunkDepth(paddr, 4096) == 3;
    assert SizeAt(3) == 4096;
    assert |Plan(paddr + 4096, SizeLeft(4096, 3), paddr + 4096)| == 1;
  }

  /** A 4K frame lacks what its page does, three tables at most. */
  lemma PageCost(m: Mem, r: Roots, f: Frame)
    requires f.order == 0 && f.mfn < 0x7_FFF8_0000
    ensures FrameCost(m, r, f) == DirectLack(m, r, 3, f.mfn) <= 3
  {
    var plan := FrameCuts(f);
    CutsOfPage(f, plan);
    CostOfPlan(m, r, plan);
    MissingBound(m, r.kernel, 0, 3, IxOf(VaOf(MAP_AREA, f.mfn)));
  }

  lemma CostOfPlan(m: Mem, r: Roots, plan: seq<Cut>)
    requires |plan| == 2 && plan[0].to == 3
    ensures RangeCost(m, r, [MAP_TARGET], plan) == DirectLack(m, r, 3, plan[0].page)
  {
    var costs := Costs(m, r, [MAP_TARGET], plan);
    assert Sum(costs, 1) == Sum(costs, 0) + costs[0];
    CostOfCut(m, r, plan, 0);
  }

  // ---- what may stop a request -----------------------------------------

  ghost predicate HaltsAs(state: State, s: Stock, order: nat) {
    match state case InLoop => Stops(s, order)
  }

  /** The frame allocator stops on the request. */
  ghost predicate Halts(s: Stock, order: nat) {
    forall state :: HaltsAs(state, s, order)
  }

  ghost predicate RepliesAs(state: State, s: Stock, order: nat, s': Stock, f: Frame) {
    match state case InLoop => Answers(s, order, s', f)
  }

  /** It answers with this frame, and leaves this stock. */
  ghost predicate Replies(s: Stock, order: nat, s': Stock, f: Frame) {
    forall state :: RepliesAs(state, s, order, s', f)
  }

  ghost predicate CostAs(state: State, m: Mem, r: Roots, f: Frame, cost: nat) {
    match state case InLoop => cost == FrameCost(m, r, f)
  }

  /** The frame lacks so many page tables. */
  ghost predicate CostsFrame(m: Mem, r: Roots, f: Frame, cost: nat) {
    forall state :: CostAs(state, m, r, f, cost)
  }

  lemma TheCost(m: Mem, r: Roots, f: Frame) returns (cost: nat)
    ensures CostsFrame(m, r, f, cost)
  {
    cost := FrameCost(m, r, f);
  }

  /** Some of these pages of descriptors lacks a page table. */
  ghost predicate NoTableFor(m: Mem, r: Roots, taken: seq<Frame>) {
    exists g :: g in taken && DirectLack(m, r, 3, g.mfn) > 0
  }

  predicate Short(free: Lists, cost: nat) {
    cost > 0 && |free| == ORDERS && |free[PAGE_ORDER_4K]| <= cost
  }

  ghost predicate Stuck(m: Mem, r: Roots, s': Stock, f: Frame) {
    NoTableFor(m, r, s'.taken) || Short(s'.free, FrameCost(m, r, f))
  }

  ghost predicate MayStopAs(state: State, m: Mem, r: Roots, s: Stock, order: nat) {
    match state case InLoop =>
      Stops(s, order) || exists s': Stock, f: Frame :: Answers(s, order, s', f) && Stuck(m, r, s', f)
  }

  /**
    Why a request may stop the kernel: the frame allocator does; or it takes a
    page for descriptors whose page table is not there; or the frame lacks page
    tables, and there are not more 4K frames left than that.
   */
  ghost predicate MayStop(m: Mem, r: Roots, s: Stock, order: nat) {
    forall state :: MayStopAs(state, m, r, s, order)
  }

  lemma HaltsMayStop(m: Mem, r: Roots, s: Stock, order: nat)
    requires Halts(s, order)
    ensures MayStop(m, r, s, order)
  {
    assert HaltsAs(InLoop, s, order);
  }

  lemma NoTableMayStop(m: Mem, r: Roots, s: Stock, order: nat, s': Stock, f: Frame)
    requires Replies(s, order, s', f) && NoTableFor(m, r, s'.taken)
    ensures MayStop(m, r, s, order)
  {
    assert RepliesAs(InLoop, s, order, s', f) && Stuck(m, r, s', f);
  }

  lemma ShortMayStop(m: Mem, r: Roots, s: Stock, order: nat, s': Stock, f: Frame, cost: nat)
    requires Replies(s, order, s', f) && CostsFrame(m, r, f, cost) && Short(s'.free, cost)
    ensures MayStop(m, r, s, order)
  {
    assert RepliesAs(InLoop, s, order, s', f) && CostAs(InLoop, m, r, f, cost) && Stuck(m, r, s', f);
  }

  ghost predicate Spent(m: Mem, r: Roots, s': Stock, f: Frame, free: Lists) {
    && |free| == |s'.free| == ORDERS
    && |free[PAGE_ORDER_4K]| + FrameCost(m, r, f) >= |s'.free[PAGE_ORDER_4K]|
  }

  ghost predicate AnsweredAs(state: State, m: Mem, r: Roots, s: Stock, order: nat, f: Frame, free: Lists) {
    match state case InLoop => exists s': Stock :: Answers(s, order, s', f) && Spent(m, r, s', f, free)
  }

  /** The frame is the answer of the frame allocator, and beside it went no more 4K frames than it lacks tables. */
  ghost predicate Answered(m: Mem, r: Roots, s: Stock, order: nat, f: Frame, free: Lists) {
    forall state :: AnsweredAs(state, m, r, s, order, f, free)
  }

  lemma AnsweredIs(m: Mem, r: Roots, s: Stock, order: nat, s': Stock, f: Frame, cost: nat, free: Lists)
    requires Replies(s, order, s', f) && CostsFrame(m, r, f, cost) && |free| == |s'.free| == ORDERS
    requires |free[PAGE_ORDER_4K]| + cost >= |s'.free[PAGE_ORDER_4K]|
    ensures Answered(m, r, s, order, f, free)
  {
    assert RepliesAs(InLoop, s, order, s', f) && CostAs(InLoop, m, r, f, cost) && Spent(m, r, s', f, free);
  }

  /** Where the list has a frame, only its own page tables matter. */
  lemma ListedServed(m: Mem, r: Roots, s: Stock, order: nat)
    requires |s.free| == ORDERS && 1 <= order < ORDERS && s.free[order] != []
    ensures MayStop(m, r, s, order) <==> Short(s.free, FrameCost(m, r, Frame(s.free[order][0].mfn, order, 1)))
  {
    var f := Frame(s.free[order][0].mfn, order, 1);
    assert LeastFrom(s.free, order) == order;
    var s' := Stock(BrokenUp(s.free, order, order, 0), s.slots, []);
    assert Answers(s, order, s', f);
    assert s'.free[PAGE_ORDER_4K] == s.free[PAGE_ORDER_4K];
    if Short(s.free, FrameCost(m, r, f)) {
      assert Stuck(m, r, s', f);
    } else {
      assert !MayStopAs(InLoop, m, r, s, order);
    }
  }

  /** With five 4K frames a page never stops; with two neither, if its page table is there. */
  lemma PageServed(m: Mem, r: Roots, s: Stock)
    requires |s.free| == ORDERS && |s.free[PAGE_ORDER_4K]| >= MIN_NUM_4K_FRAMES && s.taken == []
    requires s.free[PAGE_ORDER_4K][0].mfn < 0x7_FFF8_0000
    requires |s.free[PAGE_ORDER_4K]| >= 5 || DirectLack(m, r, 3, s.free[PAGE_ORDER_4K][0].mfn) == 0
    ensures !MayStop(m, r, s, PAGE_ORDER_4K)
  {
    PageCost(m, r, Frame(s.free[PAGE_ORDER_4K][0].mfn, PAGE_ORDER_4K, 1));
    assert !MayStopAs(InLoop, m, r, s, PAGE_ORDER_4K);
  }

  /** A page costs itself and at most three tables. */
  lemma PageLeaves(m: Mem, r: Roots, s: Stock, f: Frame, free: Lists)
    requires Answered(m, r, s, PAGE_ORDER_4K, f, free) && |s.free| == ORDERS
    requires |s.free[PAGE_ORDER_4K]| >= MIN_NUM_4K_FRAMES && s.free[PAGE_ORDER_4K][0].mfn < 0x7_FFF8_0000
    ensures f == Frame(s.free[PAGE_ORDER_4K][0].mfn, PAGE_ORDER_4K, 1)
    ensures |free| == ORDERS && |free[PAGE_ORDER_4K]| + 4 >= |s.free[PAGE_ORDER_4K]|
  {
    assert AnsweredAs(InLoop, m, r, s, PAGE_ORDER_4K, f, free);
    PageCost(m, r, f);
  }

  lemma OnePageAfforded(m: Mem, r: Roots, s: Stock, frame: Option<Frame>, free: Lists, stopped: bool)
    requires |s.free| == ORDERS && s.taken == []
    requires s.free[PAGE_ORDER_4K] != [] ==> s.free[PAGE_ORDER_4K][0].mfn < 0x7_FFF8_0000
    requires stopped ==> MayStop(m, r, s, PAGE_ORDER_4K)
    requires !stopped ==> frame.Some? && Answered(m, r, s, PAGE_ORDER_4K, frame.value, free)
    ensures Affords(s.free, free, 1, stopped)
  {
    if |s.free[PAGE_ORDER_4K]| >= 5 {
      PageServed(m, r, s);
      PageLeaves(m, r, s, frame.value, free);
    }
  }

  /** get_free_frames, with its answer kept for later. */
  method Fetch(pmm: FrameAllocator, order: nat) returns (stopped: bool, frame: Option<Frame>, kept: seq<Frame>)
    requires pmm.Valid()
    modifies pmm
    ensures !stopped ==> pmm.Valid() && All4k(kept)
    ensures !stopped ==> BusyGrew(old(pmm.busy), pmm.busy, Handed(kept, frame))
    ensures !stopped ==> FreeShrank(old(pmm.free), pmm.free, Handed(kept, frame))
    ensures !stopped && frame.Some? ==> FrameOk(frame.value, order, 1)
    ensures !stopped ==> (frame.None? <==> order > MAX_PAGE_ORDER || (order > 0 && !HasFrom(old(pmm.free), order)))
    ensures !stopped && frame.None? ==> pmm.free == old(pmm.free) && pmm.busy == old(pmm.busy)
    ensures stopped <==> Halts(old(pmm.TheStock()), order)
    ensures !stopped && frame.Some? ==>
      Replies(old(pmm.TheStock()), order, pmm.TheStock().(taken := kept), frame.value)
  {
    ghost var s := pmm.TheStock();
    stopped, frame, kept := pmm.GetFreeFrames(order);
    assert stopped ==> Halts(s, order);
    assert Halts(s, order) ==> HaltsAs(InLoop, s, order);
  }

  /** Neither does the frame, once they are mapped. */
  lemma CostStays(m0: Mem, r0: Roots, m: Mem, r: Roots, pool: Pool, f: Frame, kept: seq<Frame>, mapped: set<Frame>,
                  cost0: nat)
    returns (cost: nat)
    requires SparedBut(m0, r0, m, r, kept) && Unshared(pool) && BelowKernel(pool) && Waiting(m, r, pool, f)
    requires AllLive(m, r, pool, mapped) && FrameSet(kept) <= mapped && f !in mapped
    requires CostsFrame(m0, r0, f, cost0)
    ensures CostsFrame(m, r, f, cost) && cost <= cost0
  {
    FrameInTheMap(pool, f);
    forall g | g in kept ensures !Covers(f, g.mfn) {
      assert g in FrameSet(kept) && LiveOk(m, r, pool, g) && Covers(g, g.mfn);
      BusyApart(pool, g, f, g.mfn);
    }
    CostSpared(m0, r0, m, r, f, kept);
    assert CostAs(InLoop, m0, r0, f, cost0);
    cost := FrameCost(m, r, f);
  }

  /** The next page of descriptors lacks no more tables than at the start. */
  lemma NextSpared(m0: Mem, r0: Roots, m: Mem, r: Roots, pool: Pool, kept: seq<Frame>, f: Frame, i: nat,
                   mapped: set<Frame>)
    requires i < |kept| && All4k(kept) && Distinct(kept + [f]) && Pending(m, r, pool, kept + [f], i)
    requires SparedBut(m0, r0, m, r, kept[..i]) && Unshared(pool) && BelowKernel(pool)
    requires AllLive(m, r, pool, mapped) && FrameSet(kept[..i]) <= mapped
    ensures DirectLack(m, r, 3, kept[i].mfn) > 0 ==> NoTableFor(m0, r0, kept)
  {
    var g := kept[i];
    assert (kept + [f])[i] == g && Waiting(m, r, pool, g) && g in kept;
    assert Covers(g, g.mfn);
    InTheMap(pool, g, g.mfn);
    forall h | h in kept[..i] ensures h.mfn != g.mfn {
      var j :| 0 <= j < i && kept[..i][j] == h;
      assert (kept + [f])[j] == h && h in kept && h in FrameSet(kept[..i]) && LiveOk(m, r, pool, h);
      BusyApart(pool, g, h, g.mfn);
    }
    assert DirectLack(m, r, 3, g.mfn) <= DirectLack(m0, r0, 3, g.mfn);
  }

  // ---- get_free_pages and put_pages ------------------------------------

  class PageAllocator {
    const sp: AddressSpaces
    ghost const fixed: Fixed
    /** The frames handed out and not given back, and those that hold frame descriptors. */
    ghost var live: set<Frame>
    ghost var arrays: set<Frame>

    ghost predicate Valid()
      reads this, sp, sp.pmm
    {
      && sp.Valid() && Places(fixed, sp.windowIx, sp.entryIx) && InKernel(fixed) && BelowKernel(sp.ThePool())
      && live !! arrays && AllLive(sp.Direct(), sp.TheRoots(), sp.ThePool(), live + arrays)
    }

    /** Nothing handed out, and nothing mapped yet in the direct map. */
    constructor (sp: AddressSpaces, ghost fixed: Fixed)
      requires sp.Valid() && Places(fixed, sp.windowIx, sp.entryIx) && InKernel(fixed)
      requires BelowKernel(sp.ThePool()) && FreeUnmapped(sp.Direct(), sp.TheRoots(), sp.pmm.free)
      ensures Valid() && this.sp == sp && live == {} && arrays == {}
    {
      this.sp, this.fixed, live, arrays := sp, fixed, {}, {};
    }

    lemma PoolUnshared()
      requires sp.Valid()
      ensures Unshared(sp.ThePool()) && forall t :: t in sp.mem ==> Frame(t, 0, 1) in sp.pmm.busy[0]
    {
      sp.Laws();
    }

    /** A frame handed out is busy, mapped, and no page table. */
    lemma LiveFrame(f: Frame)
      requires Valid() && f in live
      ensures f.order < ORDERS && FrameOk(f, f.order, 1) && f in sp.pmm.busy[f.order] && f.mfn !in sp.ThePool().tables
      ensures HeadIs(Found(sp.Direct(), sp.TheRoots(), MAP_AREA, f.mfn), f)
      ensures WholeMapped(sp.Direct(), sp.TheRoots(), f) && EndOf(f) <= 0x7_FFF8_0000
    {
      PoolUnshared();
      assert LiveOk(sp.Direct(), sp.TheRoots(), sp.ThePool(), f);
      FrameInTheMap(sp.ThePool(), f);
    }

    /** The first 4K frame is memory of the direct map. */
    lemma FirstPage()
      requires Valid()
      ensures |sp.pmm.free| == ORDERS
      ensures sp.pmm.free[PAGE_ORDER_4K] != [] ==> sp.pmm.free[PAGE_ORDER_4K][0].mfn < 0x7_FFF8_0000
    {
      sp.FreeLists();
      if sp.pmm.free[PAGE_ORDER_4K] != [] {
        var f := sp.pmm.free[PAGE_ORDER_4K][0];
        assert Covers(f, f.mfn);
        CoverAt(sp.pmm.free, PAGE_ORDER_4K, 0, f.mfn);
      }
    }

    /** get_free_frames, seen from the page tables: all frames it takes were free, and are not mapped. */
    method GetFrame(order: nat) returns (stopped: bool, frame: Option<Frame>, kept: seq<Frame>)
      requires Valid()
      modifies sp.pmm
      ensures !stopped ==> Valid() && All4k(kept)
      ensures !stopped ==> (frame.None? <==> order > MAX_PAGE_ORDER || (order > 0 && !HasFrom(old(sp.pmm.free), order)))
      ensures !stopped && frame.None? ==> sp.ThePool() == old(sp.ThePool())
      ensures !stopped && frame.Some? ==>
        && frame.value.order == order < ORDERS && Distinct(kept + [frame.value])
        && FrameSet(kept + [frame.value]) !! live + arrays
      ensures !stopped && frame.Some? ==> Moved(old(sp.ThePool()), sp.ThePool(), kept + [frame.value])
      ensures !stopped && frame.Some? ==>
        Pending(sp.Direct(), sp.TheRoots(), sp.ThePool(), kept + [frame.value], 0)
      ensures stopped <==> Halts(old(sp.pmm.TheStock()), order)
      ensures !stopped && frame.Some? ==>
        Replies(old(sp.pmm.TheStock()), order, sp.pmm.TheStock().(taken := kept), frame.value)
    {
      ghost var m, r, pool := sp.Direct(), sp.TheRoots(), sp.ThePool();
      PoolUnshared();
      sp.Laws();
      stopped, frame, kept := Fetch(sp.pmm, order);
      if !stopped && frame.Some? {
        MovedBy(pool, sp.ThePool(), kept + [frame.value]);
        FramesTaken(m, r, pool, sp.ThePool(), kept + [frame.value], live + arrays);
        SameTotal(pool.free, pool.busy, sp.pmm.free, sp.pmm.busy, kept + [frame.value]);
        sp.Lawful();
      }
    }

    /**
      new_frames_array's vmap_kern_4k for one page of descriptors.  The lock
      of the frame allocator is held, so a mapping that needs a page table
      waits for it forever.
     */
    method MapDescriptor(g: Frame, ghost frames: seq<Frame>, ghost i: nat, ghost mapped: set<Frame>)
      returns (stopped: bool)
      requires sp.Valid() && Places(fixed, sp.windowIx, sp.entryIx) && InKernel(fixed) && BelowKernel(sp.ThePool())
      requires i < |frames| && g == frames[i] && g.order == 0 && Distinct(frames) && g !in mapped
      requires AllLive(sp.Direct(), sp.TheRoots(), sp.ThePool(), mapped)
      requires Pending(sp.Direct(), sp.TheRoots(), sp.ThePool(), frames, i)
      modifies sp`mem, sp`pos, sp`userRoot, sp.pmm
      ensures !stopped ==> sp.Valid() && BelowKernel(sp.ThePool()) && Moved(old(sp.ThePool()), sp.ThePool(), [])
      ensures !stopped ==> sp.ThePool().tables == old(sp.ThePool().tables)
      ensures !stopped ==> AllLive(sp.Direct(), sp.TheRoots(), sp.ThePool(), mapped + {g})
      ensures !stopped ==> Pending(sp.Direct(), sp.TheRoots(), sp.ThePool(), frames, i + 1)
      ensures !stopped ==>
        KeptOutside(old(sp.Direct()), old(sp.TheRoots()), sp.Direct(), sp.TheRoots(), MAP_AREA, g.mfn, g.mfn + 1)
      ensures stopped <==> old(DirectLack(sp.Direct(), sp.TheRoots(), 3, g.mfn)) > 0
      ensures !stopped ==> unchanged(sp.pmm)
      ensures !stopped ==> SparedBut(old(sp.Direct()), old(sp.TheRoots()), sp.Direct(), sp.TheRoots(), [g])
    {
      ghost var m, r, pool := sp.Direct(), sp.TheRoots(), sp.ThePool();
      ghost var taken;
      var ret;
      var tables := sp.mem.Keys;
      PoolUnshared();
      assert Waiting(m, r, pool, frames[i]);
      DescriptorReady(m, r, pool, g, fixed, sp.windowIx, sp.entryIx);
      sp.FreeLists();
      stopped, ret, taken := sp.VmapPage(Kernel, VaOf(MAP_AREA, g.mfn), g.mfn, 3, PAGE_PROT, false);
      if !stopped {
        NoneIffSame(pool, sp.ThePool(), taken);
      }
      stopped := stopped || sp.mem.Keys != tables;
      if !stopped {
        PageSpares(m, r, sp.Direct(), sp.TheRoots(), g);
        assert ret != 0;
        NoneTaken(pool, sp.ThePool(), taken);
        PoolUnshared();
        OnePageMapped(m, r, sp.Direct(), sp.TheRoots(), g);
        FrameMapped(m, r, sp.Direct(), sp.TheRoots(), pool, sp.ThePool(), taken, mapped, g, 1);
        PendingNext(m, r, sp.Direct(), sp.TheRoots(), pool, sp.ThePool(), taken, frames, i, 1);
      }
    }

    /** All descriptor pages a request took are mapped, without a new page table; the frame itself still waits. */
    method MapDescriptors(kept: seq<Frame>, ghost f: Frame) returns (stopped: bool)
      requires Valid() && All4k(kept) && Distinct(kept + [f]) && FrameSet(kept + [f]) !! live + arrays
      requires Pending(sp.Direct(), sp.TheRoots(), sp.ThePool(), kept + [f], 0)
      modifies this`arrays, sp`mem, sp`pos, sp`userRoot, sp.pmm
      ensures !stopped ==> Valid() && arrays == old(arrays) + FrameSet(kept) && f !in live + arrays
      ensures !stopped ==> Waiting(sp.Direct(), sp.TheRoots(), sp.ThePool(), f)
      ensures !stopped ==> Grown(old(sp.ThePool()), sp.ThePool(), [])
      ensures !stopped ==> KeptBut(old(sp.Direct()), old(sp.TheRoots()), sp.Direct(), sp.TheRoots(), kept)
      ensures stopped ==> NoTableFor(old(sp.Direct()), old(sp.TheRoots()), kept)
      ensures !stopped ==> unchanged(sp.pmm)
      ensures !stopped ==> SparedBut(old(sp.Direct()), old(sp.TheRoots()), sp.Direct(), sp.TheRoots(), kept)
    {
      stopped := false;
      ghost var m0, r0, pool0, before := sp.Direct(), sp.TheRoots(), sp.ThePool(), arrays;
      GrownNone(pool0);
      SparedNone(m0, r0);
      for i := 0 to |kept|
        invariant Valid() && arrays == before + FrameSet(kept[..i]) && unchanged(sp.pmm)
        invariant Pending(sp.Direct(), sp.TheRoots(), sp.ThePool(), kept + [f], i)
        invariant Grown(pool0, sp.ThePool(), [])
        invariant KeptBut(m0, r0, sp.Direct(), sp.TheRoots(), kept[..i])
        invariant SparedBut(m0, r0, sp.Direct(), sp.TheRoots(), kept[..i])
      {
        stopped := MapNextDescriptor(kept, i, f, before, m0, r0, pool0);
        if stopped {
          return;
        }
      }
      assert kept[..|kept|] == kept;
      assert (kept + [f])[|kept|] == f;
      LastWaits(kept, f, live, before);
    }

    /** One round of the loop over the descriptor pages. */
    method MapNextDescriptor(kept: seq<Frame>, i: nat, ghost f: Frame, ghost before: set<Frame>, ghost m0: Mem,
                             ghost r0: Roots, ghost pool0: Pool)
      returns (stopped: bool)
      requires Valid() && i < |kept| && All4k(kept) && Distinct(kept + [f]) && FrameSet(kept + [f]) !! live + before
      requires arrays == before + FrameSet(kept[..i])
      requires Pending(sp.Direct(), sp.TheRoots(), sp.ThePool(), kept + [f], i)
      requires KeptBut(m0, r0, sp.Direct(), sp.TheRoots(), kept[..i]) && Grown(pool0, sp.ThePool(), [])
      requires SparedBut(m0, r0, sp.Direct(), sp.TheRoots(), kept[..i])
      modifies this`arrays, sp`mem, sp`pos, sp`userRoot, sp.pmm
      ensures !stopped ==> Valid() && arrays == before + FrameSet(kept[..i + 1])
      ensures !stopped ==> Pending(sp.Direct(), sp.TheRoots(), sp.ThePool(), kept + [f], i + 1)
      ensures !stopped ==> Grown(pool0, sp.ThePool(), [])
      ensures !stopped ==> KeptBut(m0, r0, sp.Direct(), sp.TheRoots(), kept[..i + 1])
      ensures stopped ==> NoTableFor(m0, r0, kept)
      ensures !stopped ==> unchanged(sp.pmm) && SparedBut(m0, r0, sp.Direct(), sp.TheRoots(), kept[..i + 1])
    {
      ghost var m, r, mapped := sp.Direct(), sp.TheRoots(), live + arrays;
      NotMappedYet(kept, f, i, live, before);
      ghost var pool1 := sp.ThePool();
      PoolUnshared();
      NextSpared(m0, r0, m, r, pool1, kept, f, i, mapped);
      stopped := MapDescriptor(kept[i], kept + [f], i, mapped);
      if !stopped {
        SparedNext(m0, r0, m, r, sp.Direct(), sp.TheRoots(), kept, i);
        GrownStays(pool0, pool1, sp.ThePool());
        KeptButMore(m0, r0, m, r, sp.Direct(), sp.TheRoots(), kept[..i], kept[i], 1);
        arrays := arrays + {kept[i]};
        assert mapped + {kept[i]} == live + arrays;
      }
    }

    /** vmap_range of a frame nobody has mapped yet; in the direct map it never fails. */
    method MapFrame(f: Frame, ghost cost: nat) returns (stopped: bool, err: Errno, ghost taken: seq<Frame>)
      requires Valid() && f !in live + arrays && Waiting(sp.Direct(), sp.TheRoots(), sp.ThePool(), f)
      requires CostsFrame(sp.Direct(), sp.TheRoots(), f, cost)
      modifies sp`mem, sp`pos, sp`userRoot, sp.pmm
      ensures !stopped ==> sp.Valid() && err == ESUCCESS && BelowKernel(sp.ThePool())
      ensures !stopped ==> AllLive(sp.Direct(), sp.TheRoots(), sp.ThePool(), live + arrays + {f})
      ensures !stopped ==> Grown(old(sp.ThePool()), sp.ThePool(), taken)
      ensures !stopped ==> WholeMapped(sp.Direct(), sp.TheRoots(), f)
      ensures !stopped ==>
        KeptOutside(old(sp.Direct()), old(sp.TheRoots()), sp.Direct(), sp.TheRoots(), MAP_AREA, f.mfn, EndOf(f))
      ensures if stopped then Unpaid(old(sp.ThePool()), cost) else Paid(old(sp.ThePool()), sp.ThePool(), taken, cost)
    {
      ghost var m, r, pool := sp.Direct(), sp.TheRoots(), sp.ThePool();
      var paddr, size := Bytes(f.mfn), Bytes(Pow2(f.order));
      ghost var chunk, at;
      PoolUnshared();
      FrameInTheMap(pool, f);
      ghost var plan := FramePlan(f, paddr, size);
      FrameReady(m, r, f, fixed, plan, paddr, size);
      assert cost == RangeCost(m, r, [MAP_TARGET], plan) by {
        assert CostAs(InLoop, m, r, f, cost);
      }
      stopped, err, taken, chunk, at := VmapRange(sp, paddr, size, [MAP_TARGET], fixed, plan);
      if !stopped {
        PoolUnshared();
        WholeFrame(m, r, sp.Direct(), sp.TheRoots(), f, plan, paddr, size);
        PlannedHead(sp.Direct(), sp.TheRoots(), f, plan);
        FrameMapped(m, r, sp.Direct(), sp.TheRoots(), pool, sp.ThePool(), taken, live + arrays, f, Pow2(f.order));
      }
    }

    /**
      get_free_pages.  The answer is NULL exactly where get_free_frames has
      no frame, and then nothing changes.  Otherwise it is the address of a
      new frame in the direct map, every page of which is mapped, writable,
      and was free.  `kept` are the frames that went into descriptors and page
      tables, and nothing else left the free lists; of the other addresses
      only those of new descriptor pages in the direct map changed.
     */
    method GetFreePages(order: nat)
      returns (stopped: bool, va: nat, ghost frame: Option<Frame>, ghost kept: seq<Frame>,
               ghost descriptors: seq<Frame>)
      requires Valid()
      modifies this`live, this`arrays, sp`mem, sp`pos, sp`userRoot, sp.pmm
      ensures !stopped ==> Valid() && arrays == old(arrays) + FrameSet(descriptors)
      ensures !stopped ==> (va == 0 <==> frame.None?)
      ensures !stopped ==> (va == 0 <==> order > MAX_PAGE_ORDER || (order > 0 && !HasFrom(old(sp.pmm.free), order)))
      ensures !stopped && va == 0 ==>
        live == old(live) && descriptors == [] && sp.ThePool() == old(sp.ThePool()) && sp.Direct() == old(sp.Direct())
      ensures !stopped && va != 0 ==>
        && var f := frame.value;
        && f.order == order && f !in old(live) && live == old(live) + {f} && va == VaOf(MAP_AREA, f.mfn)
      ensures !stopped && va != 0 ==> Moved(old(sp.ThePool()), sp.ThePool(), [frame.value] + kept)
      ensures !stopped && va != 0 ==> Accounted(kept, descriptors, sp.ThePool().tables)
      ensures !stopped && va != 0 ==> WholeMapped(sp.Direct(), sp.TheRoots(), frame.value)
      ensures !stopped && va != 0 ==>
        KeptBut(old(sp.Direct()), old(sp.TheRoots()), sp.Direct(), sp.TheRoots(), descriptors + [frame.value])
      ensures stopped ==> MayStop(old(sp.Direct()), old(sp.TheRoots()), old(sp.pmm.TheStock()), order)
      ensures Halts(old(sp.pmm.TheStock()), order) ==> stopped
      ensures !stopped && va != 0 ==>
        Answered(old(sp.Direct()), old(sp.TheRoots()), old(sp.pmm.TheStock()), order, frame.value, sp.pmm.free)
    {
      var got;
      ghost var m0, r0, pool0 := sp.Direct(), sp.TheRoots(), sp.ThePool();
      ghost var s0 := sp.pmm.TheStock();
      va, frame := 0, None;
      stopped, got, descriptors := TakeFrame(order);
      kept := descriptors;
      if !stopped && got.Some? {
        frame := got;
        ghost var s1 := sp.pmm.TheStock().(taken := descriptors);
        ghost var cost := TheCost(m0, r0, got.value);
        stopped, va, kept := MapTaken(got.value, descriptors, m0, r0, pool0, cost);
        if stopped {
          ShortMayStop(m0, r0, s0, order, s1, got.value, cost);
        } else {
          AnsweredIs(m0, r0, s0, order, s1, got.value, cost, sp.pmm.free);
        }
      }
    }

    /**
      get_free_page.  It never answers NULL: without a 4K frame, and without
      one to split, the frame allocator stops the kernel.  With five 4K frames
      it does not stop, and takes four of them at most.
     */
    method GetFreePage()
      returns (stopped: bool, va: nat, ghost f: Frame, ghost kept: seq<Frame>, ghost descriptors: seq<Frame>)
      requires Valid()
      modifies this`live, this`arrays, sp`mem, sp`pos, sp`userRoot, sp.pmm
      ensures !stopped ==> Valid() && arrays == old(arrays) + FrameSet(descriptors)
      ensures !stopped ==> f.order == 0 && f !in old(live) && live == old(live) + {f}
      ensures !stopped ==> va == VaOf(MAP_AREA, f.mfn) != 0
      ensures !stopped ==> Moved(old(sp.ThePool()), sp.ThePool(), [f] + kept)
      ensures !stopped ==> Accounted(kept, descriptors, sp.ThePool().tables)
      ensures Affords(old(sp.pmm.free), sp.pmm.free, 1, stopped)
    {
      ghost var m, r, s := sp.Direct(), sp.TheRoots(), sp.pmm.TheStock();
      ghost var frame;
      FirstPage();
      stopped, va, frame, kept, descriptors := GetFreePages(PAGE_ORDER_4K);
      f := if !stopped then frame.value else Frame(0, 0, 0);
      OnePageAfforded(m, r, s, frame, sp.pmm.free, stopped);
    }

    /** The second half of get_free_pages: the frame is mapped. */
    method MapTaken(f: Frame, ghost descriptors: seq<Frame>, ghost m0: Mem, ghost r0: Roots, ghost pool0: Pool,
                    ghost cost: nat)
      returns (stopped: bool, va: nat, ghost kept: seq<Frame>)
      requires Valid() && f !in live + arrays && Waiting(sp.Direct(), sp.TheRoots(), sp.ThePool(), f)
      requires Moved(pool0, sp.ThePool(), [f] + descriptors)
      requires KeptBut(m0, r0, sp.Direct(), sp.TheRoots(), descriptors)
      requires SparedBut(m0, r0, sp.Direct(), sp.TheRoots(), descriptors) && FrameSet(descriptors) <= arrays
      requires CostsFrame(m0, r0, f, cost)
      modifies this`live, sp`mem, sp`pos, sp`userRoot, sp.pmm
      ensures !stopped ==> Valid() && live == old(live) + {f} && va == VaOf(MAP_AREA, f.mfn) != 0
      ensures !stopped ==> Moved(pool0, sp.ThePool(), [f] + kept)
      ensures !stopped ==> Accounted(kept, descriptors, sp.ThePool().tables)
      ensures !stopped ==> WholeMapped(sp.Direct(), sp.TheRoots(), f)
      ensures !stopped ==> KeptBut(m0, r0, sp.Direct(), sp.TheRoots(), descriptors + [f])
      ensures stopped ==> Short(old(sp.pmm.free), cost)
      ensures !stopped ==> |sp.pmm.free| == |old(sp.pmm.free)| == ORDERS
      ensures !stopped ==> |sp.pmm.free[PAGE_ORDER_4K]| + cost >= |old(sp.pmm.free[PAGE_ORDER_4K])|
    {
      var err;
      ghost var more;
      ghost var m, r, pool1, mapped := sp.Direct(), sp.TheRoots(), sp.ThePool(), live + arrays;
      PoolUnshared();
      InTheMap(pool1, f, f.mfn);
      ghost var now := CostStays(m0, r0, m, r, pool1, f, descriptors, mapped, cost);
      stopped, err, more := MapFrame(f, now);
      va, kept := 0, descriptors + more;
      if !stopped {
        if err == ESUCCESS {
          va := VaOf(MAP_AREA, f.mfn);
        }
        MovedTrans(pool0, pool1, sp.ThePool(), [f] + descriptors, more);
        AccountedMore(descriptors, pool1, sp.ThePool(), more);
        assert ([f] + descriptors) + more == [f] + kept;
        KeptButFrame(m0, r0, m, r, sp.Direct(), sp.TheRoots(), descriptors, f);
        live := live + {f};
        assert mapped + {f} == live + arrays;
      }
    }

    /** get_free_frames, with the descriptor pages it took mapped. */
    method TakeFrame(order: nat) returns (stopped: bool, frame: Option<Frame>, ghost descriptors: seq<Frame>)
      requires Valid()
      modifies this`arrays, sp`mem, sp`pos, sp`userRoot, sp.pmm
      ensures !stopped ==> Valid() && arrays == old(arrays) + FrameSet(descriptors)
      ensures !stopped ==> (frame.None? <==> order > MAX_PAGE_ORDER || (order > 0 && !HasFrom(old(sp.pmm.free), order)))
      ensures !stopped && frame.None? ==>
        descriptors == [] && sp.ThePool() == old(sp.ThePool()) && sp.Direct() == old(sp.Direct())
      ensures !stopped && frame.Some? ==>
        && frame.value.order == order && frame.value !in live + arrays
        && Waiting(sp.Direct(), sp.TheRoots(), sp.ThePool(), frame.value)
      ensures !stopped && frame.Some? ==> Moved(old(sp.ThePool()), sp.ThePool(), [frame.value] + descriptors)
      ensures !stopped && frame.Some? ==>
        KeptBut(old(sp.Direct()), old(sp.TheRoots()), sp.Direct(), sp.TheRoots(), descriptors)
      ensures stopped ==> MayStop(old(sp.Direct()), old(sp.TheRoots()), old(sp.pmm.TheStock()), order)
      ensures Halts(old(sp.pmm.TheStock()), order) ==> stopped
      ensures !stopped && frame.Some? ==>
        Replies(old(sp.pmm.TheStock()), order, sp.pmm.TheStock().(taken := descriptors), frame.value)
      ensures !stopped && frame.Some? ==>
        SparedBut(old(sp.Direct()), old(sp.TheRoots()), sp.Direct(), sp.TheRoots(), descriptors)
    {
      var taken;
      ghost var m0, r0, pool0 := sp.Direct(), sp.TheRoots(), sp.ThePool();
      ghost var s0 := sp.pmm.TheStock();
      descriptors := [];
      stopped, frame, taken := GetFrame(order);
      if stopped {
        HaltsMayStop(m0, r0, s0, order);
        return;
      }
      if frame.None? {
        assert arrays + FrameSet(descriptors) == arrays;
        return;
      }
      ghost var pool1 := sp.ThePool();
      ghost var s1 := sp.pmm.TheStock().(taken := taken);
      assert sp.Direct() == m0 && sp.TheRoots() == r0;
      stopped := MapDescriptors(taken, frame.value);
      if stopped {
        NoTableMayStop(m0, r0, s0, order, s1, frame.value);
      } else {
        descriptors := taken;
        TakenInOrder(pool0, pool1, sp.ThePool(), taken, frame.value);
      }
    }

    /** vunmap_kern at the address of a frame handed out; BUG_ON does not fire. */
    method UnmapHead(va: nat, ghost f: Frame) returns (mfn: nat, order: nat)
      requires Valid() && f in live && va == VaOf(MAP_AREA, f.mfn)
      modifies this`live, sp`mem
      ensures Valid() && live == old(live) - {f} && sp.ThePool() == old(sp.ThePool())
      ensures mfn == f.mfn && order == HeadOrder(f) && HeadUnmapped(sp.Direct(), sp.TheRoots(), f)
      ensures KeptOutside(old(sp.Direct()), sp.TheRoots(), sp.Direct(), sp.TheRoots(), MAP_AREA, f.mfn,
                          f.mfn + PagesOf(HeadOrder(f)))
    {
      ghost var m, r, pool := sp.Direct(), sp.TheRoots(), sp.ThePool();
      assert LiveOk(m, r, pool, f);
      PoolUnshared();
      FrameInTheMap(pool, f);
      OffTheMap(fixed, f.mfn, f.mfn + 1);
      PageUnreserved(MAP_AREA, f.mfn, f.mfn, f.mfn + 1, sp.windowIx, sp.entryIx, fixed);
      var err;
      err, mfn, order := sp.Vunmap(Kernel, va);
      assert err == ESUCCESS;
      HeadCleared(m, r, sp.Direct(), pool, live + arrays, f, DepthOf(order));
      assert live + arrays - {f} == live - {f} + arrays;
      live := live - {f};
    }

    /** put_free_frames of the page that was unmapped. */
    method ReturnHead(mfn: nat, order: nat, ghost f: Frame) returns (stopped: bool, found: bool, merged: Frame)
      requires Valid() && f !in live + arrays && Owned(sp.ThePool(), f) && mfn == f.mfn && order == HeadOrder(f)
      requires HeadUnmapped(sp.Direct(), sp.TheRoots(), f)
      modifies sp.pmm
      ensures Valid() && found == OnePage(f)
      ensures found ==> GaveBack(old(sp.ThePool()), sp.ThePool(), f)
      ensures !found ==> sp.ThePool() == old(sp.ThePool())
      ensures found ==> PutInto(old(sp.pmm.free), sp.pmm.free, f, merged)
      ensures stopped <==> OnePage(f) && Jammed(old(sp.pmm.free), f)
    {
      ghost var pool := sp.ThePool();
      PoolUnshared();
      sp.Laws();
      HeadIsWhole(f);
      if !OnePage(f) {
        HeadNotBusy(pool, f);
      }
      stopped, found, merged := sp.pmm.PutFreeFrames(mfn, order);
      if found {
        BackLive(sp.Direct(), sp.TheRoots(), pool, sp.ThePool(), f, live + arrays);
        BackPages(pool, sp.ThePool(), f);
        PagesBelow(pool, sp.ThePool());
      }
      sp.Lawful();
    }

    /**
      put_pages at the address of a frame handed out.  The frame returns to
      the allocator exactly if it is a single page; any other frame stays
      busy, with its first page unmapped.  Where it ends up in the free
      lists, and whether the kernel stops there, is decided by the free lists
      before the call.
     */
    method PutPages(va: nat, ghost f: Frame) returns (stopped: bool, ghost returned: bool, ghost merged: Frame)
      requires Valid() && f in live && va == VaOf(MAP_AREA, f.mfn)
      modifies this`live, sp`mem, sp.pmm
      ensures Valid() && live == old(live) - {f} && returned == OnePage(f)
      ensures returned ==> GaveBack(old(sp.ThePool()), sp.ThePool(), f)
      ensures !returned ==> sp.ThePool() == old(sp.ThePool())
      ensures returned ==> PutInto(old(sp.pmm.free), sp.pmm.free, f, merged)
      ensures stopped <==> OnePage(f) && Jammed(old(sp.pmm.free), f)
      ensures HeadUnmapped(sp.Direct(), sp.TheRoots(), f)
      ensures KeptOutside(old(sp.Direct()), old(sp.TheRoots()), sp.Direct(), sp.TheRoots(), MAP_AREA, f.mfn,
                          f.mfn + PagesOf(HeadOrder(f)))
    {
      assert LiveOk(sp.Direct(), sp.TheRoots(), sp.ThePool(), f);
      var mfn, order := UnmapHead(va, f);
      var found, block;
      stopped, found, block := ReturnHead(mfn, order, f);
      returned, merged := found, block;
    }

    /**
      get_free_pages and then put_pages, for a 4K or a 2M block: what was
      handed out is no longer; the free lists are as before but for the pages
      kept for descriptors and page tables; and every address of both address
      spaces translates as before, but for the new descriptor pages in the
      direct map.
     */
    method GetThenPut(order: nat)
      returns (stopped: bool, va: nat, ghost kept: seq<Frame>, ghost descriptors: seq<Frame>,
               ghost frame: Option<Frame>, ghost between: Pool)
      requires Valid() && (order == PAGE_ORDER_4K || order == PAGE_ORDER_2M)
      modifies this`live, this`arrays, sp`mem, sp`pos, sp`userRoot, sp.pmm
      ensures !stopped ==> Valid() && live == old(live) && arrays == old(arrays) + FrameSet(descriptors)
      ensures !stopped && va != 0 ==> Moved(old(sp.ThePool()), sp.ThePool(), kept)
      ensures !stopped && va != 0 ==> Accounted(kept, descriptors, sp.ThePool().tables)
      ensures !stopped && va != 0 ==>
        KeptBut(old(sp.Direct()), old(sp.TheRoots()), sp.Direct(), sp.TheRoots(), descriptors)
      ensures stopped ==>
        || MayStop(old(sp.Direct()), old(sp.TheRoots()), old(sp.pmm.TheStock()), order)
        || (frame.Some? && Moved(old(sp.ThePool()), between, [frame.value] + kept) && Jammed(between.free, frame.value))
    {
      ghost var m0, r0, pool0 := sp.Direct(), sp.TheRoots(), sp.ThePool();
      PoolUnshared();
      stopped, va, frame, kept, descriptors := GetFreePages(order);
      between := sp.ThePool();
      if !stopped && va != 0 {
        assert live - {frame.value} == old(live);
        stopped := PutThatBack(va, frame.value, m0, r0, pool0, kept, descriptors);
      }
    }

    /** put_pages of what get_free_pages just handed out, seen from before both. */
    method PutThatBack(va: nat, ghost f: Frame, ghost m0: Mem, ghost r0: Roots, ghost pool0: Pool,
                       ghost kept: seq<Frame>, ghost descriptors: seq<Frame>)
      returns (stopped: bool)
      requires Valid() && f in live && va == VaOf(MAP_AREA, f.mfn)
      requires f.order == PAGE_ORDER_4K || f.order == PAGE_ORDER_2M
      requires Unshared(pool0) && FreeUnmapped(m0, r0, pool0.free) && Moved(pool0, sp.ThePool(), [f] + kept)
      requires KeptBut(m0, r0, sp.Direct(), sp.TheRoots(), descriptors + [f])
      modifies this`live, sp`mem, sp.pmm
      ensures Valid() && live == old(live) - {f} && sp.ThePool().tables == old(sp.ThePool().tables)
      ensures Moved(pool0, sp.ThePool(), kept) && KeptBut(m0, r0, sp.Direct(), sp.TheRoots(), descriptors)
      ensures stopped <==> Jammed(old(sp.pmm.free), f)
    {
      ghost var m1, r1, pool1 := sp.Direct(), sp.TheRoots(), sp.ThePool();
      ghost var returned, merged;
      assert LiveOk(m1, r1, pool1, f);
      PoolUnshared();
      HeadIsWhole(f);
      FrameInTheMap(pool1, f);
      stopped, returned, merged := PutPages(va, f);
      RoundTrip(m0, r0, m1, r1, sp.Direct(), sp.TheRoots(), pool0, pool1, sp.ThePool(), f, kept, descriptors);
    }

    /** One request.  Put names one of the addresses handed out by its place in the list; any other place is ignored. */
    method Serve(request: Request, addresses: seq<nat>, ghost frames: seq<Frame>)
      returns (stopped: bool, addresses': seq<nat>, ghost frames': seq<Frame>)
      requires Valid() && Hands(addresses, frames, live)
      modifies this`live, this`arrays, sp`mem, sp`pos, sp`userRoot, sp.pmm
      ensures !stopped ==> Valid() && Hands(addresses', frames', live)
      ensures !stopped ==> SamePages(old(sp.ThePool()), sp.ThePool())
      ensures stopped ==>
        match request
        case Get(order) => MayStop(old(sp.Direct()), old(sp.TheRoots()), old(sp.pmm.TheStock()), order)
        case Put(i) => i < |frames| && OnePage(frames[i]) && Jammed(old(sp.pmm.free), frames[i])
    {
      stopped, addresses', frames' := false, addresses, frames;
      ghost var pool := sp.ThePool();
      match request {
        case Get(order) =>
          ghost var frame, kept, descriptors;
          var va;
          stopped, va, frame, kept, descriptors := GetFreePages(order);
          if !stopped && va != 0 {
            MovedPages(pool, sp.ThePool(), [frame.value] + kept);
            HandsAdd(addresses, frames, old(live), frame.value);
            addresses', frames' := addresses + [va], frames + [frame.value];
          }
        case Put(i) =>
          if i < |addresses| {
            ghost var returned, merged;
            stopped, returned, merged := PutPages(addresses[i], frames[i]);
            if returned {
              BackPages(pool, sp.ThePool(), frames[i]);
            }
            HandsDrop(addresses, frames, old(live), i);
            addresses', frames' := addresses[..i] + addresses[i + 1..], frames[..i] + frames[i + 1..];
          }
      }
    }

    /**
      Any run of get_free_pages and put_pages of live addresses: the blocks
      held at the end are disjoint, mapped and busy, free pages are not
      mapped, and no page is lost to both lists or in both.
     */
    method Run(requests: seq<Request>) returns (stopped: bool, addresses: seq<nat>, ghost frames: seq<Frame>)
      requires Valid() && live == {}
      modifies this`live, this`arrays, sp`mem, sp`pos, sp`userRoot, sp.pmm
      ensures !stopped ==> Valid() && Hands(addresses, frames, live) && NoneShared(frames)
      ensures !stopped ==> SamePages(old(sp.ThePool()), sp.ThePool())
      ensures !stopped ==> FreeUnmapped(sp.Direct(), sp.TheRoots(), sp.pmm.free)
      ensures !stopped ==> forall i :: 0 <= i < |frames| ==>
        Owned(sp.ThePool(), frames[i]) && WholeMapped(sp.Direct(), sp.TheRoots(), frames[i])
    {
      stopped, addresses, frames := false, [], [];
      for n := 0 to |requests|
        invariant Valid() && Hands(addresses, frames, live) && SamePages(old(sp.ThePool()), sp.ThePool())
      {
        stopped, addresses, frames := Serve(requests[n], addresses, frames);
        if stopped {
          return;
        }
      }
      PoolUnshared();
      LiveApart(sp.Direct(), sp.TheRoots(), sp.ThePool(), live + arrays, live, addresses, frames);
      forall i | 0 <= i < |frames| ensures LiveOk(sp.Direct(), sp.TheRoots(), sp.ThePool(), frames[i]) {
      }
    }
  }
}
