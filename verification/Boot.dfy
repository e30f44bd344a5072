/**
  From the memory map to a running page and slab allocator, after the order
  of kernel_start in common/setup.c: init_pmm, the kernel's page tables, then
  init_slab.  The tables are the smallest ones that hold the temporary
  mapping window.
 */
module Boot {
  import opened Frames
  import opened Address
  import opened PageTable
  import opened Supply
  import opened Tiling
  import opened Layout
  import opened Pmm
  import opened PageTables
  import opened Ranges
  import opened Unmaps
  import opened Vmm
  import opened Slab

  /** The regions are page-aligned memory below the kernel image, and none is listed twice. */
  ghost predicate MemoryMap(regions: seq<Region>) {
    && RegionsOk(regions) && (forall r :: r in regions ==> r.end <= Bytes(0x7_FFF8_0000))
    && forall p: nat :: RegionCover(regions, p) <= 1
  }

  /** Window and entry are two pages of one L1 table in the kernel image. */
  ghost predicate OneTable(f: Fixed) {
    && Canonical(f.window) && Canonical(f.entry) && InKernel(f)
    && IxOf(f.entry)[..3] == IxOf(f.window)[..3] && IxOf(f.entry)[3] != IxOf(f.window)[3]
  }

  /** Every page of memory is managed, once, and no other. */
  ghost predicate Manages(pmm: FrameAllocator, regions: seq<Region>)
    reads pmm
  {
    forall p: nat {:trigger Cover(pmm.free, p)} :: Cover(pmm.free, p) + Cover(pmm.busy, p) == RegionCover(regions, p)
  }

  lemma {:induction false} RegionsBelow(regions: seq<Region>, p: nat)
    requires forall r :: r in regions ==> r.end <= Bytes(0x7_FFF8_0000)
    ensures RegionCover(regions, p) >= 1 ==> p < 0x7_FFF8_0000
  {
    if regions != [] {
      RegionsBelow(regions[..|regions| - 1], p);
    }
  }

  /** 4K frames for the tables. */
  method TableFrames(pmm: FrameAllocator, ghost regions: seq<Region>) returns (stopped: bool, tables: seq<nat>)
    requires pmm.Valid() && Manages(pmm, regions)
    modifies pmm
    ensures !stopped ==> pmm.Valid() && Manages(pmm, regions) && |tables| == 4
    ensures !stopped ==> forall k :: 0 <= k < 4 ==> Frame(tables[k], 0, 1) in pmm.busy[0]
    ensures !stopped ==> forall k, l :: 0 <= k < l < 4 ==> tables[k] != tables[l]
    ensures |old(pmm.free[PAGE_ORDER_4K])| >= 5 ==> !stopped
  {
    stopped, tables := false, [];
    while |tables| < 4
      invariant pmm.Valid() && Manages(pmm, regions) && |tables| <= 4
      invariant |old(pmm.free[PAGE_ORDER_4K])| >= 5 ==>
        |pmm.free[PAGE_ORDER_4K]| + |tables| == |old(pmm.free[PAGE_ORDER_4K])|
      invariant forall k :: 0 <= k < |tables| ==> Frame(tables[k], 0, 1) in pmm.busy[0]
      invariant forall k, l :: 0 <= k < l < |tables| ==> tables[k] != tables[l]
    {
      var mfn;
      stopped, mfn := OneFrame(pmm, regions);
      if stopped {
        return;
      }
      tables := tables + [mfn];
    }
  }

  method OneFrame(pmm: FrameAllocator, ghost regions: seq<Region>) returns (stopped: bool, mfn: nat)
    requires pmm.Valid() && Manages(pmm, regions)
    modifies pmm
    ensures !stopped ==> pmm.Valid() && Manages(pmm, regions) && Frame(mfn, 0, 1) in pmm.busy[0]
    ensures !stopped ==> forall f :: f in old(pmm.busy[0]) ==> f in pmm.busy[0] && f.mfn != mfn
    ensures |old(pmm.free[PAGE_ORDER_4K])| >= 2 ==>
      !stopped && |pmm.free[PAGE_ORDER_4K]| == |old(pmm.free[PAGE_ORDER_4K])| - 1
  {
    ghost var free, busy, s := pmm.free, pmm.busy, pmm.TheStock();
    var frame, kept;
    mfn := 0;
    stopped, frame, kept := pmm.GetFreeFrames(PAGE_ORDER_4K);
    if |s.free[PAGE_ORDER_4K]| >= 2 {
      FirstOfTwo(s, pmm.TheStock().(taken := kept), if frame.Some? then frame.value else Frame(0, 0, 0));
    }
    if stopped {
      return;
    }
    mfn := frame.value.mfn;
    HandedIsNew(free, busy, pmm.free, pmm.busy, kept, frame.value);
    SameTotal(free, busy, pmm.free, pmm.busy, kept + [frame.value]);
  }

  /** Nothing is mapped in the direct map yet. */
  lemma DirectMapEmpty(sp: AddressSpaces, fixed: Fixed, regions: seq<Region>)
    requires sp.Valid() && Places(fixed, sp.windowIx, sp.entryIx) && InKernel(fixed)
    requires MemoryMap(regions) && Manages(sp.pmm, regions)
    requires forall s, ix: Path :: sp.Translates(s, ix).Page? ==> s == Kernel && ix == sp.entryIx
    ensures BelowKernel(sp.ThePool()) && FreeUnmapped(sp.Direct(), sp.TheRoots(), sp.pmm.free)
  {
    forall p: nat | Cover(sp.pmm.free, p) + Cover(sp.pmm.busy, p) >= 1
      ensures p < 0x7_FFF8_0000 && Found(sp.Direct(), sp.TheRoots(), MAP_AREA, p) == NotMapped
    {
      RegionsBelow(regions, p);
      OffTheMap(fixed, p, p + 1);
      PageUnreserved(MAP_AREA, p, p, p + 1, sp.windowIx, sp.entryIx, fixed);
      assert !sp.Translates(Kernel, IxOf(VaOf(MAP_AREA, p))).Page?;
    }
  }

  /**
    All invariants hold from the start: a memory map leads to a page allocator
    and a slab allocator that have handed out nothing, and every page of the
    map is free or busy, exactly once.  It stops if the 4K frames do not suffice
    for the descriptors, and otherwise only if fewer than five are left.
   */
  method Boot(regions: seq<Region>, fixed: Fixed) returns (stopped: bool, slab: SlabAllocator?)
    requires MemoryMap(regions) && OneTable(fixed)
    ensures !stopped ==> slab != null && slab.Valid() && slab.sizes == map[] && slab.vmm.live == {}
    ensures !stopped ==> Manages(slab.vmm.sp.pmm, regions)
    ensures (exists j: nat :: TooFew4k(AllPieces(regions), j)) ==> stopped
    ensures stopped ==>
      || (exists j: nat :: TooFew4k(AllPieces(regions), j))
      || |FramesOf(AllPieces(regions), 0)| < 5 + DescriptorPages(|AllPieces(regions)|)
  {
    var pmm := new FrameAllocator();
    var total, tables;
    slab := null;
    ghost var taken;
    stopped, total, taken := pmm.InitPmm(regions);
    if stopped {
      return;
    }
    stopped, tables := TableFrames(pmm, regions);
    if stopped {
      return;
    }
    slab := AfterPmm(pmm, regions, fixed, tables);
  }

  method AfterPmm(pmm: FrameAllocator, regions: seq<Region>, fixed: Fixed, tables: seq<nat>)
    returns (slab: SlabAllocator)
    requires MemoryMap(regions) && OneTable(fixed) && pmm.Valid() && Manages(pmm, regions) && |tables| == 4
    requires forall k :: 0 <= k < 4 ==> Frame(tables[k], 0, 1) in pmm.busy[0]
    requires forall k, l :: 0 <= k < l < 4 ==> tables[k] != tables[l]
    ensures slab.Valid() && slab.sizes == map[] && slab.vmm.live == {} && slab.vmm.sp.pmm == pmm
    ensures Manages(pmm, regions)
  {
    var valid := (p: nat) => RegionCover(regions, p) >= 1;
    RegionsBelow(regions, MFN_INVALID);
    forall k | 0 <= k < 4 ensures valid(tables[k]) {
      BusyIsMemory(pmm, regions, tables[k]);
    }
    var sp := new AddressSpaces(pmm, valid, IxOf(fixed.window), IxOf(fixed.entry), tables);
    DirectMapEmpty(sp, fixed, regions);
    var vmm := new PageAllocator(sp, fixed);
    slab := new SlabAllocator(vmm);
  }

  lemma BusyIsMemory(pmm: FrameAllocator, regions: seq<Region>, mfn: nat)
    requires pmm.Valid() && Manages(pmm, regions) && Frame(mfn, 0, 1) in pmm.busy[0]
    ensures RegionCover(regions, mfn) >= 1
  {
    var f := Frame(mfn, 0, 1);
    var i :| 0 <= i < |pmm.busy[0]| && pmm.busy[0][i] == f;
    assert Covers(f, mfn);
    CoverAt(pmm.busy, 0, i, mfn);
  }

  /**
    Three pages of the kernel image: the window, its entry and one that nobody
    has mapped.  _vunmap of the third succeeds, because its L1 table exists.
   */
  method UnmapOfNothing(pmm: FrameAllocator, valid: nat -> bool, tables: seq<nat>)
    returns (ghost before: Translation, err: Errno)
    requires pmm.Valid() && !valid(MFN_INVALID) && |tables| == 4
    requires forall p: nat :: Cover(pmm.free, p) + Cover(pmm.busy, p) >= 1 ==> valid(p)
    requires forall k :: 0 <= k < 4 ==> valid(tables[k]) && Frame(tables[k], 0, 1) in pmm.busy[0]
    requires forall k, l :: 0 <= k < l < 4 ==> tables[k] != tables[l]
    ensures before == NotMapped && err == ESUCCESS
  {
    var window, entry, va := 0xFFFF_FFFF_8000_0000, 0xFFFF_FFFF_8000_1000, 0xFFFF_FFFF_8000_2000;
    assert IxOf(window) == [511, 510, 0, 0] && IxOf(entry) == [511, 510, 0, 1] && IxOf(va) == [511, 510, 0, 2];
    var sp := new AddressSpaces(pmm, valid, IxOf(window), IxOf(entry), tables);
    before := sp.Translates(Kernel, IxOf(va));
    assert !before.Page?;
    var mfn, order;
    err, mfn, order := sp.Vunmap(Kernel, va);
  }
}
