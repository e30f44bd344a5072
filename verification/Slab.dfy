/**
  kmalloc and kfree of mm/slab.c over the page allocator: every page of
  blocks and every page of descriptors is a 4K frame that get_free_page
  handed out, and goes back through put_pages.
 */
module Slab {
  import opened Wrappers
  import opened Arithmetic
  import opened Frames
  import opened Bits
  import opened Address
  import opened Supply
  import opened Merging
  import opened Pmm
  import opened PageTable
  import opened PageTables
  import opened Ranges
  import Unmaps
  import opened Vmm
  import opened SlabArena

  // ---- pages and the frames behind them --------------------------------

  ghost function FrameOf(page: nat): Frame {
    Frame(PageAt(MAP_AREA, page), 0, 1)
  }

  /** A page is the address of a 4K frame handed out by the page allocator. */
  ghost predicate Behind(live: set<Frame>, page: nat) {
    page == VaOf(MAP_AREA, FrameOf(page).mfn) && FrameOf(page) in live
  }

  ghost predicate AllBehind(live: set<Frame>, held: set<nat>) {
    forall page :: page in held ==> Behind(live, page)
  }

  function HeldAt(held: set<nat>, p: nat): nat {
    if MAP_AREA.base + 4096 * p in held then 1 else 0
  }

  /** The memory as the slab allocator sees it. */
  datatype Memory = Memory(pool: Pool, arrays: set<Frame>, held: set<nat>)

  /** Every page is free, held or among the frames `kept`, as often as it was free or held before. */
  ghost predicate Spent(before: Memory, after: Memory, kept: seq<Frame>) {
    forall p: nat {:trigger Cover(after.pool.free, p)} ::
      Cover(after.pool.free, p) + HeldAt(after.held, p) + Count(kept, p)
      == Cover(before.pool.free, p) + HeldAt(before.held, p)
  }

  /** The frames `kept` all went into frame descriptors and page tables, none of which is ever given up. */
  ghost predicate Overhead(before: Memory, after: Memory, kept: seq<Frame>) {
    && before.arrays <= after.arrays && before.pool.tables <= after.pool.tables
    && forall g :: g in kept ==> g in after.arrays || g.mfn in after.pool.tables
  }

  ghost predicate Ledger(before: Memory, after: Memory, kept: seq<Frame>) {
    Spent(before, after, kept) && Overhead(before, after, kept)
  }

  lemma LedgerNone(m: Memory)
    ensures Ledger(m, m, [])
  {
    var none: seq<Frame> := [];
    assert forall p: nat :: Count(none, p) == 0;
  }

  lemma LedgerTrans(a: Memory, b: Memory, c: Memory, kept: seq<Frame>, more: seq<Frame>)
    requires Ledger(a, b, kept) && Ledger(b, c, more)
    ensures Ledger(a, c, kept + more)
  {
    forall p: nat
      ensures Cover(c.pool.free, p) + HeldAt(c.held, p) + Count(kept + more, p)
           == Cover(a.pool.free, p) + HeldAt(a.held, p)
    {
      CountAppend(kept, more, p);
      assert Cover(b.pool.free, p) + HeldAt(b.held, p) + Count(kept, p) == Cover(a.pool.free, p) + HeldAt(a.held, p);
    }
  }

  lemma HitOne(f: Frame, p: nat)
    requires f.order == 0
    ensures Hit(f, p) == if p == f.mfn then 1 else 0
  {
    assert Pow2(0) == 1;
  }

  /** get_free_page: the new page is behind a new frame, and was not held. */
  lemma PageCame(live: set<Frame>, held: set<nat>, f: Frame, page: nat)
    requires AllBehind(live, held) && f !in live && f.order == 0 && f.refcount == 1 && page == VaOf(MAP_AREA, f.mfn)
    requires f.mfn < 0x7_FFF8_0000
    ensures page > 0 && page % 4096 == 0 && page !in held && AllBehind(live + {f}, held + {page})
  {
    DirectMap(f.mfn);
    assert FrameOf(page) == f;
  }

  lemma PageCameSpent(before: Memory, after: Memory, f: Frame, page: nat, kept: seq<Frame>)
    requires FreeShrank(before.pool.free, after.pool.free, [f] + kept) && f.order == 0 && page == VaOf(MAP_AREA, f.mfn)
    requires page !in before.held && after.held == before.held + {page} && f.mfn < 0x7_FFF8_0000
    ensures Spent(before, after, kept)
  {
    DirectMap(f.mfn);
    forall p: nat
      ensures Cover(after.pool.free, p) + HeldAt(after.held, p) + Count(kept, p)
           == Cover(before.pool.free, p) + HeldAt(before.held, p)
    {
      CountAppend([f], kept, p);
      HitOne(f, p);
      assert Count([f], p) == Hit(f, p);
      assert Cover(after.pool.free, p) + Count([f] + kept, p) == Cover(before.pool.free, p);
    }
  }

  /** put_pages: no other page is behind the same frame. */
  lemma PageWent(live: set<Frame>, held: set<nat>, page: nat)
    requires AllBehind(live, held) && page in held
    ensures AllBehind(live - {FrameOf(page)}, held - {page})
  {
    forall q | q in held && q != page ensures FrameOf(q) != FrameOf(page) {
      assert Behind(live, q) && Behind(live, page);
    }
  }

  lemma PageWentSpent(before: Memory, after: Memory, f: Frame, page: nat)
    requires GaveBack(before.pool, after.pool, f) && f.order == 0 && page == VaOf(MAP_AREA, f.mfn)
    requires page in before.held && after.held == before.held - {page} && f.mfn < 0x7_FFF8_0000
    ensures Spent(before, after, [])
  {
    DirectMap(f.mfn);
    forall p: nat
      ensures Cover(after.pool.free, p) + HeldAt(after.held, p) + Count([], p)
           == Cover(before.pool.free, p) + HeldAt(before.held, p)
    {
      HitOne(f, p);
      assert Cover(after.pool.free, p) == Cover(before.pool.free, p) + Hit(f, p);
    }
  }

  // ---- pages that go back ----------------------------------------------

  /** Putting the pages back, one after the other, stops the kernel. */
  ghost predicate JamsOn(st: Starts, back: seq<nat>)
    requires |st| == ORDERS
    decreases |back|
  {
    back != [] && (Jams(st, PageAt(MAP_AREA, back[0]), 0) || JamsOn(PutIn(st, PageAt(MAP_AREA, back[0]), 0), back[1..]))
  }

  /** The free lists with these pages put back, one after the other. */
  ghost function PutAll(st: Starts, back: seq<nat>): (st': Starts)
    requires |st| == ORDERS
    ensures |st'| == ORDERS
    decreases |back|
  {
    if back == [] then st else PutAll(PutIn(st, PageAt(MAP_AREA, back[0]), 0), back[1..])
  }

  ghost predicate StopsOn(free: Lists, back: seq<nat>) {
    |free| == ORDERS && JamsOn(StartsOf(free), back)
  }

  ghost predicate AllPut(before: Lists, after: Lists, back: seq<nat>) {
    |before| == |after| == ORDERS && StartsOf(after) == PutAll(StartsOf(before), back)
  }

  lemma FirstOf(st: Starts, page: nat, rest: seq<nat>)
    requires |st| == ORDERS
    ensures var mfn := PageAt(MAP_AREA, page);
            && (JamsOn(st, [page] + rest) <==> Jams(st, mfn, 0) || JamsOn(PutIn(st, mfn, 0), rest))
            && PutAll(st, [page] + rest) == PutAll(PutIn(st, mfn, 0), rest)
  {
    assert ([page] + rest)[1..] == rest;
  }

  lemma PutOne(before: Lists, after: Lists, page: nat, merged: Frame)
    requires PutInto(before, after, FrameOf(page), merged)
    ensures AllPut(before, after, [page]) && (StopsOn(before, [page]) <==> Jammed(before, FrameOf(page)))
  {
    FirstOf(StartsOf(before), page, []);
    assert [page] + [] == [page];
  }

  /** One page and then some more. */
  lemma PutThen(before: Lists, between: Lists, page: nat, rest: seq<nat>)
    requires AllPut(before, between, [page])
    ensures StopsOn(before, [page] + rest) <==> StopsOn(before, [page]) || StopsOn(between, rest)
    ensures forall after :: AllPut(between, after, rest) ==> AllPut(before, after, [page] + rest)
  {
    FirstOf(StartsOf(before), page, []);
    FirstOf(StartsOf(before), page, rest);
    assert [page] + [] == [page];
  }

  /** Slab `x` is listed, and the block at `ptr` is one of those it handed out. */
  ghost predicate Owns(a: Arena, x: nat, ptr: nat) {
    Listed(a.lists, x) && x in a.mem && a.mem[x].size > 0 && ptr in Used(a.mem[x])
  }

  /**
    The pages that go back with a block of slab `x`: none unless it is the
    last one; then the slab's page, and that of its descriptor if there is no
    other on it.
   */
  ghost function ReleasedBy(a: Arena, x: nat): seq<nat>
    requires x in a.mem
  {
    if a.mem[x].allocs != 1 then [] else [a.mem[x].base] + LastOnPage(a, PageEntry(x))
  }

  ghost function LastOnPage(a: Arena, page: nat): seq<nat> {
    if page in a.mem && a.mem[page].allocs == 1 then [page] else []
  }

  ghost predicate GivesBack(a: Arena, ptr: nat, back: seq<nat>) {
    exists x :: Owns(a, x, ptr) && back == ReleasedBy(a, x)
  }

  lemma NotOwnEntry(a: Arena, x: nat)
    requires Inv(a, {}) && Listed(a.lists, x)
    ensures PageEntry(x) != x
  {
    var o :| 0 <= o < |a.lists| && x in a.lists[o];
    assert SlabOk(a, o, x);
    EntryInPage(a, PageEntry(x), x);
  }

  lemma ElemsFirst(page: nat, rest: seq<nat>)
    ensures Elems([page] + rest) == {page} + Elems(rest)
  {
    assert forall x :: x in [page] + rest <==> x == page || x in rest;
  }

  /** Which pages go back with a block is settled by the slabs. */
  lemma OneAnswer(a: Arena, ptr: nat, back: seq<nat>, back': seq<nat>)
    requires Inv(a, {}) && GivesBack(a, ptr, back) && GivesBack(a, ptr, back')
    ensures back == back'
  {
    var x :| Owns(a, x, ptr) && back == ReleasedBy(a, x);
    var y :| Owns(a, y, ptr) && back' == ReleasedBy(a, y);
    OneOwner(a, {}, x, y, ptr);
  }

  // ---- runs ------------------------------------------------------------

  /** A request to kmalloc, or to kfree for one of the blocks handed out, by its place in the list. */
  datatype Request = Alloc(size: nat) | Release(i: nat)

  /** Sizes for which ktf_alloc has an order, or refuses. */
  predicate Servable(request: Request) {
    request.Alloc? ==> 9 <= Narrow(request.size) <= 0x8000_0000
  }

  /** The blocks handed out, each once. */
  ghost predicate Tracks(blocks: seq<nat>, sizes: map<nat, nat>) {
    NoDup(blocks) && Elems(blocks) == sizes.Keys
  }

  lemma TracksAdd(blocks: seq<nat>, sizes: map<nat, nat>, r: nat, size: nat)
    requires Tracks(blocks, sizes) && r !in sizes
    ensures Tracks(blocks + [r], sizes[r := size])
  {
    ElemsAdd(blocks, r);
  }

  lemma TracksDrop(blocks: seq<nat>, sizes: map<nat, nat>, i: nat)
    requires Tracks(blocks, sizes) && i < |blocks|
    ensures Tracks(blocks[..i] + blocks[i + 1..], sizes - {blocks[i]})
  {
    var rest := blocks[..i] + blocks[i + 1..];
    RestNoDup(blocks, i);
    forall b ensures b in Elems(rest) <==> b in (sizes - {blocks[i]}).Keys {
      InRest(blocks, i, b);
      assert b in Elems(blocks) <==> b in blocks;
    }
  }

  ghost predicate NoOverlap(a: Arena, blocks: seq<nat>) {
    forall i, j, n, n' :: 0 <= i < j < |blocks| && Extent(a, blocks[i], n) && Extent(a, blocks[j], n') ==>
      blocks[i] + n <= blocks[j] || blocks[j] + n' <= blocks[i]
  }

  // ---- kmalloc and kfree -----------------------------------------------

  /** How many pages an allocation takes: none while a slab has room, one more for a new page of descriptors. */
  ghost function PagesNeeded(a: Arena, o: nat): nat
    requires o < |a.lists|
  {
    if HasRoom(a, a.lists[o]) then 0 else if HasRoom(a, a.pages) then 1 else 2
  }

  lemma PagesAfforded(a: Lists, b: Lists, c: Lists, room: bool, stopped: bool)
    requires if room then a == b else Affords(a, b, 1, false)
    requires Affords(b, c, 1, stopped)
    ensures Affords(a, c, if room then 1 else 2, stopped)
  {
    if !room {
      AffordsNext(a, b, c, 1, 2, stopped);
    }
  }

  lemma NoneAfforded(a: Lists, c: Lists)
    requires Affords(a, c, 1, true)
    ensures Affords(a, c, 2, true)
  {
    AffordsNone(a);
    AffordsNext(a, a, c, 0, 2, true);
  }

  lemma OneMore(held: set<nat>, page: nat)
    requires page !in held
    ensures |held + {page}| == |held| + 1
  {
  }

  ghost predicate TidyAs(state: State, a: Arena, held: set<nat>) {
    match state case InLoop => Inv(a, {}) && NoneEmpty(a) && Holds(a, held)
  }

  /** The invariants of the arena, while a page is on its way. */
  ghost predicate Tidy(a: Arena, held: set<nat>) {
    forall state :: TidyAs(state, a, held)
  }

  lemma TidyIs(a: Arena, held: set<nat>)
    requires Inv(a, {}) && NoneEmpty(a) && Holds(a, held)
    ensures Tidy(a, held)
  {
  }

  ghost predicate PreparedAs(state: State, a: Arena, a': Arena, sizes: map<nat, nat>, held: set<nat>, x: nat,
                             taken: set<nat>) {
    match state case InLoop => Sound(a, sizes, held) && Slotted(a, a', x, taken)
  }

  /** The descriptor `x` was set aside, for a slab whose page is on its way. */
  ghost predicate Prepared(a: Arena, a': Arena, sizes: map<nat, nat>, held: set<nat>, x: nat, taken: set<nat>) {
    forall state :: PreparedAs(state, a, a', sizes, held, x, taken)
  }

  lemma PreparedIs(a: Arena, a': Arena, sizes: map<nat, nat>, held: set<nat>, x: nat, taken: set<nat>)
    requires Sound(a, sizes, held) && Slotted(a, a', x, taken)
    ensures Prepared(a, a', sizes, held, x, taken)
  {
  }

  class SlabAllocator {
    const vmm: PageAllocator

    /** meta_slab_list, meta_slab_page_list, and the descriptors by address. */
    var lists: seq<seq<nat>>
    var pages: seq<nat>
    var mem: map<nat, MetaSlab>

    /** What was asked for, by the address of each live block. */
    ghost var sizes: map<nat, nat>
    /** The pages obtained and not returned. */
    ghost var held: set<nat>

    ghost function A(): Arena
      reads this
    {
      Arena(lists, pages, mem)
    }

    ghost function TheMemory(): Memory
      reads this, vmm, vmm.sp, vmm.sp.pmm
    {
      Memory(vmm.sp.ThePool(), vmm.arrays, held)
    }

    /** Every page held is a live frame of the page allocator. */
    ghost predicate Backed()
      reads this, vmm, vmm.sp, vmm.sp.pmm
    {
      vmm.Valid() && AllBehind(vmm.live, held)
    }

    ghost predicate Valid()
      reads this, vmm, vmm.sp, vmm.sp.pmm
    {
      Backed() && Sound(A(), sizes, held)
    }

    /** init_slab */
    constructor (vmm: PageAllocator)
      requires vmm.Valid()
      ensures Valid() && this.vmm == vmm && sizes == map[] && held == {}
    {
      this.vmm := vmm;
      lists, pages, mem := seq(SLAB_ORDER_MAX, _ => []), [], map[];
      sizes, held := map[], {};
      new;
      Lawful(A(), sizes, held);
    }

    /**
      get_free_page.  It never answers NULL: without a 4K frame, and without
      one to split, the frame allocator stops the kernel.
     */
    method TakePage() returns (stopped: bool, page: nat, ghost kept: seq<Frame>)
      requires Backed()
      modifies this`held, vmm`live, vmm`arrays, vmm.sp`mem, vmm.sp`pos, vmm.sp`userRoot, vmm.sp.pmm
      ensures !stopped ==> Backed() && page > 0 && page % 4096 == 0 && page !in old(held) && held == old(held) + {page}
      ensures !stopped ==> Ledger(old(TheMemory()), TheMemory(), kept)
      ensures !stopped ==> |held| == |old(held)| + 1
      ensures Affords(old(vmm.sp.pmm.free), vmm.sp.pmm.free, 1, stopped)
    {
      ghost var before, live := TheMemory(), vmm.live;
      ghost var f, descriptors;
      stopped, page, f, kept, descriptors := vmm.GetFreePage();
      if !stopped {
        vmm.LiveFrame(f);
        PageCame(live, held, f, page);
        OneMore(held, page);
        held := held + {page};
        MovedFacts(before.pool, vmm.sp.ThePool(), [f] + kept);
        PageCameSpent(before, TheMemory(), f, page, kept);
        KeptIsOverhead(before, TheMemory(), kept, descriptors);
      }
    }

    /** put_pages of a page held. */
    method GivePage(page: nat) returns (stopped: bool)
      requires Backed() && page in held
      modifies this`held, vmm`live, vmm.sp`mem, vmm.sp.pmm
      ensures Backed() && held == old(held) - {page} && Ledger(old(TheMemory()), TheMemory(), [])
      ensures AllPut(old(vmm.sp.pmm.free), vmm.sp.pmm.free, [page])
      ensures stopped <==> StopsOn(old(vmm.sp.pmm.free), [page])
    {
      ghost var before, f := TheMemory(), FrameOf(page);
      ghost var returned, merged;
      assert Behind(vmm.live, page);
      vmm.LiveFrame(f);
      PageWent(vmm.live, held, page);
      stopped, returned, merged := vmm.PutPages(page, f);
      held := held - {page};
      PutOne(before.pool.free, vmm.sp.pmm.free, page, merged);
      PageWentSpent(before, TheMemory(), f, page);
    }

    /** slab_alloc; its BUG_ON does not fire. */
    method SlabAlloc(x: nat) returns (r: nat)
      requires CanAlloc(mem, x)
      modifies this`mem
      ensures r == 0 <==> old(mem[x].free) == []
      ensures r == 0 ==> mem == old(mem)
      ensures r > 0 ==> TookFrom(old(mem), mem, x, r)
    {
      var s := mem[x];
      if s.free == [] {
        return 0;
      }
      TakeFirst(s);
      BlocksCount(s.base, s.size, s.len / s.size);
      r := s.free[0];
      assert r in Elems(s.free);
      assert s.allocs < s.len / s.size;
      mem := mem[x := s.(free := s.free[1..], allocs := s.allocs + 1)];
    }

    /** slab_free of a block that is handed out; its BUG_ON does not fire. */
    method SlabFree(x: nat, r: nat)
      requires x in mem && Counts(mem[x]) && r in Used(mem[x])
      modifies this`mem
      ensures GaveTo(old(mem), mem, x, r)
    {
      var s := mem[x];
      PutLast(s, r);
      assert s.allocs != 0;
      mem := mem[x := s.(free := s.free + [r], allocs := s.allocs - 1)];
    }

    /** The loops over a list that try slab_alloc on each slab. */
    method AllocFrom(l: seq<nat>) returns (r: nat, ghost x: nat)
      requires forall y :: y in l ==> CanAlloc(mem, y)
      modifies this`mem
      ensures r == 0 <==> !HasRoom(old(A()), l)
      ensures r == 0 ==> mem == old(mem)
      ensures r > 0 ==> x in l && TookFrom(old(mem), mem, x, r)
    {
      r, x := 0, 0;
      for i := 0 to |l|
        invariant r == 0 && mem == old(mem)
        invariant forall j :: 0 <= j < i ==> l[j] in mem && mem[l[j]].free == []
      {
        assert CanAlloc(mem, l[i]);
        r := SlabAlloc(l[i]);
        if r != 0 {
          x := l[i];
          return;
        }
      }
    }

    /** The first loop of ktf_alloc. */
    method FromSlabs(o: nat, ghost size: nat) returns (r: nat)
      requires Sound(A(), sizes, held) && o < SLAB_ORDER_MAX && o < |lists| && Fits(size, SizeOf(o))
      modifies this`mem
      ensures r == 0 <==> !HasRoom(old(A()), lists[o])
      ensures r == 0 ==> mem == old(mem)
      ensures r > 0 ==> r !in sizes && Sound(A(), sizes[r := size], held)
    {
      ghost var a, x := A(), 0;
      Laws(a, sizes, held);
      SlabsCanAlloc(a, o);
      r, x := AllocFrom(lists[o]);
      if r > 0 {
        TakenKeeps(a, A(), x, r, sizes, size, held);
      }
    }

    /** slab_meta_alloc: a descriptor from a page that has one, or else from a new page. */
    method SlabMetaAlloc() returns (stopped: bool, x: nat, ghost taken: set<nat>, ghost kept: seq<Frame>)
      requires Backed() && Inv(A(), {}) && NoneEmpty(A()) && Holds(A(), held)
      modifies this`pages, this`mem, this`held
      modifies vmm`live, vmm`arrays, vmm.sp`mem, vmm.sp`pos, vmm.sp`userRoot, vmm.sp.pmm
      ensures !stopped ==> Backed() && x > 0 && Slotted(old(A()), A(), x, taken) && held == old(held) + taken
      ensures !stopped ==> Ledger(old(TheMemory()), TheMemory(), kept)
      ensures HasRoom(old(A()), old(pages)) ==> !stopped && taken == {} && kept == [] && TheMemory() == old(TheMemory())
      ensures !HasRoom(old(A()), old(pages)) ==> Affords(old(vmm.sp.pmm.free), vmm.sp.pmm.free, 1, stopped)
      ensures !HasRoom(old(A()), old(pages)) && !stopped ==> |held| == |old(held)| + 1
    {
      stopped, taken, kept := false, {}, [];
      x := FromListedPage();
      if x > 0 {
        LedgerNone(TheMemory());
        assert held + taken == held;
        return;
      }
      stopped, x, taken, kept := FromNewPage();
    }

    method FromListedPage() returns (x: nat)
      requires Backed() && Inv(A(), {}) && NoneEmpty(A()) && Holds(A(), held)
      modifies this`mem
      ensures Backed() && TheMemory() == old(TheMemory()) && (x == 0 <==> !HasRoom(old(A()), old(pages)))
      ensures if x > 0 then Slotted(old(A()), A(), x, {}) else A() == old(A()) && Tidy(A(), held)
    {
      ghost var a, p := A(), 0;
      PagesCanAlloc(a);
      x, p := AllocFrom(pages);
      if x > 0 {
        SlotFromPage(a, A(), p, x);
      } else {
        TidyIs(a, held);
      }
    }

    method FromNewPage() returns (stopped: bool, x: nat, ghost taken: set<nat>, ghost kept: seq<Frame>)
      requires Backed() && Tidy(A(), held)
      modifies this`pages, this`mem, this`held
      modifies vmm`live, vmm`arrays, vmm.sp`mem, vmm.sp`pos, vmm.sp`userRoot, vmm.sp.pmm
      ensures !stopped ==> Backed() && x > 0 && Slotted(old(A()), A(), x, taken) && held == old(held) + taken
      ensures !stopped ==> Ledger(old(TheMemory()), TheMemory(), kept) && |held| == |old(held)| + 1
      ensures Affords(old(vmm.sp.pmm.free), vmm.sp.pmm.free, 1, stopped)
    {
      ghost var a := A();
      var page;
      x := 0;
      stopped, page, kept := TakePage();
      taken := {page};
      if !stopped {
        assert A() == a;
        x := DescriptorPage(page, old(held));
      }
    }

    /** Setting up a page of descriptors leaves the memory below it. */
    method DescriptorPage(page: nat, ghost held0: set<nat>) returns (x: nat)
      requires Backed() && Tidy(A(), held0) && page > 0 && page % 4096 == 0 && page !in held0
      modifies this`pages, this`mem
      ensures Backed() && TheMemory() == old(TheMemory())
      ensures x > 0 && Slotted(old(A()), A(), x, {page})
    {
      assert TidyAs(InLoop, A(), held0);
      NotHeld(A(), held0, page);
      x := NewDescriptorPage(page);
    }

    /** A page of descriptors, the first of which is its own, and a descriptor from it. */
    method NewDescriptorPage(page: nat) returns (x: nat)
      requires Inv(A(), {}) && NoneEmpty(A()) && Unused(A(), page)
      modifies this`pages, this`mem
      ensures x > 0 && Slotted(old(A()), A(), x, {page})
    {
      ghost var a := A();
      var metaSize := DescriptorBytes(META_SLAB_BYTES);
      var ok, free := InitializeSlab(page + metaSize, 4096 - metaSize, metaSize);
      assert ok by {
        assert SizeOf(2) == 64;
      }
      mem := mem[page := MetaSlab(page + metaSize, 4096 - metaSize, metaSize, 0, free)];
      pages := [page] + pages;
      ghost var a1 := A();
      NewPageOk(a1, page, free);
      x := SlabAlloc(page);
      SlotFromNew(a, a1, A(), page, x);
    }

    /** The rest of ktf_alloc: a new slab of order `o`, with a descriptor and a page of its own. */
    method NewSlab(o: nat, ghost size: nat) returns (stopped: bool, r: nat, ghost kept: seq<Frame>)
      requires Valid() && o < SLAB_ORDER_MAX && Fits(size, SizeOf(o))
      modifies this`lists, this`pages, this`mem, this`held
      modifies vmm`live, vmm`arrays, vmm.sp`mem, vmm.sp`pos, vmm.sp`userRoot, vmm.sp.pmm
      ensures !stopped ==> Backed() && r > 0 && r !in sizes && Sound(A(), sizes[r := size], held)
      ensures !stopped ==> Ledger(old(TheMemory()), TheMemory(), kept)
      ensures var n := if HasRoom(old(A()), old(pages)) then 1 else 2;
              Affords(old(vmm.sp.pmm.free), vmm.sp.pmm.free, n, stopped) && (!stopped ==> |held| == |old(held)| + n)
    {
      ghost var a, held0, before := A(), held, TheMemory();
      ghost var taken, room := {}, HasRoom(a, a.pages);
      var x;
      r := 0;
      assert Inv(a, {}) && NoneEmpty(a) && Holds(a, held) by {
        Laws(a, sizes, held);
      }
      stopped, x, taken, kept := SlabMetaAlloc();
      if !stopped {
        ghost var between := vmm.sp.pmm.free;
        PreparedIs(a, A(), sizes, held0, x, taken);
        ghost var memory, more := TheMemory(), [];
        stopped, r, more := WithDescriptor(o, size, x, a, taken, held0);
        if !stopped {
          LedgerTrans(before, memory, TheMemory(), kept, more);
        }
        kept := kept + more;
        PagesAfforded(before.pool.free, between, vmm.sp.pmm.free, room, stopped);
      } else {
        NoneAfforded(before.pool.free, vmm.sp.pmm.free);
      }
    }

    /** The same, once there is a descriptor `x`. */
    method WithDescriptor(o: nat, ghost size: nat, x: nat, ghost a: Arena, ghost taken: set<nat>, ghost held0: set<nat>)
      returns (stopped: bool, r: nat, ghost kept: seq<Frame>)
      requires Backed() && Prepared(a, A(), sizes, held0, x, taken) && held == held0 + taken
      requires o < SLAB_ORDER_MAX && Fits(size, SizeOf(o))
      modifies this`lists, this`mem, this`held
      modifies vmm`live, vmm`arrays, vmm.sp`mem, vmm.sp`pos, vmm.sp`userRoot, vmm.sp.pmm
      ensures !stopped ==> Backed() && r > 0 && r !in sizes && Sound(A(), sizes[r := size], held)
      ensures !stopped ==> Ledger(old(TheMemory()), TheMemory(), kept) && |held| == |old(held)| + 1
      ensures Affords(old(vmm.sp.pmm.free), vmm.sp.pmm.free, 1, stopped)
    {
      ghost var a1 := A();
      var page;
      r := 0;
      stopped, page, kept := TakePage();
      if !stopped {
        assert A() == a1;
        r := SetUpPage(o, size, x, page, a, taken, held0);
      }
    }

    /** Setting up the slab leaves the memory below it. */
    method SetUpPage(o: nat, ghost size: nat, x: nat, page: nat, ghost a: Arena, ghost taken: set<nat>,
                     ghost held0: set<nat>)
      returns (r: nat)
      requires Backed() && Prepared(a, A(), sizes, held0, x, taken) && o < SLAB_ORDER_MAX
      requires Fits(size, SizeOf(o)) && page > 0 && page % 4096 == 0 && page !in held0 + taken
      requires held == held0 + taken + {page}
      modifies this`lists, this`mem
      ensures Backed() && TheMemory() == old(TheMemory())
      ensures r > 0 && r !in sizes && Sound(A(), sizes[r := size], held)
    {
      assert PreparedAs(InLoop, a, A(), sizes, held0, x, taken);
      r := SetUp(o, size, x, page, a, taken, held0);
    }

    method SetUp(o: nat, ghost size: nat, x: nat, page: nat, ghost a: Arena, ghost taken: set<nat>,
                 ghost held0: set<nat>)
      returns (r: nat)
      requires Sound(a, sizes, held0) && Slotted(a, A(), x, taken) && o < SLAB_ORDER_MAX && Fits(size, SizeOf(o))
      requires page > 0 && page % 4096 == 0 && page !in held0 + taken && held == held0 + taken + {page}
      modifies this`lists, this`mem
      ensures r > 0 && r !in sizes && Sound(A(), sizes[r := size], held)
    {
      ghost var a1 := A();
      SpareIsUsed(a1, x);
      r := FirstBlock(o, x, page);
      assert Unused(a, page) by {
        Laws(a, sizes, held0);
        NotHeld(a, held0, page);
      }
      StillUnused(a, a1, x, taken, page);
      AddKeeps(a, a1, A(), o, x, r, taken, sizes, size, held0);
    }

    /** The descriptor `x` is set up for a page of blocks and listed, and one block is taken. */
    method FirstBlock(o: nat, x: nat, page: nat) returns (r: nat)
      requires o < |lists| && o < SLAB_ORDER_MAX && page > 0
      modifies this`lists, this`mem
      ensures r > 0 && x in mem && A() == Arena(old(lists)[o := [x] + old(lists)[o]], pages, old(mem)[x := mem[x]])
      ensures mem[x].base == page && mem[x].len == 4096 && mem[x].size == SizeOf(o)
      ensures Counts(mem[x]) && mem[x].allocs == 1 && Used(mem[x]) == {r}
    {
      var ok, free := InitializeSlab(page, 4096, SizeOf(o));
      assert ok;
      mem := mem[x := MetaSlab(page, 4096, SizeOf(o), 0, free)];
      lists := lists[o := [x] + lists[o]];
      NewSlabCounts(mem[x], o);
      r := SlabAlloc(x);
    }

    /**
      kmalloc.  NULL exactly for a size above the largest slab size, and then
      nothing changes; otherwise a block that was not in use and fits.  Pages
      are taken only if no slab of the order has room, and the frames `kept`
      that left the free lists beside them are frame descriptors and page
      tables.
     */
    method Kmalloc(size: nat) returns (stopped: bool, r: nat, ghost kept: seq<Frame>)
      requires Valid() && 9 <= Narrow(size) <= 0x8000_0000
      modifies this, vmm`live, vmm`arrays, vmm.sp`mem, vmm.sp`pos, vmm.sp`userRoot, vmm.sp.pmm
      ensures !stopped ==> Valid() && Ledger(old(TheMemory()), TheMemory(), kept)
      ensures !stopped ==> (r == 0 <==> Narrow(size) > 2048)
      ensures !stopped && r == 0 ==> A() == old(A()) && sizes == old(sizes) && TheMemory() == old(TheMemory())
      ensures !stopped && r > 0 ==> r !in old(sizes) && sizes == old(sizes)[r := size]
      ensures Narrow(size) <= 2048 ==> 0 <= OrderFor(size) < |old(lists)|
      ensures Narrow(size) <= 2048 && HasRoom(old(A()), old(lists)[OrderFor(size)]) ==>
        !stopped && TheMemory() == old(TheMemory())
      ensures Narrow(size) <= 2048 ==>
        var n := PagesNeeded(old(A()), OrderFor(size));
        Affords(old(vmm.sp.pmm.free), vmm.sp.pmm.free, n, stopped) && (!stopped ==> |held| == |old(held)| + n)
      ensures Narrow(size) > 2048 ==> !stopped
    {
      stopped, kept := false, [];
      LedgerNone(TheMemory());
      SizeClass(size);
      assert |lists| == SLAB_ORDER_MAX by {
        Laws(A(), sizes, held);
      }
      if NextPowerOfTwo(Narrow(size)) > 2048 {
        r := 0;
        return;
      }
      var o := OrderFor(size);
      AffordsNone(vmm.sp.pmm.free);
      r := FromSlabs(o, size);
      if r == 0 {
        stopped, r, kept := NewSlab(o, size);
      }
      if !stopped {
        sizes := sizes[r := size];
      }
    }

    /** The search of ktf_free: the slab whose page holds `ptr`. */
    method FindSlab(ptr: nat) returns (found: bool, o: nat, i: nat)
      requires Inv(A(), {})
      ensures found ==> o < SLAB_ORDER_MAX && i < |lists[o]| && Within(A(), lists[o][i], ptr) && InSlab(A(), ptr)
      ensures !found ==> !InSlab(A(), ptr)
    {
      found, o, i := false, 0, 0;
      while o < SLAB_ORDER_MAX
        invariant o <= SLAB_ORDER_MAX
        invariant forall k, j :: 0 <= k < o && 0 <= j < |lists[k]| ==> !Within(A(), lists[k][j], ptr)
      {
        i := 0;
        while i < |lists[o]|
          invariant i <= |lists[o]|
          invariant forall j :: 0 <= j < i ==> !Within(A(), lists[o][j], ptr)
        {
          assert SlabOk(A(), o, lists[o][i]);
          var s := mem[lists[o][i]];
          if s.base <= ptr < s.base + s.len {
            assert Listed(lists, lists[o][i]);
            found := true;
            return;
          }
          i := i + 1;
        }
        o := o + 1;
      }
    }

    /** The search, for a pointer that is live or in no slab. */
    method FindLive(ptr: nat) returns (found: bool, o: nat, i: nat)
      requires Sound(A(), sizes, held) && (ptr in sizes || !InSlab(A(), ptr))
      ensures found <==> ptr in sizes
      ensures found ==> FoundIn(A(), o, i, ptr)
    {
      Laws(A(), sizes, held);
      found, o, i := FindSlab(ptr);
      if !found {
        NotLive(A(), ptr);
      }
    }

    /** ktf_free, once the slab is found. */
    method GiveBack(o: nat, i: nat, ptr: nat) returns (stopped: bool, ghost back: seq<nat>)
      requires Valid() && FoundIn(A(), o, i, ptr)
      modifies this`lists, this`pages, this`mem, this`held, vmm`live, vmm.sp`mem, vmm.sp.pmm
      ensures GivesBack(old(A()), ptr, back) && (stopped <==> StopsOn(old(vmm.sp.pmm.free), back))
      ensures !stopped ==> Backed() && Sound(A(), sizes - {ptr}, held)
      ensures !stopped ==> Ledger(old(TheMemory()), TheMemory(), []) && held == old(held) - Elems(back)
      ensures !stopped ==> AllPut(old(vmm.sp.pmm.free), vmm.sp.pmm.free, back)
    {
      ghost var a := A();
      var x := lists[o][i];
      stopped, back := false, [];
      LedgerNone(TheMemory());
      FreeLists();
      assert Listed(lists, x) && Counts(mem[x]) && ptr in Used(mem[x]) by {
        Laws(a, sizes, held);
        OwnerOf(a, o, i, ptr);
      }
      assert Owns(a, x, ptr);
      SlabFree(x, ptr);
      if mem[x].allocs != 0 {
        FreeKeeps(a, A(), x, ptr, sizes, held);
      } else {
        stopped, back := ReleaseSlab(o, i, ptr, a);
      }
    }

    /**
      The slab `i` of order `o` is empty: it leaves its list, and its page and
      its descriptor are returned; so is the page of the descriptor, if that
      was the last one on it.
     */
    method ReleaseSlab(o: nat, i: nat, ghost ptr: nat, ghost a: Arena) returns (stopped: bool, ghost back: seq<nat>)
      requires Backed() && Sound(a, sizes, held) && Emptied(a, A(), o, i, ptr)
      modifies this`lists, this`pages, this`mem, this`held, vmm`live, vmm.sp`mem, vmm.sp.pmm
      ensures o < |old(lists)| && i < |old(lists)[o]| && back == ReleasedBy(a, old(lists)[o][i])
      ensures stopped <==> StopsOn(old(vmm.sp.pmm.free), back)
      ensures !stopped ==> Backed() && Sound(A(), sizes - {ptr}, held)
      ensures !stopped ==> Ledger(old(TheMemory()), TheMemory(), []) && held == old(held) - Elems(back)
      ensures !stopped ==> AllPut(old(vmm.sp.pmm.free), vmm.sp.pmm.free, back)
    {
      ghost var before, held0 := TheMemory(), held;
      var x := lists[o][i];
      var base := UnlinkSlab(o, i, ptr, a);
      ghost var a1 := A();
      ghost var rest := LastOnPage(a1, PageEntry(x));
      back := [base] + rest;
      assert TheMemory() == before;
      stopped := GivePage(base);
      ghost var between := TheMemory();
      PutThen(before.pool.free, between.pool.free, base, rest);
      if !stopped {
        assert A() == a1;
        stopped := ReleaseDescriptor(x, base, ptr, a, held0, before, rest);
        ElemsFirst(base, rest);
      }
    }

    /** The descriptor `x` of the slab that was at `base` is returned. */
    method ReleaseDescriptor(x: nat, ghost base: nat, ghost ptr: nat, ghost a: Arena, ghost held0: set<nat>,
                             ghost before: Memory, ghost back: seq<nat>)
      returns (stopped: bool)
      requires Backed() && Sound(a, sizes, held0) && Unlinked(a, A(), x, base, sizes - {ptr}, held0)
      requires held == held0 - {base} && Ledger(before, TheMemory(), []) && back == LastOnPage(A(), PageEntry(x))
      modifies this`pages, this`mem, this`held, vmm`live, vmm.sp`mem, vmm.sp.pmm
      ensures stopped <==> StopsOn(old(vmm.sp.pmm.free), back)
      ensures Backed() && Sound(A(), sizes - {ptr}, held) && Ledger(before, TheMemory(), [])
      ensures AllPut(old(vmm.sp.pmm.free), vmm.sp.pmm.free, back) && held == old(held) - Elems(back)
    {
      ghost var between := TheMemory();
      ReturnDescriptor(x, base, ptr, a, held0);
      assert TheMemory() == between;
      stopped := ReleasePage(PageEntry(x), base, ptr, a, held0, before, back);
    }

    /** The page of descriptors is returned if it is empty. */
    method ReleasePage(page: nat, ghost base: nat, ghost ptr: nat, ghost a: Arena, ghost held0: set<nat>,
                       ghost before: Memory, ghost back: seq<nat>)
      returns (stopped: bool)
      requires page in mem && back == if mem[page].allocs == 0 then [page] else []
      requires Backed() && Sound(a, sizes, held0) && Dropped(a, A(), page, base, sizes - {ptr}, held0)
      requires held == held0 - {base} && Ledger(before, TheMemory(), [])
      modifies this`pages, this`held, vmm`live, vmm.sp`mem, vmm.sp.pmm
      ensures stopped <==> StopsOn(old(vmm.sp.pmm.free), back)
      ensures Backed() && Sound(A(), sizes - {ptr}, held) && Ledger(before, TheMemory(), [])
      ensures AllPut(old(vmm.sp.pmm.free), vmm.sp.pmm.free, back) && held == old(held) - Elems(back)
    {
      ghost var between := TheMemory();
      stopped := false;
      FreeLists();
      if mem[page].allocs != 0 {
        PageStays(a, A(), page, base, sizes, ptr, held0);
        return;
      }
      DropPage(page, base, a, ptr, held0);
      assert TheMemory() == between;
      stopped := GivePage(page);
      assert held == held0 - {base, page};
      LedgerTrans(before, between, TheMemory(), [], []);
    }

    method UnlinkSlab(o: nat, i: nat, ghost ptr: nat, ghost a: Arena) returns (base: nat)
      requires Sound(a, sizes, held) && Emptied(a, A(), o, i, ptr)
      modifies this`lists
      ensures Unlinked(a, A(), old(lists)[o][i], base, sizes - {ptr}, held) && old(lists)[o][i] in a.mem
      ensures ReleasedBy(a, old(lists)[o][i]) == [base] + LastOnPage(A(), PageEntry(old(lists)[o][i]))
    {
      var x := lists[o][i];
      base := mem[x].base;
      Laws(a, sizes, held);
      NotOwnEntry(a, x);
      LastBlock(a, x, mem[x], ptr);
      lists := lists[o := lists[o][..i] + lists[o][i + 1..]];
      GoneKeeps(a, A(), o, i, ptr, sizes, held);
      BaseHeld(a, x, held);
    }

    method ReturnDescriptor(x: nat, ghost base: nat, ghost ptr: nat, ghost a: Arena, ghost held0: set<nat>)
      requires Unlinked(a, A(), x, base, sizes - {ptr}, held0)
      modifies this`mem
      ensures Dropped(a, A(), PageEntry(x), base, sizes - {ptr}, held0)
      ensures PageEntry(x) in old(mem) && PageEntry(x) in mem
      ensures mem[PageEntry(x)].allocs == old(mem[PageEntry(x)].allocs) - 1
    {
      ghost var a1 := A();
      SpareIsUsed(a1, x);
      SlabFree(PageEntry(x), x);
      DescriptorBack(a1, A(), x, sizes - {ptr}, held0 - {base});
    }

    /** The descriptor page is empty, too, and leaves its list. */
    method DropPage(page: nat, ghost base: nat, ghost a: Arena, ghost ptr: nat, ghost held0: set<nat>)
      requires Dropped(a, A(), page, base, sizes - {ptr}, held0) && mem[page].allocs == 0
      requires Sound(a, sizes, held0)
      modifies this`pages
      ensures Sound(A(), sizes - {ptr}, held0 - {base, page}) && page in held0 && page != base
    {
      ghost var a1 := A();
      var j :| 0 <= j < |pages| && pages[j] == page;
      pages := pages[..j] + pages[j + 1..];
      PageReturned(a, a1, A(), j, base, sizes, ptr, held0);
    }

    lemma FreeLists()
      requires vmm.Valid()
      ensures |vmm.sp.pmm.free| == ORDERS
    {
      vmm.PoolUnshared();
    }

    /**
      kfree.  A pointer into no slab stops the kernel; a live one is given
      back, and with it the pages `back`: the slab's page with its last block,
      and the descriptor page with its last descriptor.  For a live pointer the
      kernel stops exactly if one of these pages ends up, merged with its free
      siblings, as 1G next to another free 1G.
     */
    method Kfree(ptr: nat) returns (stopped: bool, ghost back: seq<nat>)
      requires Valid() && (ptr in sizes || !InSlab(A(), ptr))
      modifies this, vmm`live, vmm.sp`mem, vmm.sp.pmm
      ensures ptr !in old(sizes) ==> stopped && A() == old(A()) && TheMemory() == old(TheMemory())
      ensures ptr in old(sizes) ==> GivesBack(old(A()), ptr, back)
      ensures ptr in old(sizes) ==> (stopped <==> StopsOn(old(vmm.sp.pmm.free), back))
      ensures !stopped ==> Valid() && sizes == old(sizes) - {ptr}
      ensures !stopped ==> Ledger(old(TheMemory()), TheMemory(), []) && held == old(held) - Elems(back)
      ensures !stopped ==> AllPut(old(vmm.sp.pmm.free), vmm.sp.pmm.free, back)
    {
      var found, o, i := FindLive(ptr);
      stopped, back := true, [];
      if found {
        stopped, back := GiveBack(o, i, ptr);
        sizes := sizes - {ptr};
      }
    }

    /** A live block is backed by a frame of its own page: busy, mapped where the block is, and no page table. */
    lemma LiveBlockMapped(b: nat)
      requires Valid() && b in sizes
      ensures PageEntry(b) in held && PageEntry(b) >= MAP_AREA.base && FrameOf(PageEntry(b)) in vmm.live
      ensures vmm.sp.Valid() && FrameOf(PageEntry(b)).mfn !in vmm.sp.mem
      ensures var w := Translate(vmm.sp.Direct(), vmm.sp.TheRoots(), Kernel, IxOf(b));
              w.Page? && w.order == 0 && w.mfn == FrameOf(PageEntry(b)).mfn && w.rw
    {
      var n := OneExtent(A(), sizes, held, b);
      LiveBlockFits(A(), sizes, held, b, n);
      var f := FrameOf(PageEntry(b));
      assert Behind(vmm.live, PageEntry(b));
      vmm.LiveFrame(f);
      vmm.PoolUnshared();
      InTheMap(vmm.sp.ThePool(), f, f.mfn);
      DirectMap(f.mfn);
      assert InBlock(vmm.sp.Direct(), vmm.sp.TheRoots(), MAP_AREA, f.mfn, EndOf(f), f.mfn, true);
      Unmaps.SameIndices(MAP_AREA, f.mfn, b - PageEntry(b));
    }

    method Serve(request: Request, blocks: seq<nat>) returns (stopped: bool, blocks': seq<nat>, ghost kept: seq<Frame>)
      requires Valid() && Tracks(blocks, sizes) && Servable(request)
      modifies this, vmm`live, vmm`arrays, vmm.sp`mem, vmm.sp`pos, vmm.sp`userRoot, vmm.sp.pmm
      ensures !stopped ==> Valid() && Tracks(blocks', sizes) && Ledger(old(TheMemory()), TheMemory(), kept)
      ensures stopped ==>
        match request
        case Alloc(_) => |old(vmm.sp.pmm.free)| == ORDERS && |old(vmm.sp.pmm.free)[PAGE_ORDER_4K]| <= 8
        case Release(i) => i < |blocks| && exists back :: StopsOn(old(vmm.sp.pmm.free), back)
    {
      stopped, blocks', kept := false, blocks, [];
      LedgerNone(TheMemory());
      match request {
        case Alloc(size) =>
          var r;
          ghost var free := vmm.sp.pmm.free;
          vmm.FirstPage();
          stopped, r, kept := Kmalloc(size);
          if stopped {
            TooFewPages(free, vmm.sp.pmm.free, PagesNeeded(old(A()), OrderFor(size)));
          }
          if !stopped && r > 0 {
            TracksAdd(blocks, old(sizes), r, size);
            blocks' := blocks + [r];
          }
        case Release(i) =>
          if i < |blocks| {
            assert blocks[i] in Elems(blocks);
            ghost var back;
            stopped, back := Kfree(blocks[i]);
            TracksDrop(blocks, old(sizes), i);
            blocks' := blocks[..i] + blocks[i + 1..];
          }
      }
    }

    /**
      Any run of kmalloc and kfree: the blocks held at the end do not
      overlap, and no page is lost.  Once all blocks are freed no page is
      held, so that every page is on the free lists again but for those that
      became frame descriptors and page tables.
     */
    method Run(requests: seq<Request>) returns (stopped: bool, blocks: seq<nat>, ghost kept: seq<Frame>)
      requires Valid() && sizes == map[] && forall n :: 0 <= n < |requests| ==> Servable(requests[n])
      modifies this, vmm`live, vmm`arrays, vmm.sp`mem, vmm.sp`pos, vmm.sp`userRoot, vmm.sp.pmm
      ensures !stopped ==> Valid() && Tracks(blocks, sizes) && NoOverlap(A(), blocks)
      ensures !stopped ==> Ledger(old(TheMemory()), TheMemory(), kept)
      ensures !stopped && blocks == [] ==> held == {} && FreeShrank(old(vmm.sp.pmm.free), vmm.sp.pmm.free, kept)
    {
      stopped, blocks, kept := false, [], [];
      LedgerNone(TheMemory());
      AllReturned(A(), sizes, held);
      for n := 0 to |requests|
        invariant Valid() && Tracks(blocks, sizes) && Ledger(old(TheMemory()), TheMemory(), kept)
      {
        ghost var between, more := TheMemory(), [];
        stopped, blocks, more := Serve(requests[n], blocks);
        if stopped {
          return;
        }
        LedgerTrans(old(TheMemory()), between, TheMemory(), kept, more);
        kept := kept + more;
      }
      BlocksKeptApart(A(), sizes, held, blocks);
      if blocks == [] {
        NothingTracked(blocks, sizes);
        AllReturned(A(), sizes, held);
        AllBack(old(TheMemory()), TheMemory(), kept);
      }
    }
  }

  lemma KeptIsOverhead(before: Memory, after: Memory, kept: seq<Frame>, descriptors: seq<Frame>)
    requires before.pool.tables <= after.pool.tables && after.arrays == before.arrays + FrameSet(descriptors)
    requires Accounted(kept, descriptors, after.pool.tables)
    ensures Overhead(before, after, kept)
  {
    forall g | g in kept ensures g in after.arrays || g.mfn in after.pool.tables {
      assert g in descriptors ==> g in FrameSet(descriptors);
    }
  }

  lemma NothingTracked(blocks: seq<nat>, sizes: map<nat, nat>)
    requires Tracks(blocks, sizes) && blocks == []
    ensures sizes == map[]
  {
    assert sizes.Keys == {};
  }

  lemma AllBack(before: Memory, after: Memory, kept: seq<Frame>)
    requires Spent(before, after, kept) && before.held == {} && after.held == {}
    ensures FreeShrank(before.pool.free, after.pool.free, kept)
  {
    forall p: nat ensures Cover(after.pool.free, p) + Count(kept, p) == Cover(before.pool.free, p) {
      assert HeldAt(after.held, p) == 0 && HeldAt(before.held, p) == 0;
    }
  }

  lemma BlocksKeptApart(a: Arena, sizes: map<nat, nat>, held: set<nat>, blocks: seq<nat>)
    requires Sound(a, sizes, held) && Tracks(blocks, sizes)
    ensures NoOverlap(a, blocks)
  {
    forall i, j, n, n' | 0 <= i < j < |blocks| && Extent(a, blocks[i], n) && Extent(a, blocks[j], n')
      ensures blocks[i] + n <= blocks[j] || blocks[j] + n' <= blocks[i]
    {
      LiveBlocksApart(a, sizes, held, blocks[i], n, blocks[j], n');
    }
  }

  // ---- what the invariant means for callers ----------------------------

  /** The block at `b` belongs to a slab with blocks of `n` bytes. */
  ghost predicate Extent(a: Arena, b: nat, n: nat) {
    exists x :: OwnedBy(a, x, b, n)
  }

  ghost predicate OwnedBy(a: Arena, x: nat, b: nat, n: nat) {
    Owns(a, x, b) && a.mem[x].size == n
  }

  /** Every live block has one extent. */
  lemma OneExtent(a: Arena, sizes: map<nat, nat>, held: set<nat>, b: nat) returns (n: nat)
    requires Sound(a, sizes, held) && b in sizes
    ensures Extent(a, b, n) && forall n' :: Extent(a, b, n') ==> n' == n
  {
    Laws(a, sizes, held);
    assert Live(a, b);
    var x :| Listed(a.lists, x) && x in a.mem && a.mem[x].size > 0 && b in Used(a.mem[x]);
    n := a.mem[x].size;
    assert OwnedBy(a, x, b, n);
    forall n' | Extent(a, b, n') ensures n' == n {
      var y :| OwnedBy(a, y, b, n');
      OneOwner(a, {}, x, y, b);
    }
  }

  /** Live blocks do not overlap. */
  lemma LiveBlocksApart(a: Arena, sizes: map<nat, nat>, held: set<nat>, b: nat, n: nat, b': nat, n': nat)
    requires Sound(a, sizes, held) && Extent(a, b, n) && Extent(a, b', n') && b != b'
    ensures b + n <= b' || b' + n' <= b
  {
    Laws(a, sizes, held);
    var x :| OwnedBy(a, x, b, n);
    var y :| OwnedBy(a, y, b', n');
    if x == y {
      OneSlabApart(a.mem[x], b, b');
    } else {
      TwoSlabsApart(a, x, b, n, y, b', n');
    }
  }

  lemma OneSlabApart(s: MetaSlab, b: nat, b': nat)
    requires s.size > 0 && b in Used(s) && b' in Used(s) && b != b'
    ensures b + s.size <= b' || b' + s.size <= b
  {
    BlocksApart(s.base, s.size, s.len / s.size, b, b');
  }

  lemma TwoSlabsApart(a: Arena, x: nat, b: nat, n: nat, y: nat, b': nat, n': nat)
    requires Inv(a, {}) && OwnedBy(a, x, b, n) && OwnedBy(a, y, b', n') && x != y
    ensures b + n <= b' || b' + n' <= b
  {
    BlockInside(a, x, b);
    BlockInside(a, y, b');
    PagesApart(a.mem[x].base, a.mem[y].base, b, n, b', n');
  }

  lemma PagesApart(p: nat, q: nat, b: nat, n: nat, b': nat, n': nat)
    requires p % 4096 == 0 && q % 4096 == 0 && p != q
    requires p <= b && b + n <= p + 4096 && q <= b' && b' + n' <= q + 4096
    ensures b + n <= b' || b' + n' <= b
  {
  }

  lemma BlockInside(a: Arena, x: nat, b: nat)
    requires Inv(a, {}) && Listed(a.lists, x) && x in a.mem && a.mem[x].size > 0 && b in Used(a.mem[x])
    ensures var s := a.mem[x]; s.base <= b && b + s.size <= s.base + 4096 && s.base % 4096 == 0 && b % s.size == 0
    ensures SlabSize(a.mem[x].size) && a.mem[x].base !in a.pages
  {
    var o :| 0 <= o < |a.lists| && x in a.lists[o];
    assert SlabOk(a, o, x);
    var s := a.mem[x];
    BlocksCount(s.base, s.size, s.len / s.size);
    PageDivides(s.base, o);
    BlocksAligned(s.base, s.size, s.len / s.size, b);
  }

  lemma PageDivides(base: nat, o: nat)
    requires base % 4096 == 0 && o < SLAB_ORDER_MAX
    ensures base % SizeOf(o) == 0 && 4096 / SizeOf(o) * SizeOf(o) == 4096
  {
    assert SizeOf(o) * (4096 / SizeOf(o)) == 4096;
    Divides(base, SizeOf(o), 4096 / SizeOf(o));
  }

  lemma Divides(base: nat, size: nat, c: nat)
    requires base % 4096 == 0 && size * c == 4096
    ensures size > 0 && base % size == 0
  {
    var k := base / 4096;
    assert base == size * (c * k) by {
      assert base == (size * c) * k;
    }
    DivisionUnique(base, size, c * k, 0);
  }

  /**
    A live block is aligned to its size, lies in one held page that holds no
    descriptors, and fits the request: below 4G it is at least as large, and
    from 16 bytes on less than twice as large.
   */
  lemma LiveBlockFits(a: Arena, sizes: map<nat, nat>, held: set<nat>, b: nat, n: nat)
    requires Sound(a, sizes, held) && Extent(a, b, n) && b in sizes
    ensures SlabSize(n) && b % n == 0 && b + n <= PageEntry(b) + 4096
    ensures PageEntry(b) in held && PageEntry(b) !in a.pages
    ensures Fits(sizes[b], n)
    ensures sizes[b] < 0x1_0000_0000 ==> sizes[b] <= n && (sizes[b] >= 16 ==> n < 2 * sizes[b])
  {
    Laws(a, sizes, held);
    var x :| OwnedBy(a, x, b, n);
    BlockInside(a, x, b);
    LiveWithin(a, x, b);
    assert IsBase(a, PageEntry(b));
    assert SlabFits(a.mem[x], sizes);
    if sizes[b] < 0x1_0000_0000 {
      FitsExactly(sizes[b], n);
    }
  }

  lemma FitsExactly(size: nat, n: nat)
    requires Fits(size, n) && size < 0x1_0000_0000
    ensures size <= n && (size >= 16 ==> n < 2 * size)
  {
  }

  /** Once all blocks are freed no slab is left, and no page is held. */
  lemma AllReturned(a: Arena, sizes: map<nat, nat>, held: set<nat>)
    requires Sound(a, sizes, held) && sizes == map[]
    ensures held == {} && forall o :: 0 <= o < |a.lists| ==> a.lists[o] == []
  {
    Laws(a, sizes, held);
    forall x ensures !Listed(a.lists, x) {
      if Listed(a.lists, x) {
        NonEmptySlab(a, x);
      }
    }
    forall o | 0 <= o < |a.lists| ensures a.lists[o] == [] {
      if a.lists[o] != [] {
        assert Listed(a.lists, a.lists[o][0]);
      }
    }
    forall p | p in held ensures false {
      EmptyWithoutSlabs(a, p);
    }
  }

  /** A listed slab has a live block. */
  lemma NonEmptySlab(a: Arena, x: nat)
    requires Inv(a, {}) && Listed(a.lists, x)
    ensures exists b :: Live(a, b)
  {
    var o :| 0 <= o < |a.lists| && x in a.lists[o];
    assert SlabOk(a, o, x);
    UsedCount(a.mem[x]);
    assert Used(a.mem[x]) != {};
    var b :| b in Used(a.mem[x]);
    assert Live(a, b);
  }

  lemma EmptyWithoutSlabs(a: Arena, p: nat)
    requires Inv(a, {}) && p in a.pages && forall x :: !Listed(a.lists, x)
    ensures Empty(a, p)
  {
    assert PageOk(a, p);
    forall x | x in Used(a.mem[p]) ensures false {
      EntryInPage(a, p, x);
      assert InPage(a, x);
    }
    UsedCount(a.mem[p]);
    assert Used(a.mem[p]) == {};
  }
}
