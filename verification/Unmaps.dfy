/**
  Unmapping physical ranges: vunmap_range of arch/x86/pagetables.c, and the
  round trips with vmap_range and _vmap.
 */
module Unmaps {
  import opened Frames
  import opened PageTable
  import opened Address
  import opened PageTables
  import opened Pmm
  import opened Cutting
  import opened Ranges

  // ---- one alias -------------------------------------------------------

  ghost predicate Cleared(m: Mem, roots: Roots, a: Alias, first: nat, page: nat) {
    forall p :: first <= p < page ==> Found(m, roots, a, p) == NotMapped
  }

  /** No address outside the pages [first, page) of the alias changed its translation or lost a right. */
  ghost predicate KeptOutside(m: Mem, r: Roots, m': Mem, r': Roots, a: Alias, first: nat, page: nat) {
    forall s, va: nat :: Canonical(va) && !Inside(a, first, page, s, va) ==>
      SameOrMore(Translate(m, r, s, IxOf(va)), Translate(m', r', s, IxOf(va)))
  }

  /** What has been unmapped when the loop of _vunmap_range stands at `page`, and what is still to come. */
  ghost predicate UnmappedUpTo(m0: Mem, r: Roots, m: Mem, a: Alias, first: nat, page: nat, limit: nat) {
    && first <= page <= limit && Cleared(m, r, a, first, page) && RangeMapped(m, r, a, page, limit, false)
    && KeptOutside(m0, r, m, r, a, first, page)
  }

  /** Clearing the block that starts at `page` leaves the blocks behind it whole. */
  lemma BlockCleared(m0: Mem, r: Roots, m: Mem, m': Mem, a: Alias, first: nat, page: nat, next: nat, limit: nat,
                     order: nat)
    requires UnmappedUpTo(m0, r, m, a, first, page, limit) && page < limit && next == page + PagesOf(order)
    requires Found(m, r, a, page).Page? && order == Found(m, r, a, page).order
    requires AllCanonical(a, first, limit) && limit <= 0x10_0000_0000_0000
    requires OthersKept(m, r, m', r, a.space, IxOf(VaOf(a, page)), DepthOf(order))
    requires PageCleared(m', r, a.space, IxOf(VaOf(a, page)), DepthOf(order))
    ensures UnmappedUpTo(m0, r, m', a, first, next, limit)
  {
    var to := DepthOf(order);
    assert InBlock(m, r, a, page, limit, page, false);
    forall p | first <= p < limit
      ensures page <= p < next ==> Found(m', r, a, p) == NotMapped
      ensures !(page <= p < next) ==> SameOrMore(Found(m, r, a, p), Found(m', r, a, p))
    {
      PageAtVa(a, p);
      ChunkAddresses(a, page, to, VaOf(a, p));
    }
    forall p | next <= p < limit ensures InBlock(m', r, a, next, limit, p, false) {
      LaterBlock(m, r, m', a, page, next, limit, p);
    }
    forall s, va: nat | Canonical(va) && !Inside(a, first, next, s, va)
      ensures SameOrMore(Translate(m0, r, s, IxOf(va)), Translate(m', r, s, IxOf(va)))
    {
      BesideChunk(m, r, m', r, a, page, to, s, va);
      assert SameOrMore(Translate(m0, r, s, IxOf(va)), Translate(m, r, s, IxOf(va)));
    }
  }

  lemma LaterBlock(m: Mem, r: Roots, m': Mem, a: Alias, page: nat, next: nat, limit: nat, p: nat)
    requires page < next <= p < limit && RangeMapped(m, r, a, page, limit, false)
    requires Found(m, r, a, page).Page? && next == page + PagesOf(Found(m, r, a, page).order)
    requires forall q :: next <= q < limit ==> SameOrMore(Found(m, r, a, q), Found(m', r, a, q))
    ensures InBlock(m', r, a, next, limit, p, false)
  {
    assert InBlock(m, r, a, page, limit, page, false) && InBlock(m, r, a, page, limit, p, false);
    var w, w' := Found(m, r, a, p), Found(m', r, a, p);
    assert SameFrame(Found(m, r, a, w.mfn), w);
    assert w.mfn < next ==> SameFrame(Found(m, r, a, w.mfn), Found(m, r, a, page));
    assert SameFrame(w', w);
    forall q | w.mfn <= q < w.mfn + PagesOf(w.order) ensures SameFrame(Found(m', r, a, q), w') {
      assert SameOrMore(Found(m, r, a, q), Found(m', r, a, q));
    }
  }

  /** An address within a page has the indices of the page. */
  lemma SameIndices(a: Alias, page: nat, off: nat)
    requires off < 4096 && Canonical(VaOf(a, page))
    ensures IxOf(VaOf(a, page) + off) == IxOf(VaOf(a, page)) && Canonical(VaOf(a, page) + off)
  {
    PageOnBoundary(a, page);
    CanonicalThroughout(VaOf(a, page), 3, VaOf(a, page) + off);
    SamePage(VaOf(a, page) + off, VaOf(a, page), 3);
    AlignedPage(VaOf(a, page) + off, VaOf(a, page), 3);
    FullPrefix(IxOf(VaOf(a, page) + off));
    FullPrefix(IxOf(VaOf(a, page)));
  }

  lemma PageOnBoundary(a: Alias, page: nat)
    ensures VaOf(a, page) % 4096 == 0 && VaOf(a, page) < 0x1_0000_0000_0000_0000
  {
    var k := a.base / 4096;
    assert a.base + 4096 * page == 4096 * (k + page);
  }

  lemma FullPrefix(ix: Path)
    ensures ix[..3 + 1] == ix
  {
  }

  /** At the head of the loop the address lies in the first page of a block, away from what is reserved. */
  lemma ChunkReady(m0: Mem, r: Roots, m: Mem, a: Alias, cur: nat, off: nat, page: nat, first: nat, limit: nat,
                   windowIx: Path, entryIx: Path, f: Fixed)
    requires page < limit && cur == VaOf(a, page) + off && off < 4096
    requires UnmappedUpTo(m0, r, m, a, first, page, limit) && AllCanonical(a, first, limit)
    requires Places(f, windowIx, entryIx) && Off(f, a, first, limit) && limit <= 0x10_0000_0000_0000
    ensures IxOf(cur) == IxOf(VaOf(a, page)) && (a.space == Kernel ==> IxOf(cur) != windowIx && IxOf(cur) != entryIx)
    ensures Found(m, r, a, page).Page? && Found(m, r, a, page).mfn == page
  {
    SameIndices(a, page, off);
    PageUnreserved(a, page, first, limit, windowIx, entryIx, f);
    assert InBlock(m, r, a, page, limit, page, false);
  }

  lemma PageUnreserved(a: Alias, page: nat, first: nat, limit: nat, windowIx: Path, entryIx: Path, f: Fixed)
    requires first <= page < limit <= 0x10_0000_0000_0000 && Canonical(VaOf(a, page))
    requires Places(f, windowIx, entryIx) && Off(f, a, first, limit)
    ensures a.space == Kernel ==> IxOf(VaOf(a, page)) != windowIx && IxOf(VaOf(a, page)) != entryIx
  {
    PageOnBoundary(a, page);
    BesideFixed(f, a, windowIx, entryIx, first, page, 3, limit);
    FullPrefix(windowIx);
    FullPrefix(entryIx);
    FullPrefix(IxOf(VaOf(a, page)));
  }

  /** _vunmap_range_chunk at the page `page`. */
  method VunmapChunk(sp: AddressSpaces, a: Alias, cur: nat, ghost off: nat, ghost page: nat, ghost first: nat,
                     ghost limit: nat, ghost m0: Mem, ghost f: Fixed)
    returns (err: Errno, order: nat, ghost next: nat)
    requires sp.Valid() && page < limit && cur == VaOf(a, page) + off && off < 4096
    requires UnmappedUpTo(m0, sp.TheRoots(), sp.Direct(), a, first, page, limit)
    requires Found(sp.Direct(), sp.TheRoots(), a, page).Page?
    requires AllCanonical(a, first, limit) && Places(f, sp.windowIx, sp.entryIx) && Off(f, a, first, limit)
    requires limit <= 0x10_0000_0000_0000
    modifies sp`mem
    ensures sp.Valid() && err == if sp.valid(page) then ESUCCESS else ENOENT
    ensures order == old(Found(sp.Direct(), sp.TheRoots(), a, page).order) && next == page + PagesOf(order)
    ensures UnmappedUpTo(m0, sp.TheRoots(), sp.Direct(), a, first, next, limit)
  {
    ghost var m, r := sp.Direct(), sp.TheRoots();
    ChunkReady(m0, r, m, a, cur, off, page, first, limit, sp.windowIx, sp.entryIx, f);
    var mfn;
    err, mfn, order := sp.Vunmap(a.space, cur);
    next := page + PagesOf(order);
    BlockCleared(m0, r, m, sp.Direct(), a, first, page, next, limit, order);
    if !sp.valid(mfn) {
      err := ENOENT;
    }
  }

  /** Every page of the range is mapped to a frame the memory map knows. */
  ghost predicate AllMemory(m: Mem, r: Roots, a: Alias, first: nat, page: nat, valid: nat -> bool) {
    forall p :: first <= p < page ==> Found(m, r, a, p).Page? && valid(Found(m, r, a, p).mfn)
  }

  /** The pages of the block at `page` are all memory, or none is. */
  lemma BlockMemory(m0: Mem, r: Roots, m: Mem, a: Alias, first: nat, page: nat, next: nat, limit: nat,
                    valid: nat -> bool)
    requires UnmappedUpTo(m0, r, m, a, first, page, limit) && page < limit <= 0x10_0000_0000_0000
    requires AllCanonical(a, first, limit)
    requires Found(m, r, a, page).Page? && next == page + PagesOf(Found(m, r, a, page).order)
    requires AllMemory(m0, r, a, first, page, valid)
    ensures valid(page) ==> AllMemory(m0, r, a, first, next, valid)
    ensures !valid(page) ==> !AllMemory(m0, r, a, first, limit, valid)
  {
    BlockFrames(m0, r, m, a, first, page, next, limit);
    assert Found(m0, r, a, page).mfn == page;
  }

  lemma BlockFrames(m0: Mem, r: Roots, m: Mem, a: Alias, first: nat, page: nat, next: nat, limit: nat)
    requires UnmappedUpTo(m0, r, m, a, first, page, limit) && page < limit <= 0x10_0000_0000_0000
    requires AllCanonical(a, first, limit)
    requires Found(m, r, a, page).Page? && next == page + PagesOf(Found(m, r, a, page).order)
    ensures page < next && forall q :: page <= q < next ==> Found(m0, r, a, q).Page? && Found(m0, r, a, q).mfn == page
  {
    assert InBlock(m, r, a, page, limit, page, false);
    forall q | page <= q < next ensures Found(m0, r, a, q).Page? && Found(m0, r, a, q).mfn == page {
      assert SameFrame(Found(m, r, a, q), Found(m, r, a, page));
      assert Canonical(VaOf(a, q));
      PageAtVa(a, q);
      assert SameOrMore(Found(m0, r, a, q), Found(m, r, a, q));
    }
  }

  lemma KeptLater(m0: Mem, r: Roots, m: Mem, a: Alias, first: nat, page: nat, limit: nat)
    requires KeptOutside(m0, r, m, r, a, first, page) && page <= limit
    ensures KeptOutside(m0, r, m, r, a, first, limit)
  {
  }

  /** The end of the range wraps around and its start does not. */
  predicate Crosses(a: Alias, first: nat, limit: nat) {
    a.base + 4096 * first < 0x1_0000_0000_0000_0000 <= a.base + 4096 * limit
  }

  /** The addresses of a range that does not cross are consecutive. */
  lemma InOrder(a: Alias, first: nat, p: nat, limit: nat)
    requires first <= p <= limit < 0x10_0000_0000_0000 && !Crosses(a, first, limit)
    ensures VaOf(a, p) == VaOf(a, first) + 4096 * (p - first)
  {
  }

  /** A range comes to its end in order exactly if it does not cross. */
  lemma OutOfOrder(a: Alias, first: nat, limit: nat, off: nat)
    requires first < limit < 0x10_0000_0000_0000 && off < 4096
    ensures VaOf(a, limit) <= VaOf(a, first) + off <==> Crosses(a, first, limit)
  {
    PageOnBoundary(a, first);
    PageOnBoundary(a, limit);
    if !Crosses(a, first, limit) {
      InOrder(a, first, limit, limit);
    }
  }

  /**
    _vunmap_range.  If the addresses of the range do not cross the end of the
    address space, it succeeds exactly if every block is memory, and then
    removes exactly the mappings of the range; at a block of device memory it
    gives up with ENOENT, with that block already unmapped.  If they do, it
    finds the end below the start, unmaps nothing and succeeds.
   */
  method UnmapAlias(sp: AddressSpaces, start: nat, end: nat, a: Alias, ghost off: nat, ghost first: nat,
                    ghost limit: nat, ghost f: Fixed)
    returns (err: Errno)
    requires sp.Valid() && first < limit < 0x10_0000_0000_0000 && end == VaOf(a, limit)
    requires start == VaOf(a, first) + off && off < 4096
    requires MappedTo(sp.Direct(), sp.TheRoots(), a, first, limit, false)
    requires Places(f, sp.windowIx, sp.entryIx) && Off(f, a, first, limit)
    modifies sp`mem
    ensures sp.Valid()
    ensures Crosses(a, first, limit) ==> err == ESUCCESS && sp.Direct() == old(sp.Direct())
    ensures !Crosses(a, first, limit) ==>
      err == if AllMemory(old(sp.Direct()), sp.TheRoots(), a, first, limit, sp.valid) then ESUCCESS else ENOENT
    ensures !Crosses(a, first, limit) && err == ESUCCESS ==> Cleared(sp.Direct(), sp.TheRoots(), a, first, limit)
    ensures !Crosses(a, first, limit) ==>
      KeptOutside(old(sp.Direct()), sp.TheRoots(), sp.Direct(), sp.TheRoots(), a, first, limit)
  {
    OutOfOrder(a, first, limit, off);
    if start < end {
      err := UnmapLoop(sp, start, end, a, off, first, limit, f);
    } else {
      err := ESUCCESS;
    }
  }

  /** Its loop, once it is entered. */
  method UnmapLoop(sp: AddressSpaces, start: nat, end: nat, a: Alias, ghost off: nat, ghost first: nat,
                   ghost limit: nat, ghost f: Fixed)
    returns (err: Errno)
    requires sp.Valid() && first < limit < 0x10_0000_0000_0000 && end == VaOf(a, limit)
    requires start == VaOf(a, first) + off && off < 4096 && !Crosses(a, first, limit)
    requires MappedTo(sp.Direct(), sp.TheRoots(), a, first, limit, false)
    requires Places(f, sp.windowIx, sp.entryIx) && Off(f, a, first, limit)
    modifies sp`mem
    ensures sp.Valid()
    ensures err == if AllMemory(old(sp.Direct()), sp.TheRoots(), a, first, limit, sp.valid) then ESUCCESS else ENOENT
    ensures err == ESUCCESS ==> Cleared(sp.Direct(), sp.TheRoots(), a, first, limit)
    ensures KeptOutside(old(sp.Direct()), sp.TheRoots(), sp.Direct(), sp.TheRoots(), a, first, limit)
  {
    var cur := start;
    ghost var m0, r := sp.Direct(), sp.TheRoots();
    ghost var page: nat := first;
    InOrder(a, first, limit, limit);
    while cur < end
      invariant page <= limit && cur == VaOf(a, page) + off
      invariant sp.Valid() && UnmappedUpTo(m0, r, sp.Direct(), a, first, page, limit)
      invariant AllMemory(m0, r, a, first, page, sp.valid)
      decreases limit - page
    {
      ghost var next;
      var size;
      NotAtEnd(a, first, page, limit, off);
      err, size, next := UnmapNext(sp, a, cur, off, page, first, limit, m0, f);
      if err != ESUCCESS {
        return;
      }
      cur, page := cur + size, next;
    }
    NotAtEnd(a, first, page, limit, off);
    err := ESUCCESS;
  }

  lemma NotAtEnd(a: Alias, first: nat, page: nat, limit: nat, off: nat)
    requires first <= page <= limit < 0x10_0000_0000_0000 && !Crosses(a, first, limit) && off < 4096
    ensures VaOf(a, page) + off < VaOf(a, limit) <==> page < limit
  {
    InOrder(a, first, page, limit);
    InOrder(a, first, limit, limit);
  }

  /** One round of the loop. */
  method UnmapNext(sp: AddressSpaces, a: Alias, cur: nat, ghost off: nat, ghost page: nat, ghost first: nat,
                   ghost limit: nat, ghost m0: Mem, ghost f: Fixed)
    returns (err: Errno, size: nat, ghost next: nat)
    requires sp.Valid() && page < limit < 0x10_0000_0000_0000 && cur == VaOf(a, page) + off && off < 4096
    requires !Crosses(a, first, limit) && UnmappedUpTo(m0, sp.TheRoots(), sp.Direct(), a, first, page, limit)
    requires AllMemory(m0, sp.TheRoots(), a, first, page, sp.valid) && AllCanonical(a, first, limit)
    requires Places(f, sp.windowIx, sp.entryIx) && Off(f, a, first, limit)
    modifies sp`mem
    ensures sp.Valid() && (err == ESUCCESS || err == ENOENT)
    ensures err == ESUCCESS ==>
      && page < next <= limit && cur + size == VaOf(a, next) + off
      && UnmappedUpTo(m0, sp.TheRoots(), sp.Direct(), a, first, next, limit)
      && AllMemory(m0, sp.TheRoots(), a, first, next, sp.valid)
    ensures err != ESUCCESS ==>
      && !AllMemory(m0, sp.TheRoots(), a, first, limit, sp.valid)
      && KeptOutside(m0, sp.TheRoots(), sp.Direct(), sp.TheRoots(), a, first, limit)
  {
    var order;
    ghost var m, r := sp.Direct(), sp.TheRoots();
    ChunkReady(m0, r, m, a, cur, off, page, first, limit, sp.windowIx, sp.entryIx, f);
    err, order, next := VunmapChunk(sp, a, cur, off, page, first, limit, m0, f);
    size := SizeAt(DepthOf(order));
    BlockMemory(m0, r, m, a, first, page, next, limit, sp.valid);
    KeptLater(m0, r, sp.Direct(), a, first, next, limit);
    NextAddress(a, first, page, next, limit, order);
  }

  lemma NextAddress(a: Alias, first: nat, page: nat, next: nat, limit: nat, order: nat)
    requires first <= page && next == page + PagesOf(order) <= limit < 0x10_0000_0000_0000
    requires !Crosses(a, first, limit)
    ensures page < next && VaOf(a, page) + SizeAt(DepthOf(order)) == VaOf(a, next)
  {
    InOrder(a, first, page, limit);
    InOrder(a, first, next, limit);
  }

  // ---- all aliases -----------------------------------------------------

  /** What vunmap_range leaves of the range at an alias it has gone through. */
  ghost predicate LeftAt(m0: Mem, r: Roots, m: Mem, a: Alias, first: nat, limit: nat) {
    if Crosses(a, first, limit) then MappedTo(m, r, a, first, limit, false) && FramesKept(m0, r, m, r, a, first, limit)
    else Cleared(m, r, a, first, limit)
  }

  /** The state of vunmap_range before it turns to target `j`. */
  ghost predicate UnmapProgress(m0: Mem, r: Roots, m: Mem, targets: seq<Target>, first: nat, limit: nat, j: nat) {
    && (forall i :: 0 <= i < |targets| && i < j ==> LeftAt(m0, r, m, targets[i].alias, first, limit))
    && (forall i :: 0 <= i < |targets| && j <= i ==> MappedTo(m, r, targets[i].alias, first, limit, false))
    && (forall i :: 0 <= i < |targets| && j <= i ==> FramesKept(m0, r, m, r, targets[i].alias, first, limit))
    && OthersSame(m0, r, m, r, targets, first, limit)
  }

  /** Another alias is untouched by what is done inside one. */
  lemma OtherAlias(m: Mem, r: Roots, m': Mem, a: Alias, b: Alias, first: nat, limit: nat)
    requires KeptOutside(m, r, m', r, b, first, limit) && limit <= 0x10_0000_0000_0000
    requires AliasesApart(a, b, first, limit) || AliasesApart(b, a, first, limit)
    requires AllCanonical(a, first, limit)
    ensures FramesKept(m, r, m', r, a, first, limit)
  {
    forall p | first <= p < limit ensures SameOrMore(Found(m, r, a, p), Found(m', r, a, p)) {
      ApartPages(a, b, first, limit, p);
    }
  }

  lemma OneUnmapped(m0: Mem, r: Roots, m: Mem, m': Mem, targets: seq<Target>, first: nat, limit: nat, j: nat)
    requires UnmapProgress(m0, r, m, targets, first, limit, j) && j < |targets| && Apart(targets, first, limit)
    requires limit <= 0x10_0000_0000_0000
    requires forall i :: 0 <= i < |targets| ==> AllCanonical(targets[i].alias, first, limit)
    requires KeptOutside(m, r, m', r, targets[j].alias, first, limit)
    requires LeftAt(m0, r, m', targets[j].alias, first, limit)
    ensures UnmapProgress(m0, r, m', targets, first, limit, j + 1)
  {
    forall i | 0 <= i < |targets| && i != j ensures FramesKept(m, r, m', r, targets[i].alias, first, limit) {
      assert i < j ==> AliasesApart(targets[i].alias, targets[j].alias, first, limit);
      assert j < i ==> AliasesApart(targets[j].alias, targets[i].alias, first, limit);
      OtherAlias(m, r, m', targets[i].alias, targets[j].alias, first, limit);
    }
    forall i | 0 <= i < |targets| && j + 1 <= i
      ensures MappedTo(m', r, targets[i].alias, first, limit, false)
      ensures FramesKept(m0, r, m', r, targets[i].alias, first, limit)
    {
      RangeStays(m, r, m', r, targets[i].alias, first, limit, false);
      FramesTwice(m0, m, m', r, targets[i].alias, first, limit);
    }
    forall i | 0 <= i < |targets| && i < j ensures LeftAt(m0, r, m', targets[i].alias, first, limit) {
      LeftStays(m0, m, m', r, targets[i].alias, first, limit);
    }
    OthersTwice(m0, r, m, m', targets, first, limit, j);
  }

  lemma LeftStays(m0: Mem, m: Mem, m': Mem, r: Roots, a: Alias, first: nat, limit: nat)
    requires LeftAt(m0, r, m, a, first, limit) && FramesKept(m, r, m', r, a, first, limit)
    ensures LeftAt(m0, r, m', a, first, limit)
  {
    if Crosses(a, first, limit) {
      RangeStays(m, r, m', r, a, first, limit, false);
      FramesTwice(m0, m, m', r, a, first, limit);
    } else {
      ClearedStays(m, m', r, a, first, limit);
    }
  }

  /** A target the loop does not enter is left as it is. */
  lemma NothingUnmapped(m0: Mem, r: Roots, m: Mem, targets: seq<Target>, first: nat, limit: nat, j: nat)
    requires UnmapProgress(m0, r, m, targets, first, limit, j) && j < |targets|
    requires Crosses(targets[j].alias, first, limit)
    ensures UnmapProgress(m0, r, m, targets, first, limit, j + 1)
  {
    assert MappedTo(m, r, targets[j].alias, first, limit, false);
  }

  lemma FramesTwice(m0: Mem, m: Mem, m': Mem, r: Roots, a: Alias, first: nat, limit: nat)
    requires FramesKept(m0, r, m, r, a, first, limit) && FramesKept(m, r, m', r, a, first, limit)
    ensures FramesKept(m0, r, m', r, a, first, limit)
  {
    forall p | first <= p < limit ensures SameOrMore(Found(m0, r, a, p), Found(m', r, a, p)) {
      assert SameOrMore(Found(m0, r, a, p), Found(m, r, a, p));
    }
  }

  lemma ClearedStays(m: Mem, m': Mem, r: Roots, a: Alias, first: nat, limit: nat)
    requires Cleared(m, r, a, first, limit) && FramesKept(m, r, m', r, a, first, limit)
    ensures Cleared(m', r, a, first, limit)
  {
    forall p | first <= p < limit ensures Found(m', r, a, p) == NotMapped {
      assert SameOrMore(Found(m, r, a, p), Found(m', r, a, p));
    }
  }

  lemma OthersTwice(m0: Mem, r: Roots, m: Mem, m': Mem, targets: seq<Target>, first: nat, limit: nat, j: nat)
    requires j < |targets| && OthersSame(m0, r, m, r, targets, first, limit)
    requires KeptOutside(m, r, m', r, targets[j].alias, first, limit)
    ensures OthersSame(m0, r, m', r, targets, first, limit)
  {
    forall s, va: nat | Canonical(va) && !InsideAny(targets, first, limit, s, va)
      ensures SameOrMore(Translate(m0, r, s, IxOf(va)), Translate(m', r, s, IxOf(va)))
    {
      assert !Inside(targets[j].alias, first, limit, s, va);
      assert SameOrMore(Translate(m0, r, s, IxOf(va)), Translate(m, r, s, IxOf(va)));
    }
  }

  /** What is memory at the start is memory when its alias is reached. */
  lemma MemoryStays(m0: Mem, r: Roots, m: Mem, a: Alias, first: nat, limit: nat, valid: nat -> bool)
    requires FramesKept(m0, r, m, r, a, first, limit)
    ensures AllMemory(m, r, a, first, limit, valid) <==> AllMemory(m0, r, a, first, limit, valid)
  {
  }

  /** Every target maps the range, off the window, and no two overlap. */
  ghost predicate Unmappable(m: Mem, r: Roots, targets: seq<Target>, f: Fixed, first: nat, limit: nat) {
    && Apart(targets, first, limit)
    && forall i :: 0 <= i < |targets| ==> TargetMapped(m, r, targets[i], f, first, limit)
  }

  ghost predicate TargetMapped(m: Mem, r: Roots, t: Target, f: Fixed, first: nat, limit: nat) {
    MappedTo(m, r, t.alias, first, limit, false) && Off(f, t.alias, first, limit)
  }

  /** Nothing but memory is unmapped at the alias. */
  ghost predicate MemoryOf(m: Mem, r: Roots, a: Alias, first: nat, limit: nat, valid: nat -> bool) {
    Crosses(a, first, limit) || AllMemory(m, r, a, first, limit, valid)
  }

  ghost predicate MemoryAt(m: Mem, r: Roots, targets: seq<Target>, first: nat, limit: nat, valid: nat -> bool, n: nat) {
    forall i :: 0 <= i < n && i < |targets| ==> MemoryOf(m, r, targets[i].alias, first, limit, valid)
  }

  /** One target of vunmap_range. */
  method UnmapOne(sp: AddressSpaces, targets: seq<Target>, j: nat, paddr: nat, end: nat, ghost f: Fixed, ghost m0: Mem)
    returns (err: Errno)
    requires sp.Valid() && Places(f, sp.windowIx, sp.entryIx) && j < |targets|
    requires paddr < end < 0x1_0000_0000_0000_0000 && end % 4096 == 0
    requires Unmappable(m0, sp.TheRoots(), targets, f, paddr / 4096, end / 4096)
    requires UnmapProgress(m0, sp.TheRoots(), sp.Direct(), targets, paddr / 4096, end / 4096, j)
    modifies sp`mem
    ensures sp.Valid()
    ensures err == if MemoryOf(m0, sp.TheRoots(), targets[j].alias, paddr / 4096, end / 4096, sp.valid)
                   then ESUCCESS else ENOENT
    ensures err == ESUCCESS ==>
      UnmapProgress(m0, sp.TheRoots(), sp.Direct(), targets, paddr / 4096, end / 4096, j + 1)
    ensures OthersSame(m0, sp.TheRoots(), sp.Direct(), sp.TheRoots(), targets, paddr / 4096, end / 4096)
  {
    var a := targets[j].alias;
    ghost var m, r, first, limit := sp.Direct(), sp.TheRoots(), paddr / 4096, end / 4096;
    assert TargetMapped(m0, r, targets[j], f, first, limit);
    MemoryStays(m0, r, m, a, first, limit, sp.valid);
    RangeAddresses(a, paddr, end);
    err := UnmapAlias(sp, Virt(a, paddr), Virt(a, end), a, paddr % 4096, first, limit, f);
    if Crosses(a, first, limit) {
      NothingUnmapped(m0, r, m, targets, first, limit, j);
    } else {
      OthersTwice(m0, r, m, sp.Direct(), targets, first, limit, j);
      if err == ESUCCESS {
        TargetsCanonical(m0, r, targets, f, first, limit);
        OneUnmapped(m0, r, m, sp.Direct(), targets, first, limit, j);
      }
    }
  }

  /** _paddr_to_virt */
  function Virt(a: Alias, paddr: nat): nat {
    (a.base + paddr) % 0x1_0000_0000_0000_0000
  }

  lemma TargetsCanonical(m: Mem, r: Roots, targets: seq<Target>, f: Fixed, first: nat, limit: nat)
    requires Unmappable(m, r, targets, f, first, limit)
    ensures forall i :: 0 <= i < |targets| ==> AllCanonical(targets[i].alias, first, limit)
  {
    forall i | 0 <= i < |targets| ensures AllCanonical(targets[i].alias, first, limit) {
      assert TargetMapped(m, r, targets[i], f, first, limit);
    }
  }

  lemma RangeAddresses(a: Alias, paddr: nat, end: nat)
    requires paddr < end < 0x1_0000_0000_0000_0000 && end % 4096 == 0
    ensures paddr / 4096 < end / 4096 < 0x10_0000_0000_0000 && Virt(a, end) == VaOf(a, end / 4096)
    ensures Virt(a, paddr) == VaOf(a, paddr / 4096) + paddr % 4096
  {
    var p := paddr / 4096;
    PageOnBoundary(a, p);
    assert a.base + paddr == a.base + 4096 * p + paddr % 4096;
  }

  lemma EndInWord(paddr: nat, size: nat)
    ensures RangeEnd(paddr, size) < 0x1_0000_0000_0000_0000 && RangeEnd(paddr, size) % 4096 == 0
  {
  }

  lemma StartUnmap(m: Mem, r: Roots, targets: seq<Target>, f: Fixed, first: nat, limit: nat)
    requires Unmappable(m, r, targets, f, first, limit)
    ensures UnmapProgress(m, r, m, targets, first, limit, 0)
  {
    forall i | 0 <= i < |targets|
      ensures MappedTo(m, r, targets[i].alias, first, limit, false)
      ensures FramesKept(m, r, m, r, targets[i].alias, first, limit)
    {
      assert TargetMapped(m, r, targets[i], f, first, limit);
      forall p | first <= p < limit
        ensures SameOrMore(Found(m, r, targets[i].alias, p), Found(m, r, targets[i].alias, p))
      {
        assert InBlock(m, r, targets[i].alias, first, limit, p, false);
      }
    }
  }

  /**
    vunmap_range on a range that is mapped at all targets, block by block.
    A target at which the addresses of the range cross the end of the address
    space is passed over.  Success means that the others map memory only, and
    then nothing of the range is mapped there any more; whatever happens, no
    address outside the range at the targets changes.
   */
  method VunmapRange(sp: AddressSpaces, paddr: nat, size: nat, targets: seq<Target>, ghost f: Fixed)
    returns (err: Errno)
    requires sp.Valid() && Places(f, sp.windowIx, sp.entryIx)
    requires paddr < RangeEnd(paddr, size) ==>
      Unmappable(sp.Direct(), sp.TheRoots(), targets, f, paddr / 4096, RangeEnd(paddr, size) / 4096)
    modifies sp`mem
    ensures sp.Valid()
    ensures targets == [] || RangeEnd(paddr, size) <= paddr ==> err == EINVAL && sp.Direct() == old(sp.Direct())
    ensures targets != [] && paddr < RangeEnd(paddr, size) ==>
      err == if MemoryAt(old(sp.Direct()), sp.TheRoots(), targets, paddr / 4096, RangeEnd(paddr, size) / 4096, sp.valid,
                         |targets|)
             then ESUCCESS else ENOENT
    ensures err == ESUCCESS ==> forall i :: 0 <= i < |targets| ==>
      LeftAt(old(sp.Direct()), sp.TheRoots(), sp.Direct(), targets[i].alias, paddr / 4096, RangeEnd(paddr, size) / 4096)
    ensures err != EINVAL ==>
      OthersSame(old(sp.Direct()), sp.TheRoots(), sp.Direct(), sp.TheRoots(), targets, paddr / 4096,
                 RangeEnd(paddr, size) / 4096)
  {
    var end := RangeEnd(paddr, size);
    if targets == [] || end <= paddr {
      return EINVAL;
    }
    ghost var m0, r, first, limit := sp.Direct(), sp.TheRoots(), paddr / 4096, end / 4096;
    EndInWord(paddr, size);
    StartUnmap(m0, r, targets, f, first, limit);
    for j := 0 to |targets|
      invariant sp.Valid() && UnmapProgress(m0, r, sp.Direct(), targets, first, limit, j)
      invariant MemoryAt(m0, r, targets, first, limit, sp.valid, j)
    {
      err := UnmapOne(sp, targets, j, paddr, end, f, m0);
      if err != ESUCCESS {
        return;
      }
    }
    err := ESUCCESS;
  }

  // ---- round trips -----------------------------------------------------

  lemma OthersSameTwice(m0: Mem, r0: Roots, m: Mem, r: Roots, m': Mem, r': Roots, targets: seq<Target>, first: nat,
                        limit: nat)
    requires OthersSame(m0, r0, m, r, targets, first, limit) && OthersSame(m, r, m', r', targets, first, limit)
    ensures OthersSame(m0, r0, m', r', targets, first, limit)
  {
    forall s, va: nat | Canonical(va) && !InsideAny(targets, first, limit, s, va)
      ensures SameOrMore(Translate(m0, r0, s, IxOf(va)), Translate(m', r', s, IxOf(va)))
    {
      assert SameOrMore(Translate(m0, r0, s, IxOf(va)), Translate(m, r, s, IxOf(va)));
    }
  }

  /** A range just mapped can be unmapped, and is memory if its pages are. */
  lemma MappedIsUnmappable(m0: Mem, r0: Roots, m: Mem, r: Roots, targets: seq<Target>, plan: seq<Cut>, f: Fixed,
                           paddr: nat, size: nat, valid: nat -> bool)
    requires PlanFor(plan, paddr, size) && RangeDone(m0, r0, m, r, targets, plan)
    requires Ready(m0, r0, targets, plan, f, RangeEnd(paddr, size) / 4096)
    requires forall p :: paddr / 4096 <= p < RangeEnd(paddr, size) / 4096 ==> valid(p)
    ensures Unmappable(m, r, targets, f, paddr / 4096, RangeEnd(paddr, size) / 4096)
    ensures MemoryAt(m, r, targets, paddr / 4096, RangeEnd(paddr, size) / 4096, valid, |targets|)
  {
    var first, limit := paddr / 4096, RangeEnd(paddr, size) / 4096;
    RangeIsMapped(m0, r0, m, r, targets, plan, paddr, size);
    forall i | 0 <= i < |targets|
      ensures TargetMapped(m, r, targets[i], f, first, limit)
      ensures AllMemory(m, r, targets[i].alias, first, limit, valid)
    {
      BlocksAreMemory(m, r, targets[i].alias, first, limit, targets[i].leaf.rw, valid);
    }
  }

  lemma BlocksAreMemory(m: Mem, r: Roots, a: Alias, first: nat, limit: nat, rw: bool, valid: nat -> bool)
    requires MappedTo(m, r, a, first, limit, rw) && forall p :: first <= p < limit ==> valid(p)
    ensures MappedTo(m, r, a, first, limit, false) && AllMemory(m, r, a, first, limit, valid)
  {
    forall p | first <= p < limit
      ensures InBlock(m, r, a, first, limit, p, false) && Found(m, r, a, p).Page? && valid(Found(m, r, a, p).mfn)
    {
      assert InBlock(m, r, a, first, limit, p, rw);
    }
  }

  /** The range is unmapped exactly if it does not cross. */
  ghost predicate UndoneAt(m: Mem, r: Roots, a: Alias, first: nat, limit: nat) {
    if Crosses(a, first, limit) then MappedTo(m, r, a, first, limit, false) else Cleared(m, r, a, first, limit)
  }

  /**
    vmap_range and then vunmap_range with the same arguments, on memory: if
    the first succeeds so does the second.  At a target at which the addresses
    of the range do not cross the end of the address space, nothing in the
    range is mapped any more; where they do, all of it still is.  Every other
    address translates as before the two calls.
   */
  method MapThenUnmapRange(sp: AddressSpaces, paddr: nat, size: nat, targets: seq<Target>, ghost f: Fixed,
                           ghost plan: seq<Cut>)
    returns (stopped: bool, err: Errno, err': Errno)
    requires sp.Valid() && Places(f, sp.windowIx, sp.entryIx)
    requires paddr < RangeEnd(paddr, size) <= 0x10_0000_0000_0000 && PlanFor(plan, paddr, size)
    requires Ready(sp.Direct(), sp.TheRoots(), targets, plan, f, RangeEnd(paddr, size) / 4096)
    requires forall p :: paddr / 4096 <= p < RangeEnd(paddr, size) / 4096 ==> sp.valid(p)
    modifies sp`mem, sp`pos, sp`userRoot, sp.pmm
    ensures stopped ==> Unpaid(old(sp.ThePool()), old(RangeCost(sp.Direct(), sp.TheRoots(), targets, plan)))
    ensures !stopped && targets != [] ==> err == if Mappable(targets, plan) then ESUCCESS else EFAULT
    ensures !stopped && err == ESUCCESS ==> err' == ESUCCESS && sp.Valid()
    ensures !stopped && err == ESUCCESS ==> forall i :: 0 <= i < |targets| ==>
      UndoneAt(sp.Direct(), sp.TheRoots(), targets[i].alias, paddr / 4096, RangeEnd(paddr, size) / 4096)
    ensures !stopped && err == ESUCCESS ==>
      OthersSame(old(sp.Direct()), old(sp.TheRoots()), sp.Direct(), sp.TheRoots(), targets, paddr / 4096,
                 RangeEnd(paddr, size) / 4096)
  {
    ghost var taken, chunk, at;
    ghost var m0, r0 := sp.Direct(), sp.TheRoots();
    stopped, err, taken, chunk, at := VmapRange(sp, paddr, size, targets, f, plan);
    err' := EINVAL;
    if stopped {
      return;
    }
    if err != ESUCCESS {
      return;
    }
    err' := UnmapWhatIsMapped(sp, paddr, size, targets, f, plan, m0, r0);
  }

  /** vunmap_range right after vmap_range mapped the range, seen from before both calls. */
  method UnmapWhatIsMapped(sp: AddressSpaces, paddr: nat, size: nat, targets: seq<Target>, ghost f: Fixed,
                           ghost plan: seq<Cut>, ghost m0: Mem, ghost r0: Roots)
    returns (err: Errno)
    requires sp.Valid() && Places(f, sp.windowIx, sp.entryIx) && targets != []
    requires paddr < RangeEnd(paddr, size) && PlanFor(plan, paddr, size)
    requires Ready(m0, r0, targets, plan, f, RangeEnd(paddr, size) / 4096)
    requires RangeDone(m0, r0, sp.Direct(), sp.TheRoots(), targets, plan)
    requires forall p :: paddr / 4096 <= p < RangeEnd(paddr, size) / 4096 ==> sp.valid(p)
    modifies sp`mem
    ensures sp.Valid() && err == ESUCCESS
    ensures forall i :: 0 <= i < |targets| ==>
      UndoneAt(sp.Direct(), sp.TheRoots(), targets[i].alias, paddr / 4096, RangeEnd(paddr, size) / 4096)
    ensures OthersSame(m0, r0, sp.Direct(), sp.TheRoots(), targets, paddr / 4096, RangeEnd(paddr, size) / 4096)
  {
    ghost var m, r, first, limit := sp.Direct(), sp.TheRoots(), paddr / 4096, RangeEnd(paddr, size) / 4096;
    MappedIsUnmappable(m0, r0, m, r, targets, plan, f, paddr, size, sp.valid);
    RangeIsMapped(m0, r0, m, r, targets, plan, paddr, size);
    err := VunmapRange(sp, paddr, size, targets, f);
    forall i | 0 <= i < |targets| ensures UndoneAt(sp.Direct(), sp.TheRoots(), targets[i].alias, first, limit) {
      assert LeftAt(m, r, sp.Direct(), targets[i].alias, first, limit);
    }
    OthersSameTwice(m0, r0, m, r, sp.Direct(), sp.TheRoots(), targets, first, limit);
  }

  /** No canonical address of [lo, hi) is mapped. */
  ghost predicate NothingIn(m: Mem, roots: Roots, space: Space, lo: nat, hi: nat) {
    forall va: nat :: Canonical(va) && lo <= va < hi ==> Translate(m, roots, space, IxOf(va)) == NotMapped
  }

  /** No canonical address outside [lo, hi) of `space` changed its translation or lost a right. */
  ghost predicate SameBut(m: Mem, r: Roots, m': Mem, r': Roots, space: Space, lo: nat, hi: nat) {
    forall s, va: nat :: Canonical(va) && !(s == space && lo <= va < hi) ==>
      SameOrMore(Translate(m, r, s, IxOf(va)), Translate(m', r', s, IxOf(va)))
  }

  /**
    _vmap_* and then _vunmap of one page: the frame and the order come back,
    the page is not mapped any more, and nothing else changed.
   */
  method MapThenUnmapPage(sp: AddressSpaces, space: Space, va: nat, mfn: nat, to: nat, leaf: Flags, propagateUser: bool)
    returns (stopped: bool, err: Errno, mfn': nat, order: nat)
    requires sp.Valid() && 1 <= to <= 3 && leaf.present && Acceptable(va, to) && mfn < 0x100_0000_0000
    requires sp.RoomFor(space, IxOf(va), to) && sp.BesideWindow(space, IxOf(va), to)
    modifies sp`mem, sp`pos, sp`userRoot, sp.pmm
    ensures !stopped ==> sp.Valid() && err == ESUCCESS && mfn' == mfn && order == LeafOrder(to)
    ensures !stopped ==> NothingIn(sp.Direct(), sp.TheRoots(), space, va, va + SizeAt(to))
    ensures !stopped ==>
      SameBut(old(sp.Direct()), old(sp.TheRoots()), sp.Direct(), sp.TheRoots(), space, va, va + SizeAt(to))
    ensures Spends(old(sp.pmm.free), sp.pmm.free, old(Lacking(sp.Direct(), sp.TheRoots(), space, to, IxOf(va))),
                   stopped)
  {
    var ret;
    ghost var taken;
    ghost var m0, r0 := sp.Direct(), sp.TheRoots();
    err, mfn', order := EINVAL, 0, 0;
    stopped, ret, taken := sp.VmapPage(space, va, mfn, to, leaf, propagateUser);
    if stopped {
      return;
    }
    err, mfn', order := UnmapThatPage(sp, space, va, mfn, to, leaf, propagateUser, m0, r0);
  }

  /** _vunmap of a page that was just mapped, seen from before it was. */
  method UnmapThatPage(sp: AddressSpaces, space: Space, va: nat, ghost mfn: nat, ghost to: nat, ghost leaf: Flags,
                       ghost user: bool, ghost m0: Mem, ghost r0: Roots)
    returns (err: Errno, mfn': nat, order: nat)
    requires sp.Valid() && 1 <= to <= 3 && leaf.present && Acceptable(va, to) && mfn < 0x100_0000_0000
    requires PageMapped(sp.Direct(), sp.TheRoots(), space, IxOf(va), mfn, to, leaf, user)
    requires OthersKept(m0, r0, sp.Direct(), sp.TheRoots(), space, IxOf(va), to)
    requires sp.Unreserved(space, IxOf(va))
    modifies sp`mem
    ensures sp.Valid() && sp.ThePool() == old(sp.ThePool()) && err == ESUCCESS && mfn' == mfn && order == LeafOrder(to)
    ensures NothingIn(sp.Direct(), sp.TheRoots(), space, va, va + SizeAt(to))
    ensures SameBut(m0, r0, sp.Direct(), sp.TheRoots(), space, va, va + SizeAt(to))
  {
    ghost var m, r := sp.Direct(), sp.TheRoots();
    PageFrame(m, r, space, IxOf(va), mfn, to, leaf, user);
    err, mfn', order := sp.Vunmap(space, va);
    PageRestored(m0, r0, m, r, sp.Direct(), sp.TheRoots(), space, va, to);
  }

  lemma PageFrame(m: Mem, r: Roots, space: Space, ix: Path, mfn: nat, to: nat, leaf: Flags, user: bool)
    requires 1 <= to <= 3 && leaf.present && mfn < 0x100_0000_0000 && PageMapped(m, r, space, ix, mfn, to, leaf, user)
    ensures var w := Translate(m, r, space, ix);
            w.Page? && w.mfn == mfn && w.order == LeafOrder(to) && DepthOf(w.order) == to
  {
    assert PageIs(Translate(m, r, space, ix), mfn, to, leaf, user);
  }

  lemma PageRestored(m0: Mem, r0: Roots, m: Mem, r: Roots, m': Mem, r': Roots, space: Space, va: nat, to: nat)
    requires 1 <= to <= 3 && Acceptable(va, to)
    requires OthersKept(m0, r0, m, r, space, IxOf(va), to) && OthersKept(m, r, m', r', space, IxOf(va), to)
    requires PageCleared(m', r', space, IxOf(va), to)
    ensures NothingIn(m', r', space, va, va + SizeAt(to))
    ensures SameBut(m0, r0, m', r', space, va, va + SizeAt(to))
  {
    forall va': nat | Canonical(va')
      ensures IxOf(va')[..to + 1] == IxOf(va)[..to + 1] <==> va <= va' < va + SizeAt(to)
    {
      SamePage(va', va, to);
      AlignedPage(va', va, to);
    }
    forall s, va': nat | Canonical(va') && !(s == space && va <= va' < va + SizeAt(to))
      ensures SameOrMore(Translate(m0, r0, s, IxOf(va')), Translate(m', r', s, IxOf(va')))
    {
      assert SameOrMore(Translate(m0, r0, s, IxOf(va')), Translate(m, r, s, IxOf(va')));
    }
  }
}
