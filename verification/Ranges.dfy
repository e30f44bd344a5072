/**
  Mapping physical ranges: vmap_range of arch/x86/pagetables.c.  A VMAP_* bit
  stands for an address space and a virtual base address, an alias; every
  chunk of the range is mapped at all aliases asked for before the next chunk
  is cut.
 */
module Ranges {
  import opened Frames
  import opened PageTable
  import opened Address
  import opened PageTables
  import opened Supply
  import opened Pmm
  import opened Cutting

  /** A 64-bit address on a page boundary. */
  type PageAddress = x: nat | x < 0x1_0000_0000_0000_0000 && x % 4096 == 0

  datatype Alias = Alias(space: Space, base: PageAddress)

  /** The areas at VIRT_KERNEL_BASE, VIRT_IDENT_BASE, VIRT_KERNEL_MAP and VIRT_USER_BASE. */
  const KERNEL_AREA := Alias(Kernel, 0xFFFF_FFFF_8000_0000)
  const IDENT_AREA := Alias(Kernel, 0)
  const MAP_AREA := Alias(Kernel, 0xFFFF_8000_0000_0000)
  const USER_AREA := Alias(User, 0x40_0000)

  /** Where _vmap_range maps a chunk for one bit, and with which flags. */
  datatype Target = Target(alias: Alias, leaf: Flags, propagateUser: bool)

  /** vmap_flags_t */
  datatype VmapFlags = VmapFlags(ident: bool, kernel: bool, kernelMap: bool, kernelUser: bool, kernelUserAccess: bool,
                                 user: bool, userIdent: bool, userKernel: bool, userKernelMap: bool)

  /** The aliases of _vmap_range, in its order. */
  function TargetsOf(f: VmapFlags, leaf: Flags): seq<Target> {
    KernelTargets(f, leaf) + UserTargets(f, leaf)
  }

  function KernelTargets(f: VmapFlags, leaf: Flags): seq<Target> {
    Wanted(f.kernel, Target(KERNEL_AREA, leaf, false)) +
    Wanted(f.ident, Target(IDENT_AREA, leaf, false)) +
    Wanted(f.kernelMap, Target(MAP_AREA, leaf, false)) +
    Wanted(f.kernelUser || f.kernelUserAccess,
           Target(Alias(Kernel, USER_AREA.base), leaf.(user := f.kernelUserAccess), false))
  }

  function UserTargets(f: VmapFlags, leaf: Flags): seq<Target> {
    Wanted(f.user, Target(USER_AREA, leaf.(user := true), true)) +
    Wanted(f.userIdent, Target(Alias(User, IDENT_AREA.base), leaf.(user := false), false)) +
    Wanted(f.userKernel, Target(Alias(User, KERNEL_AREA.base), leaf.(user := false), false)) +
    Wanted(f.userKernelMap, Target(Alias(User, MAP_AREA.base), leaf.(user := false), false))
  }

  function Wanted(asked: bool, t: Target): seq<Target> {
    if asked then [t] else []
  }

  // ---- what a range translates to --------------------------------------

  /** _paddr_to_virt: the virtual address of physical page `p`, a sum in 64 bits. */
  function VaOf(a: Alias, p: nat): nat {
    (a.base + 4096 * p) % 0x1_0000_0000_0000_0000
  }

  /** The physical page that an address stands for in the alias. */
  function PageAt(a: Alias, va: nat): nat {
    (va - a.base) % 0x1_0000_0000_0000_0000 / 4096
  }

  lemma PageAtVa(a: Alias, p: nat)
    requires p < 0x10_0000_0000_0000
    ensures PageAt(a, VaOf(a, p)) == p && VaOf(a, p) < 0x1_0000_0000_0000_0000 && VaOf(a, p) % 4096 == 0
  {
    var k := a.base / 4096;
    assert a.base == 4096 * k;
  }

  ghost function Found(m: Mem, roots: Roots, a: Alias, p: nat): Translation {
    Translate(m, roots, a.space, IxOf(VaOf(a, p)))
  }

  function PagesOf(order: nat): nat {
    PagesAt(DepthOf(order))
  }

  predicate SameFrame(w: Translation, w': Translation) {
    w.Page? && w'.Page? && w.mfn == w'.mfn && w.order == w'.order
  }

  /** The translation of page `p` is one aligned physical block around `p`, within [first, limit). */
  predicate Block(w: Translation, first: nat, limit: nat, p: nat) {
    && w.Page? && w.order in {0, 9, 18}
    && first <= w.mfn <= p < w.mfn + PagesOf(w.order) <= limit && PageAligned(w.mfn, DepthOf(w.order))
  }

  /** Page `p` is mapped, writable if asked for, and so is its whole block. */
  ghost predicate InBlock(m: Mem, roots: Roots, a: Alias, first: nat, limit: nat, p: nat, rw: bool) {
    var w := Found(m, roots, a, p);
    && Block(w, first, limit, p) && (rw ==> w.rw) && AlignedTo(VaOf(a, w.mfn), DepthOf(w.order))
    && forall q :: w.mfn <= q < w.mfn + PagesOf(w.order) ==> SameFrame(Found(m, roots, a, q), w)
  }

  /** Every page of [first, limit) is mapped, exactly once. */
  ghost predicate RangeMapped(m: Mem, roots: Roots, a: Alias, first: nat, limit: nat, rw: bool) {
    forall p :: first <= p < limit ==> InBlock(m, roots, a, first, limit, p, rw)
  }

  ghost predicate AllCanonical(a: Alias, first: nat, limit: nat) {
    forall p :: first <= p < limit ==> Canonical(VaOf(a, p))
  }

  ghost predicate MappedTo(m: Mem, r: Roots, a: Alias, first: nat, page: nat, rw: bool) {
    first <= page && AllCanonical(a, first, page) && RangeMapped(m, r, a, first, page, rw)
  }

  /** The address lies in the pages [first, page) of the alias. */
  predicate Inside(a: Alias, first: nat, page: nat, space: Space, va: nat) {
    space == a.space && first <= PageAt(a, va) < page
  }

  /** The pages [first, page) are kept as they are. */
  ghost predicate FramesKept(m: Mem, r: Roots, m': Mem, r': Roots, a: Alias, first: nat, page: nat) {
    forall p :: first <= p < page ==> SameOrMore(Found(m, r, a, p), Found(m', r', a, p))
  }

  /** A chunk whose address is acceptable holds exactly its own pages. */
  lemma ChunkAddresses(a: Alias, page: nat, to: nat, va: nat)
    requires 1 <= to <= 3 && Acceptable(VaOf(a, page), to) && Canonical(va)
    requires page + PagesAt(to) <= 0x10_0000_0000_0000
    ensures IxOf(va)[..to + 1] == IxOf(VaOf(a, page))[..to + 1] <==> page <= PageAt(a, va) < page + PagesAt(to)
  {
    var start := VaOf(a, page);
    SamePage(va, start, to);
    AlignedPage(va, start, to);
    EndsBelow(start, to);
    WithinChunk(a.base, 4096 * page, start, va, SizeAt(to));
    PagesInside(va, a, page, to);
  }

  /** Pages do not straddle the end of the address space. */
  lemma EndsBelow(start: nat, to: nat)
    requires 1 <= to <= 3 && AlignedTo(start, to) && start < 0x1_0000_0000_0000_0000
    ensures start + SizeAt(to) <= 0x1_0000_0000_0000_0000
  {
    match to {
      case 1 => assert start / 0x4000_0000 < 0x4_0000_0000;
      case 2 => assert start / 0x20_0000 < 0x800_0000_0000;
      case 3 => assert start / 0x1000 < 0x10_0000_0000_0000;
    }
  }

  lemma WithinChunk(base: nat, x: nat, start: nat, va: nat, size: nat)
    requires base < 0x1_0000_0000_0000_0000 && start == (base + x) % 0x1_0000_0000_0000_0000
    requires x + size <= 0x1_0000_0000_0000_0000 && start + size <= 0x1_0000_0000_0000_0000
    requires va < 0x1_0000_0000_0000_0000
    ensures start <= va < start + size <==> x <= (va - base) % 0x1_0000_0000_0000_0000 < x + size
  {
  }

  lemma PagesInside(va: nat, a: Alias, page: nat, to: nat)
    requires 1 <= to <= 3
    ensures page <= PageAt(a, va) < page + PagesAt(to) <==>
            4096 * page <= (va - a.base) % 0x1_0000_0000_0000_0000 < 4096 * page + SizeAt(to)
  {
    var x := (va - a.base) % 0x1_0000_0000_0000_0000;
    assert 4096 * PagesAt(to) == SizeAt(to);
  }

  /** The pages of a chunk have consecutive addresses. */
  lemma ChunkVa(a: Alias, page: nat, to: nat, p: nat)
    requires 1 <= to <= 3 && AlignedTo(VaOf(a, page), to) && page <= p < page + PagesAt(to) <= 0x10_0000_0000_0000
    ensures VaOf(a, page) <= VaOf(a, p) == VaOf(a, page) + 4096 * (p - page) < VaOf(a, page) + SizeAt(to)
  {
    EndsBelow(VaOf(a, page), to);
    NoWrapBetween(a.base, page, p, SizeAt(to));
  }

  lemma NoWrapBetween(base: nat, page: nat, p: nat, size: nat)
    requires page <= p && 4096 * (p - page) < size
    requires (base + 4096 * page) % 0x1_0000_0000_0000_0000 + size <= 0x1_0000_0000_0000_0000
    ensures (base + 4096 * p) % 0x1_0000_0000_0000_0000
         == (base + 4096 * page) % 0x1_0000_0000_0000_0000 + 4096 * (p - page)
  {
  }

  lemma AlignedPage(va: nat, start: nat, to: nat)
    requires 1 <= to <= 3 && AlignedTo(start, to)
    ensures va / SizeAt(to) == start / SizeAt(to) <==> start <= va < start + SizeAt(to)
  {
    match to {
      case 1 => assert va / 0x4000_0000 == start / 0x4000_0000 <==> start <= va < start + 0x4000_0000;
      case 2 => assert va / 0x20_0000 == start / 0x20_0000 <==> start <= va < start + 0x20_0000;
      case 3 => assert va / 0x1000 == start / 0x1000 <==> start <= va < start + 0x1000;
    }
  }

  lemma CanonicalThroughout(start: nat, to: nat, va: nat)
    requires 1 <= to <= 3 && AlignedTo(start, to) && Canonical(start) && start <= va < start + SizeAt(to)
    ensures Canonical(va)
  {
  }

  /** An address outside the chunk's pages keeps its translation. */
  lemma BesideChunk(m: Mem, r: Roots, m': Mem, r': Roots, a: Alias, page: nat, to: nat, s: Space, va: nat)
    requires 1 <= to <= 3 && Acceptable(VaOf(a, page), to) && Canonical(va)
    requires OthersKept(m, r, m', r', a.space, IxOf(VaOf(a, page)), to)
    requires !Inside(a, page, page + PagesAt(to), s, va) && page + PagesAt(to) <= 0x10_0000_0000_0000
    ensures SameOrMore(Translate(m, r, s, IxOf(va)), Translate(m', r', s, IxOf(va)))
  {
    ChunkAddresses(a, page, to, va);
  }

  /** Mapping the chunk behind a mapped range extends the range. */
  lemma ChunkExtends(m: Mem, r: Roots, m': Mem, r': Roots, a: Alias, first: nat, page: nat, next: nat,
                     to: nat, leaf: Flags, user: bool)
    requires 1 <= to <= 3 && page + PagesAt(to) == next <= 0x100_0000_0000 && PageAligned(page, to)
    requires Acceptable(VaOf(a, page), to) && leaf.present
    requires MappedTo(m, r, a, first, page, leaf.rw)
    requires OthersKept(m, r, m', r', a.space, IxOf(VaOf(a, page)), to)
    requires PageMapped(m', r', a.space, IxOf(VaOf(a, page)), page, to, leaf, user)
    ensures MappedTo(m', r', a, first, next, leaf.rw)
    ensures FramesKept(m, r, m', r', a, first, page) && FrameIs(Found(m', r', a, page), page, to, leaf.rw)
  {
    forall p | page <= p < next
      ensures Canonical(VaOf(a, p)) && FrameIs(Found(m', r', a, p), page, to, leaf.rw)
    {
      ChunkVa(a, page, to, p);
      CanonicalThroughout(VaOf(a, page), to, VaOf(a, p));
      ChunkAddresses(a, page, to, VaOf(a, p));
      PageAtVa(a, p);
      PageFrameIs(Found(m', r', a, p), page, to, leaf, user);
    }
    forall p | first <= p < page ensures SameOrMore(Found(m, r, a, p), Found(m', r', a, p)) {
      PageAtVa(a, p);
      BesideChunk(m, r, m', r', a, page, to, a.space, VaOf(a, p));
    }
    forall p | first <= p < next ensures InBlock(m', r', a, first, next, p, leaf.rw) {
      if p < page {
        OldBlock(m, r, m', r', a, first, page, next, p, leaf.rw);
      } else {
        NewBlock(m', r', a, first, page, p, to, leaf.rw);
      }
    }
  }

  lemma OldBlock(m: Mem, r: Roots, m': Mem, r': Roots, a: Alias, first: nat, page: nat, next: nat, p: nat, rw: bool)
    requires first <= p < page <= next && RangeMapped(m, r, a, first, page, rw)
    requires FramesKept(m, r, m', r', a, first, page)
    ensures InBlock(m', r', a, first, next, p, rw)
  {
    assert InBlock(m, r, a, first, page, p, rw);
    var w, w' := Found(m, r, a, p), Found(m', r', a, p);
    assert SameFrame(w', w);
    forall q | w.mfn <= q < w.mfn + PagesOf(w.order) ensures SameFrame(Found(m', r', a, q), w') {
      assert SameOrMore(Found(m, r, a, q), Found(m', r', a, q));
    }
  }

  predicate FrameIs(w: Translation, page: nat, to: nat, rw: bool)
    requires to <= 3
  {
    w.Page? && w.mfn == page && w.order == LeafOrder(to) && w.rw == rw
  }

  lemma PageFrameIs(w: Translation, page: nat, to: nat, leaf: Flags, user: bool)
    requires to <= 3 && leaf.present && page < 0x100_0000_0000 && PageIs(w, page, to, leaf, user)
    ensures FrameIs(w, page, to, leaf.rw)
  {
  }

  lemma NewBlock(m: Mem, r: Roots, a: Alias, first: nat, page: nat, p: nat, to: nat, rw: bool)
    requires 1 <= to <= 3 && first <= page <= p < page + PagesAt(to) && PageAligned(page, to)
    requires AlignedTo(VaOf(a, page), to)
    requires forall q :: page <= q < page + PagesAt(to) ==> FrameIs(Found(m, r, a, q), page, to, rw)
    ensures InBlock(m, r, a, first, page + PagesAt(to), p, rw)
  {
    assert DepthOf(LeafOrder(to)) == to;
    assert FrameIs(Found(m, r, a, p), page, to, rw);
  }

  /** A range whose pages are kept stays mapped. */
  lemma RangeStays(m: Mem, r: Roots, m': Mem, r': Roots, a: Alias, first: nat, page: nat, rw: bool)
    requires MappedTo(m, r, a, first, page, rw) && FramesKept(m, r, m', r', a, first, page)
    ensures MappedTo(m', r', a, first, page, rw)
  {
    forall p | first <= p < page ensures InBlock(m', r', a, first, page, p, rw) {
      OldBlock(m, r, m', r', a, first, page, page, p, rw);
    }
  }

  // ---- how far vmap_range has come -------------------------------------

  /** The virtual addresses of _tmp_mapping and of _tmp_mapping_entry. */
  datatype Fixed = Fixed(window: nat, entry: nat)

  ghost predicate Places(f: Fixed, windowIx: Path, entryIx: Path) {
    Canonical(f.window) && IxOf(f.window) == windowIx && Canonical(f.entry) && IxOf(f.entry) == entryIx
  }

  /** The pages [first, limit) of the alias hold neither. */
  ghost predicate Off(f: Fixed, a: Alias, first: nat, limit: nat) {
    !Inside(a, first, limit, Kernel, f.window) && !Inside(a, first, limit, Kernel, f.entry)
  }

  /** The aliases do not overlap. */
  ghost predicate Apart(targets: seq<Target>, first: nat, limit: nat) {
    forall i, j :: 0 <= i < j < |targets| ==> AliasesApart(targets[i].alias, targets[j].alias, first, limit)
  }

  /** How far alias `b` lies above alias `a`, around the end of the address space. */
  function Above(a: Alias, b: Alias): nat {
    (b.base - a.base) % 0x1_0000_0000_0000_0000
  }

  predicate AliasesApart(a: Alias, b: Alias, first: nat, limit: nat) {
    || a.space != b.space || limit <= first
    || (4096 * (limit - first) <= Above(a, b) && 4096 * (limit - first) <= Above(b, a))
  }

  /** No address of a page in one alias is an address of the range in the other. */
  lemma ApartPages(a: Alias, b: Alias, first: nat, limit: nat, p: nat)
    requires (AliasesApart(a, b, first, limit) || AliasesApart(b, a, first, limit))
    requires first <= p < limit <= 0x10_0000_0000_0000
    ensures !Inside(b, first, limit, a.space, VaOf(a, p))
  {
    if a.space == b.space {
      FarPages(a.base, b.base, p, first, limit, (VaOf(a, p) - b.base) % 0x1_0000_0000_0000_0000);
    }
  }

  lemma FarPages(a: nat, b: nat, p: nat, first: nat, limit: nat, y: nat)
    requires a < 0x1_0000_0000_0000_0000 && b < 0x1_0000_0000_0000_0000
    requires first <= p < limit <= 0x10_0000_0000_0000
    requires 4096 * (limit - first) <= (b - a) % 0x1_0000_0000_0000_0000
    requires 4096 * (limit - first) <= (a - b) % 0x1_0000_0000_0000_0000
    requires y == ((a + 4096 * p) % 0x1_0000_0000_0000_0000 - b) % 0x1_0000_0000_0000_0000
    ensures !(first <= y / 4096 < limit)
  {
    var d := (b - a) % 0x1_0000_0000_0000_0000;
    Shifted(a, b, 4096 * p, d);
    AroundTheEnd(a, b, d);
    OutsidePages(y, first, limit);
  }

  lemma AroundTheEnd(a: nat, b: nat, d: nat)
    requires a < 0x1_0000_0000_0000_0000 && b < 0x1_0000_0000_0000_0000 && d == (b - a) % 0x1_0000_0000_0000_0000
    ensures (a - b) % 0x1_0000_0000_0000_0000 == if d == 0 then 0 else 0x1_0000_0000_0000_0000 - d
  {
  }

  lemma Shifted(a: nat, b: nat, x: nat, d: nat)
    requires a < 0x1_0000_0000_0000_0000 && b < 0x1_0000_0000_0000_0000 && x < 0x1_0000_0000_0000_0000
    requires d == (b - a) % 0x1_0000_0000_0000_0000
    ensures ((a + x) % 0x1_0000_0000_0000_0000 - b) % 0x1_0000_0000_0000_0000
         == if x >= d then x - d else x - d + 0x1_0000_0000_0000_0000
  {
    assert d == if b >= a then b - a else b - a + 0x1_0000_0000_0000_0000;
    assert (a + x) % 0x1_0000_0000_0000_0000
        == if a + x < 0x1_0000_0000_0000_0000 then a + x else a + x - 0x1_0000_0000_0000_0000;
  }

  lemma OutsidePages(y: nat, first: nat, limit: nat)
    requires !(4096 * first <= y < 4096 * limit)
    ensures !(first <= y / 4096 < limit)
  {
  }

  /** How many chunks of the plan are mapped at target `i` while chunk `k` is being mapped at target `j`. */
  function Done(k: nat, j: nat, i: nat): nat {
    if i < j then k + 1 else k
  }

  /** The first n chunks of the plan are mapped, each as one page of its own size. */
  ghost predicate Planned(m: Mem, r: Roots, a: Alias, plan: seq<Cut>, n: nat)
    requires n < |plan|
  {
    forall k :: 0 <= k < n ==>
      && plan[0].page <= plan[k].page < plan[n].page && plan[k].to <= 3
      && var w := Found(m, r, a, plan[k].page); w.Page? && w.mfn == plan[k].page && w.order == LeafOrder(plan[k].to)
  }

  /** The page has the rights of the target in its own entry, and those that were propagated on the way to it. */
  predicate GrantedAt(w: Translation, t: Target) {
    && w.Page? && w.own.user == t.leaf.user && w.own.rw == t.leaf.rw
    && (t.leaf.rw ==> w.rw) && (t.leaf.user && t.propagateUser ==> w.user)
  }

  ghost predicate Granted(m: Mem, r: Roots, t: Target, first: nat, page: nat) {
    forall p :: first <= p < page ==> GrantedAt(Found(m, r, t.alias, p), t)
  }

  /** All pages of the first n chunks are mapped at the target, with its rights. */
  ghost predicate Reached(m: Mem, r: Roots, t: Target, plan: seq<Cut>, n: nat) {
    && n < |plan| && MappedTo(m, r, t.alias, plan[0].page, plan[n].page, t.leaf.rw)
    && Planned(m, r, t.alias, plan, n) && Granted(m, r, t, plan[0].page, plan[n].page)
  }

  /** The rights at a target are exactly these, whatever else is mapped. */
  lemma RightsAre(m: Mem, r: Roots, t: Target, first: nat, page: nat, p: nat)
    requires Granted(m, r, t, first, page) && first <= p < page
    ensures var w := Found(m, r, t.alias, p);
            && w.Page? && w.rw == t.leaf.rw && (w.user ==> t.leaf.user)
            && (t.leaf.user && t.propagateUser ==> w.user)
  {
    assert GrantedAt(Found(m, r, t.alias, p), t);
    if t.alias.space == Kernel {
      OwnRights(m, r.kernel, 0, IxOf(VaOf(t.alias, p)));
    } else if r.user.Some? {
      OwnRights(m, r.user.value, 0, IxOf(VaOf(t.alias, p)));
    }
  }

  lemma GrantedStays(m: Mem, r: Roots, m': Mem, r': Roots, t: Target, first: nat, page: nat)
    requires Granted(m, r, t, first, page) && FramesKept(m, r, m', r', t.alias, first, page)
    ensures Granted(m', r', t, first, page)
  {
    forall p | first <= p < page ensures GrantedAt(Found(m', r', t.alias, p), t) {
      assert SameOrMore(Found(m, r, t.alias, p), Found(m', r', t.alias, p));
    }
  }

  /** Mapping a chunk grants its rights to all its pages. */
  lemma ChunkGranted(m: Mem, r: Roots, t: Target, page: nat, to: nat)
    requires 1 <= to <= 3 && page + PagesAt(to) <= 0x100_0000_0000 && PageAligned(page, to) && t.leaf.present
    requires Acceptable(VaOf(t.alias, page), to)
    requires PageMapped(m, r, t.alias.space, IxOf(VaOf(t.alias, page)), page, to, t.leaf, t.propagateUser)
    ensures Granted(m, r, t, page, page + PagesAt(to))
  {
    forall p | page <= p < page + PagesAt(to) ensures GrantedAt(Found(m, r, t.alias, p), t) {
      ChunkVa(t.alias, page, to, p);
      CanonicalThroughout(VaOf(t.alias, page), to, VaOf(t.alias, p));
      ChunkAddresses(t.alias, page, to, VaOf(t.alias, p));
      PageAtVa(t.alias, p);
      assert PageIs(Found(m, r, t.alias, p), page, to, t.leaf, t.propagateUser);
    }
  }

  ghost predicate Touched(targets: seq<Target>, plan: seq<Cut>, k: nat, j: nat, s: Space, va: nat)
    requires k + 1 < |plan|
  {
    exists i :: 0 <= i < |targets| && Inside(targets[i].alias, plan[0].page, plan[Done(k, j, i)].page, s, va)
  }

  /** No address but those of the chunks mapped so far changed its translation or lost a right. */
  ghost predicate OutsideKept(m0: Mem, r0: Roots, m: Mem, r: Roots, targets: seq<Target>, plan: seq<Cut>, k: nat,
                              j: nat)
    requires k + 1 < |plan|
  {
    forall s, va: nat :: Canonical(va) && !Touched(targets, plan, k, j, s, va) ==>
      SameOrMore(Translate(m0, r0, s, IxOf(va)), Translate(m, r, s, IxOf(va)))
  }

  /** The state of vmap_range before chunk `k` is mapped at target `j`. */
  ghost predicate Progress(m0: Mem, r0: Roots, m: Mem, r: Roots, targets: seq<Target>, plan: seq<Cut>, k: nat, j: nat) {
    && k + 1 < |plan|
    && (forall i :: 0 <= i < |targets| ==> Reached(m, r, targets[i], plan, Done(k, j, i)))
    && OutsideKept(m0, r0, m, r, targets, plan, k, j)
  }

  lemma PlannedNext(m: Mem, r: Roots, m': Mem, r': Roots, a: Alias, plan: seq<Cut>, k: nat, rw: bool)
    requires k + 1 < |plan| && Planned(m, r, a, plan, k) && plan[0].page <= plan[k].page < plan[k + 1].page
    requires plan[k].to <= 3 && FrameIs(Found(m', r', a, plan[k].page), plan[k].page, plan[k].to, rw)
    requires FramesKept(m, r, m', r', a, plan[0].page, plan[k].page)
    ensures Planned(m', r', a, plan, k + 1)
  {
    forall n | 0 <= n < k ensures SameOrMore(Found(m, r, a, plan[n].page), Found(m', r', a, plan[n].page)) {
    }
  }

  lemma PlannedStays(m: Mem, r: Roots, m': Mem, r': Roots, a: Alias, plan: seq<Cut>, n: nat)
    requires n < |plan| && Planned(m, r, a, plan, n) && FramesKept(m, r, m', r', a, plan[0].page, plan[n].page)
    ensures Planned(m', r', a, plan, n)
  {
    forall k | 0 <= k < n ensures SameOrMore(Found(m, r, a, plan[k].page), Found(m', r', a, plan[k].page)) {
    }
  }

  /** The target that gets the chunk. */
  lemma ReachedNext(m: Mem, r: Roots, m': Mem, r': Roots, t: Target, plan: seq<Cut>, k: nat)
    requires k + 1 < |plan| && Reached(m, r, t, plan, k) && t.leaf.present && ChunkOf(plan, k)
    requires Acceptable(VaOf(t.alias, plan[k].page), plan[k].to)
    requires OthersKept(m, r, m', r', t.alias.space, IxOf(VaOf(t.alias, plan[k].page)), plan[k].to)
    requires PageMapped(m', r', t.alias.space, IxOf(VaOf(t.alias, plan[k].page)), plan[k].page, plan[k].to, t.leaf,
                        t.propagateUser)
    ensures Reached(m', r', t, plan, k + 1)
  {
    ChunkExtends(m, r, m', r', t.alias, plan[0].page, plan[k].page, plan[k + 1].page, plan[k].to, t.leaf,
                 t.propagateUser);
    PlannedNext(m, r, m', r', t.alias, plan, k, t.leaf.rw);
    GrantedStays(m, r, m', r', t, plan[0].page, plan[k].page);
    ChunkGranted(m', r', t, plan[k].page, plan[k].to);
  }

  /** Chunk `k` is a page aligned to its own size, and the next chunk follows it. */
  ghost predicate ChunkOf(plan: seq<Cut>, k: nat) {
    && k + 1 < |plan| && 1 <= plan[k].to <= 3 && PageAligned(plan[k].page, plan[k].to)
    && plan[0].page <= plan[k].page < plan[k + 1].page == plan[k].page + PagesAt(plan[k].to) <= 0x100_0000_0000
  }

  /** The targets that do not. */
  lemma ReachedStays(m: Mem, r: Roots, m': Mem, r': Roots, t: Target, b: Alias, plan: seq<Cut>, k: nat, n: nat,
                     limit: nat)
    requires Reached(m, r, t, plan, n) && ChunkOf(plan, k) && plan[n].page <= limit && plan[k + 1].page <= limit
    requires limit <= 0x10_0000_0000_0000
    requires AliasesApart(t.alias, b, plan[0].page, limit) || AliasesApart(b, t.alias, plan[0].page, limit)
             || (t.alias == b && n <= k && plan[n].page <= plan[k].page)
    requires Acceptable(VaOf(b, plan[k].page), plan[k].to)
    requires OthersKept(m, r, m', r', b.space, IxOf(VaOf(b, plan[k].page)), plan[k].to)
    ensures Reached(m', r', t, plan, n)
  {
    var a, first, page := t.alias, plan[0].page, plan[n].page;
    forall p | first <= p < page ensures SameOrMore(Found(m, r, a, p), Found(m', r', a, p)) {
      PageAtVa(a, p);
      if t.alias != b || n > k {
        ApartPages(a, b, first, limit, p);
      }
      BesideChunk(m, r, m', r', b, plan[k].page, plan[k].to, a.space, VaOf(a, p));
    }
    RangeStays(m, r, m', r', a, first, page, t.leaf.rw);
    PlannedStays(m, r, m', r', a, plan, n);
    GrantedStays(m, r, m', r', t, first, page);
  }

  /** The addresses outside all chunks. */
  lemma OutsideNext(m0: Mem, r0: Roots, m: Mem, r: Roots, m': Mem, r': Roots, targets: seq<Target>, plan: seq<Cut>,
                    k: nat, j: nat)
    requires ChunkOf(plan, k) && j < |targets| && OutsideKept(m0, r0, m, r, targets, plan, k, j)
    requires var b := targets[j].alias;
             && Acceptable(VaOf(b, plan[k].page), plan[k].to)
             && OthersKept(m, r, m', r', b.space, IxOf(VaOf(b, plan[k].page)), plan[k].to)
    ensures OutsideKept(m0, r0, m', r', targets, plan, k, j + 1)
  {
    var b := targets[j].alias;
    forall s, va: nat | Canonical(va) && !Touched(targets, plan, k, j + 1, s, va)
      ensures SameOrMore(Translate(m0, r0, s, IxOf(va)), Translate(m', r', s, IxOf(va)))
    {
      UntouchedBefore(targets, plan, k, j, s, va);
      BesideChunk(m, r, m', r', b, plan[k].page, plan[k].to, s, va);
      assert SameOrMore(Translate(m0, r0, s, IxOf(va)), Translate(m, r, s, IxOf(va)));
    }
  }

  lemma UntouchedBefore(targets: seq<Target>, plan: seq<Cut>, k: nat, j: nat, s: Space, va: nat)
    requires ChunkOf(plan, k) && j < |targets| && !Touched(targets, plan, k, j + 1, s, va)
    ensures !Touched(targets, plan, k, j, s, va) && !Inside(targets[j].alias, plan[k].page, plan[k + 1].page, s, va)
  {
    assert !Inside(targets[j].alias, plan[0].page, plan[Done(k, j + 1, j)].page, s, va);
    forall i | 0 <= i < |targets| ensures !Inside(targets[i].alias, plan[0].page, plan[Done(k, j, i)].page, s, va) {
      assert !Inside(targets[i].alias, plan[0].page, plan[Done(k, j + 1, i)].page, s, va);
    }
  }

  /** Mapping chunk `k` at target `j` is one step forward. */
  lemma Advance(m0: Mem, r0: Roots, m: Mem, r: Roots, m': Mem, r': Roots, targets: seq<Target>, plan: seq<Cut>,
                k: nat, j: nat, limit: nat)
    requires Progress(m0, r0, m, r, targets, plan, k, j) && j < |targets| && ChunkOf(plan, k)
    requires targets[j].leaf.present && Apart(targets, plan[0].page, limit)
    requires plan[k + 1].page <= limit <= 0x10_0000_0000_0000
    requires var t, c := targets[j], plan[k];
             && Acceptable(VaOf(t.alias, c.page), c.to)
             && OthersKept(m, r, m', r', t.alias.space, IxOf(VaOf(t.alias, c.page)), c.to)
             && PageMapped(m', r', t.alias.space, IxOf(VaOf(t.alias, c.page)), c.page, c.to, t.leaf, t.propagateUser)
    ensures Progress(m0, r0, m', r', targets, plan, k, j + 1)
  {
    OutsideNext(m0, r0, m, r, m', r', targets, plan, k, j);
    forall i | 0 <= i < |targets| ensures Reached(m', r', targets[i], plan, Done(k, j + 1, i)) {
      assert Reached(m, r, targets[i], plan, Done(k, j, i));
      if i == j {
        ReachedNext(m, r, m', r', targets[j], plan, k);
      } else {
        assert i < j ==> AliasesApart(targets[i].alias, targets[j].alias, plan[0].page, limit);
        assert j < i ==> AliasesApart(targets[j].alias, targets[i].alias, plan[0].page, limit);
        ReachedStays(m, r, m', r', targets[i], targets[j].alias, plan, k, Done(k, j, i), limit);
      }
    }
  }

  // ---- the page tables it takes ----------------------------------------

  /** The address lacks no more tables than at the start, whatever the size of its page. */
  ghost predicate SparedAt(m0: Mem, r0: Roots, m: Mem, r: Roots, s: Space, va: nat) {
    forall to: nat {:trigger Lacking(m, r, s, to, IxOf(va))} :: to <= 3 ==>
      Lacking(m, r, s, to, IxOf(va)) <= Lacking(m0, r0, s, to, IxOf(va))
  }

  /** Neither does any address that is not mapped yet. */
  ghost predicate TablesStay(m0: Mem, r0: Roots, m: Mem, r: Roots, targets: seq<Target>, plan: seq<Cut>, k: nat, j: nat)
    requires k + 1 < |plan|
  {
    forall s, va: nat :: Canonical(va) && !Touched(targets, plan, k, j, s, va) ==> SparedAt(m0, r0, m, r, s, va)
  }

  /** How many tables a chunk lacks at an alias, and at each of the targets. */
  function LackAt(m: Mem, r: Roots, a: Alias, c: Cut): nat {
    if c.to > 3 then 0 else Lacking(m, r, a.space, c.to, IxOf(VaOf(a, c.page)))
  }

  function Lacks(m: Mem, r: Roots, targets: seq<Target>, c: Cut): (l: seq<nat>)
    ensures |l| == |targets|
  {
    seq(|targets|, i requires 0 <= i < |targets| => LackAt(m, r, targets[i].alias, c))
  }

  /** The sum of the first n numbers. */
  function Sum(l: seq<nat>, n: nat): nat
    requires n <= |l|
  {
    if n == 0 then 0 else Sum(l, n - 1) + l[n - 1]
  }

  /** How many tables each chunk of the plan lacks at all targets, and how many all of them do. */
  function Costs(m: Mem, r: Roots, targets: seq<Target>, plan: seq<Cut>): (l: seq<nat>)
    ensures |l| == |plan|
  {
    seq(|plan|, k requires 0 <= k < |plan| => Sum(Lacks(m, r, targets, plan[k]), |targets|))
  }

  function RangeCost(m: Mem, r: Roots, targets: seq<Target>, plan: seq<Cut>): nat {
    if plan == [] then 0 else Sum(Costs(m, r, targets, plan), |plan| - 1)
  }

  ghost predicate LacksAs(state: State, lacks: seq<nat>, m: Mem, r: Roots, targets: seq<Target>, c: Cut) {
    match state case InLoop => lacks == Lacks(m, r, targets, c)
  }

  ghost predicate LacksAre(lacks: seq<nat>, m: Mem, r: Roots, targets: seq<Target>, c: Cut) {
    |lacks| == |targets| && forall state :: LacksAs(state, lacks, m, r, targets, c)
  }

  lemma LackIs(lacks: seq<nat>, m: Mem, r: Roots, targets: seq<Target>, c: Cut, j: nat)
    requires LacksAre(lacks, m, r, targets, c) && j < |targets|
    ensures lacks[j] == LackAt(m, r, targets[j].alias, c)
  {
    assert LacksAs(InLoop, lacks, m, r, targets, c);
  }

  ghost predicate CostsAs(state: State, costs: seq<nat>, m: Mem, r: Roots, targets: seq<Target>, plan: seq<Cut>) {
    match state case InLoop => costs == Costs(m, r, targets, plan)
  }

  ghost predicate CostsAre(costs: seq<nat>, m: Mem, r: Roots, targets: seq<Target>, plan: seq<Cut>) {
    |costs| == |plan| && forall state :: CostsAs(state, costs, m, r, targets, plan)
  }

  lemma CostIs(costs: seq<nat>, m: Mem, r: Roots, targets: seq<Target>, plan: seq<Cut>, k: nat)
    returns (lacks: seq<nat>)
    requires CostsAre(costs, m, r, targets, plan) && k < |plan|
    ensures LacksAre(lacks, m, r, targets, plan[k]) && costs[k] == Sum(lacks, |lacks|)
  {
    assert CostsAs(InLoop, costs, m, r, targets, plan);
    lacks := Lacks(m, r, targets, plan[k]);
  }

  lemma CostsStart(m: Mem, r: Roots, targets: seq<Target>, plan: seq<Cut>) returns (costs: seq<nat>)
    requires |plan| >= 1
    ensures CostsAre(costs, m, r, targets, plan) && Sum(costs, |plan| - 1) == RangeCost(m, r, targets, plan)
  {
    costs := Costs(m, r, targets, plan);
  }

  lemma {:induction false} SumGrows(l: seq<nat>, k: nat, n: nat, part: nat, all: nat)
    requires k <= n <= |l| && part == Sum(l, k) && all == Sum(l, n)
    ensures part <= all
    decreases n - k
  {
    if k < n {
      SumGrows(l, k + 1, n, Sum(l, k + 1), all);
    }
  }

  lemma SumNext(l: seq<nat>, k: nat, part: nat)
    requires k < |l| && part == Sum(l, k)
    ensures Sum(l, k + 1) == part + l[k]
  {
  }

  /** At most `cost` 4K frames were spent on tables; for no table nothing changed. */
  ghost predicate Paid(before: Pool, now: Pool, taken: seq<Frame>, cost: nat) {
    && |before.free| == |now.free| == ORDERS && |now.free[0]| + cost >= |before.free[0]| && |taken| <= cost
    && (cost == 0 ==> now == before)
  }

  /** There are tables to create, and not more 4K frames than that. */
  ghost predicate Unpaid(before: Pool, cost: nat) {
    cost > 0 && |before.free| == ORDERS && |before.free[0]| <= cost
  }

  lemma PaidMore(a: Pool, b: Pool, c: Pool, t: seq<Frame>, u: seq<Frame>, k: nat, l: nat)
    requires Paid(a, b, t, k) && Paid(b, c, u, l)
    ensures Paid(a, c, t + u, k + l)
  {
  }

  lemma UnpaidAfter(a: Pool, b: Pool, t: seq<Frame>, k: nat, l: nat, cost: nat)
    requires Paid(a, b, t, k) && Unpaid(b, l) && k + l <= cost
    ensures Unpaid(a, cost)
  {
  }

  /** Mapping a chunk leaves the tables of all other addresses. */
  lemma TablesNext(m0: Mem, r0: Roots, m: Mem, r: Roots, m': Mem, r': Roots, targets: seq<Target>, plan: seq<Cut>,
                   k: nat, j: nat)
    requires ChunkOf(plan, k) && j < |targets| && TablesStay(m0, r0, m, r, targets, plan, k, j)
    requires var b := targets[j].alias;
             && Acceptable(VaOf(b, plan[k].page), plan[k].to)
             && TablesKept(m, r, m', r', b.space, IxOf(VaOf(b, plan[k].page)), plan[k].to)
    ensures TablesStay(m0, r0, m', r', targets, plan, k, j + 1)
  {
    var b := targets[j].alias;
    forall s, va: nat | Canonical(va) && !Touched(targets, plan, k, j + 1, s, va)
      ensures SparedAt(m0, r0, m', r', s, va)
    {
      UntouchedBefore(targets, plan, k, j, s, va);
      ChunkAddresses(b, plan[k].page, plan[k].to, va);
      assert SparedAt(m0, r0, m, r, s, va);
      forall to: nat | to <= 3 ensures Lacking(m', r', s, to, IxOf(va)) <= Lacking(m0, r0, s, to, IxOf(va)) {
        assert Lacking(m, r, s, to, IxOf(va)) <= Lacking(m0, r0, s, to, IxOf(va));
      }
    }
  }

  // ---- vmap_range ------------------------------------------------------

  /** A chunk is mapped without an error: its address is acceptable and is not 0, which reads as a refusal. */
  predicate Good(a: Alias, page: nat, to: nat)
    requires to <= 3
  {
    Acceptable(VaOf(a, page), to) && VaOf(a, page) != 0
  }

  /** The chunk is good at the first n targets. */
  ghost predicate GoodAt(targets: seq<Target>, c: Cut, n: nat) {
    c.to <= 3 && forall i :: 0 <= i < n && i < |targets| ==> Good(targets[i].alias, c.page, c.to)
  }

  lemma GoodNext(targets: seq<Target>, c: Cut, n: nat)
    requires GoodAt(targets, c, n) && n < |targets|
    ensures GoodAt(targets, c, n + 1) <==> Good(targets[n].alias, c.page, c.to)
    ensures !Good(targets[n].alias, c.page, c.to) ==> !GoodAt(targets, c, |targets|)
  {
  }

  /** The first n chunks of the plan are good at all targets. */
  ghost predicate GoodUpTo(targets: seq<Target>, plan: seq<Cut>, n: nat) {
    n <= |plan| && forall k :: 0 <= k < n ==> GoodAt(targets, plan[k], |targets|)
  }

  /** No larger page lies in the way of the chunk at the alias. */
  ghost predicate RoomAt(m: Mem, r: Roots, a: Alias, c: Cut) {
    && c.to <= 3
    && var w := Found(m, r, a, c.page);
       Acceptable(VaOf(a, c.page), c.to) && w.Page? ==> w.order <= LeafOrder(c.to)
  }

  /** At no target is a larger page, the window or its entry in the way. */
  ghost predicate Ready(m: Mem, r: Roots, targets: seq<Target>, plan: seq<Cut>, f: Fixed, limit: nat) {
    && |plan| >= 1 && Apart(targets, plan[0].page, limit)
    && (forall i :: 0 <= i < |targets| ==> targets[i].leaf.present && Off(f, targets[i].alias, plan[0].page, limit))
    && (forall i, k :: 0 <= i < |targets| && 0 <= k < |plan| - 1 ==> RoomAt(m, r, targets[i].alias, plan[k]))
  }

  /** What lies ahead is as it was at the start. */
  lemma StillRoom(m0: Mem, r0: Roots, m: Mem, r: Roots, targets: seq<Target>, plan: seq<Cut>, f: Fixed, limit: nat,
                  k: nat, j: nat)
    requires Ready(m0, r0, targets, plan, f, limit) && Progress(m0, r0, m, r, targets, plan, k, j) && j < |targets|
    requires ChunkOf(plan, k) && plan[k + 1].page <= limit <= 0x10_0000_0000_0000
    ensures RoomAt(m, r, targets[j].alias, plan[k])
  {
    var a, c := targets[j].alias, plan[k];
    assert RoomAt(m0, r0, a, c);
    if Acceptable(VaOf(a, c.page), c.to) {
      NotTouchedYet(targets, plan, limit, k, j);
      assert SameOrMore(Found(m0, r0, a, c.page), Found(m, r, a, c.page));
    }
  }

  /** The next chunk is beside those that are mapped. */
  lemma NotTouchedYet(targets: seq<Target>, plan: seq<Cut>, limit: nat, k: nat, j: nat)
    requires ChunkOf(plan, k) && plan[k + 1].page <= limit <= 0x10_0000_0000_0000
    requires Apart(targets, plan[0].page, limit) && j < |targets|
    ensures !Touched(targets, plan, k, j, targets[j].alias.space, VaOf(targets[j].alias, plan[k].page))
  {
    var a, c := targets[j].alias, plan[k];
    forall i | 0 <= i < |targets|
      ensures !Inside(targets[i].alias, plan[0].page, plan[Done(k, j, i)].page, a.space, VaOf(a, c.page))
    {
      if i == j {
        PageAtVa(a, c.page);
      } else {
        assert i < j ==> AliasesApart(targets[i].alias, targets[j].alias, plan[0].page, limit);
        assert j < i ==> AliasesApart(targets[j].alias, targets[i].alias, plan[0].page, limit);
        ApartPages(a, targets[i].alias, plan[0].page, limit, c.page);
      }
    }
  }

  /** It lacks no more tables than at the start. */
  lemma StillSpared(m0: Mem, r0: Roots, m: Mem, r: Roots, targets: seq<Target>, plan: seq<Cut>, limit: nat, k: nat,
                    j: nat)
    requires ChunkOf(plan, k) && plan[k + 1].page <= limit <= 0x10_0000_0000_0000
    requires Apart(targets, plan[0].page, limit) && j < |targets|
    requires TablesStay(m0, r0, m, r, targets, plan, k, j) && Canonical(VaOf(targets[j].alias, plan[k].page))
    ensures LackAt(m, r, targets[j].alias, plan[k]) <= LackAt(m0, r0, targets[j].alias, plan[k])
  {
    NotTouchedYet(targets, plan, limit, k, j);
    assert SparedAt(m0, r0, m, r, targets[j].alias.space, VaOf(targets[j].alias, plan[k].page));
  }

  /** A chunk of a range that is off the window lies beside it. */
  lemma BesideFixed(f: Fixed, a: Alias, windowIx: Path, entryIx: Path, first: nat, page: nat, to: nat, limit: nat)
    requires Places(f, windowIx, entryIx) && Off(f, a, first, limit)
    requires 1 <= to <= 3 && Acceptable(VaOf(a, page), to) && first <= page
    requires page + PagesAt(to) <= limit <= 0x10_0000_0000_0000
    ensures a.space == Kernel ==>
      IxOf(VaOf(a, page))[..to + 1] != windowIx[..to + 1] && IxOf(VaOf(a, page))[..to + 1] != entryIx[..to + 1]
  {
    ChunkAddresses(a, page, to, f.window);
    ChunkAddresses(a, page, to, f.entry);
  }

  /** _vmap_range_chunk at one target, with the check of its answer. */
  method VmapChunk(sp: AddressSpaces, t: Target, page: nat, to: nat, ghost f: Fixed, ghost first: nat, ghost limit: nat)
    returns (stopped: bool, err: Errno, ghost taken: seq<Frame>)
    requires sp.Valid() && 1 <= to <= 3 && t.leaf.present && first <= page
    requires page + PagesAt(to) <= limit <= 0x10_0000_0000_0000
    requires Places(f, sp.windowIx, sp.entryIx) && Off(f, t.alias, first, limit)
    requires RoomAt(sp.Direct(), sp.TheRoots(), t.alias, Cut(0, 0, page, to))
    modifies sp`mem, sp`pos, sp`userRoot, sp.pmm
    ensures !stopped ==> sp.Valid() && Grown(old(sp.ThePool()), sp.ThePool(), taken)
    ensures !stopped ==> err == if Good(t.alias, page, to) then ESUCCESS else EFAULT
    ensures !stopped && Acceptable(VaOf(t.alias, page), to) ==>
      OthersKept(old(sp.Direct()), old(sp.TheRoots()), sp.Direct(), sp.TheRoots(), t.alias.space,
                 IxOf(VaOf(t.alias, page)), to)
    ensures !stopped && Acceptable(VaOf(t.alias, page), to) ==>
      PageMapped(sp.Direct(), sp.TheRoots(), t.alias.space, IxOf(VaOf(t.alias, page)), page, to, t.leaf,
                 t.propagateUser)
    ensures !Acceptable(VaOf(t.alias, page), to) ==>
      !stopped && taken == [] && sp.Direct() == old(sp.Direct()) && sp.TheRoots() == old(sp.TheRoots())
      && sp.ThePool() == old(sp.ThePool())
    ensures !stopped && Acceptable(VaOf(t.alias, page), to) ==>
      TablesKept(old(sp.Direct()), old(sp.TheRoots()), sp.Direct(), sp.TheRoots(), t.alias.space,
                 IxOf(VaOf(t.alias, page)), to)
    ensures Acceptable(VaOf(t.alias, page), to) ==>
      var lack := old(LackAt(sp.Direct(), sp.TheRoots(), t.alias, Cut(0, 0, page, to)));
      if stopped then Unpaid(old(sp.ThePool()), lack) else Paid(old(sp.ThePool()), sp.ThePool(), taken, lack)
  {
    sp.FreeLists();
    if Acceptable(VaOf(t.alias, page), to) {
      BesideFixed(f, t.alias, sp.windowIx, sp.entryIx, first, page, to, limit);
    } else {
      GrownNone(sp.ThePool());
    }
    var ret;
    stopped, ret, taken := sp.VmapPage(t.alias.space, VaOf(t.alias, page), page, to, t.leaf, t.propagateUser);
    err := if ret == 0 then EFAULT else ESUCCESS;
    if !stopped {
      sp.FreeLists();
    }
  }

  /**
    Chunk `k` failed at target `j`: the targets before it have it, those
    behind it do not, and no other address changed.  Target `j` itself has it
    exactly if the address was acceptable, and then it is 0.
   */
  ghost predicate FailedAt(m0: Mem, r0: Roots, m: Mem, r: Roots, targets: seq<Target>, plan: seq<Cut>, k: nat, j: nat) {
    && k + 1 < |plan| && j < |targets| && plan[k].to <= 3 && GoodUpTo(targets, plan, k)
    && GoodAt(targets, plan[k], j) && !Good(targets[j].alias, plan[k].page, plan[k].to)
    && Progress(m0, r0, m, r, targets, plan, k, AfterChunk(targets[j].alias, plan[k], j))
  }

  /** The target that vmap_range would turn to behind target `j`, if the chunk was mapped there. */
  function AfterChunk(a: Alias, c: Cut, j: nat): nat
    requires c.to <= 3
  {
    if Acceptable(VaOf(a, c.page), c.to) then j + 1 else j
  }

  /** One target of _vmap_range. */
  method MapAtOne(sp: AddressSpaces, targets: seq<Target>, j: nat, page: nat, to: nat, ghost plan: seq<Cut>,
                  ghost k: nat, ghost f: Fixed, ghost limit: nat, ghost m0: Mem, ghost r0: Roots, ghost lack: nat)
    returns (stopped: bool, err: Errno, ghost taken: seq<Frame>)
    requires sp.Valid() && Places(f, sp.windowIx, sp.entryIx) && Ready(m0, r0, targets, plan, f, limit)
    requires ChunkOf(plan, k) && page == plan[k].page && to == plan[k].to
    requires plan[k + 1].page <= limit <= 0x10_0000_0000_0000
    requires j < |targets| && Progress(m0, r0, sp.Direct(), sp.TheRoots(), targets, plan, k, j)
    requires TablesStay(m0, r0, sp.Direct(), sp.TheRoots(), targets, plan, k, j)
    requires lack == LackAt(m0, r0, targets[j].alias, plan[k])
    modifies sp`mem, sp`pos, sp`userRoot, sp.pmm
    ensures !stopped ==> sp.Valid() && Grown(old(sp.ThePool()), sp.ThePool(), taken)
    ensures !stopped ==> err == if Good(targets[j].alias, page, to) then ESUCCESS else EFAULT
    ensures !stopped ==>
      Progress(m0, r0, sp.Direct(), sp.TheRoots(), targets, plan, k, AfterChunk(targets[j].alias, plan[k], j))
    ensures !stopped ==>
      TablesStay(m0, r0, sp.Direct(), sp.TheRoots(), targets, plan, k, AfterChunk(targets[j].alias, plan[k], j))
    ensures if stopped then Unpaid(old(sp.ThePool()), lack) else Paid(old(sp.ThePool()), sp.ThePool(), taken, lack)
  {
    ghost var m, r := sp.Direct(), sp.TheRoots();
    StillRoom(m0, r0, m, r, targets, plan, f, limit, k, j);
    if Acceptable(VaOf(targets[j].alias, page), to) {
      StillSpared(m0, r0, m, r, targets, plan, limit, k, j);
    } else {
      sp.FreeLists();
    }
    stopped, err, taken := VmapChunk(sp, targets[j], page, to, f, plan[0].page, limit);
    if !stopped {
      if Acceptable(VaOf(targets[j].alias, page), to) {
        Advance(m0, r0, m, r, sp.Direct(), sp.TheRoots(), targets, plan, k, j, limit);
        TablesNext(m0, r0, m, r, sp.Direct(), sp.TheRoots(), targets, plan, k, j);
      }
    }
  }

  /** _vmap_range: one chunk at all targets, in order. */
  method MapAtAll(sp: AddressSpaces, targets: seq<Target>, page: nat, to: nat, ghost plan: seq<Cut>, ghost k: nat,
                  ghost f: Fixed, ghost limit: nat, ghost m0: Mem, ghost r0: Roots,
                  ghost lacks: seq<nat>, ghost cost: nat)
    returns (stopped: bool, err: Errno, ghost taken: seq<Frame>, ghost at: nat)
    requires sp.Valid() && Places(f, sp.windowIx, sp.entryIx) && Ready(m0, r0, targets, plan, f, limit)
    requires ChunkOf(plan, k) && page == plan[k].page && to == plan[k].to
    requires plan[k + 1].page <= limit <= 0x10_0000_0000_0000
    requires GoodUpTo(targets, plan, k) && Progress(m0, r0, sp.Direct(), sp.TheRoots(), targets, plan, k, 0)
    requires TablesStay(m0, r0, sp.Direct(), sp.TheRoots(), targets, plan, k, 0)
    requires LacksAre(lacks, m0, r0, targets, plan[k]) && cost == Sum(lacks, |lacks|)
    modifies sp`mem, sp`pos, sp`userRoot, sp.pmm
    ensures !stopped ==> sp.Valid() && Grown(old(sp.ThePool()), sp.ThePool(), taken)
    ensures !stopped ==> err == if GoodAt(targets, plan[k], |targets|) then ESUCCESS else EFAULT
    ensures !stopped && err == ESUCCESS ==> Progress(m0, r0, sp.Direct(), sp.TheRoots(), targets, plan, k, |targets|)
    ensures !stopped && err != ESUCCESS ==> FailedAt(m0, r0, sp.Direct(), sp.TheRoots(), targets, plan, k, at)
    ensures !stopped && err == ESUCCESS ==> TablesStay(m0, r0, sp.Direct(), sp.TheRoots(), targets, plan, k, |targets|)
    ensures if stopped then Unpaid(old(sp.ThePool()), cost) else Paid(old(sp.ThePool()), sp.ThePool(), taken, cost)
  {
    ghost var pool0, done := sp.ThePool(), 0;
    stopped, err, taken, at := false, ESUCCESS, [], 0;
    UnderStart(sp, targets, plan, k, m0, r0, lacks);
    for j := 0 to |targets|
      invariant err == ESUCCESS && Under(sp, targets, plan, k, j, m0, r0, pool0, taken, lacks, done)
    {
      at := j;
      stopped, err, taken := MapAtNext(sp, targets, j, page, to, plan, k, f, limit, m0, r0, pool0, taken, lacks, done,
                                       cost);
      if stopped {
        return;
      }
      if err != ESUCCESS {
        return;
      }
      done := done + lacks[j];
    }
    UnderEnd(sp, targets, plan, k, m0, r0, pool0, taken, lacks, done);
  }

  /** What holds before chunk `k` is mapped at target `j`. */
  ghost predicate UnderAs(state: State, sp: AddressSpaces, targets: seq<Target>, plan: seq<Cut>, k: nat, j: nat,
                          m0: Mem, r0: Roots, pool0: Pool, taken: seq<Frame>, lacks: seq<nat>, done: nat)
    reads sp, sp.pmm
  {
    match state case InLoop =>
      && sp.Valid() && Grown(pool0, sp.ThePool(), taken) && k + 1 < |plan| && j <= |targets| == |lacks|
      && GoodAt(targets, plan[k], j) && Progress(m0, r0, sp.Direct(), sp.TheRoots(), targets, plan, k, j)
      && TablesStay(m0, r0, sp.Direct(), sp.TheRoots(), targets, plan, k, j)
      && LacksAre(lacks, m0, r0, targets, plan[k]) && done == Sum(lacks, j) && Paid(pool0, sp.ThePool(), taken, done)
  }

  ghost predicate Under(sp: AddressSpaces, targets: seq<Target>, plan: seq<Cut>, k: nat, j: nat, m0: Mem, r0: Roots,
                        pool0: Pool, taken: seq<Frame>, lacks: seq<nat>, done: nat)
    reads sp, sp.pmm
  {
    forall state :: UnderAs(state, sp, targets, plan, k, j, m0, r0, pool0, taken, lacks, done)
  }

  lemma UnderStart(sp: AddressSpaces, targets: seq<Target>, plan: seq<Cut>, k: nat, m0: Mem, r0: Roots, lacks: seq<nat>)
    requires sp.Valid() && ChunkOf(plan, k) && LacksAre(lacks, m0, r0, targets, plan[k])
    requires Progress(m0, r0, sp.Direct(), sp.TheRoots(), targets, plan, k, 0)
    requires TablesStay(m0, r0, sp.Direct(), sp.TheRoots(), targets, plan, k, 0)
    ensures Under(sp, targets, plan, k, 0, m0, r0, sp.ThePool(), [], lacks, 0)
  {
    GrownNone(sp.ThePool());
    sp.FreeLists();
  }

  lemma UnderEnd(sp: AddressSpaces, targets: seq<Target>, plan: seq<Cut>, k: nat, m0: Mem, r0: Roots, pool0: Pool,
                 taken: seq<Frame>, lacks: seq<nat>, done: nat)
    requires Under(sp, targets, plan, k, |targets|, m0, r0, pool0, taken, lacks, done)
    ensures sp.Valid() && Grown(pool0, sp.ThePool(), taken) && k + 1 < |plan| && GoodAt(targets, plan[k], |targets|)
    ensures Progress(m0, r0, sp.Direct(), sp.TheRoots(), targets, plan, k, |targets|)
    ensures TablesStay(m0, r0, sp.Direct(), sp.TheRoots(), targets, plan, k, |targets|)
    ensures |lacks| == |targets| && done == Sum(lacks, |targets|) && Paid(pool0, sp.ThePool(), taken, done)
  {
    assert UnderAs(InLoop, sp, targets, plan, k, |targets|, m0, r0, pool0, taken, lacks, done);
  }

  /** One round of it. */
  method MapAtNext(sp: AddressSpaces, targets: seq<Target>, j: nat, page: nat, to: nat, ghost plan: seq<Cut>,
                   ghost k: nat, ghost f: Fixed, ghost limit: nat, ghost m0: Mem, ghost r0: Roots, ghost pool0: Pool,
                   ghost taken: seq<Frame>, ghost lacks: seq<nat>, ghost done: nat, ghost cost: nat)
    returns (stopped: bool, err: Errno, ghost taken': seq<Frame>)
    requires Places(f, sp.windowIx, sp.entryIx) && Ready(m0, r0, targets, plan, f, limit)
    requires ChunkOf(plan, k) && page == plan[k].page && to == plan[k].to
    requires plan[k + 1].page <= limit <= 0x10_0000_0000_0000 && GoodUpTo(targets, plan, k)
    requires j < |targets| == |lacks| && cost == Sum(lacks, |lacks|)
    requires Under(sp, targets, plan, k, j, m0, r0, pool0, taken, lacks, done)
    modifies sp`mem, sp`pos, sp`userRoot, sp.pmm
    ensures stopped ==> Unpaid(pool0, cost)
    ensures !stopped ==> err == ESUCCESS || err == EFAULT
    ensures !stopped && err == ESUCCESS ==>
      Under(sp, targets, plan, k, j + 1, m0, r0, pool0, taken', lacks, done + lacks[j])
    ensures !stopped && err != ESUCCESS ==>
      && sp.Valid() && Grown(pool0, sp.ThePool(), taken') && Paid(pool0, sp.ThePool(), taken', cost)
      && FailedAt(m0, r0, sp.Direct(), sp.TheRoots(), targets, plan, k, j) && !GoodAt(targets, plan[k], |targets|)
  {
    assert UnderAs(InLoop, sp, targets, plan, k, j, m0, r0, pool0, taken, lacks, done);
    LackIs(lacks, m0, r0, targets, plan[k], j);
    SumNext(lacks, j, done);
    SumGrows(lacks, j + 1, |lacks|, done + lacks[j], cost);
    stopped, err, taken' := MapAtStep(sp, targets, j, page, to, plan, k, f, limit, m0, r0, pool0, taken, lacks[j],
                                      done, cost);
  }

  /** The same with the facts at hand. */
  method MapAtStep(sp: AddressSpaces, targets: seq<Target>, j: nat, page: nat, to: nat, ghost plan: seq<Cut>,
                   ghost k: nat, ghost f: Fixed, ghost limit: nat, ghost m0: Mem, ghost r0: Roots, ghost pool0: Pool,
                   ghost taken: seq<Frame>, ghost lack: nat, ghost done: nat, ghost cost: nat)
    returns (stopped: bool, err: Errno, ghost taken': seq<Frame>)
    requires sp.Valid() && Places(f, sp.windowIx, sp.entryIx) && Ready(m0, r0, targets, plan, f, limit)
    requires ChunkOf(plan, k) && page == plan[k].page && to == plan[k].to
    requires plan[k + 1].page <= limit <= 0x10_0000_0000_0000
    requires GoodUpTo(targets, plan, k) && j < |targets| && GoodAt(targets, plan[k], j)
    requires Progress(m0, r0, sp.Direct(), sp.TheRoots(), targets, plan, k, j) && Grown(pool0, sp.ThePool(), taken)
    requires TablesStay(m0, r0, sp.Direct(), sp.TheRoots(), targets, plan, k, j)
    requires lack == LackAt(m0, r0, targets[j].alias, plan[k])
    requires Paid(pool0, sp.ThePool(), taken, done) && done + lack <= cost
    modifies sp`mem, sp`pos, sp`userRoot, sp.pmm
    ensures !stopped ==> sp.Valid() && Grown(pool0, sp.ThePool(), taken')
    ensures !stopped ==> (err == ESUCCESS || err == EFAULT) && (err == ESUCCESS <==> GoodAt(targets, plan[k], j + 1))
    ensures !stopped && err == ESUCCESS ==> Progress(m0, r0, sp.Direct(), sp.TheRoots(), targets, plan, k, j + 1)
    ensures !stopped && err != ESUCCESS ==>
      FailedAt(m0, r0, sp.Direct(), sp.TheRoots(), targets, plan, k, j) && !GoodAt(targets, plan[k], |targets|)
    ensures !stopped && err == ESUCCESS ==> TablesStay(m0, r0, sp.Direct(), sp.TheRoots(), targets, plan, k, j + 1)
    ensures stopped ==> Unpaid(pool0, cost)
    ensures !stopped ==> Paid(pool0, sp.ThePool(), taken', done + lack)
    ensures !stopped && err != ESUCCESS ==> Paid(pool0, sp.ThePool(), taken', cost)
  {
    ghost var pool1, more := sp.ThePool(), [];
    taken' := taken;
    stopped, err, more := MapAtOne(sp, targets, j, page, to, plan, k, f, limit, m0, r0, lack);
    if stopped {
      UnpaidAfter(pool0, pool1, taken, done, lack, cost);
    } else {
      GrownTrans(pool0, pool1, sp.ThePool(), taken, more);
      PaidMore(pool0, pool1, sp.ThePool(), taken, more, done, lack);
      taken' := taken + more;
      GoodNext(targets, plan[k], j);
    }
  }

  // ---- the loop over the chunks ----------------------------------------

  /** No address outside the pages [first, page) of the targets changed its translation or lost a right. */
  ghost predicate OthersSame(m0: Mem, r0: Roots, m: Mem, r: Roots, targets: seq<Target>, first: nat, page: nat) {
    forall s, va: nat :: Canonical(va) && !InsideAny(targets, first, page, s, va) ==>
      SameOrMore(Translate(m0, r0, s, IxOf(va)), Translate(m, r, s, IxOf(va)))
  }

  ghost predicate InsideAny(targets: seq<Target>, first: nat, page: nat, s: Space, va: nat) {
    exists i :: 0 <= i < |targets| && Inside(targets[i].alias, first, page, s, va)
  }

  /** The first n chunks of the plan are mapped at all targets, and no other address changed. */
  ghost predicate MappedUpTo(m0: Mem, r0: Roots, m: Mem, r: Roots, targets: seq<Target>, plan: seq<Cut>, n: nat) {
    && n < |plan| && (forall i :: 0 <= i < |targets| ==> Reached(m, r, targets[i], plan, n))
    && OthersSame(m0, r0, m, r, targets, plan[0].page, plan[n].page)
  }

  lemma StartChunk(m0: Mem, r0: Roots, m: Mem, r: Roots, targets: seq<Target>, plan: seq<Cut>, k: nat)
    requires MappedUpTo(m0, r0, m, r, targets, plan, k) && k + 1 < |plan|
    ensures Progress(m0, r0, m, r, targets, plan, k, 0)
  {
    forall s, va: nat | !Touched(targets, plan, k, 0, s, va)
      ensures !InsideAny(targets, plan[0].page, plan[k].page, s, va)
    {
      forall i | 0 <= i < |targets| ensures !Inside(targets[i].alias, plan[0].page, plan[k].page, s, va) {
        assert !Inside(targets[i].alias, plan[0].page, plan[Done(k, 0, i)].page, s, va);
      }
    }
  }

  lemma EndChunk(m0: Mem, r0: Roots, m: Mem, r: Roots, targets: seq<Target>, plan: seq<Cut>, k: nat)
    requires Progress(m0, r0, m, r, targets, plan, k, |targets|)
    ensures MappedUpTo(m0, r0, m, r, targets, plan, k + 1)
  {
    forall i | 0 <= i < |targets| ensures Reached(m, r, targets[i], plan, k + 1) {
      assert Reached(m, r, targets[i], plan, Done(k, |targets|, i));
    }
    forall s, va: nat | !InsideAny(targets, plan[0].page, plan[k + 1].page, s, va)
      ensures !Touched(targets, plan, k, |targets|, s, va)
    {
      forall i | 0 <= i < |targets|
        ensures !Inside(targets[i].alias, plan[0].page, plan[Done(k, |targets|, i)].page, s, va)
      {
        assert !Inside(targets[i].alias, plan[0].page, plan[k + 1].page, s, va);
      }
    }
  }

  /** No address outside the first n chunks lacks more tables than at the start. */
  ghost predicate TablesLeft(m0: Mem, r0: Roots, m: Mem, r: Roots, targets: seq<Target>, plan: seq<Cut>, n: nat)
    requires n < |plan|
  {
    forall s, va: nat :: Canonical(va) && !InsideAny(targets, plan[0].page, plan[n].page, s, va) ==>
      SparedAt(m0, r0, m, r, s, va)
  }

  lemma StartTables(m0: Mem, r0: Roots, m: Mem, r: Roots, targets: seq<Target>, plan: seq<Cut>, k: nat)
    requires k + 1 < |plan| && TablesLeft(m0, r0, m, r, targets, plan, k)
    ensures TablesStay(m0, r0, m, r, targets, plan, k, 0)
  {
    forall s, va: nat | Canonical(va) && !Touched(targets, plan, k, 0, s, va) ensures SparedAt(m0, r0, m, r, s, va) {
      forall i | 0 <= i < |targets| ensures !Inside(targets[i].alias, plan[0].page, plan[k].page, s, va) {
        assert !Inside(targets[i].alias, plan[0].page, plan[Done(k, 0, i)].page, s, va);
      }
    }
  }

  lemma EndTables(m0: Mem, r0: Roots, m: Mem, r: Roots, targets: seq<Target>, plan: seq<Cut>, k: nat)
    requires k + 1 < |plan| && TablesStay(m0, r0, m, r, targets, plan, k, |targets|)
    ensures TablesLeft(m0, r0, m, r, targets, plan, k + 1)
  {
    forall s, va: nat | Canonical(va) && !InsideAny(targets, plan[0].page, plan[k + 1].page, s, va)
      ensures SparedAt(m0, r0, m, r, s, va)
    {
      forall i | 0 <= i < |targets|
        ensures !Inside(targets[i].alias, plan[0].page, plan[Done(k, |targets|, i)].page, s, va)
      {
        assert !Inside(targets[i].alias, plan[0].page, plan[k + 1].page, s, va);
      }
    }
  }

  lemma StartRange(m: Mem, r: Roots, targets: seq<Target>, plan: seq<Cut>)
    requires |plan| >= 1
    ensures MappedUpTo(m, r, m, r, targets, plan, 0)
  {
  }

  /** The chunk at one head of the loop, and where the loop goes on behind it. */
  method PickChunk(cur: nat, left: nat, ghost paddr: nat, ghost size: nat, end: nat, ghost plan: seq<Cut>, ghost k: nat)
    returns (to: nat, mfn: nat, next: nat, rest: nat)
    requires IsPlan(plan, paddr, size, end) && k < |plan| && cur == plan[k].cur < end && left == plan[k].left
    requires end <= 0x10_0000_0000_0000
    ensures ChunkOf(plan, k) && plan[k + 1].page <= end / 4096
    ensures to == plan[k].to && mfn == plan[k].page && next == plan[k + 1].cur && rest == plan[k + 1].left
  {
    assert StepOk(plan, k, end);
    PlanGrows(plan, paddr, size, end, k);
    to, mfn := ChunkDepth(cur, left), PaddrToMfn(cur);
    next, rest := cur + SizeAt(to), SizeLeft(left, to);
  }

  lemma {:induction false} PlanGrows(plan: seq<Cut>, paddr: nat, size: nat, end: nat, k: nat)
    requires IsPlan(plan, paddr, size, end) && k < |plan|
    ensures plan[0].page <= plan[k].page
  {
    if k > 0 {
      PlanGrows(plan, paddr, size, end, k - 1);
      assert StepOk(plan, k - 1, end);
    }
  }

  /** The loop ends at the last head of its plan, with the position in the page of the end. */
  lemma PlanEnds(plan: seq<Cut>, paddr: nat, size: nat, end: nat, k: nat)
    requires IsPlan(plan, paddr, size, end) && k < |plan| && plan[k].cur >= end
    ensures k == |plan| - 1 && plan[k].page == end / 4096
  {
    assert k < |plan| - 1 ==> StepOk(plan, k, end);
  }

  /** One round of the loop of vmap_range. */
  method MapNext(sp: AddressSpaces, targets: seq<Target>, page: nat, to: nat, ghost plan: seq<Cut>, ghost k: nat,
                 ghost f: Fixed, ghost limit: nat, ghost m0: Mem, ghost r0: Roots,
                  ghost lacks: seq<nat>, ghost cost: nat)
    returns (stopped: bool, err: Errno, ghost taken: seq<Frame>, ghost at: nat)
    requires sp.Valid() && Places(f, sp.windowIx, sp.entryIx) && Ready(m0, r0, targets, plan, f, limit)
    requires ChunkOf(plan, k) && page == plan[k].page && to == plan[k].to
    requires plan[k + 1].page <= limit <= 0x10_0000_0000_0000
    requires GoodUpTo(targets, plan, k) && MappedUpTo(m0, r0, sp.Direct(), sp.TheRoots(), targets, plan, k)
    requires TablesLeft(m0, r0, sp.Direct(), sp.TheRoots(), targets, plan, k)
    requires LacksAre(lacks, m0, r0, targets, plan[k]) && cost == Sum(lacks, |lacks|)
    modifies sp`mem, sp`pos, sp`userRoot, sp.pmm
    ensures !stopped ==> sp.Valid() && Grown(old(sp.ThePool()), sp.ThePool(), taken)
    ensures !stopped ==> err == if GoodAt(targets, plan[k], |targets|) then ESUCCESS else EFAULT
    ensures !stopped && err == ESUCCESS ==> GoodUpTo(targets, plan, k + 1)
    ensures !stopped && err == ESUCCESS ==> MappedUpTo(m0, r0, sp.Direct(), sp.TheRoots(), targets, plan, k + 1)
    ensures !stopped && err != ESUCCESS ==> FailedAt(m0, r0, sp.Direct(), sp.TheRoots(), targets, plan, k, at)
    ensures !stopped && err == ESUCCESS ==> TablesLeft(m0, r0, sp.Direct(), sp.TheRoots(), targets, plan, k + 1)
    ensures if stopped then Unpaid(old(sp.ThePool()), cost) else Paid(old(sp.ThePool()), sp.ThePool(), taken, cost)
  {
    StartChunk(m0, r0, sp.Direct(), sp.TheRoots(), targets, plan, k);
    StartTables(m0, r0, sp.Direct(), sp.TheRoots(), targets, plan, k);
    stopped, err, taken, at := MapAtAll(sp, targets, page, to, plan, k, f, limit, m0, r0, lacks, cost);
    if !stopped && err == ESUCCESS {
      EndChunk(m0, r0, sp.Direct(), sp.TheRoots(), targets, plan, k);
      EndTables(m0, r0, sp.Direct(), sp.TheRoots(), targets, plan, k);
    }
  }

  /** The loop of vmap_range. */
  method MapLoop(sp: AddressSpaces, paddr: nat, size: nat, end: nat, targets: seq<Target>, ghost f: Fixed,
                 ghost plan: seq<Cut>, ghost costs: seq<nat>, ghost cost: nat)
    returns (stopped: bool, err: Errno, ghost taken: seq<Frame>, ghost chunk: nat, ghost at: nat)
    requires sp.Valid() && Places(f, sp.windowIx, sp.entryIx) && IsPlan(plan, paddr, size, end)
    requires end <= 0x10_0000_0000_0000 && Ready(sp.Direct(), sp.TheRoots(), targets, plan, f, end / 4096)
    requires CostsAre(costs, sp.Direct(), sp.TheRoots(), targets, plan) && cost == Sum(costs, |plan| - 1)
    modifies sp`mem, sp`pos, sp`userRoot, sp.pmm
    ensures !stopped ==> sp.Valid() && Grown(old(sp.ThePool()), sp.ThePool(), taken)
    ensures !stopped ==> err == if GoodUpTo(targets, plan, |plan| - 1) then ESUCCESS else EFAULT
    ensures !stopped && err == ESUCCESS ==>
      MappedUpTo(old(sp.Direct()), old(sp.TheRoots()), sp.Direct(), sp.TheRoots(), targets, plan, |plan| - 1)
    ensures !stopped && err != ESUCCESS ==>
      FailedAt(old(sp.Direct()), old(sp.TheRoots()), sp.Direct(), sp.TheRoots(), targets, plan, chunk, at)
    ensures if stopped then Unpaid(old(sp.ThePool()), cost) else Paid(old(sp.ThePool()), sp.ThePool(), taken, cost)
  {
    var cur: nat, left: nat := paddr, size;
    ghost var m0, r0, pool0, k, done := sp.Direct(), sp.TheRoots(), sp.ThePool(), 0, 0;
    stopped, taken, at, chunk := false, [], 0, 0;
    ThroughStart(sp, targets, plan, costs);
    while cur < end
      invariant 0 <= k < |plan| && cur == plan[k].cur && left == plan[k].left
      invariant Through(sp, targets, plan, k, m0, r0, pool0, taken, costs, done)
      decreases |plan| - k
    {
      var to, mfn, next, rest := PickChunk(cur, left, paddr, size, end, plan, k);
      chunk := k;
      stopped, err, taken, at := MapRound(sp, targets, mfn, to, plan, k, f, end / 4096, m0, r0, pool0, taken, costs,
                                          done, cost);
      if stopped {
        return;
      }
      if err != ESUCCESS {
        return;
      }
      cur, left, k, done := next, rest, k + 1, done + costs[k];
    }
    PlanEnds(plan, paddr, size, end, k);
    ThroughEnd(sp, targets, plan, k, m0, r0, pool0, taken, costs, done);
    err := ESUCCESS;
  }

  /** What holds at the head of the loop. */
  ghost predicate ThroughAs(state: State, sp: AddressSpaces, targets: seq<Target>, plan: seq<Cut>, k: nat, m0: Mem,
                            r0: Roots, pool0: Pool, taken: seq<Frame>, costs: seq<nat>, done: nat)
    reads sp, sp.pmm
  {
    match state case InLoop =>
      && sp.Valid() && Grown(pool0, sp.ThePool(), taken) && k < |plan| == |costs|
      && GoodUpTo(targets, plan, k) && MappedUpTo(m0, r0, sp.Direct(), sp.TheRoots(), targets, plan, k)
      && TablesLeft(m0, r0, sp.Direct(), sp.TheRoots(), targets, plan, k)
      && CostsAre(costs, m0, r0, targets, plan) && done == Sum(costs, k) && Paid(pool0, sp.ThePool(), taken, done)
  }

  ghost predicate Through(sp: AddressSpaces, targets: seq<Target>, plan: seq<Cut>, k: nat, m0: Mem, r0: Roots,
                          pool0: Pool, taken: seq<Frame>, costs: seq<nat>, done: nat)
    reads sp, sp.pmm
  {
    forall state :: ThroughAs(state, sp, targets, plan, k, m0, r0, pool0, taken, costs, done)
  }

  lemma ThroughStart(sp: AddressSpaces, targets: seq<Target>, plan: seq<Cut>, costs: seq<nat>)
    requires sp.Valid() && |plan| >= 1 && CostsAre(costs, sp.Direct(), sp.TheRoots(), targets, plan)
    ensures Through(sp, targets, plan, 0, sp.Direct(), sp.TheRoots(), sp.ThePool(), [], costs, 0)
  {
    StartRange(sp.Direct(), sp.TheRoots(), targets, plan);
    GrownNone(sp.ThePool());
    sp.FreeLists();
  }

  lemma ThroughEnd(sp: AddressSpaces, targets: seq<Target>, plan: seq<Cut>, k: nat, m0: Mem, r0: Roots, pool0: Pool,
                   taken: seq<Frame>, costs: seq<nat>, done: nat)
    requires Through(sp, targets, plan, k, m0, r0, pool0, taken, costs, done)
    ensures sp.Valid() && Grown(pool0, sp.ThePool(), taken) && k < |plan| == |costs| && GoodUpTo(targets, plan, k)
    ensures MappedUpTo(m0, r0, sp.Direct(), sp.TheRoots(), targets, plan, k)
    ensures done == Sum(costs, k) && Paid(pool0, sp.ThePool(), taken, done)
  {
    assert ThroughAs(InLoop, sp, targets, plan, k, m0, r0, pool0, taken, costs, done);
  }

  /** One round of it, in what it adds up to. */
  method MapRound(sp: AddressSpaces, targets: seq<Target>, page: nat, to: nat, ghost plan: seq<Cut>, ghost k: nat,
                  ghost f: Fixed, ghost limit: nat, ghost m0: Mem, ghost r0: Roots, ghost pool0: Pool,
                  ghost taken: seq<Frame>, ghost costs: seq<nat>, ghost done: nat, ghost cost: nat)
    returns (stopped: bool, err: Errno, ghost taken': seq<Frame>, ghost at: nat)
    requires Places(f, sp.windowIx, sp.entryIx) && Ready(m0, r0, targets, plan, f, limit)
    requires ChunkOf(plan, k) && page == plan[k].page && to == plan[k].to
    requires plan[k + 1].page <= limit <= 0x10_0000_0000_0000 && |costs| == |plan| && cost == Sum(costs, |plan| - 1)
    requires Through(sp, targets, plan, k, m0, r0, pool0, taken, costs, done)
    modifies sp`mem, sp`pos, sp`userRoot, sp.pmm
    ensures stopped ==> Unpaid(pool0, cost)
    ensures !stopped ==> err == ESUCCESS || err == EFAULT
    ensures !stopped && err == ESUCCESS ==>
      Through(sp, targets, plan, k + 1, m0, r0, pool0, taken', costs, done + costs[k])
    ensures !stopped && err != ESUCCESS ==>
      && sp.Valid() && Grown(pool0, sp.ThePool(), taken') && Paid(pool0, sp.ThePool(), taken', cost)
      && FailedAt(m0, r0, sp.Direct(), sp.TheRoots(), targets, plan, k, at) && !GoodUpTo(targets, plan, |plan| - 1)
  {
    assert ThroughAs(InLoop, sp, targets, plan, k, m0, r0, pool0, taken, costs, done);
    ghost var pool1, more, step := sp.ThePool(), [], costs[k];
    SumNext(costs, k, done);
    SumGrows(costs, k + 1, |plan| - 1, done + step, cost);
    ghost var lacks := CostIs(costs, m0, r0, targets, plan, k);
    taken' := taken;
    stopped, err, more, at := MapNext(sp, targets, page, to, plan, k, f, limit, m0, r0, lacks, step);
    if stopped {
      UnpaidAfter(pool0, pool1, taken, done, step, cost);
    } else {
      GrownTrans(pool0, pool1, sp.ThePool(), taken, more);
      PaidMore(pool0, pool1, sp.ThePool(), taken, more, done, step);
      taken' := taken + more;
    }
  }

  /** The way vmap_range cuts the range. */
  ghost predicate PlanFor(plan: seq<Cut>, paddr: nat, size: nat) {
    IsPlan(plan, paddr, size, RangeEnd(paddr, size))
  }

  lemma PlanExists(paddr: nat, size: nat) returns (plan: seq<Cut>)
    requires paddr < 0x1_0000_0000_0000_0000 && size < 0x1_0000_0000_0000_0000 && paddr < RangeEnd(paddr, size)
    ensures PlanFor(plan, paddr, size) && plan == Plan(paddr, size, RangeEnd(paddr, size))
  {
    CuttingStarts(paddr, size);
    PlanTiles(paddr, size, RangeEnd(paddr, size), paddr, size);
    plan := Plan(paddr, size, RangeEnd(paddr, size));
  }

  /** Every chunk of the range is good at every target. */
  ghost predicate Mappable(targets: seq<Target>, plan: seq<Cut>) {
    |plan| >= 1 && GoodUpTo(targets, plan, |plan| - 1)
  }

  /** All chunks are mapped at all targets, and no other address changed. */
  ghost predicate RangeDone(m0: Mem, r0: Roots, m: Mem, r: Roots, targets: seq<Target>, plan: seq<Cut>) {
    |plan| >= 1 && MappedUpTo(m0, r0, m, r, targets, plan, |plan| - 1)
  }

  /**
    vmap_range, for a range cut as `plan` says.  Refused exactly if there is
    no target or the rounded end is not behind the start; fails exactly if one
    of its chunks does at one of the targets, with everything before that
    mapped and nothing else changed; otherwise every page from floor(paddr) to
    round_up(paddr + size) is mapped at every target, in blocks aligned to
    their own size, and no other address changes.  It takes at most the page
    tables that the chunks lack at the targets, and stops only if there are
    such tables and not more free 4K frames than that.
   */
  method VmapRange(sp: AddressSpaces, paddr: nat, size: nat, targets: seq<Target>, ghost f: Fixed, ghost plan: seq<Cut>)
    returns (stopped: bool, err: Errno, ghost taken: seq<Frame>, ghost chunk: nat, ghost at: nat)
    requires sp.Valid() && Places(f, sp.windowIx, sp.entryIx)
    requires paddr < RangeEnd(paddr, size) ==>
      && RangeEnd(paddr, size) <= 0x10_0000_0000_0000 && PlanFor(plan, paddr, size)
      && Ready(sp.Direct(), sp.TheRoots(), targets, plan, f, RangeEnd(paddr, size) / 4096)
    modifies sp`mem, sp`pos, sp`userRoot, sp.pmm
    ensures !stopped ==> sp.Valid() && Grown(old(sp.ThePool()), sp.ThePool(), taken)
    ensures targets == [] || RangeEnd(paddr, size) <= paddr ==>
      !stopped && err == EINVAL && sp.Direct() == old(sp.Direct()) && sp.TheRoots() == old(sp.TheRoots())
    ensures !stopped && targets != [] && paddr < RangeEnd(paddr, size) ==>
      err == if Mappable(targets, plan) then ESUCCESS else EFAULT
    ensures !stopped && err == ESUCCESS ==>
      RangeDone(old(sp.Direct()), old(sp.TheRoots()), sp.Direct(), sp.TheRoots(), targets, plan)
    ensures !stopped && err == EFAULT ==>
      FailedAt(old(sp.Direct()), old(sp.TheRoots()), sp.Direct(), sp.TheRoots(), targets, plan, chunk, at)
    ensures paddr < RangeEnd(paddr, size) ==>
      var cost := old(RangeCost(sp.Direct(), sp.TheRoots(), targets, plan));
      if stopped then Unpaid(old(sp.ThePool()), cost) else Paid(old(sp.ThePool()), sp.ThePool(), taken, cost)
  {
    var end := RangeEnd(paddr, size);
    sp.FreeLists();
    if targets == [] || end <= paddr {
      GrownNone(sp.ThePool());
      stopped, err, taken, chunk, at := false, EINVAL, [], 0, 0;
      return;
    }
    ghost var costs := CostsStart(sp.Direct(), sp.TheRoots(), targets, plan);
    stopped, err, taken, chunk, at := MapLoop(sp, paddr, size, end, targets, f, plan, costs, Sum(costs, |plan| - 1));
  }

  /** In terms of the range itself. */
  lemma RangeIsMapped(m0: Mem, r0: Roots, m: Mem, r: Roots, targets: seq<Target>, plan: seq<Cut>, paddr: nat, size: nat)
    requires PlanFor(plan, paddr, size) && RangeDone(m0, r0, m, r, targets, plan)
    ensures forall i :: 0 <= i < |targets| ==>
      MappedTo(m, r, targets[i].alias, paddr / 4096, RangeEnd(paddr, size) / 4096, targets[i].leaf.rw)
    ensures forall i :: 0 <= i < |targets| ==>
      Granted(m, r, targets[i], paddr / 4096, RangeEnd(paddr, size) / 4096)
    ensures OthersSame(m0, r0, m, r, targets, paddr / 4096, RangeEnd(paddr, size) / 4096)
  {
    forall i | 0 <= i < |targets|
      ensures MappedTo(m, r, targets[i].alias, paddr / 4096, RangeEnd(paddr, size) / 4096, targets[i].leaf.rw)
      ensures Granted(m, r, targets[i], paddr / 4096, RangeEnd(paddr, size) / 4096)
    {
      assert Reached(m, r, targets[i], plan, |plan| - 1);
    }
  }
}
