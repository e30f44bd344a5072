/**
  Which ranges vmap_range can map in which area of the kernel's memory layout
  (include/arch/x86/page.h), in terms of its arguments.
 */
module Areas {
  import opened Address
  import opened Arithmetic
  import opened PageTable
  import opened PageTables
  import opened Cutting
  import opened Ranges
  import opened Unmaps

  predicate IsArea(a: Alias) {
    a.base in {KERNEL_AREA.base, IDENT_AREA.base, MAP_AREA.base, USER_AREA.base}
  }

  /** The page whose address in the area is 0; the pages behind it have wrapped around. */
  function ZeroPage(a: Alias): nat {
    PageAt(a, 0)
  }

  /** The first page whose address in the area is not canonical. */
  function CanonicalEnd(a: Alias): nat {
    if a.base == USER_AREA.base then 0x7_FFFF_FC00 else ZeroPage(a) + 0x8_0000_0000
  }

  // ---- one chunk -------------------------------------------------------

  lemma Aligned1g(base: nat, b: nat, page: nat, k: nat)
    requires base == 0x4000_0000 * b && page == 0x4_0000 * k
    ensures (base + 4096 * page) % 0x4000_0000 == 0
  {
    assert base + 4096 * page == 0x4000_0000 * (b + k);
  }

  lemma Aligned2m(base: nat, b: nat, page: nat, k: nat)
    requires base == 0x20_0000 * b && page == 512 * k
    ensures (base + 4096 * page) % 0x20_0000 == 0
  {
    assert base + 4096 * page == 0x20_0000 * (b + k);
  }

  lemma Aligned4k(base: nat, b: nat, page: nat)
    requires base == 4096 * b
    ensures (base + 4096 * page) % 4096 == 0
  {
    assert base + 4096 * page == 4096 * (b + page);
  }

  /** In the areas that start on a 1G boundary every aligned chunk is aligned. */
  lemma AlignedChunk(base: nat, b: nat, page: nat, to: nat)
    requires base == 0x4000_0000 * b && 1 <= to <= 3 && PageAligned(page, to)
    ensures AlignedTo(base + 4096 * page, to)
  {
    match to {
      case 1 => Aligned1g(base, b, page, page / 0x4_0000);
      case 2 => Aligned2m(base, 512 * b, page, page / 512);
      case 3 => Aligned4k(base, 0x4_0000 * b, page);
    }
  }

  /** The user area starts at 4M, which is no 1G boundary. */
  lemma UserChunk(page: nat, to: nat)
    requires 1 <= to <= 3 && PageAligned(page, to)
    ensures AlignedTo(0x40_0000 + 4096 * page, to) <==> to != 1
  {
    match to {
      case 1 => UserGig(page, page / 0x4_0000);
      case 2 => Aligned2m(0x40_0000, 2, page, page / 512);
      case 3 => Aligned4k(0x40_0000, 1024, page);
    }
  }

  lemma UserGig(page: nat, k: nat)
    requires page == 0x4_0000 * k
    ensures (0x40_0000 + 4096 * page) % 0x4000_0000 == 0x40_0000
  {
    assert 0x40_0000 + 4096 * page == 0x4000_0000 * k + 0x40_0000;
  }

  /** Addresses stay aligned when they wrap. */
  lemma AlignedWrap(x: nat, to: nat)
    requires 1 <= to <= 3 && x < 0x2_0000_0000_0000_0000
    ensures AlignedTo(x % 0x1_0000_0000_0000_0000, to) <==> AlignedTo(x, to)
  {
    if x >= 0x1_0000_0000_0000_0000 {
      AlignedBelow(x, x - 0x1_0000_0000_0000_0000, to);
    }
  }

  lemma AlignedBelow(x: nat, y: nat, to: nat)
    requires 1 <= to <= 3 && x == y + 0x1_0000_0000_0000_0000
    ensures AlignedTo(y, to) <==> AlignedTo(x, to)
  {
    match to {
      case 1 => SameRest(x, y, 0x4000_0000, 0x4_0000_0000);
      case 2 => SameRest(x, y, 0x20_0000, 0x800_0000_0000);
      case 3 => SameRest(x, y, 0x1000, 0x10_0000_0000_0000);
    }
  }

  lemma SameRest(x: nat, y: nat, m: nat, c: nat)
    requires m > 0 && x == y + m * c
    ensures x % m == y % m
  {
    var q, r := y / m, y % m;
    assert m * (q + c) == m * q + m * c;
    DivisionUnique(x, m, q + c, r);
  }

  lemma AreaAligned(a: Alias, page: nat, to: nat)
    requires IsArea(a) && 1 <= to <= 3 && PageAligned(page, to) && page < 0x10_0000_0000_0000
    ensures AlignedTo(VaOf(a, page), to) <==> (a.base == USER_AREA.base ==> to != 1)
  {
    AlignedWrap(a.base + 4096 * page, to);
    if a.base == USER_AREA.base {
      UserChunk(page, to);
    } else if a.base == KERNEL_AREA.base {
      AlignedChunk(a.base, 0x3_FFFF_FFFE, page, to);
    } else if a.base == MAP_AREA.base {
      AlignedChunk(a.base, 0x3_FFFE_0000, page, to);
    } else {
      AlignedChunk(a.base, 0, page, to);
    }
  }

  lemma AreaCanonical(a: Alias, page: nat)
    requires IsArea(a) && page < 0x100_0000_0000
    ensures Canonical(VaOf(a, page)) <==> page < CanonicalEnd(a)
    ensures VaOf(a, page) == 0 <==> page == ZeroPage(a)
  {
    ZeroPages(a);
    WrapsOnce(a.base, 4096 * page);
    if a.base == USER_AREA.base || a.base == IDENT_AREA.base {
      assert a.base + 4096 * page < 0x1_0000_0000_0000_0000;
    } else if a.base == KERNEL_AREA.base {
      assert page < 0x8_0000 <==> a.base + 4096 * page < 0x1_0000_0000_0000_0000;
    } else {
      assert page < 0x8_0000_0000 <==> a.base + 4096 * page < 0x1_0000_0000_0000_0000;
    }
  }

  lemma ZeroPages(a: Alias)
    requires IsArea(a)
    ensures a.base == KERNEL_AREA.base ==> ZeroPage(a) == 0x8_0000
    ensures a.base == IDENT_AREA.base ==> ZeroPage(a) == 0
    ensures a.base == MAP_AREA.base ==> ZeroPage(a) == 0x8_0000_0000
    ensures a.base == USER_AREA.base ==> ZeroPage(a) == 0xF_FFFF_FFFF_FC00
  {
  }

  lemma WrapsOnce(base: nat, x: nat)
    requires base < 0x1_0000_0000_0000_0000 && x < 0x1_0000_0000_0000_0000
    ensures (base + x) % 0x1_0000_0000_0000_0000 ==
            if base + x < 0x1_0000_0000_0000_0000 then base + x else base + x - 0x1_0000_0000_0000_0000
  {
  }

  lemma ChunkGood(a: Alias, page: nat, to: nat)
    requires IsArea(a) && 1 <= to <= 3 && PageAligned(page, to) && page < 0x100_0000_0000
    ensures Good(a, page, to) <==>
            page != ZeroPage(a) && page < CanonicalEnd(a) && (a.base == USER_AREA.base ==> to != 1)
  {
    AreaAligned(a, page, to);
    AreaCanonical(a, page);
  }

  // ---- a whole range ---------------------------------------------------

  lemma ChunkOfPlan(plan: seq<Cut>, paddr: nat, size: nat, end: nat, k: nat)
    requires IsPlan(plan, paddr, size, end) && k < |plan| - 1
    ensures var c := plan[k]; 1 <= c.to <= 3 && PageAligned(c.page, c.to) && c.page + PagesAt(c.to) <= end / 4096
    ensures paddr / 4096 <= plan[k].page
  {
    assert StepOk(plan, k, end);
    PlanGrows(plan, paddr, size, end, k);
  }

  ghost predicate AllGood(a: Alias, plan: seq<Cut>) {
    forall k :: 0 <= k < |plan| - 1 ==> plan[k].to <= 3 && Good(a, plan[k].page, plan[k].to)
  }

  /** Every page of the range lies in a chunk. */
  lemma {:induction false} ChunkWith(plan: seq<Cut>, paddr: nat, size: nat, end: nat, p: nat, n: nat) returns (k: nat)
    requires IsPlan(plan, paddr, size, end) && n < |plan| && paddr / 4096 <= p < plan[n].page
    ensures k < n && plan[k].page <= p < plan[k].page + PagesAt(plan[k].to)
  {
    assert StepOk(plan, n - 1, end);
    if plan[n - 1].page <= p {
      k := n - 1;
    } else {
      k := ChunkWith(plan, paddr, size, end, p, n - 1);
    }
  }

  /** No chunk reaches over a page on the boundary of its size. */
  lemma StartsBehind(page: nat, to: nat, p: nat, z: nat)
    requires 1 <= to <= 3 && PageAligned(page, to) && page <= p < page + PagesAt(to)
    requires PageAligned(z, to) && z <= p
    ensures z <= page
  {
    match to {
      case 1 => assert page / 0x4_0000 == p / 0x4_0000 && z / 0x4_0000 <= p / 0x4_0000;
      case 2 => assert page / 512 == p / 512 && z / 512 <= p / 512;
      case 3 =>
    }
  }

  /** The range can be mapped at the alias, by its address and size alone. */
  predicate RangeFits(a: Alias, paddr: nat, size: nat) {
    var first, limit := paddr / 4096, RangeEnd(paddr, size) / 4096;
    && !(first <= ZeroPage(a) < limit) && limit <= CanonicalEnd(a)
    && (a.base == USER_AREA.base ==> !HoldsGig(paddr, size))
  }

  lemma FitsIsGood(a: Alias, plan: seq<Cut>, paddr: nat, size: nat, end: nat)
    requires IsArea(a) && IsPlan(plan, paddr, size, end) && end <= 0x10_0000_0000_0000 && end == RangeEnd(paddr, size)
    requires RangeFits(a, paddr, size) && (CutsGig(plan) <==> HoldsGig(paddr, size))
    ensures AllGood(a, plan)
  {
    forall k | 0 <= k < |plan| - 1 ensures plan[k].to <= 3 && Good(a, plan[k].page, plan[k].to) {
      ChunkOfPlan(plan, paddr, size, end, k);
      ChunkGood(a, plan[k].page, plan[k].to);
    }
  }

  lemma GoodFits(a: Alias, plan: seq<Cut>, paddr: nat, size: nat, end: nat)
    requires IsArea(a) && IsPlan(plan, paddr, size, end) && end <= 0x10_0000_0000_0000 && end == RangeEnd(paddr, size)
    requires AllGood(a, plan) && (CutsGig(plan) <==> HoldsGig(paddr, size)) && paddr < end
    ensures RangeFits(a, paddr, size)
  {
    var first, limit := paddr / 4096, end / 4096;
    forall k | 0 <= k < |plan| - 1
      ensures plan[k].page != ZeroPage(a) && plan[k].page < CanonicalEnd(a)
      ensures a.base == USER_AREA.base ==> plan[k].to != 1
    {
      ChunkOfPlan(plan, paddr, size, end, k);
      ChunkGood(a, plan[k].page, plan[k].to);
    }
    if first <= ZeroPage(a) < limit {
      NoneOver(a, plan, paddr, size, end, ZeroPage(a), ZeroPage(a));
    }
    if limit > CanonicalEnd(a) {
      PageInRange(paddr, end);
      NoneOver(a, plan, paddr, size, end, CanonicalEnd(a), limit - 1);
    }
  }

  lemma PageInRange(paddr: nat, end: nat)
    requires paddr < end && end % 4096 == 0
    ensures paddr / 4096 <= end / 4096 - 1
  {
  }

  /** The chunk that holds page `p` starts at the boundary `z` or behind it. */
  lemma NoneOver(a: Alias, plan: seq<Cut>, paddr: nat, size: nat, end: nat, z: nat, p: nat)
    requires IsArea(a) && IsPlan(plan, paddr, size, end) && (z == ZeroPage(a) || z == CanonicalEnd(a))
    requires paddr / 4096 <= p < end / 4096 && z <= p && p < 0x100_0000_0000
    requires forall k :: 0 <= k < |plan| - 1 ==> a.base == USER_AREA.base ==> plan[k].to != 1
    ensures exists k :: 0 <= k < |plan| - 1 && z <= plan[k].page <= p
  {
    var k := ChunkWith(plan, paddr, size, end, p, |plan| - 1);
    ChunkOfPlan(plan, paddr, size, end, k);
    BoundaryAligned(a, z, plan[k].to);
    StartsBehind(plan[k].page, plan[k].to, p, z);
  }

  lemma BoundaryAligned(a: Alias, z: nat, to: nat)
    requires IsArea(a) && (z == ZeroPage(a) || z == CanonicalEnd(a)) && 1 <= to <= 3
    requires a.base == USER_AREA.base ==> to != 1
    ensures PageAligned(z, to)
  {
  }

  /**
    A range of physical addresses is mapped without an error exactly if at
    each alias it does not hold the page that has address 0 there, its
    addresses are canonical, and it does not hold a whole aligned 1G page
    where a mapping at user addresses is asked for.
   */
  lemma MappableIff(targets: seq<Target>, plan: seq<Cut>, paddr: nat, size: nat)
    requires PlanFor(plan, paddr, size) && paddr < RangeEnd(paddr, size) <= 0x10_0000_0000_0000
    requires CutsGig(plan) <==> HoldsGig(paddr, size)
    requires forall i :: 0 <= i < |targets| ==> IsArea(targets[i].alias)
    ensures Mappable(targets, plan) <==> forall i :: 0 <= i < |targets| ==> RangeFits(targets[i].alias, paddr, size)
  {
    var end := RangeEnd(paddr, size);
    forall i | 0 <= i < |targets|
      ensures AllGood(targets[i].alias, plan) <==> RangeFits(targets[i].alias, paddr, size)
    {
      if AllGood(targets[i].alias, plan) {
        GoodFits(targets[i].alias, plan, paddr, size, end);
      }
      if RangeFits(targets[i].alias, paddr, size) {
        FitsIsGood(targets[i].alias, plan, paddr, size, end);
      }
    }
    forall k | 0 <= k < |plan| - 1 ensures plan[k].to <= 3 {
      ChunkOfPlan(plan, paddr, size, end, k);
    }
    TargetsGood(targets, plan);
  }

  /** The range is mapped at the addresses of the area itself, without wrapping around. */
  predicate InArea(a: Alias, paddr: nat, size: nat) {
    RangeEnd(paddr, size) <= 4096 * ZeroPage(a)
  }

  /**
    Where a range that is mapped without an error ends up: at its own
    addresses of the area if it ends at the page with address 0, and at low
    addresses otherwise.  It crosses the end of the address space, so that
    vunmap_range passes it over, exactly if it ends right there.
   */
  lemma MappedWhere(a: Alias, paddr: nat, size: nat, p: nat)
    requires IsArea(a) && a.base > 0 && RangeFits(a, paddr, size) && paddr < RangeEnd(paddr, size)
    requires paddr / 4096 <= p < RangeEnd(paddr, size) / 4096
    ensures VaOf(a, p) == if InArea(a, paddr, size) then a.base + 4096 * p else 4096 * (p - ZeroPage(a))
    ensures Crosses(a, paddr / 4096, RangeEnd(paddr, size) / 4096) <==> RangeEnd(paddr, size) == 4096 * ZeroPage(a)
  {
    ZeroPages(a);
    WrapsOnce(a.base, 4096 * p);
    WholePages(paddr, size);
  }

  lemma WholePages(paddr: nat, size: nat)
    ensures RangeEnd(paddr, size) == 4096 * (RangeEnd(paddr, size) / 4096)
  {
    var n := ((paddr + size) % 0x1_0000_0000_0000_0000 + 4095) % 0x1_0000_0000_0000_0000 / 4096;
    assert RangeEnd(paddr, size) == 4096 * n;
  }

  /** The plan of a range has a 1G page exactly if the range holds one. */
  lemma PlanGig(plan: seq<Cut>, paddr: nat, size: nat)
    requires paddr < 0x1_0000_0000_0000_0000 && size < 0x1_0000_0000_0000_0000 && paddr < RangeEnd(paddr, size)
    requires plan == Plan(paddr, size, RangeEnd(paddr, size))
    ensures PlanFor(plan, paddr, size) && (CutsGig(plan) <==> HoldsGig(paddr, size))
  {
    var end := RangeEnd(paddr, size);
    CuttingStarts(paddr, size);
    PlanTiles(paddr, size, end, paddr, size);
    GigFrom(paddr, size, end, paddr, size);
  }

  lemma TargetsGood(targets: seq<Target>, plan: seq<Cut>)
    requires |plan| >= 1 && forall k :: 0 <= k < |plan| - 1 ==> plan[k].to <= 3
    ensures Mappable(targets, plan) <==> forall i :: 0 <= i < |targets| ==> AllGood(targets[i].alias, plan)
  {
    if Mappable(targets, plan) {
      forall i, k | 0 <= i < |targets| && 0 <= k < |plan| - 1 ensures Good(targets[i].alias, plan[k].page, plan[k].to) {
        assert GoodAt(targets, plan[k], |targets|);
      }
    }
    if forall i :: 0 <= i < |targets| ==> AllGood(targets[i].alias, plan) {
      forall k | 0 <= k < |plan| - 1 ensures GoodAt(targets, plan[k], |targets|) {
        forall i | 0 <= i < |targets| ensures Good(targets[i].alias, plan[k].page, plan[k].to) {
          assert AllGood(targets[i].alias, plan);
        }
      }
    }
  }

  /** The place of an alias in the order of _vmap_range. */
  function Rank(a: Alias): nat {
    if a.space == Kernel then
      if a.base == KERNEL_AREA.base then 0 else if a.base == IDENT_AREA.base then 1
      else if a.base == MAP_AREA.base then 2 else 3
    else
      if a.base == USER_AREA.base then 4 else if a.base == IDENT_AREA.base then 5
      else if a.base == KERNEL_AREA.base then 6 else 7
  }

  ghost function AliasesOf(targets: seq<Target>): set<Alias> {
    set t | t in targets :: t.alias
  }

  /** The targets are areas, in their order, from rank `lo` up to `hi`. */
  ghost predicate Rising(targets: seq<Target>, lo: nat, hi: nat) {
    && (forall i :: 0 <= i < |targets| ==> IsArea(targets[i].alias) && lo <= Rank(targets[i].alias) < hi)
    && forall i, j :: 0 <= i < j < |targets| ==> Rank(targets[i].alias) < Rank(targets[j].alias)
  }

  lemma RisingOne(lo: nat, asked: bool, t: Target)
    requires IsArea(t.alias) && Rank(t.alias) == lo
    ensures Rising(Wanted(asked, t), lo, lo + 1) && AliasesOf(Wanted(asked, t)) == If(asked, t.alias)
  {
  }

  ghost function If(asked: bool, a: Alias): set<Alias> {
    if asked then {a} else {}
  }

  lemma RisingFour(lo: nat, asked: seq<bool>, t: seq<Target>, a: seq<Target>, b: seq<Target>, c: seq<Target>,
                   d: seq<Target>)
    requires |asked| == |t| == 4 && forall i :: 0 <= i < 4 ==> IsArea(t[i].alias) && Rank(t[i].alias) == lo + i
    requires a == Wanted(asked[0], t[0]) && b == Wanted(asked[1], t[1])
    requires c == Wanted(asked[2], t[2]) && d == Wanted(asked[3], t[3])
    ensures Rising(a + b + c + d, lo, lo + 4)
    ensures AliasesOf(a + b + c + d)
         == If(asked[0], t[0].alias) + If(asked[1], t[1].alias) + If(asked[2], t[2].alias) + If(asked[3], t[3].alias)
  {
    RisingOne(lo, asked[0], t[0]);
    RisingOne(lo + 1, asked[1], t[1]);
    RisingOne(lo + 2, asked[2], t[2]);
    RisingOne(lo + 3, asked[3], t[3]);
    RisingJoin(a, b, lo, lo + 1, lo + 2);
    RisingJoin(a + b, c, lo, lo + 2, lo + 3);
    RisingJoin(a + b + c, d, lo, lo + 3, lo + 4);
  }

  lemma RisingJoin(a: seq<Target>, b: seq<Target>, lo: nat, mid: nat, hi: nat)
    requires Rising(a, lo, mid) && Rising(b, mid, hi) && lo <= mid <= hi
    ensures Rising(a + b, lo, hi) && AliasesOf(a + b) == AliasesOf(a) + AliasesOf(b)
  {
  }

  lemma KernelTargetsRise(f: VmapFlags, leaf: Flags)
    ensures Rising(KernelTargets(f, leaf), 0, 4) && AliasesOf(KernelTargets(f, leaf)) == KernelAsked(f)
  {
    var k, i, m := Target(KERNEL_AREA, leaf, false), Target(IDENT_AREA, leaf, false), Target(MAP_AREA, leaf, false);
    var u := Target(Alias(Kernel, USER_AREA.base), leaf.(user := f.kernelUserAccess), false);
    var user := f.kernelUser || f.kernelUserAccess;
    RisingFour(0, [f.kernel, f.ident, f.kernelMap, user], [k, i, m, u], Wanted(f.kernel, k), Wanted(f.ident, i),
               Wanted(f.kernelMap, m), Wanted(user, u));
  }

  lemma UserTargetsRise(f: VmapFlags, leaf: Flags)
    ensures Rising(UserTargets(f, leaf), 4, 8) && AliasesOf(UserTargets(f, leaf)) == UserAsked(f)
  {
    var u := Target(USER_AREA, leaf.(user := true), true);
    var i := Target(Alias(User, IDENT_AREA.base), leaf.(user := false), false);
    var k := Target(Alias(User, KERNEL_AREA.base), leaf.(user := false), false);
    var m := Target(Alias(User, MAP_AREA.base), leaf.(user := false), false);
    RisingFour(4, [f.user, f.userIdent, f.userKernel, f.userKernelMap], [u, i, k, m], Wanted(f.user, u),
               Wanted(f.userIdent, i), Wanted(f.userKernel, k), Wanted(f.userKernelMap, m));
  }

  /** The aliases the bits of vmap_flags stand for. */
  ghost function KernelAsked(f: VmapFlags): set<Alias> {
    If(f.kernel, KERNEL_AREA) + If(f.ident, IDENT_AREA) + If(f.kernelMap, MAP_AREA) +
    If(f.kernelUser || f.kernelUserAccess, Alias(Kernel, USER_AREA.base))
  }

  ghost function UserAsked(f: VmapFlags): set<Alias> {
    If(f.user, USER_AREA) + If(f.userIdent, Alias(User, IDENT_AREA.base)) +
    If(f.userKernel, Alias(User, KERNEL_AREA.base)) + If(f.userKernelMap, Alias(User, MAP_AREA.base))
  }

  /** The distance of two aliases in pages, around the end of the address space if that is shorter. */
  function Gap(a: Alias, b: Alias): nat {
    (if Above(a, b) < Above(b, a) then Above(a, b) else Above(b, a)) / 4096
  }

  /** Two of the aliases lie in one address space and closer to each other than a range of `pages`. */
  ghost predicate Clash(aliases: set<Alias>, pages: nat) {
    exists a, b :: a in aliases && b in aliases && TooClose(a, b, pages)
  }

  predicate TooClose(a: Alias, b: Alias, pages: nat) {
    a != b && a.space == b.space && Gap(a, b) < pages
  }

  lemma CloseIsNotApart(a: Alias, b: Alias, first: nat, limit: nat)
    requires a != b && first <= limit
    ensures AliasesApart(a, b, first, limit) <==> !TooClose(a, b, limit - first)
  {
    AboveOnBoundary(a, b);
    AboveOnBoundary(b, a);
  }

  lemma AboveOnBoundary(a: Alias, b: Alias)
    ensures Above(a, b) % 4096 == 0
  {
    var k, l := a.base / 4096, b.base / 4096;
    assert b.base - a.base == 4096 * (l - k);
  }

  /** The gaps between the areas: 4M between identity and user addresses, otherwise at least 2G. */
  lemma AreaGaps(a: Alias, b: Alias)
    requires IsArea(a) && IsArea(b) && a.base != b.base
    ensures if {a.base, b.base} == {IDENT_AREA.base, USER_AREA.base} then Gap(a, b) == 1024 else Gap(a, b) >= 0x8_0000
  {
  }

  lemma RisingApart(targets: seq<Target>, first: nat, limit: nat)
    requires Rising(targets, 0, 8) && first <= limit
    ensures Apart(targets, first, limit) <==> !Clash(AliasesOf(targets), limit - first)
  {
    forall i, j | 0 <= i < j < |targets|
      ensures AliasesApart(targets[i].alias, targets[j].alias, first, limit)
              <==> !TooClose(targets[i].alias, targets[j].alias, limit - first)
      ensures TooClose(targets[i].alias, targets[j].alias, limit - first) ==> Clash(AliasesOf(targets), limit - first)
    {
      var a, b := targets[i].alias, targets[j].alias;
      CloseIsNotApart(a, b, first, limit);
      assert a in AliasesOf(targets) && b in AliasesOf(targets);
    }
    if Clash(AliasesOf(targets), limit - first) {
      ClashAt(targets, limit - first);
    }
  }

  lemma ClashAt(targets: seq<Target>, pages: nat)
    requires Rising(targets, 0, 8) && Clash(AliasesOf(targets), pages)
    ensures exists i, j :: 0 <= i < j < |targets| && TooClose(targets[i].alias, targets[j].alias, pages)
  {
    var a, b :| a in AliasesOf(targets) && b in AliasesOf(targets) && TooClose(a, b, pages);
    var i := IndexOf(targets, a);
    var j := IndexOf(targets, b);
    if i > j {
      assert TooClose(b, a, pages);
    }
  }

  lemma IndexOf(targets: seq<Target>, a: Alias) returns (i: nat)
    requires a in AliasesOf(targets)
    ensures i < |targets| && targets[i].alias == a
  {
    var t :| t in targets && t.alias == a;
    i :| 0 <= i < |targets| && targets[i] == t;
  }

  /**
    The aliases asked for with vmap_flags are apart exactly if no two of them
    lie in one address space and closer than the range is long.
   */
  lemma TargetsApart(f: VmapFlags, leaf: Flags, first: nat, limit: nat)
    requires first <= limit
    ensures Apart(TargetsOf(f, leaf), first, limit) <==> !Clash(KernelAsked(f) + UserAsked(f), limit - first)
  {
    KernelTargetsRise(f, leaf);
    UserTargetsRise(f, leaf);
    RisingJoin(KernelTargets(f, leaf), UserTargets(f, leaf), 0, 4, 8);
    RisingApart(TargetsOf(f, leaf), first, limit);
  }

  // ---- rights ----------------------------------------------------------

  /** The page is mapped in the area and writable exactly as asked; user mode can or cannot access it as told. */
  ghost predicate RightsAt(m: Mem, r: Roots, a: Alias, p: nat, rw: bool, closed: bool, open: bool) {
    var w := Found(m, r, a, p);
    w.Page? && w.rw == rw && (closed ==> !w.user) && (open ==> w.user)
  }

  lemma TargetRights(m0: Mem, r0: Roots, m: Mem, r: Roots, targets: seq<Target>, plan: seq<Cut>, paddr: nat, size: nat,
                     p: nat, t: Target)
    requires PlanFor(plan, paddr, size) && RangeDone(m0, r0, m, r, targets, plan) && t in targets
    requires paddr / 4096 <= p < RangeEnd(paddr, size) / 4096
    ensures RightsAt(m, r, t.alias, p, t.leaf.rw, !t.leaf.user, t.leaf.user && t.propagateUser)
  {
    RangeIsMapped(m0, r0, m, r, targets, plan, paddr, size);
    var i :| 0 <= i < |targets| && targets[i] == t;
    RightsAre(m, r, targets[i], paddr / 4096, RangeEnd(paddr, size) / 4096, p);
  }

  lemma KernelTargetsIn(f: VmapFlags, leaf: Flags)
    ensures var ts := TargetsOf(f, leaf);
            && (f.kernel ==> Target(KERNEL_AREA, leaf, false) in ts)
            && (f.ident ==> Target(IDENT_AREA, leaf, false) in ts)
            && (f.kernelMap ==> Target(MAP_AREA, leaf, false) in ts)
            && (f.kernelUser || f.kernelUserAccess ==>
              Target(Alias(Kernel, USER_AREA.base), leaf.(user := f.kernelUserAccess), false) in ts)
  {
  }

  lemma UserTargetsIn(f: VmapFlags, leaf: Flags)
    ensures var ts := TargetsOf(f, leaf);
            && (f.user ==> Target(USER_AREA, leaf.(user := true), true) in ts)
            && (f.userIdent ==> Target(Alias(User, IDENT_AREA.base), leaf.(user := false), false) in ts)
            && (f.userKernel ==> Target(Alias(User, KERNEL_AREA.base), leaf.(user := false), false) in ts)
            && (f.userKernelMap ==> Target(Alias(User, MAP_AREA.base), leaf.(user := false), false) in ts)
  {
  }

  /**
    The rights of every page of a range in the kernel's tables, by the flags
    of vmap_range.  The kernel's alias of the user area is closed to user mode
    unless VMAP_KERNEL_USER_ACCESS was given, and the others unless the range
    was mapped with USER.
   */
  lemma KernelRights(f: VmapFlags, leaf: Flags, m0: Mem, r0: Roots, m: Mem, r: Roots, plan: seq<Cut>, paddr: nat,
                     size: nat, p: nat)
    requires PlanFor(plan, paddr, size) && RangeDone(m0, r0, m, r, TargetsOf(f, leaf), plan)
    requires paddr / 4096 <= p < RangeEnd(paddr, size) / 4096
    ensures f.kernel ==> RightsAt(m, r, KERNEL_AREA, p, leaf.rw, !leaf.user, false)
    ensures f.ident ==> RightsAt(m, r, IDENT_AREA, p, leaf.rw, !leaf.user, false)
    ensures f.kernelMap ==> RightsAt(m, r, MAP_AREA, p, leaf.rw, !leaf.user, false)
    ensures f.kernelUser || f.kernelUserAccess ==>
      RightsAt(m, r, Alias(Kernel, USER_AREA.base), p, leaf.rw, !f.kernelUserAccess, false)
  {
    var ts := TargetsOf(f, leaf);
    KernelTargetsIn(f, leaf);
    forall t | t in ts ensures RightsAt(m, r, t.alias, p, t.leaf.rw, !t.leaf.user, t.leaf.user && t.propagateUser) {
      TargetRights(m0, r0, m, r, ts, plan, paddr, size, p, t);
    }
  }

  /**
    The same in the user's tables: the user area is open to user mode, and
    nothing else is.
   */
  lemma UserRights(f: VmapFlags, leaf: Flags, m0: Mem, r0: Roots, m: Mem, r: Roots, plan: seq<Cut>, paddr: nat,
                   size: nat, p: nat)
    requires PlanFor(plan, paddr, size) && RangeDone(m0, r0, m, r, TargetsOf(f, leaf), plan)
    requires paddr / 4096 <= p < RangeEnd(paddr, size) / 4096
    ensures f.user ==> RightsAt(m, r, USER_AREA, p, leaf.rw, false, true)
    ensures f.userIdent ==> RightsAt(m, r, Alias(User, IDENT_AREA.base), p, leaf.rw, true, false)
    ensures f.userKernel ==> RightsAt(m, r, Alias(User, KERNEL_AREA.base), p, leaf.rw, true, false)
    ensures f.userKernelMap ==> RightsAt(m, r, Alias(User, MAP_AREA.base), p, leaf.rw, true, false)
  {
    var ts := TargetsOf(f, leaf);
    UserTargetsIn(f, leaf);
    forall t | t in ts ensures RightsAt(m, r, t.alias, p, t.leaf.rw, !t.leaf.user, t.leaf.user && t.propagateUser) {
      TargetRights(m0, r0, m, r, ts, plan, paddr, size, p, t);
    }
  }

  // ---- inputs at which a mapping goes wrong ----------------------------

  /** An identity mapping of page 0 writes the entry and reports a failure. */
  lemma IdentityPageZero(a: Alias, page: nat, to: nat)
    requires a == IDENT_AREA && page == 0 && 1 <= to <= 3
    ensures Acceptable(VaOf(a, page), to) && !Good(a, page, to)
  {
    AreaAligned(a, page, to);
  }

  /** The page at 2G is mapped at address 0 of the kernel, and a failure is reported. */
  lemma KernelPageZero(a: Alias, page: nat)
    requires a == KERNEL_AREA && page == 0x8_0000
    ensures VaOf(a, page) == 0 && Acceptable(VaOf(a, page), 3) && !Good(a, page, 3)
  {
  }

  /** The page behind it is mapped at address 0x1000 with VMAP_KERNEL, and no failure is reported. */
  lemma KernelAbove2G(a: Alias, paddr: nat, size: nat)
    requires a == KERNEL_AREA && paddr == 0x8000_1000 && size == 0x1000
    ensures RangeFits(a, paddr, size) && VaOf(a, paddr / 4096) == 0x1000 && !InArea(a, paddr, size)
  {
  }

  /** The last page below 2G is mapped at the last page of the address space, and vunmap_range does not unmap it. */
  lemma LastKernelPage(a: Alias, paddr: nat, size: nat)
    requires a == KERNEL_AREA && paddr == 0x7FFF_F000 && size == 0x1000
    ensures RangeFits(a, paddr, size) && VaOf(a, paddr / 4096) == 0xFFFF_FFFF_FFFF_F000
    ensures Crosses(a, paddr / 4096, RangeEnd(paddr, size) / 4096)
  {
  }

  /** One aligned 1G of memory cannot be mapped at user addresses; 4K less can. */
  lemma UserGigabyte(a: Alias, paddr: nat, size: nat)
    requires a == USER_AREA && paddr == 0x4000_0000 && size == 0x4000_0000
    ensures !RangeFits(a, paddr, size) && RangeFits(a, paddr, size - 4096)
  {
  }

  /** A range that runs over the end of the address space into its own first page is mapped as that page. */
  lemma RangeRefolds(paddr: nat, size: nat)
    requires paddr == 0x1800 && size == 0xFFFF_FFFF_FFFF_F900
    ensures paddr + size > 0x1_0000_0000_0000_0000 && Refolds(paddr, size) && RangeEnd(paddr, size) == 0x2000
  {
  }
}
