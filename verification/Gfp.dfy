/**
  The flags of get_free_pages, after mm/vmm.c: which aliases a request maps,
  and which address it answers.
 */
module Gfp {
  import opened PageTable
  import opened Address
  import opened Cutting
  import opened Ranges
  import opened Areas
  import Vmm

  /** gfp_flags_t */
  datatype Gfp = Gfp(ident: bool, user: bool, kernel: bool, kernelMap: bool)

  const GFP_NONE := Gfp(false, false, false, false)
  const GFP_USER := Gfp(false, true, false, false)
  const GFP_KERNEL_MAP := Gfp(false, false, false, true)

  const VMAP_NONE := VmapFlags(false, false, false, false, false, false, false, false, false)

  /** gfp_to_vmap_flags */
  function ToVmapFlags(g: Gfp): VmapFlags {
    if g == GFP_USER then VMAP_NONE.(kernelUser := true, user := true)
    else VMAP_NONE.(ident := g.ident, userIdent := g.ident && g.user,
                    kernel := g.kernel, userKernel := g.kernel && g.user,
                    kernelMap := g.kernelMap, userKernelMap := g.kernelMap && g.user)
  }

  /** gfp_mfn_to_virt: the address in the direct map, the kernel's, the identity or the user area, in this order. */
  function ToVirt(g: Gfp, mfn: nat): nat {
    if g.kernelMap then VaOf(MAP_AREA, mfn)
    else if g.kernel then VaOf(KERNEL_AREA, mfn)
    else if g.ident then VaOf(IDENT_AREA, mfn)
    else if g.user then VaOf(USER_AREA, mfn)
    else 0
  }

  ghost function AllAsked(g: Gfp): set<Alias> {
    KernelAsked(ToVmapFlags(g)) + UserAsked(ToVmapFlags(g))
  }

  /** The alias of the kernel whose address is answered. */
  function Answered(g: Gfp): Alias {
    if g.kernelMap then MAP_AREA else if g.kernel then KERNEL_AREA else if g.ident then IDENT_AREA
    else Alias(Kernel, USER_AREA.base)
  }

  /** The answer is an address the kernel has mapped, so that put_pages finds it. */
  lemma AnswerIsMapped(g: Gfp, mfn: nat)
    requires g != GFP_NONE
    ensures Answered(g) in AllAsked(g) && Answered(g).space == Kernel && ToVirt(g, mfn) == VaOf(Answered(g), mfn)
  {
  }

  lemma AnswerTarget(g: Gfp, leaf: Flags) returns (i: nat)
    requires g != GFP_NONE
    ensures i < |TargetsOf(ToVmapFlags(g), leaf)| && TargetsOf(ToVmapFlags(g), leaf)[i].alias == Answered(g)
  {
    var f := ToVmapFlags(g);
    KernelTargetsRise(f, leaf);
    assert Answered(g) in KernelAsked(f);
    i := IndexOf(KernelTargets(f, leaf), Answered(g));
  }

  lemma FirstMapped(m: Mem, r: Roots, a: Alias, first: nat, limit: nat, rw: bool)
    requires MappedTo(m, r, a, first, limit, rw) && first < limit
    ensures var w := Found(m, r, a, first); w.Page? && w.mfn == first && (rw ==> w.rw)
  {
    assert InBlock(m, r, a, first, limit, first, rw);
  }

  lemma TargetFindsFrame(targets: seq<Target>, i: nat, m0: Mem, r0: Roots, m: Mem, r: Roots, plan: seq<Cut>,
                         paddr: nat, size: nat, limit: nat)
    requires i < |targets| && PlanFor(plan, paddr, size) && RangeDone(m0, r0, m, r, targets, plan)
    requires paddr / 4096 < limit == RangeEnd(paddr, size) / 4096
    ensures var w := Found(m, r, targets[i].alias, paddr / 4096); w.Page? && w.mfn == paddr / 4096
  {
    RangeIsMapped(m0, r0, m, r, targets, plan, paddr, size);
    FirstMapped(m, r, targets[i].alias, paddr / 4096, limit, targets[i].leaf.rw);
  }

  /** Once vmap_range is through with the frame, the kernel finds it at the answer. */
  lemma AnswerFindsFrame(g: Gfp, leaf: Flags, m0: Mem, r0: Roots, m: Mem, r: Roots, plan: seq<Cut>, mfn: nat, size: nat)
    requires g != GFP_NONE && 4096 * mfn < RangeEnd(4096 * mfn, size) && PlanFor(plan, 4096 * mfn, size)
    requires RangeDone(m0, r0, m, r, TargetsOf(ToVmapFlags(g), leaf), plan)
    ensures ToVirt(g, mfn) == VaOf(Answered(g), mfn) && Answered(g).space == Kernel
    ensures var w := Found(m, r, Answered(g), mfn); w.Page? && w.mfn == mfn
  {
    var i := AnswerTarget(g, leaf);
    assert 4096 * mfn / 4096 == mfn;
    WholePages(4096 * mfn, size);
    TargetFindsFrame(TargetsOf(ToVmapFlags(g), leaf), i, m0, r0, m, r, plan, 4096 * mfn, size,
                     RangeEnd(4096 * mfn, size) / 4096);
    AnswerIsMapped(g, mfn);
  }

  /** GFP_KERNEL_MAP alone maps the frame in the direct map, and nowhere else. */
  lemma DirectMapOnly(mfn: nat)
    ensures TargetsOf(ToVmapFlags(GFP_KERNEL_MAP), Vmm.PAGE_PROT) == [Vmm.MAP_TARGET]
    ensures ToVirt(GFP_KERNEL_MAP, mfn) == VaOf(MAP_AREA, mfn)
  {
  }

  /** Exactly with one of the three kernel areas alone there is no other alias, which put_pages would leave mapped. */
  lemma OnlyAlias(g: Gfp)
    requires g != GFP_NONE
    ensures AllAsked(g) == {Answered(g)} <==>
            !g.user && ((g.kernelMap && !g.kernel && !g.ident) || (!g.kernelMap && g.kernel != g.ident))
  {
    if g.user {
      var other := if g.kernelMap then Alias(User, MAP_AREA.base) else if g.kernel then Alias(User, KERNEL_AREA.base)
                   else if g.ident then Alias(User, IDENT_AREA.base) else USER_AREA;
      assert other in AllAsked(g) && other != Answered(g);
    } else if g.kernelMap && (g.kernel || g.ident) {
      var other := if g.kernel then KERNEL_AREA else IDENT_AREA;
      assert other in AllAsked(g) && other != Answered(g);
    } else if g.kernel && g.ident {
      assert IDENT_AREA in AllAsked(g) && IDENT_AREA != Answered(g);
    }
  }

  /** No request for up to 2G, and so for no frame, maps two aliases that overlap. */
  lemma RequestsApart(g: Gfp, leaf: Flags, first: nat, limit: nat)
    requires first <= limit <= first + 0x8_0000
    ensures Apart(TargetsOf(ToVmapFlags(g), leaf), first, limit)
  {
    NoClash(g, AllAsked(g), limit - first);
    TargetsApart(ToVmapFlags(g), leaf, first, limit);
  }

  lemma NoClash(g: Gfp, asked: set<Alias>, pages: nat)
    requires asked == AllAsked(g) && pages <= 0x8_0000
    ensures !Clash(asked, pages)
  {
    forall a, b | a in asked && b in asked ensures !TooClose(a, b, pages) {
      FarEnough(g, a, b);
    }
  }

  lemma FarEnough(g: Gfp, a: Alias, b: Alias)
    requires a in AllAsked(g) && b in AllAsked(g)
    ensures !TooClose(a, b, 0x8_0000)
  {
    AreasAsked(g, a);
    AreasAsked(g, b);
    if a.base != b.base {
      AreaGaps(a, b);
    }
  }

  /** Identity addresses are never asked for together with those of the user area. */
  lemma AreasAsked(g: Gfp, a: Alias)
    requires a in AllAsked(g)
    ensures IsArea(a) && if g == GFP_USER then a.base == USER_AREA.base else a.base != USER_AREA.base
  {
  }
}
