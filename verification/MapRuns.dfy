/**
  Runs of _vmap_4k, _vmap_2m and _vmap_1g: which rights survive any sequence
  of later mappings.
 */
module MapRuns {
  import opened Frames
  import opened PageTable
  import opened Address
  import opened PageTables

  datatype MapCall = MapCall(space: Space, va: nat, mfn: nat, to: nat, leaf: Flags, propagateUser: bool)

  ghost predicate CallOk(c: MapCall) {
    1 <= c.to <= 3 && (c.to < 3 ==> c.leaf.present)
  }

  /** The call is not refused, and then writes the entry of its page. */
  ghost predicate Writes(c: MapCall) {
    CallOk(c) && Acceptable(c.va, c.to)
  }

  ghost predicate SlotOf(p: Pos, i: Index, c: MapCall) {
    Writes(c) && IsSlotOf(p, i, c.space, IxOf(c.va), c.to)
  }

  /** No call maps a page inside a larger one that an earlier call mapped. */
  ghost predicate Compatible(calls: seq<MapCall>) {
    forall j, k :: 0 <= j < k < |calls| ==> Beside(calls[j], calls[k])
  }

  ghost predicate Beside(c: MapCall, later: MapCall) {
    Writes(c) && Writes(later) && c.space == later.space && IxOf(later.va)[..c.to + 1] == IxOf(c.va)[..c.to + 1] ==>
      c.to >= later.to
  }

  /** The call finds room: no larger page in the way, and neither the window nor its entry in its page. */
  ghost predicate FindsRoom(sp: AddressSpaces, c: MapCall)
    reads sp
  {
    Writes(c) ==>
      sp.windowTable in sp.mem && sp.RoomFor(c.space, IxOf(c.va), c.to) && sp.BesideWindow(c.space, IxOf(c.va), c.to)
  }

  /** Every present entry that none of the calls writes is still there, with all its rights. */
  ghost predicate KeptBut(m: Mem, pos: Positions, m': Mem, pos': Positions, calls: seq<MapCall>) {
    && SamePositions(m, pos, m', pos')
    && forall t, i: Index {:trigger m'[t][i]} ::
         t in m && t in pos && t in m' && m[t][i].flags.present &&
           (forall c :: c in calls ==> !SlotOf(pos[t], i, c)) ==>
           MoreRights(m[t][i], m'[t][i])
  }

  /** The call asks for user access at every level. */
  ghost predicate Opens(c: MapCall) {
    Writes(c) && c.leaf.present && c.leaf.user && c.propagateUser
  }

  /** No call after the j-th one maps a page on the path of its page. */
  ghost predicate Uncut(calls: seq<MapCall>, j: nat)
    requires j < |calls|
  {
    forall k :: j < k < |calls| ==> !CutsPath(calls[j], calls[k])
  }

  ghost predicate CutsPath(c: MapCall, later: MapCall) {
    Writes(c) && Writes(later) && Cuts(c.space, IxOf(c.va), c.to, later.space, IxOf(later.va), later.to)
  }

  /** Every path opened to user mode and not cut since is still open at every level. */
  ghost predicate PathsOpen(m: Mem, r: Roots, calls: seq<MapCall>) {
    forall j :: 0 <= j < |calls| && Opens(calls[j]) && Uncut(calls, j) ==> IsOpen(m, r, calls[j])
  }

  ghost predicate IsOpen(m: Mem, r: Roots, c: MapCall) {
    c.to <= 3 && HasUserPath(m, r, c.space, IxOf(c.va), c.to)
  }

  lemma KeptMore(m: Mem, pos: Positions, m1: Mem, pos1: Positions, m': Mem, pos': Positions, calls: seq<MapCall>,
                 c: MapCall)
    requires m.Keys == pos.Keys && KeptBut(m, pos, m1, pos1, calls)
    requires CallOk(c) && (Writes(c) ==> EntriesKept(m1, pos1, m', pos', c.space, IxOf(c.va), c.to))
    requires !Writes(c) ==> m' == m1 && pos' == pos1
    ensures KeptBut(m, pos, m', pos', calls + [c])
  {
    forall t, i: Index | t in m && t in pos && t in m' && m[t][i].flags.present &&
      (forall d :: d in calls + [c] ==> !SlotOf(pos[t], i, d))
      ensures MoreRights(m[t][i], m'[t][i])
    {
      assert (calls + [c])[|calls|] == c;
      assert !SlotOf(pos[t], i, c);
      assert forall d :: d in calls ==> d in calls + [c];
      assert MoreRights(m[t][i], m1[t][i]);
    }
  }

  /** One open path through one more call. */
  lemma StillOpen(m: Mem, pos: Positions, m': Mem, pos': Positions, valid: nat -> bool, r: Roots, r': Roots, c: MapCall,
                  later: MapCall)
    requires Tree(m, pos, valid) && RootsAt(m, pos, r) && Writes(c) && Writes(later) && IsOpen(m, r, c)
    requires EntriesKept(m, pos, m', pos', later.space, IxOf(later.va), later.to) && !CutsPath(c, later)
    requires r'.kernel == r.kernel && (r.user.Some? ==> r'.user == r.user)
    ensures IsOpen(m', r', c)
  {
    var root := if c.space == Kernel then r.kernel else r.user.value;
    assert IxOf(c.va)[..0] == [];
    UserPathKept(m, pos, m', pos', valid, root, 0, c.to, IxOf(c.va), later.space, IxOf(later.va), later.to);
  }

  lemma PathsStayOpen(m: Mem, pos: Positions, m': Mem, pos': Positions, valid: nat -> bool, r: Roots, r': Roots,
                      calls: seq<MapCall>, c: MapCall)
    requires Tree(m, pos, valid) && RootsAt(m, pos, r) && PathsOpen(m, r, calls) && CallOk(c)
    requires Writes(c) ==> EntriesKept(m, pos, m', pos', c.space, IxOf(c.va), c.to)
    requires !Writes(c) ==> m' == m && r' == r
    requires r'.kernel == r.kernel && (r.user.Some? ==> r'.user == r.user)
    requires Opens(c) ==> IsOpen(m', r', c)
    ensures PathsOpen(m', r', calls + [c])
  {
    var all := calls + [c];
    forall j | 0 <= j < |all| && Opens(all[j]) && Uncut(all, j) ensures IsOpen(m', r', all[j]) {
      if j < |calls| {
        assert Uncut(calls, j) by {
          assert forall k :: j < k < |calls| ==> all[k] == calls[k];
        }
        assert IsOpen(m, r, calls[j]);
        if Writes(c) {
          assert !CutsPath(all[j], all[|calls|]);
          StillOpen(m, pos, m', pos', valid, r, r', calls[j], c);
        }
      }
    }
  }

  /** A call finds the same room after another that lies beside it. */
  lemma RoomKept(m: Mem, r: Roots, m': Mem, r': Roots, c: MapCall, later: MapCall)
    requires Writes(c) && Writes(later) && Beside(c, later)
    requires OthersKept(m, r, m', r', c.space, IxOf(c.va), c.to)
    requires PageMapped(m', r', c.space, IxOf(c.va), c.mfn, c.to, c.leaf, c.propagateUser)
    requires RoomAt(m, r, later)
    ensures RoomAt(m', r', later)
  {
    var ix, ix' := IxOf(c.va), IxOf(later.va);
    if c.space == later.space && ix'[..c.to + 1] == ix[..c.to + 1] {
      assert PageIs(Translate(m', r', c.space, ix'), c.mfn, c.to, c.leaf, c.propagateUser);
    } else {
      assert SameOrMore(Translate(m, r, later.space, ix'), Translate(m', r', later.space, ix'));
    }
  }

  ghost predicate RoomAt(m: Mem, r: Roots, c: MapCall)
    requires CallOk(c)
  {
    var w := Translate(m, r, c.space, IxOf(c.va));
    w.Page? ==> w.order <= LeafOrder(c.to)
  }

  /** One call of the run. */
  method VmapNext(sp: AddressSpaces, c: MapCall, ghost calls: seq<MapCall>, ghost k: nat) returns (stopped: bool)
    requires sp.Valid() && k < |calls| && c == calls[k] && Compatible(calls)
    requires forall j :: k <= j < |calls| ==> CallOk(calls[j]) && FindsRoom(sp, calls[j])
    modifies sp`mem, sp`pos, sp`userRoot, sp.pmm
    ensures !stopped ==> sp.Valid() && (old(sp.userRoot).Some? ==> sp.userRoot == old(sp.userRoot))
    ensures !stopped && Writes(c) ==> EntriesKept(old(sp.Direct()), old(sp.pos), sp.Direct(), sp.pos, c.space,
                                                  IxOf(c.va), c.to)
    ensures !stopped && !Writes(c) ==>
      sp.Direct() == old(sp.Direct()) && sp.pos == old(sp.pos) && sp.userRoot == old(sp.userRoot)
    ensures !stopped && Opens(c) ==> IsOpen(sp.Direct(), sp.TheRoots(), c)
    ensures !stopped ==> forall j :: k < j < |calls| ==> FindsRoom(sp, calls[j])
    ensures Affords(old(sp.pmm.free), sp.pmm.free, 1, stopped)
  {
    ghost var m, r := sp.Direct(), sp.TheRoots();
    var ret;
    ghost var taken;
    LackingBound(m, r, c.space, c.to, IxOf(c.va));
    assert FindsRoom(sp, calls[k]);
    stopped, ret, taken := sp.VmapPage(c.space, c.va, c.mfn, c.to, c.leaf, c.propagateUser);
    if !stopped {
      forall j | k < j < |calls| ensures FindsRoom(sp, calls[j]) {
        assert Beside(calls[k], calls[j]);
        if Writes(c) && Writes(calls[j]) {
          RoomKept(m, r, sp.Direct(), sp.TheRoots(), c, calls[j]);
        }
      }
    }
  }

  /** One round of the loop over the calls. */
  method VmapStep(sp: AddressSpaces, calls: seq<MapCall>, k: nat, ghost done: seq<MapCall>, ghost done': seq<MapCall>,
                  ghost m0: Mem, ghost pos0: Positions, ghost free0: Lists)
    returns (stopped: bool)
    requires sp.Valid() && k < |calls| && Compatible(calls) && m0.Keys == pos0.Keys
    requires done == calls[..k] && done' == calls[..k + 1]
    requires forall j :: k <= j < |calls| ==> CallOk(calls[j]) && FindsRoom(sp, calls[j])
    requires KeptBut(m0, pos0, sp.Direct(), sp.pos, done) && PathsOpen(sp.Direct(), sp.TheRoots(), done)
    requires Affords(free0, sp.pmm.free, k, false)
    modifies sp`mem, sp`pos, sp`userRoot, sp.pmm
    ensures !stopped ==> sp.Valid() && forall j :: k < j < |calls| ==> FindsRoom(sp, calls[j])
    ensures !stopped ==> KeptBut(m0, pos0, sp.Direct(), sp.pos, done')
    ensures !stopped ==> PathsOpen(sp.Direct(), sp.TheRoots(), done')
    ensures if stopped then Affords(free0, sp.pmm.free, |calls|, true) else Affords(free0, sp.pmm.free, k + 1, false)
  {
    ghost var m, pos, r, free := sp.Direct(), sp.pos, sp.TheRoots(), sp.pmm.free;
    sp.Laws();
    stopped := VmapNext(sp, calls[k], calls, k);
    AffordsNext(free0, free, sp.pmm.free, k, |calls|, stopped);
    if !stopped {
      assert done' == done + [calls[k]];
      KeptMore(m0, pos0, m, pos, sp.Direct(), sp.pos, done, calls[k]);
      PathsStayOpen(m, pos, sp.Direct(), sp.pos, sp.valid, r, sp.TheRoots(), done, calls[k]);
    }
  }

  /**
    Any sequence of mappings: no present entry loses USER or RW except one
    that a call of the sequence replaces by its own page, and every path that
    was opened to user mode stays open at every level until a later call
    maps a page on it.  It does not stop with more than four 4K frames for each
    mapping.
   */
  method VmapAll(sp: AddressSpaces, calls: seq<MapCall>) returns (stopped: bool)
    requires sp.Valid() && Compatible(calls)
    requires forall k :: 0 <= k < |calls| ==> CallOk(calls[k]) && FindsRoom(sp, calls[k])
    modifies sp`mem, sp`pos, sp`userRoot, sp.pmm
    ensures !stopped ==> sp.Valid()
    ensures !stopped ==> KeptBut(old(sp.Direct()), old(sp.pos), sp.Direct(), sp.pos, calls)
    ensures !stopped ==> PathsOpen(sp.Direct(), sp.TheRoots(), calls)
    ensures Affords(old(sp.pmm.free), sp.pmm.free, |calls|, stopped)
  {
    stopped := false;
    ghost var m0, pos0, free0 := sp.Direct(), sp.pos, sp.pmm.free;
    AffordsNone(free0);
    for k := 0 to |calls|
      invariant sp.Valid() && forall j :: k <= j < |calls| ==> CallOk(calls[j]) && FindsRoom(sp, calls[j])
      invariant KeptBut(m0, pos0, sp.Direct(), sp.pos, calls[..k])
      invariant PathsOpen(sp.Direct(), sp.TheRoots(), calls[..k])
      invariant Affords(free0, sp.pmm.free, k, false)
    {
      stopped := VmapStep(sp, calls, k, calls[..k], calls[..k + 1], m0, pos0, free0);
      if stopped {
        return;
      }
    }
    assert calls[..|calls|] == calls;
  }
}
