/**
  The page tables of arch/x86/pagetables.c once the final ones are set.

  All tables are read and written through one virtual page, _tmp_mapping: the
  entry that maps it is pointed at a table, and the table is then accessed at
  the address of the window.  That entry is itself written at a kernel address,
  _tmp_mapping_entry.  The model does the same.  Every access to the window and
  to its entry resolves the address by a walk of the kernel's own tables, so a
  write that destroyed the way to either, or an access that hit the wrong
  table, would show.  `Direct()` is the view with every table addressable at
  once.
 */
module PageTables {
  import opened Frames
  import opened Wrappers
  import opened PageTable
  import opened Address
  import opened Merging
  import opened Supply
  import opened Pmm

  /** What every operation keeps, law by law. */
  datatype Law = TablesAreTrees | RootsAreTables | WindowStays | TablesAreBusy

  class AddressSpaces {
    const pmm: FrameAllocator
    /** !mfn_invalid: the frames the memory map knows. */
    const valid: nat -> bool
    /** The indices of _tmp_mapping, and the table that holds its entry. */
    const windowIx: Path
    const windowTable: nat
    /** The indices of _tmp_mapping_entry, the address at which that table is mapped. */
    const entryIx: Path

    var mem: Mem
    /** cr3.mfn and user_cr3.mfn; the user tables are created on first use. */
    var kernelRoot: nat
    var userRoot: Option<nat>

    /** Where each table hangs. */
    ghost var pos: Positions

    /**
      The kernel tables in their smallest form: four frames with the way to
      the window, and the last of them mapped as the window's neighbour.
     */
    constructor (pmm: FrameAllocator, valid: nat -> bool, windowIx: Path, entryIx: Path, tables: seq<nat>)
      requires pmm.Valid() && !valid(MFN_INVALID) && |tables| == 4
      requires forall p: nat :: Cover(pmm.free, p) + Cover(pmm.busy, p) >= 1 ==> valid(p)
      requires forall k :: 0 <= k < 4 ==> valid(tables[k]) && Frame(tables[k], 0, 1) in pmm.busy[0]
      requires forall k, l :: 0 <= k < l < 4 ==> tables[k] != tables[l]
      requires entryIx[..3] == windowIx[..3] && entryIx[3] != windowIx[3]
      ensures Valid() && this.pmm == pmm && this.valid == valid && this.windowIx == windowIx && this.entryIx == entryIx
      ensures windowTable == tables[3] && userRoot == None && mem.Keys == set t | t in tables
      ensures forall s, ix: Path :: Translates(s, ix).Page? ==> s == Kernel && ix == entryIx
      ensures forall ix: Path :: ix[..3] == windowIx[..3] ==> HasL1(Direct(), TheRoots(), Kernel, ix)
    {
      this.pmm, this.valid, this.windowIx, this.windowTable := pmm, valid, windowIx, tables[3];
      this.entryIx := entryIx;
      kernelRoot, userRoot := tables[0], None;
      mem := WindowTables(windowIx, entryIx, tables);
      pos := WindowPositions(windowIx, tables);
      new;
      WindowTablesLead(windowIx, entryIx, tables);
      WindowTablesTree(windowIx, entryIx, tables, valid);
      assert Direct() == mem by {
        assert mem[windowTable][windowIx[3] := CLEAR] == mem[windowTable];
      }
      Lawful();
      forall ix: Path | Walk(mem, kernelRoot, 0, ix).Page? ensures ix == entryIx {
        WindowTablesWalk(windowIx, entryIx, tables, ix);
      }
      forall ix: Path | ix[..3] == windowIx[..3] ensures HasL1(mem, TheRoots(), Kernel, ix) {
        TablesPassed(windowIx, entryIx, tables, ix);
        assert Way(mem, kernelRoot, ix)[3] == Some(tables[3]);
      }
    }

    /** The tables as the code means to see them: without the entry that moves the window. */
    ghost function Direct(): Mem
      reads this
      requires windowTable in mem
    {
      SetEntry(mem, windowTable, windowIx[3], CLEAR)
    }

    /** The window's entry is where the way of the window ends, and is mapped at its own address. */
    ghost predicate WindowReachable()
      reads this
    {
      Windowed(mem, kernelRoot, windowIx, entryIx, windowTable)
    }

    ghost predicate RootsOk()
      reads this
    {
      RootsAt(mem, pos, Roots(kernelRoot, userRoot))
    }

    /** Tables live in 4K frames of their own, and the allocator manages only memory. */
    ghost predicate Backed()
      reads this, pmm
    {
      && pmm.Valid()
      && (forall t :: t in mem ==> Frame(t, 0, 1) in pmm.busy[0])
      && (forall p: nat :: Cover(pmm.free, p) + Cover(pmm.busy, p) >= 1 ==> valid(p))
    }

    ghost predicate Obeys(law: Law)
      reads this, pmm
    {
      match law
      case TablesAreTrees => windowTable in mem && Tree(Direct(), pos, valid)
      case RootsAreTables => RootsOk()
      case WindowStays => WindowReachable()
      case TablesAreBusy => Backed()
    }

    ghost predicate Valid()
      reads this, pmm
    {
      && windowTable in mem && mem.Keys == pos.Keys && |pmm.busy| == ORDERS
      && forall law :: Obeys(law)
    }

    lemma Laws()
      requires Valid()
      ensures Tree(Direct(), pos, valid) && RootsOk() && WindowReachable() && Backed()
    {
      assert Obeys(TablesAreTrees) && Obeys(RootsAreTables) && Obeys(WindowStays) && Obeys(TablesAreBusy);
    }

    lemma FreeLists()
      requires Valid()
      ensures |pmm.free| == ORDERS
    {
      Laws();
    }

    lemma Lawful()
      requires windowTable in mem && Tree(Direct(), pos, valid) && RootsOk() && WindowReachable() && Backed()
      ensures Valid()
    {
      forall law ensures Obeys(law) {
        match law {
          case TablesAreTrees =>
          case RootsAreTables =>
          case WindowStays =>
          case TablesAreBusy =>
        }
      }
    }

    /** The tables found by following the addresses of _tmp_mapping. */
    ghost predicate WindowAt(t: nat)
      reads this
    {
      WindowReachable() && windowTable in mem && mem[windowTable][windowIx[3]] == Entry(t, PROT) && t in mem
    }

    /** tmp_map_mfn: a store to _tmp_mapping_entry, at the frame its address translates to. */
    method TmpMapMfn(mfn: nat)
      requires WindowReachable() && windowTable in mem && mfn in mem
      modifies this`mem
      ensures mem == SetEntry(old(mem), windowTable, windowIx[3], Entry(mfn, PROT))
      ensures WindowAt(mfn) && Direct() == old(Direct())
      ensures Ways(mem, kernelRoot, windowIx, entryIx) == Ways(old(mem), kernelRoot, windowIx, entryIx)
    {
      WindowMoves(mem, kernelRoot, windowIx, entryIx, windowTable, Entry(mfn, PROT));
      SetEntryTwice(mem, windowTable, windowIx[3], Entry(mfn, PROT), CLEAR);
      WalkVia(mem, kernelRoot, 0, entryIx);
      var page := Walk(mem, kernelRoot, 0, entryIx);
      mem := SetEntry(mem, page.mfn, windowIx[3], Entry(mfn, PROT));
    }

    /** A load from the window, at the frame its address translates to. */
    method ReadWindow(i: Index, ghost t: nat) returns (e: Entry)
      requires WindowAt(t)
      ensures e == mem[t][i]
    {
      WalkVia(mem, kernelRoot, 0, windowIx);
      var page := Walk(mem, kernelRoot, 0, windowIx);
      e := mem[page.mfn][i];
    }

    /** A store to the window. */
    method WriteWindow(i: Index, e: Entry, ghost t: nat)
      requires WindowAt(t)
      modifies this`mem
      ensures mem == SetEntry(old(mem), t, i, e)
    {
      WalkVia(mem, kernelRoot, 0, windowIx);
      var page := Walk(mem, kernelRoot, 0, windowIx);
      mem := SetEntry(mem, page.mfn, i, e);
    }

    /** clean_pagetable on the table in the window, one that hangs nowhere near the window itself. */
    method CleanPagetable(ghost t: nat)
      requires WindowAt(t) && Some(t) !in Ways(mem, kernelRoot, windowIx, entryIx)
      modifies this`mem
      ensures WindowAt(t) && mem == old(mem)[t := CleanTable()]
    {
      ghost var was := mem;
      var i := 0;
      while i < 512
        invariant i <= 512 && WindowAt(t)
        invariant mem.Keys == was.Keys && forall u :: u in was && u != t ==> mem[u] == was[u]
        invariant forall k :: 0 <= k < i ==> mem[t][k] == CLEAR
        invariant Ways(mem, kernelRoot, windowIx, entryIx) == Ways(was, kernelRoot, windowIx, entryIx)
      {
        WindowedOff(mem, t, i, CLEAR, kernelRoot, windowIx, entryIx, windowTable);
        WriteWindow(i, CLEAR, t);
        i := i + 1;
      }
      assert mem[t] == CleanTable();
    }

    /**
      A 4K frame for a table: memory, and not a table yet.  Tables are
      allocated with vmap_lock held, so a frame set aside for descriptors on
      the way, which new_frames_array maps under the same lock, stops the
      kernel.
     */
    method NewTableFrame() returns (stopped: bool, mfn: nat, ghost taken: seq<Frame>)
      requires Backed()
      modifies pmm
      ensures !stopped ==> Backed() && mfn !in mem && valid(mfn) && taken == [Frame(mfn, 0, 1)]
      ensures !stopped ==> Moved(old(ThePool()), ThePool(), taken) && old(Cover(pmm.free, mfn)) == 1
      ensures !stopped ==> Frame(mfn, 0, 1) in pmm.busy[0]
      ensures Spends(old(pmm.free), pmm.free, 1, stopped)
    {
      var frame, kept;
      mfn, taken := 0, [];
      stopped, frame, kept := pmm.GetFreeFrames(PAGE_ORDER_4K);
      stopped := stopped || kept != [];
      if stopped {
        return;
      }
      mfn, taken := frame.value.mfn, [frame.value];
      assert Handed(kept, frame) == taken;
      HandedIsNew(old(pmm.free), old(pmm.busy), pmm.free, pmm.busy, kept, frame.value);
      SameTotal(old(pmm.free), old(pmm.busy), pmm.free, pmm.busy, taken);
      MovedBy(old(ThePool()), ThePool(), taken);
    }

    /**
      get_pgentry_mfn, for an entry that is not a large page: the table below
      it, hung there first if there was none.
     */
    method GetPgentryMfn(t: nat, i: Index, flags: Flags) returns (stopped: bool, mfn: nat, ghost taken: seq<Frame>)
      requires Valid() && t in mem && |pos[t].path| < 3 && LinkFlags(flags)
      requires !IsLeaf(|pos[t].path|, Direct()[t][i])
      modifies this`mem, this`pos, pmm
      ensures !stopped ==> Valid() && Grown(old(ThePool()), ThePool(), taken)
      ensures !stopped && valid(old(Direct()[t][i].mfn)) ==>
        mfn == old(Direct()[t][i].mfn) && Direct() == Fixup(old(Direct()), t, i, flags) && pos == old(pos)
      ensures !stopped && !valid(old(Direct()[t][i].mfn)) ==>
        && mfn !in old(mem) && valid(mfn) && Direct() == Hang(old(Direct()), t, i, mfn, flags)
        && pos == old(pos)[mfn := Pos(old(pos[t].space), old(pos[t].path) + [i])]
      ensures valid(old(Direct()[t][i].mfn)) ==> !stopped && taken == [] && unchanged(pmm)
      ensures !valid(old(Direct()[t][i].mfn)) ==> Spends(old(pmm.free), pmm.free, 1, stopped)
      ensures !valid(old(Direct()[t][i].mfn)) && !stopped ==> |taken| == 1
    {
      Laws();
      stopped, taken := false, [];
      var e := ReadLink(t, i);
      if !valid(e.mfn) {
        stopped, mfn, taken := HangNewTable(t, i, flags);
      } else {
        mfn := e.mfn;
        FixupExisting(t, i, flags, e);
        GrownNone(ThePool());
      }
    }

    /** The start of get_pgentry_mfn: the entry, read with its table in the window. */
    method ReadLink(t: nat, i: Index) returns (e: Entry)
      requires Valid() && t in mem && |pos[t].path| < 3 && !IsLeaf(|pos[t].path|, Direct()[t][i])
      modifies this`mem
      ensures Valid() && WindowAt(t) && t != windowTable && Direct() == old(Direct()) && ThePool() == old(ThePool())
      ensures e == mem[t][i] == Direct()[t][i] && (!valid(e.mfn) ==> !e.flags.present)
    {
      Laws();
      NotWindowTable(t);
      TmpMapMfn(t);
      e := ReadWindow(i, t);
      assert EntryOk(Direct(), pos, valid, pos[t], i, e);
      Lawful();
    }

    /** get_pgentry_mfn on an entry `e` of the table in the window that leads to a table. */
    method FixupExisting(t: nat, i: Index, flags: Flags, e: Entry)
      requires Valid() && WindowAt(t) && t != windowTable && e == mem[t][i]
      modifies this`mem
      ensures Valid() && ThePool() == old(ThePool()) && Direct() == Fixup(old(Direct()), t, i, flags)
    {
      Laws();
      FixupTree(Direct(), pos, valid, t, i, flags);
      FixupThroughWindow(t, i, flags, e);
      Lawful();
    }

    /** Only the window's own table hangs at depth 3 with its indices; tables above depth 3 are others. */
    lemma NotWindowTable(t: nat)
      requires Valid() && t in mem && |pos[t].path| < 3
      ensures t != windowTable
    {
      assert Obeys(WindowStays);
      ReservedWay(windowIx, 3);
    }

    /** get_pgentry_mfn on an empty entry of the table in the window. */
    method HangNewTable(t: nat, i: Index, flags: Flags) returns (stopped: bool, mfn: nat, ghost taken: seq<Frame>)
      requires Valid() && WindowAt(t) && t != windowTable && |pos[t].path| < 3 && LinkFlags(flags)
      requires !mem[t][i].flags.present
      modifies this`mem, this`pos, pmm
      ensures !stopped ==> Valid() && Grown(old(ThePool()), ThePool(), taken)
      ensures !stopped ==>
        && mfn !in old(mem) && valid(mfn) && Direct() == Hang(old(Direct()), t, i, mfn, flags)
        && pos == old(pos)[mfn := Pos(old(pos[t].space), old(pos[t].path) + [i])]
      ensures Spends(old(pmm.free), pmm.free, 1, stopped) && (!stopped ==> |taken| == 1)
    {
      stopped, mfn, taken := FrameForTable();
      if !stopped {
        ghost var pool := ThePool();
        MovedAndHung(old(ThePool()), pool, taken, mfn);
        HangFrame(t, i, flags, mfn);
        assert ThePool() == pool.(tables := pool.tables + {mfn});
      }
    }

    /** The frame for a table, with all else as it was. */
    method FrameForTable() returns (stopped: bool, mfn: nat, ghost taken: seq<Frame>)
      requires Valid()
      modifies pmm
      ensures !stopped ==> Valid() && mfn !in mem && valid(mfn) && Frame(mfn, 0, 1) in pmm.busy[0]
      ensures !stopped ==>
        taken == [Frame(mfn, 0, 1)] && Moved(old(ThePool()), ThePool(), taken) && old(Cover(pmm.free, mfn)) == 1
      ensures Spends(old(pmm.free), pmm.free, 1, stopped)
    {
      Laws();
      stopped, mfn, taken := NewTableFrame();
      if !stopped {
        Lawful();
      }
    }

    /** The frame `mfn` becomes a table below an empty entry of the table in the window. */
    method HangFrame(t: nat, i: Index, flags: Flags, mfn: nat)
      requires Valid() && WindowAt(t) && t != windowTable && |pos[t].path| < 3 && LinkFlags(flags)
      requires !mem[t][i].flags.present && mfn !in mem && valid(mfn) && Frame(mfn, 0, 1) in pmm.busy[0]
      modifies this`mem, this`pos
      ensures Valid() && mem.Keys == old(mem.Keys) + {mfn} && Direct() == Hang(old(Direct()), t, i, mfn, flags)
      ensures pos == old(pos)[mfn := Pos(old(pos[t].space), old(pos[t].path) + [i])]
    {
      Laws();
      HangTree(Direct(), pos, valid, t, i, mfn, flags);
      HangThroughWindow(t, i, flags, mfn);
      pos := pos[mfn := Pos(pos[t].space, pos[t].path + [i])];
      Lawful();
    }

    /** The rest of get_pgentry_mfn when the entry was empty and the frame `mfn` was allocated. */
    method HangThroughWindow(t: nat, i: Index, flags: Flags, mfn: nat)
      requires WindowAt(t) && t != windowTable && mfn !in mem && !mem[t][i].flags.present
      modifies this`mem
      ensures WindowReachable() && windowTable in mem && mem.Keys == old(mem.Keys) + {mfn}
      ensures Direct() == Hang(old(Direct()), t, i, mfn, flags)
    {
      ghost var m := mem;
      var contents: Table := *;
      mem := mem[mfn := contents];
      WindowedAdd(m, mfn, contents, kernelRoot, windowIx, entryIx, windowTable);
      WindowedEmpty(mem, t, i, Entry(mfn, flags), kernelRoot, windowIx, entryIx, windowTable);
      WriteWindow(i, Entry(mfn, flags), t);
      TmpMapMfn(mfn);
      CleanPagetable(mfn);
      HangCommutes(m, t, i, Entry(mfn, flags), mfn, contents, windowTable, windowIx[3]);
    }

    /** pgentry_fixup_flags on the entry `e` read from the window. */
    method FixupThroughWindow(t: nat, i: Index, flags: Flags, e: Entry)
      requires WindowAt(t) && t != windowTable && e == mem[t][i]
      modifies this`mem
      ensures WindowReachable() && windowTable in mem && mem.Keys == old(mem.Keys)
      ensures Direct() == Fixup(old(Direct()), t, i, flags)
    {
      var fixed := FixFlags(e, flags);
      SetEntryCommute(mem, t, i, fixed, windowTable, windowIx[3], CLEAR);
      if fixed != e {
        WindowedSame(mem, t, i, fixed, kernelRoot, windowIx, entryIx, windowTable);
        WriteWindow(i, fixed, t);
      } else {
        assert mem[t][i := e] == mem[t];
      }
    }

    /** The last step of _vmap: an entry that is not on the way to the window is set. */
    method WriteLeaf(t: nat, ix: Path, to: nat, e: Entry)
      requires Valid() && At(Direct(), pos, t, to, ix) && LeafEntry(to, e)
      requires BesideWindow(pos[t].space, ix, to)
      modifies this`mem
      ensures Valid() && mem.Keys == old(mem.Keys) && Direct() == SetEntry(old(Direct()), t, ix[to], e)
    {
      Laws();
      TmpMapMfn(t);
      Lawful();
      WriteLeafInWindow(t, ix, to, e);
    }

    /** The last step of _vunmap: the same, with the table already in the window. */
    method WriteLeafInWindow(ghost t: nat, ix: Path, to: nat, e: Entry)
      requires Valid() && WindowAt(t) && At(Direct(), pos, t, to, ix) && LeafEntry(to, e)
      requires BesideWindow(pos[t].space, ix, to)
      modifies this`mem
      ensures Valid() && mem.Keys == old(mem.Keys) && Direct() == SetEntry(old(Direct()), t, ix[to], e)
    {
      Laws();
      LeafOffWay(t, ix, to, windowIx);
      LeafOffWay(t, ix, to, entryIx);
      SetEntryCommute(mem, t, ix[to], e, windowTable, windowIx[3], CLEAR);
      WindowedAside(mem, t, ix[to], e, kernelRoot, windowIx, entryIx, windowTable);
      LeafTree(Direct(), pos, valid, t, ix[to], e);
      WriteWindow(ix[to], e, t);
      Lawful();
    }

    /** The tables on the way of a reserved address hang where its indices say. */
    lemma ReservedWay(way: Path, d: nat)
      requires Valid() && way in {windowIx, entryIx} && d <= 3
      ensures var t := Way(mem, kernelRoot, way)[d];
              t.Some? && t.value in mem && pos[t.value] == Pos(Kernel, way[..d])
    {
      Laws();
      WindowMoves(mem, kernelRoot, windowIx, entryIx, windowTable, CLEAR);
      WayPos(Direct(), pos, valid, kernelRoot, way, d);
    }

    /** A page beside a reserved address has its entry off the way of that address. */
    lemma LeafOffWay(t: nat, ix: Path, to: nat, way: Path)
      requires Valid() && At(Direct(), pos, t, to, ix) && way in {windowIx, entryIx}
      requires pos[t].space == Kernel ==> ix[..to + 1] != way[..to + 1]
      ensures forall d :: 0 <= d <= 3 && Way(mem, kernelRoot, way)[d] == Some(t) ==> way[d] != ix[to]
    {
      forall d | 0 <= d <= 3 && Way(mem, kernelRoot, way)[d] == Some(t) ensures way[d] != ix[to] {
        ReservedWay(way, d);
        assert |ix[..to]| == |way[..d]|;
        assert ix[..to + 1] == ix[..to] + [ix[to]];
        assert way[..to + 1] == way[..to] + [way[to]];
      }
    }

    ghost function ThePool(): Pool
      reads this, pmm
    {
      Pool(pmm.free, pmm.busy, mem.Keys)
    }

    ghost function TheRoots(): Roots
      reads this
    {
      Roots(kernelRoot, userRoot)
    }

    /** What an address in `space` with indices `ix` translates to. */
    ghost function Translates(space: Space, ix: Path): Translation
      reads this
      requires windowTable in mem
    {
      Translate(Direct(), TheRoots(), space, ix)
    }

    ghost predicate IsRoot(space: Space, t: nat)
      reads this
    {
      if space == Kernel then t == kernelRoot else userRoot == Some(t)
    }

    /** get_cr3_mfn */
    method GetCr3Mfn(space: Space) returns (stopped: bool, root: nat, ghost taken: seq<Frame>)
      requires Valid()
      modifies this`mem, this`pos, this`userRoot, pmm
      ensures !stopped && old(userRoot).Some? ==> userRoot == old(userRoot)
      ensures !stopped ==> Valid() && IsRoot(space, root)
      ensures !stopped ==> Grown(old(ThePool()), ThePool(), taken)
      ensures !stopped ==> SameTranslations(old(Direct()), old(TheRoots()), Direct(), TheRoots())
      ensures !stopped ==> SameTables(old(Direct()), old(pos), Direct(), pos)
      ensures space == Kernel || old(userRoot).Some? ==> !stopped && taken == [] && unchanged(this) && unchanged(pmm)
      ensures space == User && old(userRoot).None? ==> Spends(old(pmm.free), pmm.free, 1, stopped)
      ensures space == User && old(userRoot).None? && !stopped ==>
        |taken| == 1 && root in Direct() && Direct()[root] == CleanTable()
    {
      stopped, taken := false, [];
      GrownNone(ThePool());
      if space == Kernel {
        root := kernelRoot;
        return;
      }
      if userRoot.Some? {
        root := userRoot.value;
        return;
      }
      stopped, root, taken := FrameForTable();
      if stopped {
        return;
      }
      ghost var pool := ThePool();
      MovedAndHung(old(ThePool()), pool, taken, root);
      RootIsNew(root);
      NewRoot(root);
      assert ThePool() == pool.(tables := pool.tables + {root});
    }

    /** get_cr3_mfn after the frame is allocated. */
    method NewRoot(root: nat)
      requires Valid() && userRoot == None && root !in mem && valid(root) && Frame(root, 0, 1) in pmm.busy[0]
      modifies this`mem, this`pos, this`userRoot
      ensures Valid() && userRoot == Some(root) && mem.Keys == old(mem.Keys) + {root}
      ensures Direct() == old(Direct())[root := CleanTable()] && pos == old(pos)[root := Pos(User, [])]
    {
      Laws();
      AddedTree(Direct(), pos, valid, root);
      CleanThroughWindow(root);
      userRoot := Some(root);
      pos := pos[root := Pos(User, [])];
      Lawful();
    }

    lemma RootIsNew(root: nat)
      requires Valid() && userRoot == None && root !in mem
      ensures SameTranslations(Direct(), TheRoots(), Direct()[root := CleanTable()], Roots(kernelRoot, Some(root)))
      ensures SameTables(Direct(), pos, Direct()[root := CleanTable()], pos[root := Pos(User, [])])
    {
      Laws();
      NewRootTranslates(Direct(), pos, valid, root, TheRoots());
    }

    /** A new frame, whatever it holds, is brought into the window and cleaned. */
    method CleanThroughWindow(mfn: nat)
      requires WindowReachable() && windowTable in mem && mfn !in mem
      modifies this`mem
      ensures WindowReachable() && windowTable in mem && mem.Keys == old(mem.Keys) + {mfn}
      ensures Direct() == old(Direct())[mfn := CleanTable()]
    {
      var contents: Table := *;
      AddCommutes(mem, mfn, contents, windowTable, windowIx[3]);
      WindowedAdd(mem, mfn, contents, kernelRoot, windowIx, entryIx, windowTable);
      mem := mem[mfn := contents];
      TmpMapMfn(mfn);
      CleanPagetable(mfn);
    }

    /** One level of _vmap: get_pgentry_mfn along `ix`, on a way free of larger pages. */
    method Step(t: nat, depth: nat, ghost to: nat, ix: Path, flags: seq<Flags>, ghost leaf: Entry, ghost lack: nat)
      returns (stopped: bool, next: nat, ghost taken: seq<Frame>)
      requires depth < to && MapReady(t, depth, to, ix, flags, leaf) && lack == Missing(Direct(), t, depth, to, ix)
      modifies this`mem, this`pos, pmm
      ensures !stopped ==> MapReady(next, depth + 1, to, ix, flags, leaf)
      ensures !stopped ==> Grown(old(ThePool()), ThePool(), taken)
      ensures !stopped ==> StepDone(old(Direct()), old(pos), Direct(), pos, valid, t, depth, to, ix, flags, next)
      ensures stopped ==> lack > 0
      ensures !stopped ==> |taken| + Missing(Direct(), next, depth + 1, to, ix) == lack && |taken| <= 1
      ensures taken == [] && !stopped ==> unchanged(pmm)
      ensures taken != [] || stopped ==> Spends(old(pmm.free), pmm.free, 1, stopped)
    {
      Laws();
      ghost var d := Direct();
      StepMissing(d, pos, valid, t, depth, to, ix, flags, lack);
      stopped, next, taken := GetPgentryMfn(t, ix[depth], flags[depth]);
      if !stopped {
        DescendStep(d, old(pos), valid, t, depth, to, ix, flags, [next, next, next, next]);
      }
    }

    /**
      _vmap from the table `t` at `depth` down: at depth `to` the page itself,
      above it one more table.
     */
    method MapDown(t: nat, depth: nat, to: nat, ix: Path, flags: seq<Flags>, leaf: Entry, ghost above: seq<nat>,
                   ghost lack: nat)
      returns (stopped: bool, ghost spare: seq<nat>, ghost taken: seq<Frame>)
      requires MapReady(t, depth, to, ix, flags, leaf) && |above| == 4 && lack == Missing(Direct(), t, depth, to, ix)
      modifies this`mem, this`pos, pmm
      ensures |spare| == 4 && spare[..depth] == above[..depth]
      ensures !stopped ==> Valid() && Grown(old(ThePool()), ThePool(), taken)
      ensures !stopped ==> MapDone(old(Direct()), old(pos), Direct(), pos, valid, t, depth, to, ix, flags, leaf, spare)
      ensures Spends(old(pmm.free), pmm.free, lack, stopped) && (!stopped ==> |taken| == lack)
      ensures lack == 0 ==> unchanged(pmm)
      decreases 3 - depth, 1
    {
      stopped, spare, taken := false, above, [];
      if depth == to {
        WriteLeaf(t, ix, to, leaf);
      } else {
        stopped, spare, taken := MapBelow(t, depth, to, ix, flags, leaf, above, lack);
      }
    }

    /** The same above depth `to`. */
    method MapBelow(t: nat, depth: nat, to: nat, ix: Path, flags: seq<Flags>, leaf: Entry, ghost above: seq<nat>,
                    ghost lack: nat)
      returns (stopped: bool, ghost spare: seq<nat>, ghost taken: seq<Frame>)
      requires MapReady(t, depth, to, ix, flags, leaf) && |above| == 4 && depth < to
      requires lack == Missing(Direct(), t, depth, to, ix)
      modifies this`mem, this`pos, pmm
      ensures |spare| == 4 && spare[..depth] == above[..depth]
      ensures !stopped ==> Valid() && Grown(old(ThePool()), ThePool(), taken)
      ensures !stopped ==> MapDone(old(Direct()), old(pos), Direct(), pos, valid, t, depth, to, ix, flags, leaf, spare)
      ensures Spends(old(pmm.free), pmm.free, lack, stopped) && (!stopped ==> |taken| == lack)
      ensures lack == 0 ==> unchanged(pmm)
      decreases 3 - depth, 0
    {
      spare := above;
      ghost var d, p, more := Direct(), pos, [];
      var next;
      stopped, next, taken := Step(t, depth, to, ix, flags, leaf, lack);
      if stopped {
        return;
      }
      ghost var d1, p1, pool1 := Direct(), pos, ThePool();
      stopped, spare, more := MapDown(next, depth + 1, to, ix, flags, leaf, above[depth := next], lack - |taken|);
      if !stopped {
        GrownTrans(old(ThePool()), pool1, ThePool(), taken, more);
        taken := taken + more;
        MapDoneStep(d, p, d1, p1, Direct(), pos, valid, t, depth, to, ix, flags, leaf, next, spare);
      }
      SameBelow(above, spare, depth, next);
    }

    /** What _vmap needs at a table on its way, below which it maps `leaf` at depth `to`. */
    ghost predicate MapReady(t: nat, depth: nat, to: nat, ix: Path, flags: seq<Flags>, leaf: Entry)
      reads this, pmm
    {
      && Valid() && depth <= to <= 3 && |flags| == 4
      && At(Direct(), pos, t, depth, ix)
      && NoLargerPage(Direct(), t, depth, to, ix)
      && to >= 1 && IsLeaf(to, leaf) && LeafEntry(to, leaf) && (forall k :: depth <= k < to ==> LinkFlags(flags[k]))
      && BesideWindow(pos[t].space, ix, to)
    }

    /** No larger page covers the page at depth `to`. */
    ghost predicate RoomFor(space: Space, ix: Path, to: nat)
      reads this
      requires windowTable in mem && to <= 3
    {
      Translates(space, ix).Page? ==> Translates(space, ix).order <= LeafOrder(to)
    }

    /** The page at depth `to` holds neither the window nor the table of its entry. */
    predicate BesideWindow(space: Space, ix: Path, to: nat)
      requires to <= 3
    {
      space == Kernel ==> ix[..to + 1] != windowIx[..to + 1] && ix[..to + 1] != entryIx[..to + 1]
    }

    /**
      _vmap.  A misaligned or non-canonical address is refused with NULL and
      nothing changes; MAP_FAILED is never the answer, because address 0 is
      always acceptable, so a caller cannot tell a mapping of address 0 from
      a refusal.  Otherwise the whole page translates to the frame, and nothing
      else in either address space changes.
     */
    method Vmap(space: Space, va: nat, mfn: nat, to: nat, flags: seq<Flags>)
      returns (stopped: bool, ret: nat, ghost taken: seq<Frame>)
      requires Valid() && 1 <= to <= 3 && |flags| == 4 && (forall k :: 0 <= k < to ==> LinkFlags(flags[k]))
      requires to < 3 ==> flags[to].present
      requires Acceptable(va, to) ==> RoomFor(space, IxOf(va), to) && BesideWindow(space, IxOf(va), to)
      modifies this`mem, this`pos, this`userRoot, pmm
      ensures !Acceptable(va, to) ==> !stopped && ret == 0 && taken == []
      ensures !Acceptable(va, to) ==> unchanged(this) && unchanged(pmm)
      ensures !stopped && old(userRoot).Some? ==> userRoot == old(userRoot)
      ensures !stopped ==> Valid() && Grown(old(ThePool()), ThePool(), taken)
      ensures !stopped && Acceptable(va, to) ==> ret == va
      ensures !stopped && Acceptable(va, to) ==>
        VmapDone(old(Direct()), old(pos), old(TheRoots()), Direct(), pos, TheRoots(), space, IxOf(va), to,
                 LeafFor(mfn, to, flags), flags)
      ensures Acceptable(va, to) ==>
        var lacking := old(Lacking(Direct(), TheRoots(), space, to, IxOf(va)));
        && Spends(old(pmm.free), pmm.free, lacking, stopped) && (!stopped ==> |taken| == lacking)
        && (lacking == 0 ==> unchanged(pmm))
    {
      stopped, taken := false, [];
      if !AlignedTo(va, to) || !Canonical(va) {
        ret := Refused(va);
        return;
      }
      ret := va;
      stopped, taken := VmapIx(space, IxOf(va), to, flags, LeafFor(mfn, to, flags),
        Lacking(Direct(), TheRoots(), space, to, IxOf(va)));
    }

    /** _vmap past its checks. */
    method VmapIx(space: Space, ix: Path, to: nat, flags: seq<Flags>, leaf: Entry, ghost lack: nat)
      returns (stopped: bool, ghost taken: seq<Frame>)
      requires Valid() && 1 <= to <= 3 && |flags| == 4 && (forall k :: 0 <= k < to ==> LinkFlags(flags[k]))
      requires IsLeaf(to, leaf) && LeafEntry(to, leaf) && lack == Lacking(Direct(), TheRoots(), space, to, ix)
      requires RoomFor(space, ix, to) && BesideWindow(space, ix, to)
      modifies this`mem, this`pos, this`userRoot, pmm
      ensures !stopped && old(userRoot).Some? ==> userRoot == old(userRoot)
      ensures !stopped ==> Valid() && Grown(old(ThePool()), ThePool(), taken)
      ensures !stopped ==>
        VmapDone(old(Direct()), old(pos), old(TheRoots()), Direct(), pos, TheRoots(), space, ix, to, leaf, flags)
      ensures Spends(old(pmm.free), pmm.free, lack, stopped) && (!stopped ==> |taken| == lack)
      ensures lack == 0 ==> unchanged(pmm)
    {
      var root;
      ghost var more := [];
      stopped, root, taken := RootFor(space, ix, to, lack);
      if stopped {
        return;
      }
      ghost var pool1, d1, p1, r1 := ThePool(), Direct(), pos, TheRoots();
      stopped, more := VmapAt(space, root, ix, to, flags, leaf, lack - |taken|);
      if !stopped {
        GrownTrans(old(ThePool()), pool1, ThePool(), taken, more);
        taken := taken + more;
        VmapDoneAfter(old(Direct()), old(pos), old(TheRoots()), d1, p1, r1, Direct(), pos, TheRoots(), space, ix, to,
          leaf, flags);
      }
    }

    /** get_cr3_mfn, and what is missing below the root. */
    method RootFor(space: Space, ghost ix: Path, ghost to: nat, ghost lack: nat)
      returns (stopped: bool, root: nat, ghost taken: seq<Frame>)
      requires Valid() && 1 <= to <= 3 && lack == Lacking(Direct(), TheRoots(), space, to, ix) && RoomFor(space, ix, to)
      modifies this`mem, this`pos, this`userRoot, pmm
      ensures stopped ==> lack > 0
      ensures !stopped ==> Valid() && IsRoot(space, root) && Grown(old(ThePool()), ThePool(), taken)
      ensures !stopped && old(userRoot).Some? ==> userRoot == old(userRoot)
      ensures !stopped ==> SameTranslations(old(Direct()), old(TheRoots()), Direct(), TheRoots())
      ensures !stopped ==> SameTables(old(Direct()), old(pos), Direct(), pos)
      ensures !stopped ==>
        NoLargerPage(Direct(), root, 0, to, ix) && |taken| + Missing(Direct(), root, 0, to, ix) == lack && |taken| <= 1
      ensures taken == [] && !stopped ==> unchanged(pmm)
      ensures taken != [] || stopped ==> Spends(old(pmm.free), pmm.free, 1, stopped)
    {
      stopped, root, taken := GetCr3Mfn(space);
      if !stopped {
        NoLargerHere(space, root, ix, to);
        CleanMissing(Direct(), root, to, ix);
      }
    }

    lemma NoLargerHere(space: Space, root: nat, ix: Path, to: nat)
      requires Valid() && to <= 3 && IsRoot(space, root) && RoomFor(space, ix, to)
      ensures NoLargerPage(Direct(), root, 0, to, ix)
    {
      Laws();
      NoLargerPageMapped(Direct(), pos, valid, root, 0, to, ix);
    }

    /** _vmap once the root table is there. */
    method VmapAt(space: Space, root: nat, ix: Path, to: nat, flags: seq<Flags>, leaf: Entry, ghost lack: nat)
      returns (stopped: bool, ghost taken: seq<Frame>)
      requires 1 <= to <= 3 && Valid() && IsRoot(space, root) && BesideWindow(space, ix, to)
      requires NoLargerPage(Direct(), root, 0, to, ix) && |flags| == 4 &&
        (forall k :: 0 <= k < to ==> LinkFlags(flags[k]))
      requires IsLeaf(to, leaf) && LeafEntry(to, leaf) && lack == Missing(Direct(), root, 0, to, ix)
      modifies this`mem, this`pos, pmm
      ensures !stopped ==> Valid() && Grown(old(ThePool()), ThePool(), taken)
      ensures !stopped ==>
        VmapDone(old(Direct()), old(pos), old(TheRoots()), Direct(), pos, TheRoots(), space, ix, to, leaf, flags)
      ensures Spends(old(pmm.free), pmm.free, lack, stopped) && (!stopped ==> |taken| == lack)
      ensures lack == 0 ==> unchanged(pmm)
    {
      Laws();
      ghost var spare;
      ghost var d, p, r := Direct(), pos, TheRoots();
      stopped, spare, taken := MapDown(root, 0, to, ix, flags, leaf, [0, 0, 0, 0], lack);
      if !stopped {
        MapDoneCorrect(d, p, Direct(), pos, valid, r, space, root, ix, to, flags, leaf, spare);
      }
    }

    /** The flags of the tables above a page: L4_PROT to L2_PROT, with the page's USER bit if asked to propagate it. */
    static function ProtFlags(leaf: Flags, propagateUser: bool): (f: seq<Flags>)
      ensures |f| == 4 && f[3] == leaf && forall k :: 0 <= k < 3 ==> LinkFlags(f[k]) && f[k].rw
      ensures forall k :: 0 <= k < 3 ==> (f[k].user <==> propagateUser && leaf.user)
    {
      var above := PROT.(user := propagateUser && leaf.user);
      [above, above, above, leaf]
    }

    /**
      _vmap_4k, _vmap_2m and _vmap_1g, by the depth of the page.  The page is
      writable as its own flag says, and open to user mode if the USER bit was
      asked for and propagated.
     */
    method VmapPage(space: Space, va: nat, mfn: nat, to: nat, leaf: Flags, propagateUser: bool)
      returns (stopped: bool, ret: nat, ghost taken: seq<Frame>)
      requires Valid() && 1 <= to <= 3 && (to < 3 ==> leaf.present)
      requires Acceptable(va, to) ==> RoomFor(space, IxOf(va), to) && BesideWindow(space, IxOf(va), to)
      modifies this`mem, this`pos, this`userRoot, pmm
      ensures !Acceptable(va, to) ==> !stopped && ret == 0 && taken == [] && unchanged(this) && unchanged(pmm)
      ensures !stopped && old(userRoot).Some? ==> userRoot == old(userRoot)
      ensures !stopped ==> Valid() && Grown(old(ThePool()), ThePool(), taken)
      ensures !stopped && Acceptable(va, to) ==> ret == va
      ensures !stopped && Acceptable(va, to) ==>
        OthersKept(old(Direct()), old(TheRoots()), Direct(), TheRoots(), space, IxOf(va), to)
      ensures !stopped && Acceptable(va, to) ==>
        PageMapped(Direct(), TheRoots(), space, IxOf(va), mfn, to, leaf, propagateUser)
      ensures !stopped && Acceptable(va, to) ==>
        EntriesKept(old(Direct()), old(pos), Direct(), pos, space, IxOf(va), to)
      ensures !stopped && Acceptable(va, to) && leaf.present && leaf.user && propagateUser ==>
        HasUserPath(Direct(), TheRoots(), space, IxOf(va), to)
      ensures !stopped && Acceptable(va, to) ==>
        TablesKept(old(Direct()), old(TheRoots()), Direct(), TheRoots(), space, IxOf(va), to)
      ensures Acceptable(va, to) ==>
        var lacking := old(Lacking(Direct(), TheRoots(), space, to, IxOf(va)));
        && Spends(old(pmm.free), pmm.free, lacking, stopped) && (!stopped ==> |taken| == lacking)
        && (lacking == 0 ==> unchanged(pmm))
    {
      var flags := ProtFlags(leaf, propagateUser)[to := leaf];
      Laws();
      stopped, ret, taken := Vmap(space, va, mfn, to, flags);
      if !stopped && Acceptable(va, to) {
        VmapParts(old(Direct()), old(pos), old(TheRoots()), Direct(), pos, TheRoots(), space, IxOf(va), to,
          LeafFor(mfn, to, flags), flags);
        MapsToPageIs(Direct(), TheRoots(), space, IxOf(va), mfn, to, flags, leaf, propagateUser);
        EntriesAreTables(old(Direct()), old(pos), valid, old(TheRoots()), Direct(), pos, TheRoots(), space, IxOf(va),
                         to);
      }
    }

    /** The entry of `ix` in the table `t`, brought into the window. */
    method ReadEntry(t: nat, depth: nat, ix: Path) returns (e: Entry)
      requires Valid() && At(Direct(), pos, t, depth, ix) && (pos[t].space == Kernel ==> ix != windowIx)
      modifies this`mem
      ensures Valid() && WindowAt(t) && mem.Keys == old(mem.Keys) && Direct() == old(Direct())
      ensures e == Direct()[t][ix[depth]] && EntryOk(Direct(), pos, valid, pos[t], ix[depth], e)
    {
      Laws();
      BesideSlot(t, depth, ix);
      TmpMapMfn(t);
      e := ReadWindow(ix[depth], t);
      assert EntryOk(Direct(), pos, valid, pos[t], ix[depth], e);
      Lawful();
    }

    /** A walk by software: the leaf entry on the way of `ix`, if every table above it is there (get_va_mfn_order). */
    method Lookup(t: nat, depth: nat, ix: Path) returns (leaf: Option<Slot>, e: Entry)
      requires Valid() && At(Direct(), pos, t, depth, ix) && (pos[t].space == Kernel ==> ix != windowIx)
      modifies this`mem
      ensures Valid() && mem.Keys == old(mem.Keys) && Direct() == old(Direct())
      ensures leaf == FindSlot(Direct(), valid, t, depth, ix)
      ensures leaf.Some? ==> leaf.value.table in mem && e == Direct()[leaf.value.table][ix[leaf.value.depth]]
      ensures leaf.Some? ==> WindowAt(leaf.value.table)
      decreases 3 - depth
    {
      e := ReadEntry(t, depth, ix);
      if IsLeaf(depth, e) {
        leaf := Some(Slot(t, depth));
      } else if !valid(e.mfn) || !e.flags.present {
        leaf := None;
      } else {
        assert ix[..depth + 1] == ix[..depth] + [ix[depth]];
        leaf, e := Lookup(e.mfn, depth + 1, ix);
      }
    }

    /** Off the window's address no entry is the one that moves the window. */
    lemma BesideSlot(t: nat, depth: nat, ix: Path)
      requires Valid() && At(Direct(), pos, t, depth, ix) && (pos[t].space == Kernel ==> ix != windowIx)
      ensures t != windowTable || ix[depth] != windowIx[3] || depth < 3
      ensures depth < 3 ==> t != windowTable
    {
      assert Obeys(WindowStays);
      ReservedWay(windowIx, 3);
      if t == windowTable {
        assert |ix[..depth]| == |windowIx[..3]|;
        assert ix == ix[..3] + [ix[3]] && windowIx == windowIx[..3] + [windowIx[3]];
      }
    }

    /**
      get_va_mfn_order: the page of an address, if it is mapped to a frame
      that the memory map knows; device memory counts as not mapped.
     */
    method GetVaMfnOrder(space: Space, va: nat) returns (err: Errno, mfn: nat, order: nat)
      requires Valid() && (space == Kernel ==> IxOf(va) != windowIx)
      modifies this`mem
      ensures Valid() && Direct() == old(Direct())
      ensures err == EINVAL <==> space == User && userRoot.None?
      ensures err == ESUCCESS <==> Translates(space, IxOf(va)).Page? && valid(Translates(space, IxOf(va)).mfn)
      ensures err == ESUCCESS ==> mfn == Translates(space, IxOf(va)).mfn && order == Translates(space, IxOf(va)).order
    {
      Laws();
      mfn, order := MFN_INVALID, 0;
      if space == User && userRoot.None? {
        return EINVAL, mfn, order;
      }
      var root := if space == Kernel then kernelRoot else userRoot.value;
      FindSlotAt(Direct(), pos, valid, root, 0, IxOf(va));
      var leaf, e := Lookup(root, 0, IxOf(va));
      if leaf.None? || !valid(e.mfn) || !e.flags.present {
        return ENOENT, mfn, order;
      }
      return ESUCCESS, e.mfn, LeafOrder(leaf.value.depth);
    }

    /** Neither the window nor its entry. */
    predicate Unreserved(space: Space, ix: Path) {
      space == Kernel ==> ix != windowIx && ix != entryIx
    }

    /** The page of an address that is not reserved holds no reserved one. */
    lemma BesideLeaf(space: Space, root: nat, ix: Path)
      requires Valid() && IsRoot(space, root) && Unreserved(space, ix)
      ensures var s := FindSlot(Direct(), valid, root, 0, ix);
              s.Some? ==> BesideWindow(space, ix, s.value.depth)
    {
      Laws();
      if space == Kernel {
        WindowMoves(mem, kernelRoot, windowIx, entryIx, windowTable, CLEAR);
        SlotOffWay(Direct(), valid, root, 0, ix, windowIx);
        SlotOffWay(Direct(), valid, root, 0, ix, entryIx);
      }
    }

    /**
      _vunmap: the entry of the page an address lies in is cleared and its
      frame returned.  It succeeds exactly if there is an entry to clear: the
      address is mapped, or it is not but its L1 table exists, and then the
      frame number is whatever the entry held.
     */
    method Vunmap(space: Space, va: nat) returns (err: Errno, mfn: nat, order: nat)
      requires Valid() && Unreserved(space, IxOf(va))
      modifies this`mem
      ensures Valid() && mem.Keys == old(mem.Keys)
      ensures err == EINVAL <==> space == User && userRoot.None?
      ensures err == ESUCCESS <==>
        old(Translates(space, IxOf(va)).Page? || HasL1(Direct(), TheRoots(), space, IxOf(va)))
      ensures err != ESUCCESS ==> Direct() == old(Direct()) && Translates(space, IxOf(va)) == NotMapped
      ensures err == ESUCCESS ==> order in {0, 9, 18}
      ensures err == ESUCCESS ==>
        OthersKept(old(Direct()), old(TheRoots()), Direct(), TheRoots(), space, IxOf(va), DepthOf(order))
      ensures err == ESUCCESS && old(Translates(space, IxOf(va))).Page? ==>
        mfn == old(Translates(space, IxOf(va))).mfn && order == old(Translates(space, IxOf(va))).order
      ensures err == ESUCCESS ==> PageCleared(Direct(), TheRoots(), space, IxOf(va), DepthOf(order))
    {
      mfn, order := MFN_INVALID, 0;
      if space == User && userRoot.None? {
        return EINVAL, mfn, order;
      }
      var root := if space == Kernel then kernelRoot else userRoot.value;
      err, mfn, order := VunmapAt(space, root, IxOf(va));
    }

    /** _vunmap once the root table is known. */
    method VunmapAt(space: Space, root: nat, ix: Path) returns (err: Errno, mfn: nat, order: nat)
      requires Valid() && IsRoot(space, root) && Unreserved(space, ix)
      modifies this`mem
      ensures Valid() && mem.Keys == old(mem.Keys) && err in {ESUCCESS, ENOENT}
      ensures err == ESUCCESS <==> old(Translates(space, ix).Page? || HasL1(Direct(), TheRoots(), space, ix))
      ensures err != ESUCCESS ==> Direct() == old(Direct()) && Translates(space, ix) == NotMapped
      ensures err == ESUCCESS ==> order in {0, 9, 18}
      ensures err == ESUCCESS ==>
        OthersKept(old(Direct()), old(TheRoots()), Direct(), TheRoots(), space, ix, DepthOf(order))
      ensures err == ESUCCESS && old(Translates(space, ix)).Page? ==>
        mfn == old(Translates(space, ix)).mfn && order == old(Translates(space, ix)).order
      ensures err == ESUCCESS ==> PageCleared(Direct(), TheRoots(), space, ix, DepthOf(order))
    {
      Laws();
      FindSlotAt(Direct(), pos, valid, root, 0, ix);
      SlotIff(Direct(), pos, valid, root, 0, ix);
      var leaf, e := Lookup(root, 0, ix);
      if leaf.None? {
        return ENOENT, MFN_INVALID, 0;
      }
      err, mfn, order := ESUCCESS, e.mfn, LeafOrder(leaf.value.depth);
      DepthOfLeaf(leaf.value.depth);
      ClearPage(space, root, ix, leaf.value);
    }

    /** The end of _vunmap, with the table that maps the page in the window. */
    method ClearPage(ghost space: Space, ghost root: nat, ix: Path, slot: Slot)
      requires Valid() && IsRoot(space, root) && Unreserved(space, ix)
      requires FindSlot(Direct(), valid, root, 0, ix) == Some(slot) && WindowAt(slot.table)
      modifies this`mem
      ensures Valid() && mem.Keys == old(mem.Keys)
      ensures OthersKept(old(Direct()), old(TheRoots()), Direct(), TheRoots(), space, ix, slot.depth)
      ensures PageCleared(Direct(), TheRoots(), space, ix, slot.depth)
    {
      Laws();
      FindSlotAt(Direct(), pos, valid, root, 0, ix);
      BesideLeaf(space, root, ix);
      UnmapTranslates(Direct(), pos, valid, TheRoots(), space, root, ix);
      WriteLeafInWindow(slot.table, ix, slot.depth, CLEAR);
    }
  }

  /** The tables a walk of `ix` passes, the root first. */
  ghost function Way(m: Mem, root: nat, ix: Path): seq<Option<nat>> {
    [TableAt(m, root, 0, 0, ix), TableAt(m, root, 0, 1, ix), TableAt(m, root, 0, 2, ix), TableAt(m, root, 0, 3, ix)]
  }

  ghost function Ways(m: Mem, root: nat, ix: Path, eix: Path): seq<Option<nat>> {
    Way(m, root, ix) + Way(m, root, eix)
  }

  /** The way of `ix` ends at the table `last`, and does not pass it before. */
  ghost predicate Leads(m: Mem, root: nat, ix: Path, last: nat) {
    Way(m, root, ix)[3] == Some(last) && Some(last) !in Way(m, root, ix)[..3]
  }

  /**
    The address `eix` is mapped to the frame `last` by a table that is not on
    the way to it, in a slot other than `i`.
   */
  ghost predicate MapsLast(m: Mem, root: nat, eix: Path, last: nat, i: Index) {
    && Way(m, root, eix)[3].Some? && Way(m, root, eix)[3].value in m && Some(last) !in Way(m, root, eix)[..3]
    && var t := Way(m, root, eix)[3].value;
       m[t][eix[3]].flags.present && m[t][eix[3]].mfn == last && (t == last ==> eix[3] != i)
  }

  /** The window at `ix` has its entry in the table `last`, which is mapped at `eix`. */
  ghost predicate Windowed(m: Mem, root: nat, ix: Path, eix: Path, last: nat) {
    Leads(m, root, ix, last) && MapsLast(m, root, eix, last, ix[3])
  }

  /** Pointing the window elsewhere moves nothing else. */
  lemma WindowMoves(m: Mem, root: nat, ix: Path, eix: Path, last: nat, e: Entry)
    requires Windowed(m, root, ix, eix, last) && last in m
    ensures Windowed(SetEntry(m, last, ix[3], e), root, ix, eix, last)
    ensures Way(SetEntry(m, last, ix[3], e), root, ix) == Way(m, root, ix)
    ensures Way(SetEntry(m, last, ix[3], e), root, eix) == Way(m, root, eix)
  {
    WriteOffWay(m, last, ix[3], e, root, ix);
    WriteOffWay(m, last, ix[3], e, root, eix);
  }

  /** A table off both ways can be written. */
  lemma WindowedOff(m: Mem, t: nat, i: Index, e: Entry, root: nat, ix: Path, eix: Path, last: nat)
    requires Windowed(m, root, ix, eix, last) && t in m && Some(t) !in Ways(m, root, ix, eix)
    ensures Windowed(SetEntry(m, t, i, e), root, ix, eix, last)
    ensures Ways(SetEntry(m, t, i, e), root, ix, eix) == Ways(m, root, ix, eix)
  {
    OffBoth(m, t, root, ix, eix);
    WriteOffWay(m, t, i, e, root, ix);
    WriteOffWay(m, t, i, e, root, eix);
  }

  lemma OffBoth(m: Mem, t: nat, root: nat, ix: Path, eix: Path)
    requires Some(t) !in Ways(m, root, ix, eix)
    ensures Some(t) !in Way(m, root, ix) && Some(t) !in Way(m, root, eix)
  {
    var w := Ways(m, root, ix, eix);
    assert forall d :: 0 <= d < 4 ==> w[d] == Way(m, root, ix)[d] && w[d + 4] == Way(m, root, eix)[d];
  }

  /** A new frame is on neither way. */
  lemma WindowedAdd(m: Mem, f: nat, contents: Table, root: nat, ix: Path, eix: Path, last: nat)
    requires Windowed(m, root, ix, eix, last) && f !in m
    ensures Windowed(m[f := contents], root, ix, eix, last)
    ensures Ways(m[f := contents], root, ix, eix) == Ways(m, root, ix, eix) && Some(f) !in Ways(m, root, ix, eix)
  {
    AddedWay(m, f, contents, root, ix);
    AddedWay(m, f, contents, root, eix);
  }

  /** An entry that is not present can be written, in a table other than the window's. */
  lemma WindowedEmpty(m: Mem, t: nat, i: Index, e: Entry, root: nat, ix: Path, eix: Path, last: nat)
    requires Windowed(m, root, ix, eix, last) && t in m && !m[t][i].flags.present
    ensures Windowed(SetEntry(m, t, i, e), root, ix, eix, last)
    ensures Ways(SetEntry(m, t, i, e), root, ix, eix) == Ways(m, root, ix, eix)
  {
    EmptyOffWay(m, t, i, e, root, ix);
    EmptyOffWay(m, t, i, e, root, eix);
  }

  /** An entry that keeps its frame can be written. */
  lemma WindowedSame(m: Mem, t: nat, i: Index, e: Entry, root: nat, ix: Path, eix: Path, last: nat)
    requires Windowed(m, root, ix, eix, last) && t in m && e.mfn == m[t][i].mfn
    requires e.flags.present == m[t][i].flags.present && e.flags.huge == m[t][i].flags.huge
    ensures Windowed(SetEntry(m, t, i, e), root, ix, eix, last)
  {
    SameWay(m, t, i, e, root, ix);
    SameWay(m, t, i, e, root, eix);
  }

  /** An entry beside both ways can be written. */
  lemma WindowedAside(m: Mem, t: nat, i: Index, e: Entry, root: nat, ix: Path, eix: Path, last: nat)
    requires Windowed(m, root, ix, eix, last) && t in m
    requires forall d :: 0 <= d <= 3 && Way(m, root, ix)[d] == Some(t) ==> ix[d] != i
    requires forall d :: 0 <= d <= 3 && Way(m, root, eix)[d] == Some(t) ==> eix[d] != i
    ensures Windowed(SetEntry(m, t, i, e), root, ix, eix, last)
  {
    WriteAside(m, t, i, e, root, ix);
    WriteAside(m, t, i, e, root, eix);
  }

  /** A table off the way can be written without moving any table on it. */
  lemma WriteOffWay(m: Mem, t: nat, i: Index, e: Entry, root: nat, ix: Path)
    requires t in m && TableAt(m, root, 0, 3, ix).Some? && Some(t) !in Way(m, root, ix)[..3]
    ensures Way(SetEntry(m, t, i, e), root, ix) == Way(m, root, ix)
  {
    var w := Way(m, root, ix);
    forall d | 0 <= d <= 3 ensures TableAt(SetEntry(m, t, i, e), root, 0, d, ix) == w[d] {
      TableAtSome(m, root, 0, d, 3, ix);
      forall k | 0 <= k < d ensures TableAt(m, root, 0, k, ix) != Some(t) {
        assert w[k] == w[..3][k] == TableAt(m, root, 0, k, ix);
      }
      TableAtWrite(m, t, i, e, root, 0, d, ix);
    }
  }

  lemma {:induction false} TableAtSome(m: Mem, t: nat, depth: nat, mid: nat, to: nat, ix: Path)
    requires depth <= mid <= to <= 3 && TableAt(m, t, depth, to, ix).Some?
    ensures TableAt(m, t, depth, mid, ix).Some?
    decreases 3 - depth
  {
    if depth < mid {
      TableAtSome(m, m[t][ix[depth]].mfn, depth + 1, mid, to, ix);
    }
  }

  /** Four tables, each linked to the next along `ix`, and the last one mapped beside the window. */
  function WindowTables(ix: Path, eix: Path, tables: seq<nat>): Mem
    requires |tables| == 4
  {
    map[
      tables[0] := CleanTable()[ix[0] := Entry(tables[1], PROT)],
      tables[1] := CleanTable()[ix[1] := Entry(tables[2], PROT)],
      tables[2] := CleanTable()[ix[2] := Entry(tables[3], PROT)],
      tables[3] := CleanTable()[eix[3] := Entry(tables[3], PROT)]
    ]
  }

  /** The tables passed along any path that starts like `ix`. */
  lemma TablesPassed(ix: Path, eix: Path, tables: seq<nat>, way: Path)
    requires |tables| == 4 && forall k, l :: 0 <= k < l < 4 ==> tables[k] != tables[l]
    requires way[..3] == ix[..3]
    ensures var m := WindowTables(ix, eix, tables);
            Way(m, tables[0], way) == [Some(tables[0]), Some(tables[1]), Some(tables[2]), Some(tables[3])]
  {
    var m := WindowTables(ix, eix, tables);
    assert forall k :: 0 <= k < 3 ==> way[..3][k] == way[k] && ix[..3][k] == ix[k];
    assert TableAt(m, tables[3], 3, 3, way) == Some(tables[3]);
    assert TableAt(m, tables[2], 2, 3, way) == Some(tables[3]);
    assert TableAt(m, tables[1], 1, 3, way) == Some(tables[3]);
    assert TableAt(m, tables[0], 0, 3, way) == Some(tables[3]);
    assert TableAt(m, tables[0], 0, 0, way) == Some(tables[0]);
    assert TableAt(m, tables[1], 1, 1, way) == Some(tables[1]);
    assert TableAt(m, tables[0], 0, 1, way) == Some(tables[1]);
    assert TableAt(m, tables[2], 2, 2, way) == Some(tables[2]);
    assert TableAt(m, tables[1], 1, 2, way) == Some(tables[2]);
    assert TableAt(m, tables[0], 0, 2, way) == Some(tables[2]);
  }

  lemma WindowTablesLead(ix: Path, eix: Path, tables: seq<nat>)
    requires |tables| == 4 && forall k, l :: 0 <= k < l < 4 ==> tables[k] != tables[l]
    requires eix[..3] == ix[..3] && eix[3] != ix[3]
    ensures Windowed(WindowTables(ix, eix, tables), tables[0], ix, eix, tables[3])
    ensures WindowTables(ix, eix, tables).Keys == set t | t in tables
  {
    TablesPassed(ix, eix, tables, ix);
    TablesPassed(ix, eix, tables, eix);
  }

  /** Nothing is mapped but the entry's table. */
  lemma WindowTablesWalk(ix: Path, eix: Path, tables: seq<nat>, way: Path)
    requires |tables| == 4 && forall k, l :: 0 <= k < l < 4 ==> tables[k] != tables[l]
    requires eix[..3] == ix[..3]
    ensures Walk(WindowTables(ix, eix, tables), tables[0], 0, way).Page? ==> way == eix
  {
    var m := WindowTables(ix, eix, tables);
    if Walk(m, tables[0], 0, way).Page? {
      assert m[tables[0]][way[0]].flags.present && Walk(m, tables[1], 1, way).Page?;
      assert m[tables[1]][way[1]].flags.present && Walk(m, tables[2], 2, way).Page?;
      assert m[tables[2]][way[2]].flags.present && Walk(m, tables[3], 3, way).Page?;
      assert forall k :: 0 <= k < 3 ==> eix[..3][k] == eix[k] && ix[..3][k] == ix[k];
      assert forall k :: 0 <= k < 4 ==> way[k] == eix[k];
    }
  }

  ghost function WindowPositions(ix: Path, tables: seq<nat>): Positions
    requires |tables| == 4
  {
    map[
      tables[0] := Pos(Kernel, []),
      tables[1] := Pos(Kernel, [ix[0]]),
      tables[2] := Pos(Kernel, [ix[0], ix[1]]),
      tables[3] := Pos(Kernel, [ix[0], ix[1], ix[2]])
    ]
  }

  lemma WindowTablesTree(ix: Path, eix: Path, tables: seq<nat>, valid: nat -> bool)
    requires |tables| == 4 && !valid(MFN_INVALID) && forall k :: 0 <= k < 4 ==> valid(tables[k])
    requires forall k, l :: 0 <= k < l < 4 ==> tables[k] != tables[l]
    ensures Tree(WindowTables(ix, eix, tables), WindowPositions(ix, tables), valid)
  {
    var m, pos := WindowTables(ix, eix, tables), WindowPositions(ix, tables);
    assert [ix[0]] == [] + [ix[0]] && [ix[0], ix[1]] == [ix[0]] + [ix[1]];
    assert [ix[0], ix[1], ix[2]] == [ix[0], ix[1]] + [ix[2]];
  }

  /** A frame just handed out was free, so it is none of the frames that were busy. */
  lemma HandedIsNew(free: Lists, busy: Lists, free': Lists, busy': Lists, kept: seq<Frame>, f: Frame)
    requires FreeShrank(free, free', kept + [f]) && BusyGrew(busy, busy', kept + [f]) && f.order < |busy|
    requires forall p: nat :: Cover(free, p) + Cover(busy, p) <= 1
    ensures f in busy'[f.order] && Cover(free, f.mfn) == 1
    ensures forall g, o :: 0 <= o < |busy| && g in busy[o] && g.order == o ==> g.mfn != f.mfn
  {
    var all := kept + [f];
    assert all[|kept|] == f;
    CountAt(all, |kept|, f.mfn);
    assert Cover(free', f.mfn) + Count(all, f.mfn) == Cover(free, f.mfn);
    forall g, o | 0 <= o < |busy| && g in busy[o] && g.order == o ensures g.mfn != f.mfn {
      var i :| 0 <= i < |busy[o]| && busy[o][i] == g;
      CoverAt(busy, o, i, g.mfn);
    }
  }

  lemma SameTotal(free: Lists, busy: Lists, free': Lists, busy': Lists, taken: seq<Frame>)
    requires FreeShrank(free, free', taken) && BusyGrew(busy, busy', taken)
    ensures forall p: nat :: Cover(free', p) + Cover(busy', p) == Cover(free, p) + Cover(busy, p)
  {
    forall p: nat ensures Cover(free', p) + Cover(busy', p) == Cover(free, p) + Cover(busy, p) {
      assert Cover(free', p) + Count(taken, p) == Cover(free, p);
    }
  }

  // ---- the way to the window survives ----------------------------------

  lemma AddedWay(m: Mem, f: nat, contents: Table, root: nat, ix: Path)
    requires f !in m && TableAt(m, root, 0, 3, ix).Some?
    ensures Way(m[f := contents], root, ix) == Way(m, root, ix) && Some(f) !in Way(m, root, ix)
  {
    var w := Way(m, root, ix);
    forall d | 0 <= d <= 3 ensures TableAt(m[f := contents], root, 0, d, ix) == w[d] != Some(f) {
      TableAtSome(m, root, 0, d, 3, ix);
      TableAtAdd(m, f, contents, root, 0, d, ix);
      TableAtIn(m, root, 0, d, ix);
    }
  }

  lemma {:induction false} TableAtIn(m: Mem, t: nat, depth: nat, to: nat, ix: Path)
    requires depth <= to <= 3 && TableAt(m, t, depth, to, ix).Some?
    ensures TableAt(m, t, depth, to, ix).value in m
    decreases 3 - depth
  {
    if depth < to {
      TableAtIn(m, m[t][ix[depth]].mfn, depth + 1, to, ix);
    }
  }

  /** Every entry on the way leads on. */
  lemma {:induction false} OnWayLinks(m: Mem, t: nat, depth: nat, mid: nat, ix: Path)
    requires depth <= mid < 3 && TableAt(m, t, depth, 3, ix).Some?
    ensures TableAt(m, t, depth, mid, ix).Some? && TableAt(m, t, depth, mid, ix).value in m
    ensures var e := m[TableAt(m, t, depth, mid, ix).value][ix[mid]];
            e.flags.present && !IsLeaf(mid, e)
    decreases 3 - depth
  {
    if depth < mid {
      OnWayLinks(m, m[t][ix[depth]].mfn, depth + 1, mid, ix);
    }
  }

  /** An entry that is not present is on no way, so it can be written. */
  lemma EmptyOffWay(m: Mem, t: nat, i: Index, e: Entry, root: nat, ix: Path)
    requires t in m && TableAt(m, root, 0, 3, ix).Some? && !m[t][i].flags.present
    ensures Way(SetEntry(m, t, i, e), root, ix) == Way(m, root, ix)
  {
    var w := Way(m, root, ix);
    forall d | 0 <= d <= 3 ensures TableAt(SetEntry(m, t, i, e), root, 0, d, ix) == w[d] {
      TableAtSome(m, root, 0, d, 3, ix);
      forall k | 0 <= k < d ensures !(TableAt(m, root, 0, k, ix) == Some(t) && ix[k] == i) {
        OnWayLinks(m, root, 0, k, ix);
      }
      TableAtWrite(m, t, i, e, root, 0, d, ix);
    }
  }

  /** An entry that keeps its frame and stays a link leaves the way as it was. */
  lemma SameWay(m: Mem, t: nat, i: Index, e: Entry, root: nat, ix: Path)
    requires t in m && TableAt(m, root, 0, 3, ix).Some? && e.mfn == m[t][i].mfn
    requires e.flags.present == m[t][i].flags.present && e.flags.huge == m[t][i].flags.huge
    ensures Way(SetEntry(m, t, i, e), root, ix) == Way(m, root, ix)
  {
    var w := Way(m, root, ix);
    forall d | 0 <= d <= 3 ensures TableAt(SetEntry(m, t, i, e), root, 0, d, ix) == w[d] {
      TableAtSome(m, root, 0, d, 3, ix);
      forall k | 0 <= k < d && TableAt(m, root, 0, k, ix) == Some(t) && ix[k] == i
        ensures e.flags.present && !IsLeaf(k, e)
      {
        OnWayLinks(m, root, 0, k, ix);
      }
      TableAtWrite(m, t, i, e, root, 0, d, ix);
    }
  }

  /** Hanging a table through the window is hanging it directly. */
  lemma HangCommutes(m: Mem, t: nat, i: Index, e: Entry, f: nat, contents: Table, w: nat, j: Index)
    requires t in m && w in m && f !in m && t != w
    ensures SetEntry(SetEntry(SetEntry(m[f := contents], t, i, e), w, j, Entry(f, PROT))[f := CleanTable()], w, j,
                     CLEAR)
         == SetEntry(SetEntry(m, w, j, CLEAR), t, i, e)[f := CleanTable()]
  {
    assert m[w][j := Entry(f, PROT)][j := CLEAR] == m[w][j := CLEAR];
  }

  lemma AddCommutes(m: Mem, f: nat, contents: Table, w: nat, j: Index)
    requires w in m && f !in m
    ensures SetEntry(SetEntry(m[f := contents], w, j, Entry(f, PROT))[f := CleanTable()], w, j, CLEAR)
         == SetEntry(m, w, j, CLEAR)[f := CleanTable()]
  {
    assert m[w][j := Entry(f, PROT)][j := CLEAR] == m[w][j := CLEAR];
  }

  /** In a tree the way to the window passes tables at depth 0, 1, 2 and 3. */
  lemma WayPos(m: Mem, pos: Positions, valid: nat -> bool, root: nat, ix: Path, d: nat)
    requires Tree(m, pos, valid) && root in m && pos[root].path == [] && TableAt(m, root, 0, 3, ix).Some? && d <= 3
    ensures Way(m, root, ix)[d].Some? && Way(m, root, ix)[d].value in m
    ensures pos[Way(m, root, ix)[d].value] == Pos(pos[root].space, ix[..d])
  {
    TableAtSome(m, root, 0, d, 3, ix);
    TableAtPos(m, pos, valid, root, 0, d, ix);
  }

  /** An entry beside the way can be written. */
  lemma WriteAside(m: Mem, t: nat, i: Index, e: Entry, root: nat, ix: Path)
    requires t in m && TableAt(m, root, 0, 3, ix).Some?
    requires forall d :: 0 <= d <= 3 && Way(m, root, ix)[d] == Some(t) ==> ix[d] != i
    ensures Way(SetEntry(m, t, i, e), root, ix) == Way(m, root, ix)
  {
    var w := Way(m, root, ix);
    forall d | 0 <= d <= 3 ensures TableAt(SetEntry(m, t, i, e), root, 0, d, ix) == w[d] {
      TableAtSome(m, root, 0, d, 3, ix);
      forall k | 0 <= k < d && TableAt(m, root, 0, k, ix) == Some(t) ensures ix[k] != i {
        assert w[k] == Some(t);
      }
      TableAtWrite(m, t, i, e, root, 0, d, ix);
    }
  }

  /** The allocator's lists, and which of its frames are tables. */
  datatype Pool = Pool(free: Lists, busy: Lists, tables: set<nat>)

  datatype Aspect = BusyLists | FreeLists | TableSet

  ghost predicate MovedIn(before: Pool, after: Pool, taken: seq<Frame>, aspect: Aspect) {
    match aspect
    case BusyLists => BusyGrew(before.busy, after.busy, taken)
    case FreeLists => FreeShrank(before.free, after.free, taken)
    case TableSet => NewTablesWereFree(before, after)
  }

  ghost predicate NewTablesWereFree(before: Pool, after: Pool) {
    && before.tables <= after.tables
    && forall t {:trigger t in after.tables} :: t in after.tables && t !in before.tables ==> Cover(before.free, t) >= 1
  }

  /** Exactly the frames `taken` went from free to busy, and every new table was a free page before. */
  ghost predicate Moved(before: Pool, after: Pool, taken: seq<Frame>) {
    forall aspect :: MovedIn(before, after, taken, aspect)
  }

  lemma MovedFacts(before: Pool, after: Pool, taken: seq<Frame>)
    requires Moved(before, after, taken)
    ensures BusyGrew(before.busy, after.busy, taken) && FreeShrank(before.free, after.free, taken)
    ensures NewTablesWereFree(before, after)
  {
    assert MovedIn(before, after, taken, BusyLists) && MovedIn(before, after, taken, FreeLists);
    assert MovedIn(before, after, taken, TableSet);
  }

  lemma MovedBy(before: Pool, after: Pool, taken: seq<Frame>)
    requires BusyGrew(before.busy, after.busy, taken) && FreeShrank(before.free, after.free, taken)
    requires NewTablesWereFree(before, after)
    ensures Moved(before, after, taken)
  {
    forall aspect ensures MovedIn(before, after, taken, aspect) {
      match aspect {
        case BusyLists =>
        case FreeLists =>
        case TableSet =>
      }
    }
  }

  lemma MovedNone(pool: Pool)
    ensures Moved(pool, pool, [])
  {
    MovedBy(pool, pool, []);
  }

  /** The frames `taken` went from free to busy and are exactly the new tables. */
  ghost predicate Grown(before: Pool, after: Pool, taken: seq<Frame>) {
    Moved(before, after, taken) && after.tables == before.tables + MfnsOf(taken)
  }

  lemma GrownNone(pool: Pool)
    ensures Grown(pool, pool, [])
  {
    MovedNone(pool);
  }

  lemma MovedAndHung(before: Pool, after: Pool, taken: seq<Frame>, mfn: nat)
    requires Moved(before, after, taken) && Cover(before.free, mfn) >= 1
    requires taken == [Frame(mfn, 0, 1)] && after.tables == before.tables
    ensures Grown(before, after.(tables := after.tables + {mfn}), taken)
  {
    MovedFacts(before, after, taken);
    MovedBy(before, after.(tables := after.tables + {mfn}), taken);
  }

  lemma GrownTrans(a: Pool, b: Pool, c: Pool, taken: seq<Frame>, more: seq<Frame>)
    requires Grown(a, b, taken) && Grown(b, c, more)
    ensures Grown(a, c, taken + more)
  {
    MovedTrans(a, b, c, taken, more);
    assert MfnsOf(taken + more) == MfnsOf(taken) + MfnsOf(more);
  }

  lemma MovedTrans(a: Pool, b: Pool, c: Pool, taken: seq<Frame>, more: seq<Frame>)
    requires Moved(a, b, taken) && Moved(b, c, more)
    ensures Moved(a, c, taken + more)
  {
    MovedFacts(a, b, taken);
    MovedFacts(b, c, more);
    BusyGrewTrans(a.busy, b.busy, c.busy, taken, more);
    FreeShrankTrans(a.free, b.free, c.free, taken, more);
    forall t | t in c.tables && t !in a.tables ensures Cover(a.free, t) >= 1 {
      assert Cover(b.free, t) + Count(taken, t) == Cover(a.free, t);
    }
    MovedBy(a, c, taken + more);
  }

  lemma SameBelow(above: seq<nat>, spare: seq<nat>, k: nat, next: nat)
    requires |above| == |spare| == 4 && k < 3 && spare[..k + 1] == above[k := next][..k + 1]
    ensures spare[k] == next && spare[..k] == above[..k]
  {
    assert spare[k] == spare[..k + 1][k];
    assert spare[..k] == spare[..k + 1][..k] == above[k := next][..k + 1][..k];
  }

  /** What the finished mapping means for both address spaces. */
  lemma MapDoneCorrect(m: Mem, pos: Positions, m': Mem, pos': Positions, valid: nat -> bool, roots: Roots, space: Space,
                       root: nat, ix: Path, to: nat, flags: seq<Flags>, leaf: Entry, spare: seq<nat>)
    requires Tree(m, pos, valid) && RootsAt(m, pos, roots) && 1 <= to <= 3 && |flags| == |spare| == 4
    requires if space == Kernel then root == roots.kernel else roots.user == Some(root)
    requires IsLeaf(to, leaf) && LeafEntry(to, leaf) && (forall k :: 0 <= k < to ==> LinkFlags(flags[k]))
    requires NoLargerPage(m, root, 0, to, ix)
    requires MapDone(m, pos, m', pos', valid, root, 0, to, ix, flags, leaf, spare)
    ensures VmapDone(m, pos, roots, m', pos', roots, space, ix, to, leaf, flags)
  {
    MapFromCorrect(m, pos, valid, root, 0, to, ix, flags, leaf, spare);
    MapFromEntries(m, pos, valid, root, 0, to, ix, flags, leaf, spare);
    if AllUser(leaf, to, flags) {
      MapFromUser(m, pos, valid, root, 0, to, ix, flags, leaf, spare);
    }
    RemappedOthers(m, pos, m', pos', valid, roots, space, ix, to);
    VmapWhole(m, pos, roots, m', pos', roots, space, ix, to, leaf, flags);
  }

  /** What mapping one page does, part by part. */
  datatype Part = OtherPages | ThePage | OtherEntries | UserAccess

  ghost predicate VmapPart(m: Mem, pos: Positions, r: Roots, m': Mem, pos': Positions, r': Roots, space: Space,
                           ix: Path, to: nat, leaf: Entry, flags: seq<Flags>, part: Part)
    requires to <= 3 && |flags| == 4
  {
    match part
    case OtherPages => OthersKept(m, r, m', r', space, ix, to)
    case ThePage => PageMapsTo(m', r', space, ix, leaf, to, flags)
    case OtherEntries => EntriesKept(m, pos, m', pos', space, ix, to)
    case UserAccess => AllUser(leaf, to, flags) ==> HasUserPath(m', r', space, ix, to)
  }

  ghost predicate VmapDone(m: Mem, pos: Positions, r: Roots, m': Mem, pos': Positions, r': Roots, space: Space,
                           ix: Path, to: nat, leaf: Entry, flags: seq<Flags>)
    requires to <= 3 && |flags| == 4
  {
    forall part :: VmapPart(m, pos, r, m', pos', r', space, ix, to, leaf, flags, part)
  }

  lemma VmapParts(m: Mem, pos: Positions, r: Roots, m': Mem, pos': Positions, r': Roots, space: Space, ix: Path,
                  to: nat, leaf: Entry, flags: seq<Flags>)
    requires to <= 3 && |flags| == 4 && VmapDone(m, pos, r, m', pos', r', space, ix, to, leaf, flags)
    ensures OthersKept(m, r, m', r', space, ix, to) && PageMapsTo(m', r', space, ix, leaf, to, flags)
    ensures EntriesKept(m, pos, m', pos', space, ix, to)
    ensures AllUser(leaf, to, flags) ==> HasUserPath(m', r', space, ix, to)
  {
    assert VmapPart(m, pos, r, m', pos', r', space, ix, to, leaf, flags, OtherPages);
    assert VmapPart(m, pos, r, m', pos', r', space, ix, to, leaf, flags, ThePage);
    assert VmapPart(m, pos, r, m', pos', r', space, ix, to, leaf, flags, OtherEntries);
    assert VmapPart(m, pos, r, m', pos', r', space, ix, to, leaf, flags, UserAccess);
  }

  lemma VmapWhole(m: Mem, pos: Positions, r: Roots, m': Mem, pos': Positions, r': Roots, space: Space, ix: Path,
                  to: nat, leaf: Entry, flags: seq<Flags>)
    requires to <= 3 && |flags| == 4
    requires OthersKept(m, r, m', r', space, ix, to) && PageMapsTo(m', r', space, ix, leaf, to, flags)
    requires EntriesKept(m, pos, m', pos', space, ix, to)
    requires AllUser(leaf, to, flags) ==> HasUserPath(m', r', space, ix, to)
    ensures VmapDone(m, pos, r, m', pos', r', space, ix, to, leaf, flags)
  {
    forall part ensures VmapPart(m, pos, r, m', pos', r', space, ix, to, leaf, flags, part) {
      match part {
        case OtherPages =>
        case ThePage =>
        case OtherEntries =>
        case UserAccess =>
      }
    }
  }

  /** Tables that are new but lead nowhere do not matter. */
  lemma VmapDoneAfter(m: Mem, pos: Positions, r: Roots, m1: Mem, pos1: Positions, r1: Roots, m': Mem, pos': Positions,
                      r': Roots, space: Space, ix: Path, to: nat, leaf: Entry, flags: seq<Flags>)
    requires to <= 3 && |flags| == 4 && m.Keys == pos.Keys
    requires SameTranslations(m, r, m1, r1) && SameTables(m, pos, m1, pos1)
    requires VmapDone(m1, pos1, r1, m', pos', r', space, ix, to, leaf, flags)
    ensures VmapDone(m, pos, r, m', pos', r', space, ix, to, leaf, flags)
  {
    VmapParts(m1, pos1, r1, m', pos', r', space, ix, to, leaf, flags);
    OthersKeptAfter(m, r, m1, r1, m', r', space, ix, to);
    EntriesAfter(m, pos, m1, pos1, m', pos', space, ix, to);
    VmapWhole(m, pos, r, m', pos', r', space, ix, to, leaf, flags);
  }

  /** A new root changes no translation. */
  lemma NewRootTranslates(m: Mem, pos: Positions, valid: nat -> bool, root: nat, roots: Roots)
    requires Tree(m, pos, valid) && RootsAt(m, pos, roots) && roots.user == None && root !in m
    ensures SameTranslations(m, roots, m[root := CleanTable()], Roots(roots.kernel, Some(root)))
  {
    forall s, ix: Path
      ensures Translate(m[root := CleanTable()], Roots(roots.kernel, Some(root)), s, ix) == Translate(m, roots, s, ix)
    {
      AddedWalk(m, pos, valid, root, roots.kernel, 0, ix);
    }
  }

  /** All tables are where they were, and hold what they held. */
  ghost predicate SameTables(m: Mem, pos: Positions, m': Mem, pos': Positions) {
    SamePositions(m, pos, m', pos') && forall t :: t in m ==> t in m' && m'[t] == m[t]
  }

  /** The USER bit is asked for at every level. */
  predicate AllUser(leaf: Entry, to: nat, flags: seq<Flags>)
    requires to <= 3 && |flags| == 4
  {
    leaf.flags.present && leaf.flags.user && forall k :: 0 <= k < to ==> flags[k].user
  }

  /** A clean table that hangs nowhere changes nothing. */
  lemma AddedTree(m: Mem, pos: Positions, valid: nat -> bool, f: nat)
    requires Tree(m, pos, valid) && f !in m && valid(f)
    ensures Tree(m[f := CleanTable()], pos[f := Pos(User, [])], valid)
  {
    var m', pos' := m[f := CleanTable()], pos[f := Pos(User, [])];
    forall u, j: Index | u in m' ensures EntryOk(m', pos', valid, pos'[u], j, m'[u][j]) {
      if u in m {
        assert EntryOk(m, pos, valid, pos[u], j, m[u][j]);
      }
    }
  }

  lemma {:induction false} AddedWalk(m: Mem, pos: Positions, valid: nat -> bool, f: nat, u: nat, depth: nat, ix: Path)
    requires Tree(m, pos, valid) && f !in m && u in m && depth <= 3 && |pos[u].path| == depth
    ensures Walk(m[f := CleanTable()], u, depth, ix) == Walk(m, u, depth, ix)
    decreases 3 - depth
  {
    var e := m[u][ix[depth]];
    assert EntryOk(m, pos, valid, pos[u], ix[depth], e);
    if e.flags.present && !IsLeaf(depth, e) {
      AddedWalk(m, pos, valid, f, e.mfn, depth + 1, ix);
    }
  }

  // ---- the method steps compose to MapFrom -----------------------------

  ghost predicate StepDone(m: Mem, pos: Positions, m': Mem, pos': Positions, valid: nat -> bool, t: nat, depth: nat,
                           to: nat, ix: Path, flags: seq<Flags>, next: nat)
    requires depth < to <= 3 && |flags| == 4 && t in m && t in pos
  {
    var spare := [next, next, next, next];
    && m' == Descend(m, valid, t, depth, ix, flags, spare) && pos' == DescendPos(m, pos, valid, t, depth, ix, spare)
    && next == NextTable(m, valid, t, depth, ix, spare)
    && (!valid(m[t][ix[depth]].mfn) ==> valid(next) && next !in m)
    && At(m', pos', next, depth + 1, ix) && pos'[next].space == pos[t].space
    && NoLargerPage(m', next, depth + 1, to, ix)
  }

  /** The tables are what the directly addressed mapping makes of them, given the frames `spare`. */
  ghost predicate MapDone(m: Mem, pos: Positions, m': Mem, pos': Positions, valid: nat -> bool, t: nat, depth: nat,
                          to: nat, ix: Path, flags: seq<Flags>, leaf: Entry, spare: seq<nat>)
    requires depth <= to <= 3 && |flags| == |spare| == 4
  {
    && m' == MapFrom(m, valid, t, depth, to, ix, flags, leaf, spare)
    && pos' == MapFromPos(m, pos, valid, t, depth, to, ix, flags, spare)
    && Supplied(m, valid, t, depth, to, ix, flags, spare)
  }

  lemma MapDoneStep(m: Mem, pos: Positions, m1: Mem, pos1: Positions, m': Mem, pos': Positions, valid: nat -> bool,
                    t: nat, depth: nat, to: nat, ix: Path, flags: seq<Flags>, leaf: Entry, next: nat, spare: seq<nat>)
    requires depth < to <= 3 && |flags| == |spare| == 4 && t in m && t in pos && spare[..depth + 1][depth] == next
    requires StepDone(m, pos, m1, pos1, valid, t, depth, to, ix, flags, next)
    requires MapDone(m1, pos1, m', pos', valid, next, depth + 1, to, ix, flags, leaf, spare)
    ensures MapDone(m, pos, m', pos', valid, t, depth, to, ix, flags, leaf, spare)
  {
    var same := [next, next, next, next];
    assert Descend(m, valid, t, depth, ix, flags, spare) == Descend(m, valid, t, depth, ix, flags, same);
    assert NextTable(m, valid, t, depth, ix, spare) == next;
    assert DescendPos(m, pos, valid, t, depth, ix, spare) == DescendPos(m, pos, valid, t, depth, ix, same);
  }

  /** NULL, or MAP_FAILED for the address that is NULL itself. */
  function Refused(va: nat): nat {
    if va != 0 then 0 else 1
  }

  predicate Acceptable(va: nat, to: nat)
    requires to <= 3
  {
    AlignedTo(va, to) && Canonical(va)
  }

  /** The entry _vmap writes: the frame number is cut to the 40 bits of an entry, PSE marks a larger page. */
  function LeafFor(mfn: nat, to: nat, flags: seq<Flags>): Entry
    requires to <= 3 && |flags| == 4
  {
    Entry(mfn % 0x100_0000_0000, flags[to].(huge := to < 3 || flags[to].huge))
  }

  /** What is missing below the next table, if that exists and if it is new. */
  lemma StepMissing(m: Mem, pos: Positions, valid: nat -> bool, t: nat, depth: nat, to: nat, ix: Path,
                    flags: seq<Flags>, lack: nat)
    requires Tree(m, pos, valid) && At(m, pos, t, depth, ix) && depth < to <= 3 && |flags| == 4
    requires NoLargerPage(m, t, depth, to, ix) && lack == Missing(m, t, depth, to, ix)
    ensures var e := m[t][ix[depth]];
            if valid(e.mfn) then Missing(Fixup(m, t, ix[depth], flags[depth]), e.mfn, depth + 1, to, ix) == lack
            else
              && lack == to - depth
              && forall f :: f !in m ==> Missing(Hang(m, t, ix[depth], f, flags[depth]), f, depth + 1, to,
                                                 ix) + 1 == lack
  {
    var e := m[t][ix[depth]];
    assert EntryOk(m, pos, valid, pos[t], ix[depth], e);
    if valid(e.mfn) {
      FixupMissing(m, t, ix[depth], flags[depth], e.mfn, depth + 1, to, ix);
    } else {
      forall f | f !in m
        ensures Missing(Hang(m, t, ix[depth], f, flags[depth]), f, depth + 1, to, ix) == to - depth - 1
      {
        HungMissing(m, t, ix[depth], f, flags[depth], depth + 1, to, ix);
      }
    }
  }

  lemma CleanMissing(m: Mem, root: nat, to: nat, ix: Path)
    requires to <= 3
    ensures root in m && m[root] == CleanTable() ==> Missing(m, root, 0, to, ix) == to
  {
  }

  /** No address beside the page ix[..to + 1] of `space` lacks more tables than before. */
  ghost predicate TablesKept(m: Mem, r: Roots, m': Mem, r': Roots, space: Space, ix: Path, to: nat)
    requires to <= 3
  {
    forall s, ix': Path, to': nat {:trigger Lacking(m', r', s, to', ix')} ::
      to' <= 3 && (s != space || ix'[..to + 1] != ix[..to + 1]) ==>
        Lacking(m', r', s, to', ix') <= Lacking(m, r, s, to', ix')
  }

  lemma EntriesAreTables(m: Mem, pos: Positions, valid: nat -> bool, r: Roots, m': Mem, pos': Positions, r': Roots,
                         space: Space, ix: Path, to: nat)
    requires Tree(m, pos, valid) && RootsAt(m, pos, r) && to <= 3 && EntriesKept(m, pos, m', pos', space, ix, to)
    requires r'.kernel == r.kernel && (r.user.Some? ==> r'.user == r.user)
    ensures TablesKept(m, r, m', r', space, ix, to)
  {
    forall s, ix': Path, to': nat | to' <= 3 && (s != space || ix'[..to + 1] != ix[..to + 1])
      ensures Lacking(m', r', s, to', ix') <= Lacking(m, r, s, to', ix')
    {
      assert ix'[..0] == [];
      if s == Kernel {
        MissingKept(m, pos, m', pos', valid, r.kernel, 0, to', ix', space, ix, to);
      } else if r.user.Some? {
        MissingKept(m, pos, m', pos', valid, r.user.value, 0, to', ix', space, ix, to);
      } else if r'.user.Some? {
        MissingBound(m', r'.user.value, 0, to', ix');
      }
    }
  }

  /**
    `k` tables are created, each in the first free 4K frame, and that stops
    the kernel only if there are not more than `k` free 4K frames.
   */
  ghost predicate Spends(before: Lists, after: Lists, k: nat, stopped: bool) {
    |before| == ORDERS && (k == 0 || |before[0]| > k) ==>
      !stopped && |after| == ORDERS && |after[0]| == |before[0]| - k
  }

  ghost predicate AffordsAs(state: State, before: Lists, after: Lists, n: nat, stopped: bool) {
    match state case InLoop =>
      |before| == ORDERS && (n == 0 || |before[PAGE_ORDER_4K]| > 4 * n) ==>
        !stopped && |after| == ORDERS && |after[PAGE_ORDER_4K]| + 4 * n >= |before[PAGE_ORDER_4K]|
  }

  /** With four 4K frames for each of `n` pages and one more it does not stop, and takes no more than that. */
  ghost predicate Affords(before: Lists, after: Lists, n: nat, stopped: bool) {
    forall state :: AffordsAs(state, before, after, n, stopped)
  }

  lemma AffordsNone(free: Lists)
    ensures Affords(free, free, 0, false)
  {
  }

  lemma AffordsNext(a: Lists, b: Lists, c: Lists, k: nat, n: nat, stopped: bool)
    requires k < n && Affords(a, b, k, false) && Affords(b, c, 1, stopped)
    ensures if stopped then Affords(a, c, n, true) else Affords(a, c, k + 1, false)
  {
    assert AffordsAs(InLoop, a, b, k, false) && AffordsAs(InLoop, b, c, 1, stopped);
  }

  lemma TooFewPages(before: Lists, after: Lists, n: nat)
    requires Affords(before, after, n, true) && |before| == ORDERS && n <= 2
    ensures |before[PAGE_ORDER_4K]| <= 8
  {
    assert AffordsAs(InLoop, before, after, n, true);
  }

  datatype Errno = ESUCCESS | EINVAL | ENOENT | EFAULT

  /** The depth of the table whose entries map pages of an order. */
  function DepthOf(order: nat): nat {
    if order == 18 then 1 else if order == 9 then 2 else 3
  }

  lemma DepthOfLeaf(depth: nat)
    requires 1 <= depth <= 3
    ensures LeafOrder(depth) in {0, 9, 18} && DepthOf(LeafOrder(depth)) == depth
  {
  }

  /** The translation of a page mapped by one of the _vmap_* wrappers. */
  ghost predicate PageIs(w: Translation, mfn: nat, to: nat, leaf: Flags, propagateUser: bool)
    requires to <= 3
  {
    if !leaf.present then w == NotMapped
    else
      && w.Page? && w.mfn == mfn % 0x100_0000_0000 && w.order == LeafOrder(to) && w.rw == leaf.rw
      && (w.user ==> leaf.user) && (leaf.user && propagateUser ==> w.user)
      && w.own.user == leaf.user && w.own.rw == leaf.rw
  }

  /** Every address of the page ix[..to + 1] finds the leaf. */
  ghost predicate PageMapsTo(m: Mem, roots: Roots, space: Space, ix: Path, leaf: Entry, to: nat, flags: seq<Flags>)
    requires to <= 3 && |flags| == 4
  {
    forall ix': Path :: ix'[..to + 1] == ix[..to + 1] ==> MapsTo(Translate(m, roots, space, ix'), leaf, to, flags, 0)
  }

  /** Every address of the page ix[..to + 1] finds the frame. */
  ghost predicate PageMapped(m: Mem, roots: Roots, space: Space, ix: Path, mfn: nat, to: nat, leaf: Flags, user: bool)
    requires to <= 3
  {
    forall ix': Path :: ix'[..to + 1] == ix[..to + 1] ==> PageIs(Translate(m, roots, space, ix'), mfn, to, leaf, user)
  }

  lemma MapsToPageIs(m: Mem, roots: Roots, space: Space, ix: Path, mfn: nat, to: nat, flags: seq<Flags>, leaf: Flags,
                     user: bool)
    requires to <= 3 && |flags| == 4 && flags[to] == leaf
    requires forall k :: 0 <= k < to ==> flags[k].rw && (flags[k].user <==> user && leaf.user)
    requires PageMapsTo(m, roots, space, ix, LeafFor(mfn, to, flags), to, flags)
    ensures PageMapped(m, roots, space, ix, mfn, to, leaf, user)
  {
  }
}
