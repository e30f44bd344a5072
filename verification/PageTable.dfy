/**
  Four-level page tables as values: the entries of include/arch/x86/pagetable.h,
  the walk of section 4.5 of the Intel SDM, Volume 3A, with the access rights
  of section 4.6, and what the single-entry updates of arch/x86/pagetables.c do
  to all translations at once.
 */
module PageTable {
  import opened Wrappers

  /** The entry bits with a meaning in the model. */
  datatype Flags = Flags(present: bool, rw: bool, user: bool, huge: bool)

  datatype Entry = Entry(mfn: nat, flags: Flags)

  /** The frame number an entry holds after set_pgentry(e, MFN_INVALID, ...): 40 bits of ones. */
  const MFN_INVALID: nat := 0xFF_FFFF_FFFF

  const NO_FLAGS := Flags(false, false, false, false)

  /** L1_PROT to L4_PROT differ only in bits that are not modelled. */
  const PROT := Flags(true, true, false, false)

  const CLEAR := Entry(MFN_INVALID, NO_FLAGS)

  type Table = t: seq<Entry> | |t| == 512 witness seq(512, _ => CLEAR)

  /** A table after clean_pagetable. */
  function CleanTable(): (t: Table)
    ensures forall i: Index :: t[i] == CLEAR
  {
    seq(512, _ => CLEAR)
  }

  type Mem = map<nat, Table>

  /** A table index, and the four of them a virtual address is made of, the L4 index first. */
  type Index = i: nat | i < 512
  type Path = p: seq<Index> | |p| == 4 witness [0, 0, 0, 0]

  /** A page with the rights all entries on its way leave, and with the flags of its own entry. */
  datatype Translation = NotMapped | Page(mfn: nat, order: nat, user: bool, rw: bool, own: Flags)

  function SetEntry(m: Mem, t: nat, i: Index, e: Entry): Mem
    requires t in m
  {
    m[t := m[t][i := e]]
  }

  lemma SetEntryTwice(m: Mem, t: nat, i: Index, e: Entry, e': Entry)
    requires t in m
    ensures SetEntry(SetEntry(m, t, i, e), t, i, e') == SetEntry(m, t, i, e')
  {
    assert m[t][i := e][i := e'] == m[t][i := e'];
  }

  lemma SetEntryCommute(m: Mem, t: nat, i: Index, e: Entry, t': nat, i': Index, e': Entry)
    requires t in m && t' in m && (t != t' || i != i')
    ensures SetEntry(SetEntry(m, t, i, e), t', i', e') == SetEntry(SetEntry(m, t', i', e'), t, i, e)
  {
    if t == t' {
      assert m[t][i := e][i' := e'] == m[t][i' := e'][i := e];
    }
  }

  /** At depth 1 and 2 (L3 and L2 tables) the PS bit makes an entry a leaf, at depth 3 every entry is one. */
  predicate IsLeaf(depth: nat, e: Entry) {
    depth == 3 || (depth > 0 && e.flags.huge)
  }

  function LeafOrder(depth: nat): nat
    requires depth <= 3
  {
    9 * (3 - depth)
  }

  /** Rights accumulate: an access needs the bit in every entry on the way. */
  function Restrict(t: Translation, f: Flags): Translation {
    if t.Page? then t.(user := t.user && f.user, rw := t.rw && f.rw) else t
  }

  /** The walk of section 4.5, from table `t` at `depth`. */
  function Walk(m: Mem, t: nat, depth: nat, ix: Path): Translation
    requires depth <= 3
    decreases 3 - depth, t
  {
    if t !in m then NotMapped
    else
      var e := m[t][ix[depth]];
      if !e.flags.present then NotMapped
      else if IsLeaf(depth, e) then Page(e.mfn, LeafOrder(depth), e.flags.user, e.flags.rw, e.flags)
      else Restrict(Walk(m, e.mfn, depth + 1, ix), e.flags)
  }

  /** No right is left that the page's own entry does not have. */
  lemma {:induction false} OwnRights(m: Mem, t: nat, depth: nat, ix: Path)
    requires depth <= 3
    ensures var w := Walk(m, t, depth, ix); w.Page? ==> (w.user ==> w.own.user) && (w.rw ==> w.own.rw)
    decreases 3 - depth
  {
    if t in m && m[t][ix[depth]].flags.present && !IsLeaf(depth, m[t][ix[depth]]) {
      OwnRights(m, m[t][ix[depth]].mfn, depth + 1, ix);
    }
  }

  /** The same page with the same entry, and with no right lost on the way to it. */
  predicate SameOrMore(a: Translation, b: Translation) {
    || (a == NotMapped && b == NotMapped)
    || (&& a.Page? && b.Page? && a.mfn == b.mfn && a.order == b.order && a.own == b.own
        && (a.user ==> b.user) && (a.rw ==> b.rw))
  }

  // ---- the tables form trees -------------------------------------------

  datatype Space = Kernel | User

  /** Where a table hangs: the address space and the indices that lead to it. */
  datatype Pos = Pos(space: Space, path: seq<Index>)

  type Positions = map<nat, Pos>

  /** What the entry `e` at index `i` of a table at position `p` may be. */
  ghost predicate EntryOk(m: Mem, pos: Positions, valid: nat -> bool, p: Pos, i: Index, e: Entry) {
    && (|p.path| == 0 ==> !e.flags.huge)
    && (|p.path| < 3 && e.flags.huge ==> e.flags.present)
    && (|p.path| < 3 && !IsLeaf(|p.path|, e) ==>
      if valid(e.mfn) then
        e.flags.present && e.mfn in m && e.mfn in pos && pos[e.mfn] == Pos(p.space, p.path + [i])
      else
        !e.flags.present)
  }

  /**
    Every table knows the one position it hangs at, so no two entries of live
    tables lead to the same table and the two address spaces share none.
   */
  ghost predicate Tree(m: Mem, pos: Positions, valid: nat -> bool) {
    && !valid(MFN_INVALID)
    && m.Keys == pos.Keys
    && (forall t :: t in m ==> valid(t) && |pos[t].path| <= 3)
    && (forall t, i: Index {:trigger EntryOk(m, pos, valid, pos[t], i, m[t][i])} ::
      t in m ==> EntryOk(m, pos, valid, pos[t], i, m[t][i]))
  }

  ghost predicate IsPrefix(path: seq<Index>, ix: Path) {
    |path| <= 4 && ix[..|path|] == path
  }

  /** get_pgentry_mfn on an empty entry: a clean table `f` is hung below it. */
  function Hang(m: Mem, t: nat, i: Index, f: nat, flags: Flags): Mem
    requires t in m
  {
    SetEntry(m, t, i, Entry(f, flags))[f := CleanTable()]
  }

  /** pgentry_fixup_flags: USER and RW are only ever added. */
  function FixFlags(e: Entry, flags: Flags): Entry {
    Entry(e.mfn, Flags(e.flags.present, e.flags.rw || flags.rw, e.flags.user || flags.user, e.flags.huge))
  }

  function Fixup(m: Mem, t: nat, i: Index, flags: Flags): Mem
    requires t in m
  {
    SetEntry(m, t, i, FixFlags(m[t][i], flags))
  }

  ghost predicate LinkFlags(f: Flags) {
    f.present && !f.huge
  }

  lemma HangTree(m: Mem, pos: Positions, valid: nat -> bool, t: nat, i: Index, f: nat, flags: Flags)
    requires Tree(m, pos, valid) && t in m && |pos[t].path| < 3
    requires f !in m && valid(f) && LinkFlags(flags)
    ensures Tree(Hang(m, t, i, f, flags), pos[f := Pos(pos[t].space, pos[t].path + [i])], valid)
  {
    var m', pos' := Hang(m, t, i, f, flags), pos[f := Pos(pos[t].space, pos[t].path + [i])];
    forall u, j: Index | u in m' ensures EntryOk(m', pos', valid, pos'[u], j, m'[u][j]) {
      if u in m {
        assert EntryOk(m, pos, valid, pos[u], j, m[u][j]);
      }
    }
  }

  /** Hanging a clean table below an entry that was no leaf and led nowhere changes no translation. */
  lemma {:induction false} HangWalk(m: Mem, pos: Positions, valid: nat -> bool, t: nat, i: Index, f: nat, flags: Flags,
                                    u: nat, depth: nat, ix: Path)
    requires Tree(m, pos, valid) && t in m && |pos[t].path| < 3
    requires f !in m && LinkFlags(flags)
    requires !IsLeaf(|pos[t].path|, m[t][i]) && !valid(m[t][i].mfn)
    requires u in m && depth <= 3 && |pos[u].path| == depth
    ensures Walk(Hang(m, t, i, f, flags), u, depth, ix) == Walk(m, u, depth, ix)
    decreases 3 - depth
  {
    var m' := Hang(m, t, i, f, flags);
    var e := m[u][ix[depth]];
    assert EntryOk(m, pos, valid, pos[u], ix[depth], e);
    if u == t && ix[depth] == i {
      assert m'[f][ix[depth + 1]] == CLEAR;
      assert Walk(m', f, depth + 1, ix) == NotMapped;
    } else if e.flags.present && !IsLeaf(depth, e) {
      HangWalk(m, pos, valid, t, i, f, flags, e.mfn, depth + 1, ix);
    }
  }

  lemma FixupTree(m: Mem, pos: Positions, valid: nat -> bool, t: nat, i: Index, flags: Flags)
    requires Tree(m, pos, valid) && t in m
    ensures Tree(Fixup(m, t, i, flags), pos, valid)
  {
    var m' := Fixup(m, t, i, flags);
    forall u, j: Index | u in m' ensures EntryOk(m', pos, valid, pos[u], j, m'[u][j]) {
      assert EntryOk(m, pos, valid, pos[u], j, m[u][j]);
    }
  }

  lemma {:induction false} FixupWalk(m: Mem, pos: Positions, valid: nat -> bool, t: nat, i: Index, flags: Flags, u: nat,
                                     depth: nat, ix: Path)
    requires Tree(m, pos, valid) && t in m && !IsLeaf(|pos[t].path|, m[t][i])
    requires u in m && depth <= 3 && |pos[u].path| == depth
    ensures SameOrMore(Walk(m, u, depth, ix), Walk(Fixup(m, t, i, flags), u, depth, ix))
    decreases 3 - depth
  {
    var e := m[u][ix[depth]];
    assert EntryOk(m, pos, valid, pos[u], ix[depth], e);
    if e.flags.present && !IsLeaf(depth, e) {
      FixupWalk(m, pos, valid, t, i, flags, e.mfn, depth + 1, ix);
    }
  }

  /** A leaf, or an entry cleared by set_pgentry(e, MFN_INVALID, PT_NO_FLAGS). */
  ghost predicate LeafEntry(depth: nat, e: Entry) {
    (depth >= 1 && IsLeaf(depth, e) && (depth < 3 ==> e.flags.present)) || e == CLEAR
  }

  lemma LeafTree(m: Mem, pos: Positions, valid: nat -> bool, t: nat, i: Index, e: Entry)
    requires Tree(m, pos, valid) && t in m && LeafEntry(|pos[t].path|, e)
    ensures Tree(SetEntry(m, t, i, e), pos, valid)
  {
    var m' := SetEntry(m, t, i, e);
    forall u, j: Index | u in m' ensures EntryOk(m', pos, valid, pos[u], j, m'[u][j]) {
      assert EntryOk(m, pos, valid, pos[u], j, m[u][j]);
    }
  }

  /** Writing an entry leaves every walk alone that does not pass through its position. */
  lemma {:induction false} WriteWalk(m: Mem, pos: Positions, valid: nat -> bool, t: nat, i: Index, e: Entry,
                                     u: nat, depth: nat, ix: Path)
    requires Tree(m, pos, valid) && t in m
    requires u in m && depth <= 3 && |pos[u].path| == depth && IsPrefix(pos[u].path, ix)
    requires pos[u].space != pos[t].space || !IsPrefix(pos[t].path + [i], ix)
    ensures Walk(SetEntry(m, t, i, e), u, depth, ix) == Walk(m, u, depth, ix)
    decreases 3 - depth
  {
    var m' := SetEntry(m, t, i, e);
    var w := m[u][ix[depth]];
    assert EntryOk(m, pos, valid, pos[u], ix[depth], w);
    assert ix[..depth + 1] == ix[..depth] + [ix[depth]];
    assert m'[u][ix[depth]] == w;
    if w.flags.present && !IsLeaf(depth, w) {
      WriteWalk(m, pos, valid, t, i, e, w.mfn, depth + 1, ix);
    }
  }

  /** A position table `t` can be descended from along `ix`. */
  ghost predicate At(m: Mem, pos: Positions, t: nat, depth: nat, ix: Path) {
    depth <= 3 && t in m && t in pos && pos[t].path == ix[..depth]
  }

  // ---- mapping one page ------------------------------------------------

  /** No entry above depth `to` on the way of `ix` is a large page. */
  predicate NoLargerPage(m: Mem, t: nat, depth: nat, to: nat, ix: Path)
    requires depth <= to <= 3
    decreases 3 - depth, t
  {
    depth == to || t !in m ||
    (!IsLeaf(depth, m[t][ix[depth]]) && NoLargerPage(m, m[t][ix[depth]].mfn, depth + 1, to, ix))
  }

  /** In a tree a larger page in the way is one that is mapped. */
  lemma {:induction false} NoLargerPageMapped(m: Mem, pos: Positions, valid: nat -> bool, t: nat, depth: nat, to: nat,
                                              ix: Path)
    requires Tree(m, pos, valid) && At(m, pos, t, depth, ix) && depth <= to <= 3
    ensures NoLargerPage(m, t, depth, to, ix) <==>
            !(Walk(m, t, depth, ix).Page? && Walk(m, t, depth, ix).order > LeafOrder(to))
    decreases 3 - depth
  {
    if depth < to {
      var e := m[t][ix[depth]];
      assert EntryOk(m, pos, valid, pos[t], ix[depth], e);
      assert ix[..depth + 1] == ix[..depth] + [ix[depth]];
      if !IsLeaf(depth, e) && valid(e.mfn) {
        NoLargerPageMapped(m, pos, valid, e.mfn, depth + 1, to, ix);
      }
    } else {
      WalkOrder(m, t, depth, ix);
    }
  }

  lemma {:induction false} WalkOrder(m: Mem, t: nat, depth: nat, ix: Path)
    requires depth <= 3
    ensures Walk(m, t, depth, ix).Page? ==> Walk(m, t, depth, ix).order <= LeafOrder(depth)
    decreases 3 - depth
  {
    if t in m && m[t][ix[depth]].flags.present && !IsLeaf(depth, m[t][ix[depth]]) {
      WalkOrder(m, m[t][ix[depth]].mfn, depth + 1, ix);
    }
  }

  /**
    _vmap with every table directly addressable: from table `t` at `depth`
    down to depth `to`, hanging the frame spare[k] below an empty entry at
    depth k, and writing `leaf` there.
   */
  function MapFrom(m: Mem, valid: nat -> bool, t: nat, depth: nat, to: nat, ix: Path, flags: seq<Flags>,
                   leaf: Entry, spare: seq<nat>): Mem
    requires depth <= to <= 3 && |flags| == |spare| == 4
    decreases 3 - depth, t
  {
    if t !in m then m
    else if depth == to then SetEntry(m, t, ix[to], leaf)
    else
      var next := NextTable(m, valid, t, depth, ix, spare);
      MapFrom(Descend(m, valid, t, depth, ix, flags, spare), valid, next, depth + 1, to, ix, flags, leaf, spare)
  }

  /** The tables after get_pgentry_mfn at one level. */
  function Descend(m: Mem, valid: nat -> bool, t: nat, depth: nat, ix: Path, flags: seq<Flags>, spare: seq<nat>): Mem
    requires depth < 4 && |flags| == |spare| == 4 && t in m
  {
    if valid(m[t][ix[depth]].mfn) then Fixup(m, t, ix[depth], flags[depth])
    else Hang(m, t, ix[depth], spare[depth], flags[depth])
  }

  /** What get_pgentry_mfn returns. */
  function NextTable(m: Mem, valid: nat -> bool, t: nat, depth: nat, ix: Path, spare: seq<nat>): nat
    requires depth < 4 && |spare| == 4 && t in m
  {
    if valid(m[t][ix[depth]].mfn) then m[t][ix[depth]].mfn else spare[depth]
  }

  ghost function DescendPos(m: Mem, pos: Positions, valid: nat -> bool, t: nat, depth: nat, ix: Path,
                            spare: seq<nat>): Positions
    requires depth < 4 && |spare| == 4 && t in m && t in pos
  {
    if valid(m[t][ix[depth]].mfn) then pos
    else pos[spare[depth] := Pos(pos[t].space, pos[t].path + [ix[depth]])]
  }

  ghost function MapFromPos(m: Mem, pos: Positions, valid: nat -> bool, t: nat, depth: nat, to: nat, ix: Path,
                            flags: seq<Flags>, spare: seq<nat>): Positions
    requires depth <= to <= 3 && |flags| == |spare| == 4
    decreases 3 - depth, t
  {
    if t !in m || t !in pos || depth == to then pos
    else
      var next := NextTable(m, valid, t, depth, ix, spare);
      MapFromPos(Descend(m, valid, t, depth, ix, flags, spare), DescendPos(m, pos, valid, t, depth, ix, spare),
        valid, next, depth + 1, to, ix, flags, spare)
  }

  /** Wherever a table has to be hung, the frame for it is memory and not a table yet. */
  ghost predicate Supplied(m: Mem, valid: nat -> bool, t: nat, depth: nat, to: nat, ix: Path, flags: seq<Flags>,
                           spare: seq<nat>)
    requires depth <= to <= 3 && |flags| == |spare| == 4
    decreases 3 - depth, t
  {
    depth == to || t !in m ||
    (&& (!valid(m[t][ix[depth]].mfn) ==> valid(spare[depth]) && spare[depth] !in m)
     && Supplied(Descend(m, valid, t, depth, ix, flags, spare), valid, NextTable(m, valid, t, depth, ix, spare),
          depth + 1, to, ix, flags, spare))
  }

  /** Every walk from every table of m finds the same page in m', with no right lost. */
  ghost predicate Extends(m: Mem, pos: Positions, m': Mem, pos': Positions) {
    && (forall u :: u in pos ==> u in pos' && pos'[u] == pos[u])
    && (forall u, ix: Path :: u in m && u in pos && |pos[u].path| <= 3 && IsPrefix(pos[u].path, ix) ==>
      SameOrMore(Walk(m, u, |pos[u].path|, ix), Walk(m', u, |pos[u].path|, ix)))
  }

  /** One level down: nothing is lost, and the entry now leads to the next table. */
  lemma DescendStep(m: Mem, pos: Positions, valid: nat -> bool, t: nat, depth: nat, to: nat, ix: Path,
                    flags: seq<Flags>, spare: seq<nat>)
    requires Tree(m, pos, valid) && At(m, pos, t, depth, ix) && depth < to <= 3 && |flags| == |spare| == 4
    requires NoLargerPage(m, t, depth, to, ix) && LinkFlags(flags[depth])
    requires !valid(m[t][ix[depth]].mfn) ==> valid(spare[depth]) && spare[depth] !in m
    ensures var m', pos' := Descend(m, valid, t, depth, ix, flags, spare),
      DescendPos(m, pos, valid, t, depth, ix, spare);
            var next, e := NextTable(m, valid, t, depth, ix, spare), m'[t][ix[depth]];
            && Tree(m', pos', valid) && Extends(m, pos, m', pos')
            && At(m', pos', next, depth + 1, ix) && pos'[next].space == pos[t].space
            && NoLargerPage(m', next, depth + 1, to, ix)
            && e.mfn == next && e.flags.present && !IsLeaf(depth, e)
            && (flags[depth].user ==> e.flags.user) && (flags[depth].rw ==> e.flags.rw)
            && (forall u :: u in m && u != t ==> m'[u] == m[u])
  {
    var i, f := ix[depth], spare[depth];
    assert EntryOk(m, pos, valid, pos[t], i, m[t][i]);
    assert ix[..depth + 1] == ix[..depth] + [i];
    if valid(m[t][i].mfn) {
      FixupTree(m, pos, valid, t, i, flags[depth]);
      forall u, ix': Path | u in m && |pos[u].path| <= 3 && IsPrefix(pos[u].path, ix')
        ensures SameOrMore(Walk(m, u, |pos[u].path|, ix'), Walk(Fixup(m, t, i, flags[depth]), u, |pos[u].path|, ix'))
      {
        FixupWalk(m, pos, valid, t, i, flags[depth], u, |pos[u].path|, ix');
      }
      FixupNoLarger(m, t, i, flags[depth], m[t][i].mfn, depth + 1, to, ix);
    } else {
      HangTree(m, pos, valid, t, i, f, flags[depth]);
      forall u, ix': Path | u in m && |pos[u].path| <= 3 && IsPrefix(pos[u].path, ix')
        ensures SameOrMore(Walk(m, u, |pos[u].path|, ix'), Walk(Hang(m, t, i, f, flags[depth]), u, |pos[u].path|, ix'))
      {
        HangWalk(m, pos, valid, t, i, f, flags[depth], u, |pos[u].path|, ix');
      }
      CleanNoLarger(Hang(m, t, i, f, flags[depth]), f, depth + 1, to, ix);
    }
  }

  lemma {:induction false} FixupNoLarger(m: Mem, t: nat, i: Index, flags: Flags, u: nat, depth: nat, to: nat, ix: Path)
    requires t in m && depth <= to <= 3 && NoLargerPage(m, u, depth, to, ix)
    ensures NoLargerPage(Fixup(m, t, i, flags), u, depth, to, ix)
    decreases 3 - depth
  {
    if depth < to && u in m {
      FixupNoLarger(m, t, i, flags, m[u][ix[depth]].mfn, depth + 1, to, ix);
    }
  }

  lemma CleanNoLarger(m: Mem, f: nat, depth: nat, to: nat, ix: Path)
    requires f in m && m[f] == CleanTable() && MFN_INVALID !in m && depth <= to <= 3
    ensures NoLargerPage(m, f, depth, to, ix)
  {
  }

  /** The walk of `ix'` after the mapping: the leaf, with its rights cut by the entries above. */
  ghost predicate MapsTo(w: Translation, leaf: Entry, to: nat, flags: seq<Flags>, depth: nat)
    requires depth <= to <= 3 && |flags| == 4
  {
    if !leaf.flags.present then w == NotMapped
    else
      && w.Page? && w.mfn == leaf.mfn && w.order == LeafOrder(to) && w.own == leaf.flags
      && (w.user ==> leaf.flags.user) && (w.rw ==> leaf.flags.rw)
      && (leaf.flags.user && (forall k :: depth <= k < to ==> flags[k].user) ==> w.user)
      && (leaf.flags.rw && (forall k :: depth <= k < to ==> flags[k].rw) ==> w.rw)
  }

  /**
    The tables are still trees, and every walk that does not go through the
    page ix[..to + 1] of `space` finds the same page, with no right lost.
   */
  ghost predicate Remapped(m: Mem, pos: Positions, m': Mem, pos': Positions, valid: nat -> bool,
                           space: Space, ix: Path, to: nat)
    requires to <= 3
  {
    && Tree(m', pos', valid)
    && (forall u :: u in pos ==> u in pos' && pos'[u] == pos[u])
    && (forall u, ix': Path ::
      (u in m && u in pos && |pos[u].path| <= 3 && IsPrefix(pos[u].path, ix') &&
       (pos[u].space != space || ix'[..to + 1] != ix[..to + 1]))
      ==> SameOrMore(Walk(m, u, |pos[u].path|, ix'), Walk(m', u, |pos[u].path|, ix')))
  }

  lemma RemappedAfter(m: Mem, pos: Positions, m1: Mem, pos1: Positions, m': Mem, pos': Positions, valid: nat -> bool,
                      space: Space, ix: Path, to: nat)
    requires to <= 3 && Tree(m, pos, valid) && Tree(m1, pos1, valid)
    requires Extends(m, pos, m1, pos1) && Remapped(m1, pos1, m', pos', valid, space, ix, to)
    ensures Remapped(m, pos, m', pos', valid, space, ix, to)
  {
    forall u, ix': Path | u in m && u in pos && |pos[u].path| <= 3 && IsPrefix(pos[u].path, ix') &&
      (pos[u].space != space || ix'[..to + 1] != ix[..to + 1])
      ensures SameOrMore(Walk(m, u, |pos[u].path|, ix'), Walk(m', u, |pos[u].path|, ix'))
    {
      assert SameOrMore(Walk(m, u, |pos[u].path|, ix'), Walk(m1, u, |pos[u].path|, ix'));
    }
  }

  /** Writing the leaf itself. */
  lemma LeafCorrect(m: Mem, pos: Positions, valid: nat -> bool, t: nat, to: nat, ix: Path, leaf: Entry)
    requires Tree(m, pos, valid) && At(m, pos, t, to, ix) && LeafEntry(to, leaf)
    ensures Remapped(m, pos, SetEntry(m, t, ix[to], leaf), pos, valid, pos[t].space, ix, to)
  {
    var m' := SetEntry(m, t, ix[to], leaf);
    LeafTree(m, pos, valid, t, ix[to], leaf);
    assert ix[..to + 1] == ix[..to] + [ix[to]];
    forall u, ix': Path | u in m && u in pos && |pos[u].path| <= 3 && IsPrefix(pos[u].path, ix') &&
      (pos[u].space != pos[t].space || ix'[..to + 1] != ix[..to + 1])
      ensures SameOrMore(Walk(m, u, |pos[u].path|, ix'), Walk(m', u, |pos[u].path|, ix'))
    {
      WriteWalk(m, pos, valid, t, ix[to], leaf, u, |pos[u].path|, ix');
    }
  }

  lemma MapsToStep(m: Mem, t: nat, next: nat, leaf: Entry, depth: nat, to: nat, flags: seq<Flags>, ix: Path, ix': Path)
    requires depth < to <= 3 && |flags| == 4 && t in m && ix'[..to + 1] == ix[..to + 1]
    requires var e := m[t][ix[depth]];
             && e.mfn == next && e.flags.present && !IsLeaf(depth, e)
             && (flags[depth].user ==> e.flags.user) && (flags[depth].rw ==> e.flags.rw)
    requires MapsTo(Walk(m, next, depth + 1, ix'), leaf, to, flags, depth + 1)
    ensures MapsTo(Walk(m, t, depth, ix'), leaf, to, flags, depth)
  {
    assert ix'[depth] == ix'[..to + 1][depth] == ix[depth];
  }

  /**
    Mapping one page, for all walks at once: the walks through the page find
    the new leaf, every other walk in either address space finds what it
    found before, and the tables are still trees.
   */
  lemma {:induction false} MapFromCorrect(m: Mem, pos: Positions, valid: nat -> bool, t: nat, depth: nat, to: nat,
                                          ix: Path, flags: seq<Flags>, leaf: Entry, spare: seq<nat>)
    requires Tree(m, pos, valid) && At(m, pos, t, depth, ix) && depth <= to <= 3 && |flags| == |spare| == 4
    requires to >= 1 && IsLeaf(to, leaf) && LeafEntry(to, leaf) && (forall k :: depth <= k < to ==> LinkFlags(flags[k]))
    requires NoLargerPage(m, t, depth, to, ix) && Supplied(m, valid, t, depth, to, ix, flags, spare)
    ensures Remapped(m, pos, MapFrom(m, valid, t, depth, to, ix, flags, leaf, spare),
                     MapFromPos(m, pos, valid, t, depth, to, ix, flags, spare), valid, pos[t].space, ix, to)
    ensures forall u :: u in m && |pos[u].path| < depth ==>
      MapFrom(m, valid, t, depth, to, ix, flags, leaf, spare)[u] == m[u]
    ensures forall ix': Path :: ix'[..to + 1] == ix[..to + 1] ==>
      MapsTo(Walk(MapFrom(m, valid, t, depth, to, ix, flags, leaf, spare), t, depth, ix'), leaf, to, flags, depth)
    decreases 3 - depth
  {
    var m' := MapFrom(m, valid, t, depth, to, ix, flags, leaf, spare);
    if depth == to {
      LeafCorrect(m, pos, valid, t, to, ix, leaf);
      forall ix': Path | ix'[..to + 1] == ix[..to + 1] ensures MapsTo(Walk(m', t, depth, ix'), leaf, to, flags, depth) {
        assert ix'[to] == ix'[..to + 1][to] == ix[to];
      }
    } else {
      DescendStep(m, pos, valid, t, depth, to, ix, flags, spare);
      var m1 := Descend(m, valid, t, depth, ix, flags, spare);
      var pos1 := DescendPos(m, pos, valid, t, depth, ix, spare);
      var next := NextTable(m, valid, t, depth, ix, spare);
      MapFromCorrect(m1, pos1, valid, next, depth + 1, to, ix, flags, leaf, spare);
      RemappedAfter(m, pos, m1, pos1, m', MapFromPos(m, pos, valid, t, depth, to, ix, flags, spare), valid,
        pos[t].space, ix, to);
      forall ix': Path | ix'[..to + 1] == ix[..to + 1] ensures MapsTo(Walk(m', t, depth, ix'), leaf, to, flags, depth) {
        MapsToStep(m', t, next, leaf, depth, to, flags, ix, ix');
      }
    }
  }

  // ---- the entries above a page ----------------------------------------

  /** The same entry, with no right lost. */
  predicate MoreRights(e: Entry, e': Entry) {
    && e'.mfn == e.mfn && e'.flags.present == e.flags.present && e'.flags.huge == e.flags.huge
    && (e.flags.user ==> e'.flags.user) && (e.flags.rw ==> e'.flags.rw)
  }

  /** Entry `i` of a table at position `p` is the one that maps, or would map, the page ix[..to + 1] of `space`. */
  ghost predicate IsSlotOf(p: Pos, i: Index, space: Space, ix: Path, to: nat)
    requires to <= 3
  {
    p.space == space && p.path + [i] == ix[..to + 1]
  }

  ghost predicate SamePositions(m: Mem, pos: Positions, m': Mem, pos': Positions) {
    forall t :: t in m && t in pos ==> t in m' && t in pos' && pos'[t] == pos[t]
  }

  /** Every present entry is still there with all its rights, except for the one that maps the page ix[..to + 1]. */
  ghost predicate EntriesKept(m: Mem, pos: Positions, m': Mem, pos': Positions, space: Space, ix: Path, to: nat)
    requires to <= 3
  {
    && SamePositions(m, pos, m', pos')
    && forall t, i: Index {:trigger m'[t][i]} ::
         t in m && t in pos && t in m' && m[t][i].flags.present && !IsSlotOf(pos[t], i, space, ix, to) ==>
           MoreRights(m[t][i], m'[t][i])
  }

  /** get_pgentry_mfn loses no entry at all. */
  lemma DescendEntries(m: Mem, pos: Positions, valid: nat -> bool, t: nat, depth: nat, ix: Path, flags: seq<Flags>,
                       spare: seq<nat>)
    requires Tree(m, pos, valid) && At(m, pos, t, depth, ix) && depth < 3 && |flags| == |spare| == 4
    requires !IsLeaf(depth, m[t][ix[depth]])
    requires !valid(m[t][ix[depth]].mfn) ==> spare[depth] !in m
    ensures var m', pos' := Descend(m, valid, t, depth, ix, flags, spare),
      DescendPos(m, pos, valid, t, depth, ix, spare);
            && SamePositions(m, pos, m', pos')
            && forall u, i: Index :: u in m && m[u][i].flags.present ==> MoreRights(m[u][i], m'[u][i])
  {
    assert EntryOk(m, pos, valid, pos[t], ix[depth], m[t][ix[depth]]);
  }

  /**
    Mapping a page changes no present entry but the page's own, except that
    USER and RW may be added.
   */
  lemma {:induction false} MapFromEntries(m: Mem, pos: Positions, valid: nat -> bool, t: nat, depth: nat, to: nat,
                                          ix: Path, flags: seq<Flags>, leaf: Entry, spare: seq<nat>)
    requires Tree(m, pos, valid) && At(m, pos, t, depth, ix) && depth <= to <= 3 && |flags| == |spare| == 4
    requires forall k :: depth <= k < to ==> LinkFlags(flags[k])
    requires NoLargerPage(m, t, depth, to, ix) && Supplied(m, valid, t, depth, to, ix, flags, spare)
    ensures EntriesKept(m, pos, MapFrom(m, valid, t, depth, to, ix, flags, leaf, spare),
                        MapFromPos(m, pos, valid, t, depth, to, ix, flags, spare), pos[t].space, ix, to)
    decreases 3 - depth
  {
    assert ix[..depth + 1] == ix[..depth] + [ix[depth]];
    if depth < to {
      DescendEntries(m, pos, valid, t, depth, ix, flags, spare);
      DescendStep(m, pos, valid, t, depth, to, ix, flags, spare);
      var m1 := Descend(m, valid, t, depth, ix, flags, spare);
      var pos1 := DescendPos(m, pos, valid, t, depth, ix, spare);
      var next := NextTable(m, valid, t, depth, ix, spare);
      MapFromEntries(m1, pos1, valid, next, depth + 1, to, ix, flags, leaf, spare);
      EntriesAfter(m, pos, m1, pos1, MapFrom(m, valid, t, depth, to, ix, flags, leaf, spare),
        MapFromPos(m, pos, valid, t, depth, to, ix, flags, spare), pos[t].space, ix, to);
    }
  }

  lemma EntriesAfter(m: Mem, pos: Positions, m1: Mem, pos1: Positions, m': Mem, pos': Positions, space: Space, ix: Path,
                     to: nat)
    requires to <= 3 && m.Keys == pos.Keys && SamePositions(m, pos, m1, pos1)
    requires forall u, i: Index :: u in m && u in m1 && m[u][i].flags.present ==> MoreRights(m[u][i], m1[u][i])
    requires EntriesKept(m1, pos1, m', pos', space, ix, to)
    ensures EntriesKept(m, pos, m', pos', space, ix, to)
  {
    forall u, i: Index |
      u in m && u in pos && u in m' && m[u][i].flags.present && !IsSlotOf(pos[u], i, space, ix, to)
      ensures MoreRights(m[u][i], m'[u][i])
    {
      assert MoreRights(m[u][i], m1[u][i]);
      assert MoreRights(m1[u][i], m'[u][i]);
    }
  }

  /** Every entry from table `t` down to the page at depth `to` is present and open to user mode. */
  predicate UserPath(m: Mem, t: nat, depth: nat, to: nat, ix: Path)
    requires depth <= to <= 3
    decreases 3 - depth, t
  {
    && t in m && m[t][ix[depth]].flags.present && m[t][ix[depth]].flags.user
    && (depth < to ==> !IsLeaf(depth, m[t][ix[depth]]) && UserPath(m, m[t][ix[depth]].mfn, depth + 1, to, ix))
  }

  /** A path with the USER bit throughout gives user mode the page, if its last entry maps one (section 4.6). */
  lemma {:induction false} UserPathWalk(m: Mem, t: nat, depth: nat, to: nat, ix: Path)
    requires depth <= to <= 3 && UserPath(m, t, depth, to, ix)
    requires forall u :: u in m && TableAt(m, t, depth, to, ix) == Some(u) ==> IsLeaf(to, m[u][ix[to]])
    ensures Walk(m, t, depth, ix).Page? && Walk(m, t, depth, ix).user
    decreases 3 - depth
  {
    if depth < to {
      UserPathWalk(m, m[t][ix[depth]].mfn, depth + 1, to, ix);
    }
  }

  /** A map that propagates USER leaves it at every level. */
  lemma {:induction false} MapFromUser(m: Mem, pos: Positions, valid: nat -> bool, t: nat, depth: nat, to: nat,
                                       ix: Path, flags: seq<Flags>, leaf: Entry, spare: seq<nat>)
    requires Tree(m, pos, valid) && At(m, pos, t, depth, ix) && depth <= to <= 3 && |flags| == |spare| == 4
    requires to >= 1 && IsLeaf(to, leaf) && LeafEntry(to, leaf) && (forall k :: depth <= k < to ==> LinkFlags(flags[k]))
    requires NoLargerPage(m, t, depth, to, ix) && Supplied(m, valid, t, depth, to, ix, flags, spare)
    requires leaf.flags.present && leaf.flags.user && forall k :: depth <= k < to ==> flags[k].user
    ensures UserPath(MapFrom(m, valid, t, depth, to, ix, flags, leaf, spare), t, depth, to, ix)
    decreases 3 - depth
  {
    if depth < to {
      DescendStep(m, pos, valid, t, depth, to, ix, flags, spare);
      var m1 := Descend(m, valid, t, depth, ix, flags, spare);
      var pos1 := DescendPos(m, pos, valid, t, depth, ix, spare);
      var next := NextTable(m, valid, t, depth, ix, spare);
      MapFromUser(m1, pos1, valid, next, depth + 1, to, ix, flags, leaf, spare);
      MapFromCorrect(m1, pos1, valid, next, depth + 1, to, ix, flags, leaf, spare);
    }
  }

  /** The page ix'[..to' + 1] lies on the path to the page ix[..to + 1], so that mapping it cuts the path. */
  ghost predicate Cuts(space: Space, ix: Path, to: nat, space': Space, ix': Path, to': nat)
    requires to <= 3 && to' <= 3
  {
    space == space' && to' <= to && ix'[..to' + 1] == ix[..to' + 1]
  }

  /** A path keeps its USER bits through any map that does not cut it. */
  lemma {:induction false} UserPathKept(m: Mem, pos: Positions, m': Mem, pos': Positions, valid: nat -> bool, t: nat,
                                        depth: nat, to: nat, ix: Path, space: Space, ix': Path, to': nat)
    requires Tree(m, pos, valid) && At(m, pos, t, depth, ix) && depth <= to <= 3 && to' <= 3
    requires EntriesKept(m, pos, m', pos', space, ix', to') && !Cuts(pos[t].space, ix, to, space, ix', to')
    requires UserPath(m, t, depth, to, ix)
    ensures UserPath(m', t, depth, to, ix)
    decreases 3 - depth
  {
    var e := m[t][ix[depth]];
    assert EntryOk(m, pos, valid, pos[t], ix[depth], e);
    assert ix[..depth + 1] == ix[..depth] + [ix[depth]];
    assert MoreRights(e, m'[t][ix[depth]]);
    if depth < to {
      UserPathKept(m, pos, m', pos', valid, e.mfn, depth + 1, to, ix, space, ix', to');
    }
  }

  // ---- the two address spaces ------------------------------------------

  /** cr3 and user_cr3 */
  datatype Roots = Roots(kernel: nat, user: Option<nat>)

  ghost function Translate(m: Mem, roots: Roots, space: Space, ix: Path): Translation {
    if space == Kernel then Walk(m, roots.kernel, 0, ix)
    else if roots.user.Some? then Walk(m, roots.user.value, 0, ix)
    else NotMapped
  }

  ghost predicate HasUserPath(m: Mem, roots: Roots, space: Space, ix: Path, to: nat)
    requires to <= 3
  {
    if space == Kernel then UserPath(m, roots.kernel, 0, to, ix)
    else roots.user.Some? && UserPath(m, roots.user.value, 0, to, ix)
  }

  /** Every translation outside the page ix[..to + 1] of `space` is what it was, with no right lost. */
  ghost predicate OthersKept(m: Mem, roots: Roots, m': Mem, roots': Roots, space: Space, ix: Path, to: nat)
    requires to <= 3
  {
    forall s, ix': Path {:trigger Translate(m', roots', s, ix')} :: s != space || ix'[..to + 1] != ix[..to + 1] ==>
      SameOrMore(Translate(m, roots, s, ix'), Translate(m', roots', s, ix'))
  }

  /** No address of the page ix[..to + 1] is mapped. */
  ghost predicate PageCleared(m: Mem, roots: Roots, space: Space, ix: Path, to: nat)
    requires to <= 3
  {
    forall ix': Path :: ix'[..to + 1] == ix[..to + 1] ==> Translate(m, roots, space, ix') == NotMapped
  }

  ghost predicate SameTranslations(m: Mem, roots: Roots, m': Mem, roots': Roots) {
    forall s, ix: Path :: Translate(m', roots', s, ix) == Translate(m, roots, s, ix)
  }

  lemma OthersKeptAfter(m: Mem, roots: Roots, m1: Mem, roots1: Roots, m': Mem, roots': Roots,
                        space: Space, ix: Path, to: nat)
    requires to <= 3 && SameTranslations(m, roots, m1, roots1) && OthersKept(m1, roots1, m', roots', space, ix, to)
    ensures OthersKept(m, roots, m', roots', space, ix, to)
  {
  }

  ghost predicate RootsAt(m: Mem, pos: Positions, roots: Roots) {
    && roots.kernel in m && roots.kernel in pos && pos[roots.kernel] == Pos(Kernel, [])
    && (roots.user.Some? ==> roots.user.value in m && roots.user.value in pos && pos[roots.user.value] == Pos(User, []))
  }

  lemma RemappedOthers(m: Mem, pos: Positions, m': Mem, pos': Positions, valid: nat -> bool, roots: Roots,
                       space: Space, ix: Path, to: nat)
    requires to <= 3 && RootsAt(m, pos, roots) && Remapped(m, pos, m', pos', valid, space, ix, to)
    ensures OthersKept(m, roots, m', roots, space, ix, to)
  {
    forall s, ix': Path | s != space || ix'[..to + 1] != ix[..to + 1]
      ensures SameOrMore(Translate(m, roots, s, ix'), Translate(m', roots, s, ix'))
    {
      assert IsPrefix([], ix');
    }
  }

  // ---- unmapping one page ----------------------------------------------

  datatype Slot = Slot(table: nat, depth: nat)

  /** Where _vunmap clears an entry: the first leaf on the way, present or not. */
  function FindSlot(m: Mem, valid: nat -> bool, t: nat, depth: nat, ix: Path): (s: Option<Slot>)
    requires depth <= 3
    ensures s.Some? ==> depth <= s.value.depth <= 3
    decreases 3 - depth, t
  {
    if t !in m then None
    else
      var e := m[t][ix[depth]];
      if IsLeaf(depth, e) then Some(Slot(t, depth))
      else if !valid(e.mfn) || !e.flags.present then None
      else FindSlot(m, valid, e.mfn, depth + 1, ix)
  }

  lemma {:induction false} FindSlotAt(m: Mem, pos: Positions, valid: nat -> bool, t: nat, depth: nat, ix: Path)
    requires Tree(m, pos, valid) && At(m, pos, t, depth, ix)
    ensures var s := FindSlot(m, valid, t, depth, ix);
            if s.None? then Walk(m, t, depth, ix) == NotMapped
            else
              && depth <= s.value.depth && At(m, pos, s.value.table, s.value.depth, ix)
              && pos[s.value.table].space == pos[t].space
              && IsLeaf(s.value.depth, m[s.value.table][ix[s.value.depth]])
              && SlotTranslates(Walk(m, t, depth, ix), m[s.value.table][ix[s.value.depth]], s.value.depth)
    decreases 3 - depth
  {
    var e := m[t][ix[depth]];
    assert EntryOk(m, pos, valid, pos[t], ix[depth], e);
    assert ix[..depth + 1] == ix[..depth] + [ix[depth]];
    if !IsLeaf(depth, e) && valid(e.mfn) && e.flags.present {
      FindSlotAt(m, pos, valid, e.mfn, depth + 1, ix);
    }
  }

  /** The page a walk finds is the one of the slot's entry. */
  predicate SlotTranslates(w: Translation, e: Entry, depth: nat)
    requires depth <= 3
  {
    if e.flags.present then w.Page? && w.mfn == e.mfn && w.order == LeafOrder(depth) else w == NotMapped
  }

  /** With its entry cleared, no address of the page is mapped. */
  lemma {:induction false} ClearedWalk(m: Mem, pos: Positions, valid: nat -> bool, t: nat, depth: nat, ix: Path,
                                       ix': Path)
    requires Tree(m, pos, valid) && At(m, pos, t, depth, ix)
    requires var s := FindSlot(m, valid, t, depth, ix);
             s.Some? && ix'[..s.value.depth + 1] == ix[..s.value.depth + 1]
    ensures var s := FindSlot(m, valid, t, depth, ix).value;
            s.table in m && Walk(SetEntry(m, s.table, ix[s.depth], CLEAR), t, depth, ix') == NotMapped
    decreases 3 - depth
  {
    var e := m[t][ix[depth]];
    assert EntryOk(m, pos, valid, pos[t], ix[depth], e);
    assert ix[..depth + 1] == ix[..depth] + [ix[depth]];
    FindSlotAt(m, pos, valid, t, depth, ix);
    var s := FindSlot(m, valid, t, depth, ix).value;
    assert ix'[depth] == ix'[..s.depth + 1][depth] == ix[depth];
    if !IsLeaf(depth, e) {
      ClearedWalk(m, pos, valid, e.mfn, depth + 1, ix, ix');
      FindSlotAt(m, pos, valid, e.mfn, depth + 1, ix);
    }
  }

  /** Clearing the entry of the page `ix` lies in unmaps that page and nothing else. */
  lemma UnmapCorrect(m: Mem, pos: Positions, valid: nat -> bool, root: nat, ix: Path)
    requires Tree(m, pos, valid) && At(m, pos, root, 0, ix) && FindSlot(m, valid, root, 0, ix).Some?
    ensures var s := FindSlot(m, valid, root, 0, ix).value;
            && s.table in m
            && Remapped(m, pos, SetEntry(m, s.table, ix[s.depth], CLEAR), pos, valid, pos[root].space, ix, s.depth)
            && (forall ix': Path :: ix'[..s.depth + 1] == ix[..s.depth + 1] ==>
              Walk(SetEntry(m, s.table, ix[s.depth], CLEAR), root, 0, ix') == NotMapped)
  {
    var s := FindSlot(m, valid, root, 0, ix).value;
    FindSlotAt(m, pos, valid, root, 0, ix);
    LeafCorrect(m, pos, valid, s.table, s.depth, ix, CLEAR);
    forall ix': Path | ix'[..s.depth + 1] == ix[..s.depth + 1]
      ensures Walk(SetEntry(m, s.table, ix[s.depth], CLEAR), root, 0, ix') == NotMapped
    {
      ClearedWalk(m, pos, valid, root, 0, ix, ix');
    }
  }

  lemma UnmapTranslates(m: Mem, pos: Positions, valid: nat -> bool, roots: Roots, space: Space, root: nat, ix: Path)
    requires Tree(m, pos, valid) && RootsAt(m, pos, roots) && FindSlot(m, valid, root, 0, ix).Some?
    requires if space == Kernel then root == roots.kernel else roots.user == Some(root)
    ensures var s := FindSlot(m, valid, root, 0, ix).value;
            && s.table in m
            && OthersKept(m, roots, SetEntry(m, s.table, ix[s.depth], CLEAR), roots, space, ix, s.depth)
            && PageCleared(SetEntry(m, s.table, ix[s.depth], CLEAR), roots, space, ix, s.depth)
  {
    UnmapCorrect(m, pos, valid, root, ix);
    var s := FindSlot(m, valid, root, 0, ix).value;
    RemappedOthers(m, pos, SetEntry(m, s.table, ix[s.depth], CLEAR), pos, valid, roots, space, ix, s.depth);
  }

  // ---- the tables above a page -----------------------------------------

  /** The table at depth `to` on the way of `ix`. */
  function TableAt(m: Mem, t: nat, depth: nat, to: nat, ix: Path): Option<nat>
    requires depth <= to <= 3
    decreases 3 - depth, t
  {
    if t !in m then None
    else if depth == to then Some(t)
    else
      var e := m[t][ix[depth]];
      if e.flags.present && !IsLeaf(depth, e) then TableAt(m, e.mfn, depth + 1, to, ix) else None
  }

  lemma {:induction false} TableAtPos(m: Mem, pos: Positions, valid: nat -> bool, t: nat, depth: nat, to: nat, ix: Path)
    requires Tree(m, pos, valid) && At(m, pos, t, depth, ix) && depth <= to <= 3
    requires TableAt(m, t, depth, to, ix).Some?
    ensures At(m, pos, TableAt(m, t, depth, to, ix).value, to, ix)
    ensures pos[TableAt(m, t, depth, to, ix).value].space == pos[t].space
    decreases 3 - depth
  {
    if depth < to {
      var e := m[t][ix[depth]];
      assert EntryOk(m, pos, valid, pos[t], ix[depth], e);
      assert ix[..depth + 1] == ix[..depth] + [ix[depth]];
      TableAtPos(m, pos, valid, e.mfn, depth + 1, to, ix);
    }
  }

  /** How many tables there are not, on the way of `ix` down to depth `to`. */
  function Missing(m: Mem, t: nat, depth: nat, to: nat, ix: Path): nat
    requires depth <= to <= 3
    decreases 3 - depth, t
  {
    if depth == to then 0
    else if t in m && m[t][ix[depth]].flags.present && !IsLeaf(depth, m[t][ix[depth]])
    then Missing(m, m[t][ix[depth]].mfn, depth + 1, to, ix)
    else to - depth
  }

  lemma {:induction false} NoneMissing(m: Mem, pos: Positions, valid: nat -> bool, t: nat, depth: nat, to: nat,
                                       ix: Path)
    requires Tree(m, pos, valid) && At(m, pos, t, depth, ix) && depth <= to <= 3
    ensures Missing(m, t, depth, to, ix) == 0 <==> TableAt(m, t, depth, to, ix).Some?
    ensures Missing(m, t, depth, to, ix) <= to - depth
    decreases 3 - depth
  {
    var e := m[t][ix[depth]];
    if depth < to && e.flags.present && !IsLeaf(depth, e) {
      assert EntryOk(m, pos, valid, pos[t], ix[depth], e);
      assert ix[..depth + 1] == ix[..depth] + [ix[depth]];
      NoneMissing(m, pos, valid, e.mfn, depth + 1, to, ix);
    }
  }

  lemma {:induction false} FixupMissing(m: Mem, t: nat, i: Index, flags: Flags, u: nat, depth: nat, to: nat, ix: Path)
    requires t in m && depth <= to <= 3
    ensures Missing(Fixup(m, t, i, flags), u, depth, to, ix) == Missing(m, u, depth, to, ix)
    decreases 3 - depth
  {
    if depth < to && u in m {
      FixupMissing(m, t, i, flags, m[u][ix[depth]].mfn, depth + 1, to, ix);
    }
  }

  lemma HungMissing(m: Mem, t: nat, i: Index, f: nat, flags: Flags, depth: nat, to: nat, ix: Path)
    requires t in m && depth <= to <= 3 && f !in m
    ensures Missing(Hang(m, t, i, f, flags), f, depth, to, ix) == to - depth
  {
    assert Hang(m, t, i, f, flags)[f] == CleanTable();
  }

  lemma {:induction false} MissingBound(m: Mem, t: nat, depth: nat, to: nat, ix: Path)
    requires depth <= to <= 3
    ensures Missing(m, t, depth, to, ix) <= to - depth
    decreases 3 - depth
  {
    if depth < to && t in m && m[t][ix[depth]].flags.present && !IsLeaf(depth, m[t][ix[depth]]) {
      MissingBound(m, m[t][ix[depth]].mfn, depth + 1, to, ix);
    }
  }

  /** No more tables are missing after a mapping than before, except below the page that it maps. */
  lemma {:induction false} MissingKept(m: Mem, pos: Positions, m': Mem, pos': Positions, valid: nat -> bool, t: nat,
                                       depth: nat, to: nat, ix: Path, space: Space, ix': Path, to': nat)
    requires Tree(m, pos, valid) && At(m, pos, t, depth, ix) && depth <= to <= 3 && to' <= 3
    requires EntriesKept(m, pos, m', pos', space, ix', to')
    requires pos[t].space != space || ix[..to' + 1] != ix'[..to' + 1]
    ensures Missing(m', t, depth, to, ix) <= Missing(m, t, depth, to, ix)
    decreases 3 - depth
  {
    var e := m[t][ix[depth]];
    MissingBound(m', t, depth, to, ix);
    if depth < to && e.flags.present && !IsLeaf(depth, e) {
      assert EntryOk(m, pos, valid, pos[t], ix[depth], e);
      assert ix[..depth + 1] == ix[..depth] + [ix[depth]];
      assert ix'[..to' + 1] == ix'[..to'] + [ix'[to']];
      assert MoreRights(e, m'[t][ix[depth]]);
      MissingKept(m, pos, m', pos', valid, e.mfn, depth + 1, to, ix, space, ix', to');
    }
  }

  /** How many tables a mapping in `space` has to create, the root of the user's among them. */
  function Lacking(m: Mem, roots: Roots, space: Space, to: nat, ix: Path): nat
    requires to <= 3
  {
    if space == Kernel then Missing(m, roots.kernel, 0, to, ix)
    else if roots.user.Some? then Missing(m, roots.user.value, 0, to, ix)
    else 1 + to
  }

  /** Four at most, one of each level. */
  lemma LackingBound(m: Mem, roots: Roots, space: Space, to: nat, ix: Path)
    requires to <= 3
    ensures Lacking(m, roots, space, to, ix) <= 4
  {
    if space == Kernel {
      MissingBound(m, roots.kernel, 0, to, ix);
    } else if roots.user.Some? {
      MissingBound(m, roots.user.value, 0, to, ix);
    }
  }

  /** All tables above the 4K page of `ix` are there. */
  ghost predicate HasL1(m: Mem, roots: Roots, space: Space, ix: Path) {
    if space == Kernel then TableAt(m, roots.kernel, 0, 3, ix).Some?
    else roots.user.Some? && TableAt(m, roots.user.value, 0, 3, ix).Some?
  }

  /** There is an entry to clear exactly if the address is mapped or its L1 table is there. */
  lemma {:induction false} SlotIff(m: Mem, pos: Positions, valid: nat -> bool, t: nat, depth: nat, ix: Path)
    requires Tree(m, pos, valid) && At(m, pos, t, depth, ix)
    ensures FindSlot(m, valid, t, depth, ix).Some? <==>
            Walk(m, t, depth, ix).Page? || TableAt(m, t, depth, 3, ix).Some?
    decreases 3 - depth
  {
    var e := m[t][ix[depth]];
    assert EntryOk(m, pos, valid, pos[t], ix[depth], e);
    assert ix[..depth + 1] == ix[..depth] + [ix[depth]];
    if !IsLeaf(depth, e) && e.flags.present {
      SlotIff(m, pos, valid, e.mfn, depth + 1, ix);
    }
  }

  /** On the way to a table every entry leads on, so a page that is cleared lies beside it. */
  lemma {:induction false} SlotOffWay(m: Mem, valid: nat -> bool, t: nat, depth: nat, ix: Path, way: Path)
    requires depth <= 3 && ix[..depth] == way[..depth] && ix != way && TableAt(m, t, depth, 3, way).Some?
    ensures var s := FindSlot(m, valid, t, depth, ix);
            s.Some? ==> ix[..s.value.depth + 1] != way[..s.value.depth + 1]
    decreases 3 - depth
  {
    var s := FindSlot(m, valid, t, depth, ix);
    assert ix[..depth + 1] == ix[..depth] + [ix[depth]] && way[..depth + 1] == way[..depth] + [way[depth]];
    if depth == 3 {
      assert ix[..4] == ix && way[..4] == way;
    } else if ix[depth] == way[depth] {
      SlotOffWay(m, valid, m[t][ix[depth]].mfn, depth + 1, ix, way);
    } else if s.Some? {
      var d := s.value.depth;
      assert ix[..d + 1][depth] == ix[depth] && way[..d + 1][depth] == way[depth];
    }
  }

  /** A page-sized window is translated by the entry of its last table. */
  lemma {:induction false} WalkVia(m: Mem, t: nat, depth: nat, ix: Path)
    requires depth <= 3 && TableAt(m, t, depth, 3, ix).Some?
    ensures var w := TableAt(m, t, depth, 3, ix).value;
            w in m && SlotTranslates(Walk(m, t, depth, ix), m[w][ix[3]], 3)
    decreases 3 - depth
  {
    if depth < 3 {
      WalkVia(m, m[t][ix[depth]].mfn, depth + 1, ix);
    }
  }

  /** Writing an entry keeps the way to a table if it is not on it, or still leads the same way. */
  lemma {:induction false} TableAtWrite(m: Mem, t: nat, i: Index, e: Entry, u: nat, depth: nat, to: nat, ix: Path)
    requires depth <= to <= 3 && t in m && TableAt(m, u, depth, to, ix).Some?
    requires forall d :: depth <= d < to && TableAt(m, u, depth, d, ix) == Some(t) && ix[d] == i ==>
      e.flags.present && !IsLeaf(d, e) && e.mfn == m[t][i].mfn
    ensures TableAt(SetEntry(m, t, i, e), u, depth, to, ix) == TableAt(m, u, depth, to, ix)
    decreases 3 - depth
  {
    if depth < to {
      var w := m[u][ix[depth]];
      assert TableAt(m, u, depth, depth, ix) == Some(u);
      forall d | depth + 1 <= d < to && TableAt(m, w.mfn, depth + 1, d, ix) == Some(t) && ix[d] == i
        ensures e.flags.present && !IsLeaf(d, e) && e.mfn == m[t][i].mfn
      {
        assert TableAt(m, u, depth, d, ix) == Some(t);
      }
      TableAtWrite(m, t, i, e, w.mfn, depth + 1, to, ix);
    }
  }

  /** A table that was not there before is on no way. */
  lemma {:induction false} TableAtAdd(m: Mem, f: nat, table: Table, u: nat, depth: nat, to: nat, ix: Path)
    requires depth <= to <= 3 && f !in m && TableAt(m, u, depth, to, ix).Some?
    ensures TableAt(m[f := table], u, depth, to, ix) == TableAt(m, u, depth, to, ix)
    decreases 3 - depth
  {
    if depth < to {
      TableAtAdd(m, f, table, m[u][ix[depth]].mfn, depth + 1, to, ix);
    }
  }
}
