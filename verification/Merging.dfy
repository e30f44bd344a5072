/**
  Where merge_frames of mm/pmm.c ends, and what it leaves of the free lists,
  in terms of the free lists before it: of each list only the numbers at
  which its frames start matter.
 */
module Merging {
  import opened Frames

  /** For each order the numbers at which the frames of its list start. */
  type Starts = seq<set<nat>>

  ghost function MfnsOf(frames: seq<Frame>): set<nat> {
    set f | f in frames :: f.mfn
  }

  ghost function StartsOf(ls: Lists): (st: Starts)
    ensures |st| == |ls|
  {
    seq(|ls|, o requires 0 <= o < |ls| => MfnsOf(ls[o]))
  }

  /** The number of the union of a frame with its sibling. */
  function LowerMfn(mfn: nat, order: nat): nat {
    if FirstFrameSibling(mfn, order + 1) then mfn else SiblingMfn(mfn, order)
  }

  /** The block a free frame ends up in. */
  ghost function Climb(st: Starts, mfn: nat, order: nat): (f: Frame)
    requires |st| == ORDERS && order < ORDERS
    ensures order <= f.order < ORDERS
    decreases ORDERS - order
  {
    if order < MAX_PAGE_ORDER && SiblingMfn(mfn, order) in st[order]
    then Climb(st, LowerMfn(mfn, order), order + 1)
    else Frame(mfn, order, 0)
  }

  /** That block is of the largest order and still has a free sibling, which stops the kernel. */
  ghost predicate Jams(st: Starts, mfn: nat, order: nat)
    requires |st| == ORDERS && order < ORDERS
  {
    var f := Climb(st, mfn, order);
    f.order == MAX_PAGE_ORDER && SiblingMfn(f.mfn, MAX_PAGE_ORDER) in st[MAX_PAGE_ORDER]
  }

  ghost function Plus(st: Starts, o: nat, mfn: nat): (st': Starts)
    requires o < |st|
    ensures |st'| == |st|
  {
    st[o := st[o] + {mfn}]
  }

  ghost function Minus(st: Starts, o: nat, mfn: nat): (st': Starts)
    requires o < |st|
    ensures |st'| == |st|
  {
    st[o := st[o] - {mfn}]
  }

  lemma MinusSwap(st: Starts, o: nat, a: nat, b: nat)
    requires o < |st|
    ensures Minus(Minus(st, o, a), o, b) == Minus(Minus(st, o, b), o, a)
  {
    assert st[o] - {a} - {b} == st[o] - {b} - {a};
  }

  /** The free lists with one more frame, merged as far as it goes. */
  ghost function PutIn(st: Starts, mfn: nat, order: nat): (st': Starts)
    requires |st| == ORDERS && order < ORDERS
    ensures |st'| == ORDERS
    decreases ORDERS - order
  {
    if order < MAX_PAGE_ORDER && SiblingMfn(mfn, order) in st[order]
    then PutIn(Minus(st, order, SiblingMfn(mfn, order)), LowerMfn(mfn, order), order + 1)
    else Plus(st, order, mfn)
  }

  /** Putting the frame back stops the kernel. */
  ghost predicate Jammed(free: Lists, f: Frame) {
    |free| == ORDERS && f.order < ORDERS && Jams(StartsOf(free), f.mfn, f.order)
  }

  /** The frame was put back, and ended up in the block `merged`. */
  ghost predicate PutInto(before: Lists, after: Lists, f: Frame, merged: Frame) {
    && |before| == |after| == ORDERS && f.order < ORDERS && merged == Climb(StartsOf(before), f.mfn, f.order)
    && merged in after[merged.order] && StartsOf(after) == PutIn(StartsOf(before), f.mfn, f.order)
  }

  /** Only the sibling in the frame's own list and the lists above it matter. */
  lemma {:induction false} ClimbSame(st: Starts, st': Starts, mfn: nat, order: nat)
    requires |st| == |st'| == ORDERS && order < ORDERS
    requires SiblingMfn(mfn, order) in st[order] <==> SiblingMfn(mfn, order) in st'[order]
    requires forall k :: order < k < ORDERS ==> st[k] == st'[k]
    ensures Climb(st, mfn, order) == Climb(st', mfn, order) && (Jams(st, mfn, order) <==> Jams(st', mfn, order))
    decreases ORDERS - order
  {
    if order < MAX_PAGE_ORDER && SiblingMfn(mfn, order) in st[order] {
      ClimbSame(st, st', LowerMfn(mfn, order), order + 1);
    }
  }

  /** One join is one step of the climb. */
  lemma JoinStep(st: Starts, st1: Starts, mfn: nat, o: nat)
    requires |st| == ORDERS && o < MAX_PAGE_ORDER && SiblingMfn(mfn, o) in st[o] && SiblingMfn(mfn, o) != mfn
    requires LowerMfn(mfn, o) !in st[o + 1] && SiblingMfn(LowerMfn(mfn, o), o + 1) != LowerMfn(mfn, o)
    requires st1 == Plus(Minus(Minus(st, o, mfn), o, SiblingMfn(mfn, o)), o + 1, LowerMfn(mfn, o))
    ensures Climb(st, mfn, o) == Climb(st1, LowerMfn(mfn, o), o + 1)
    ensures Jams(st, mfn, o) <==> Jams(st1, LowerMfn(mfn, o), o + 1)
    ensures PutIn(Minus(st, o, mfn), mfn, o) == PutIn(Minus(st1, o + 1, LowerMfn(mfn, o)), LowerMfn(mfn, o), o + 1)
  {
    ClimbSame(st, st1, LowerMfn(mfn, o), o + 1);
    assert Minus(st1, o + 1, LowerMfn(mfn, o)) == Minus(Minus(st, o, mfn), o, SiblingMfn(mfn, o));
  }

  /** Without a sibling, or at the largest order, nothing is joined. */
  lemma NoStep(st: Starts, mfn: nat, o: nat)
    requires |st| == ORDERS && o < ORDERS && mfn in st[o] && (o == MAX_PAGE_ORDER || SiblingMfn(mfn, o) !in st[o])
    ensures Climb(st, mfn, o) == Frame(mfn, o, 0)
    ensures Jams(st, mfn, o) <==> o == MAX_PAGE_ORDER && SiblingMfn(mfn, o) in st[o]
    ensures PutIn(Minus(st, o, mfn), mfn, o) == st
  {
    assert st[o] - {mfn} + {mfn} == st[o];
    assert Plus(Minus(st, o, mfn), o, mfn) == st;
  }

  /** Whether the frame itself is already in its list does not matter. */
  lemma PutBack(st: Starts, st1: Starts, mfn: nat, o: nat)
    requires |st| == ORDERS && o < ORDERS && mfn !in st[o] && st1 == Plus(st, o, mfn) && SiblingMfn(mfn, o) != mfn
    ensures Climb(st1, mfn, o) == Climb(st, mfn, o) && (Jams(st1, mfn, o) <==> Jams(st, mfn, o))
    ensures PutIn(Minus(st1, o, mfn), mfn, o) == PutIn(st, mfn, o)
  {
    ClimbSame(st, st1, mfn, o);
    assert Minus(st1, o, mfn) == st;
  }

  /** 1G at page 0 is put back while the next 1G is free. */
  lemma TopPair(st: Starts)
    requires |st| == ORDERS && 0x4_0000 in st[MAX_PAGE_ORDER]
    ensures Jams(st, 0, MAX_PAGE_ORDER)
  {
    Pow2Orders();
  }

  // ---- lists -----------------------------------------------------------

  /** No two frames of the list start at the same number. */
  ghost predicate Unique(l: seq<Frame>) {
    forall i, j :: 0 <= i < j < |l| ==> l[i].mfn != l[j].mfn
  }

  lemma DisjointUnique(ls: Lists, o: nat)
    requires o < |ls| && forall p: nat :: Cover(ls, p) <= 1
    ensures Unique(ls[o])
  {
    forall i, j | 0 <= i < j < |ls[o]| ensures ls[o][i].mfn != ls[o][j].mfn {
      if ls[o][i].mfn == ls[o][j].mfn {
        CoverTwice(ls, o, i, o, j, ls[o][i].mfn);
      }
    }
  }

  lemma MfnsRemove(l: seq<Frame>, i: nat)
    requires i < |l| && Unique(l)
    ensures MfnsOf(RemoveAt(l, i)) == MfnsOf(l) - {l[i].mfn}
  {
    var rest := RemoveAt(l, i);
    forall m ensures m in MfnsOf(rest) <==> m in MfnsOf(l) && m != l[i].mfn {
      if m in MfnsOf(l) && m != l[i].mfn {
        var j :| 0 <= j < |l| && l[j].mfn == m;
        assert rest[if j < i then j else j - 1] == l[j];
      }
      if m in MfnsOf(rest) {
        var j :| 0 <= j < |rest| && rest[j].mfn == m;
        assert rest[j] == l[if j < i then j else j + 1];
      }
    }
  }

  lemma StartsRemove(ls: Lists, o: nat, i: nat)
    requires o < |ls| && i < |ls[o]| && Unique(ls[o])
    ensures StartsOf(ls[o := RemoveAt(ls[o], i)]) == Minus(StartsOf(ls), o, ls[o][i].mfn)
  {
    MfnsRemove(ls[o], i);
  }

  lemma StartsAdd(ls: Lists, o: nat, f: Frame)
    requires o < |ls|
    ensures StartsOf(ls[o := ls[o] + [f]]) == Plus(StartsOf(ls), o, f.mfn)
    ensures StartsOf(ls[o := [f] + ls[o]]) == Plus(StartsOf(ls), o, f.mfn)
  {
    assert MfnsOf(ls[o] + [f]) == MfnsOf(ls[o]) + {f.mfn};
    assert MfnsOf([f] + ls[o]) == MfnsOf(ls[o]) + {f.mfn};
  }
}
