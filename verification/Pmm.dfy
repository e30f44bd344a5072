/**
  The buddy allocator of mm/pmm.c.  Every list of frames is a sequence, first
  entry first; `stopped` stands for a panic, a BUG_ON or a failed ASSERT.

  Creating a frame descriptor may first have to set a free 4K frame aside for
  a new array of descriptors.  `taken` lists the frames set aside; `Supply`
  says when that is.
 */
module Pmm {
  import opened Frames
  import opened Merging
  import opened Supply
  import opened Tiling
  import opened Layout
  import opened Wrappers

  /** MB(EARLY_VIRT_MEM), the memory mapped by the boot page tables. */
  const EARLY_MEM: nat := 8 * 1024 * 1024

  datatype Op = Get(order: nat) | GetCond(cond: Frame -> bool) | Put(mfn: nat, putOrder: nat)

  /** Some list of order `order` or above has a frame. */
  ghost predicate HasFrom(ls: Lists, order: nat) {
    exists o :: order <= o < |ls| && ls[o] != []
  }

  /** Frames set aside for descriptors are 4K frames. */
  predicate All4k(taken: seq<Frame>) {
    forall f :: f in taken ==> f.order == PAGE_ORDER_4K
  }

  /** `busy` gained exactly the frames `taken`. */
  ghost predicate BusyGrew(before: Lists, after: Lists, taken: seq<Frame>) {
    && |before| == |after|
    && (forall o, f :: 0 <= o < |after| ==>
      (f in after[o] <==> f in before[o] || (f in taken && f.order == o)))
    && (forall p: nat :: Cover(after, p) == Cover(before, p) + Count(taken, p))
  }

  /** No free frame sits where the merge rule looks for the sibling of `f`. */
  ghost predicate NoFreeSibling(ls: Lists, f: Frame) {
    && f.order < |ls|
    && forall g :: g in ls[f.order] ==> g.mfn != SiblingMfn(f.mfn, f.order)
  }

  /** `free` lost exactly the pages of the frames `taken`. */
  ghost predicate FreeShrank(before: Lists, after: Lists, taken: seq<Frame>) {
    forall p: nat :: Cover(after, p) + Count(taken, p) == Cover(before, p)
  }

  lemma FreeShrankTrans(a: Lists, b: Lists, c: Lists, t: seq<Frame>, u: seq<Frame>)
    requires FreeShrank(a, b, t) && FreeShrank(b, c, u)
    ensures FreeShrank(a, c, t + u)
  {
    forall p: nat ensures Cover(c, p) + Count(t + u, p) == Cover(a, p) {
      CountAppend(t, u, p);
      assert Cover(b, p) + Count(t, p) == Cover(a, p);
    }
  }

  lemma BusyGrewTrans(a: Lists, b: Lists, c: Lists, t: seq<Frame>, u: seq<Frame>)
    requires BusyGrew(a, b, t) && BusyGrew(b, c, u)
    ensures BusyGrew(a, c, t + u)
  {
    forall p: nat ensures Cover(c, p) == Cover(a, p) + Count(t + u, p) {
      CountAppend(t, u, p);
    }
  }

  /** Index of the first frame with the given number, or -1 (_find_mfn_frame). */
  method FindMfn(l: seq<Frame>, mfn: nat) returns (i: int)
    ensures -1 <= i < |l|
    ensures i >= 0 ==> l[i].mfn == mfn && forall k :: 0 <= k < i ==> l[k].mfn != mfn
    ensures i == -1 ==> forall f :: f in l ==> f.mfn != mfn
  {
    i := 0;
    while i < |l|
      invariant 0 <= i <= |l|
      invariant forall k :: 0 <= k < i ==> l[k].mfn != mfn
    {
      if l[i].mfn == mfn {
        return;
      }
      i := i + 1;
    }
    i := -1;
  }

  /** The first non-empty list of an order above `order` (find_larger_frame). */
  method FindLargerFrame(ls: Lists, order: nat) returns (o: nat)
    requires |ls| == ORDERS && order <= MAX_PAGE_ORDER
    ensures order < o <= ORDERS
    ensures o < ORDERS ==> ls[o] != []
    ensures forall k :: order < k < o ==> ls[k] == []
    ensures o == LeastFrom(ls, order + 1)
  {
    o := order + 1;
    while o <= MAX_PAGE_ORDER
      invariant order < o <= ORDERS
      invariant forall k :: order < k < o ==> ls[k] == []
      invariant LeastFrom(ls, order + 1) == LeastFrom(ls, o)
    {
      if ls[o] != [] {
        return;
      }
      o := o + 1;
    }
  }

  /** enough_4k_frames */
  method Enough4kFrames(l: seq<Frame>) returns (enough: bool)
    ensures enough <==> |l| >= MIN_NUM_4K_FRAMES
  {
    var count := 0;
    for i := 0 to |l|
      invariant count == i < MIN_NUM_4K_FRAMES
    {
      count := count + 1;
      if count >= MIN_NUM_4K_FRAMES {
        return true;
      }
    }
    return false;
  }

  function OrderToSize(order: nat): nat {
    Bytes(Pow2(order))
  }

  /** find_max_avail_order: the largest order that fits, 4K if none does. */
  method FindMaxAvailOrder(size: nat) returns (order: nat)
    ensures order <= MAX_PAGE_ORDER
    ensures order > 0 ==> OrderToSize(order) <= size
    ensures order < MAX_PAGE_ORDER ==> size < OrderToSize(order + 1)
  {
    order := MAX_PAGE_ORDER;
    while order > PAGE_ORDER_4K
      invariant order <= MAX_PAGE_ORDER
      invariant order < MAX_PAGE_ORDER ==> size < OrderToSize(order + 1)
    {
      if OrderToSize(order) <= size {
        return;
      }
      order := order - 1;
    }
  }

  class FrameAllocator {
    var free: Lists
    var busy: Lists
    var framesCount: seq<nat>
    /** The free descriptors in all arrays of them, and total_free_frames. */
    var slots: nat
    var totalFree: nat

    /** Every queued frame is on the list its fields say, and the counters agree. */
    ghost predicate Queued()
      reads this
    {
      && ListsOk(free, 0)
      && ListsOk(busy, 1)
      && |framesCount| == ORDERS && totalFree == TotalFree(slots)
      && forall o :: 0 <= o < ORDERS ==> framesCount[o] == |free[o]| + |busy[o]|
    }

    /** No page belongs to two queued frames. */
    ghost predicate Disjoint()
      reads this
    {
      forall p: nat :: Cover(free, p) + Cover(busy, p) <= 1
    }

    ghost predicate Valid()
      reads this
    {
      Queued() && Disjoint()
    }

    /** The lists are empty, and there are the descriptors of early_frames. */
    ghost predicate Initial()
      reads this
    {
      && free == busy == seq(ORDERS, _ => []) && framesCount == seq(ORDERS, _ => 0)
      && slots == 127 && totalFree == 0
    }

    /** What the requests depend on. */
    ghost function TheStock(): Stock
      reads this
    {
      Stock(free, slots, [])
    }

    constructor ()
      ensures Initial()
    {
      slots, totalFree := 127, 0;
      free := seq(ORDERS, _ => []);
      busy := seq(ORDERS, _ => []);
      framesCount := seq(ORDERS, _ => 0);
    }

    /** reserve_frame on the frame at position i of a free list. */
    method ReserveFrame(o: nat, i: nat) returns (frame: Frame)
      requires Queued() && o < ORDERS && i < |free[o]|
      modifies this
      ensures Queued() && framesCount == old(framesCount) && slots == old(slots)
      ensures frame == old(free[o][i]).(refcount := 1) && frame.order == o
      ensures free == old(free)[o := RemoveAt(old(free[o]), i)]
      ensures BusyGrew(old(busy), busy, [frame])
      ensures FreeShrank(old(free), free, [frame])
    {
      var f := free[o][i];
      assert FrameOk(f, o, 0);
      frame := f.(refcount := f.refcount + 1);
      forall p: nat
        ensures Cover(free[o := RemoveAt(free[o], i)], p) + Count([frame], p) == Cover(free, p)
        ensures Cover(busy[o := [frame] + busy[o]], p) == Cover(busy, p) + Count([frame], p)
      {
        CoverRemove(free, o, i, p);
        CoverPush(busy, o, frame, p);
      }
      free := free[o := RemoveAt(free[o], i)];
      busy := busy[o := [frame] + busy[o]];
    }

    /** new_frames_array: sets the first free 4K frame aside. */
    method NewFramesArray() returns (stopped: bool, taken: seq<Frame>)
      requires Queued()
      modifies this
      ensures stopped <==> old(free[PAGE_ORDER_4K]) == []
      ensures Queued() && framesCount == old(framesCount)
      ensures slots == if stopped then old(slots) else old(slots) + 127
      ensures stopped ==> free == old(free) && busy == old(busy)
      ensures taken == Reserved(old(free[PAGE_ORDER_4K])[..if stopped then 0 else 1])
      ensures free == old(free)[PAGE_ORDER_4K := old(free[PAGE_ORDER_4K])[|taken|..]]
      ensures BusyGrew(old(busy), busy, taken)
      ensures FreeShrank(old(free), free, taken)
      ensures All4k(taken)
    {
      stopped, taken := free[PAGE_ORDER_4K] == [], [];
      if !stopped {
        var f := ReserveFrame(PAGE_ORDER_4K, 0);
        taken := [f];
        slots, totalFree := slots + 127, (totalFree + 127) % 0x1_0000_0000_0000_0000;
      }
      assert free[PAGE_ORDER_4K] == old(free[PAGE_ORDER_4K])[|taken|..];
    }

    /**
      get_frames_array_entry: a descriptor, from a new page if there is none
      left, and with a new page behind it if the count falls to the threshold.
     */
    method GetSlot() returns (stopped: bool, taken: seq<Frame>)
      requires Queued()
      modifies this
      ensures Queued() && framesCount == old(framesCount)
      ensures stopped <==> !CanAdd(old(TheStock()))
      ensures stopped ==> free == old(free) && busy == old(busy) && free[PAGE_ORDER_4K] == []
      ensures !stopped ==> slots == Left(old(slots))
      ensures !stopped ==> taken == Reserved(old(free[PAGE_ORDER_4K])[..Need(old(slots))])
      ensures |taken| <= |old(free[PAGE_ORDER_4K])|
      ensures free == old(free)[PAGE_ORDER_4K := old(free[PAGE_ORDER_4K])[|taken|..]]
      ensures BusyGrew(old(busy), busy, taken)
      ensures FreeShrank(old(free), free, taken)
      ensures All4k(taken)
    {
      stopped, taken := false, [];
      SlotCounts(slots);
      if slots == 0 {
        stopped, taken := NewFramesArray();
        if stopped {
          return;
        }
      }
      slots, totalFree := slots - 1, (totalFree - 1) % 0x1_0000_0000_0000_0000;
      if totalFree <= MIN_FREE {
        stopped, taken := NewFramesArray();
      }
    }

    /** add_frame, or add_early_frame when `early`. */
    method AddFrame(mfn: nat, order: nat, early: bool) returns (stopped: bool, taken: seq<Frame>)
      requires Queued() && order < ORDERS && FrameOk(Frame(mfn, order, 0), order, 0)
      modifies this
      ensures Queued()
      ensures stopped ==> free[PAGE_ORDER_4K] == []
      ensures stopped <==> !CanAdd(old(TheStock()))
      ensures !stopped ==> Stock(free, slots, taken) == Added(old(TheStock()), Frame(mfn, order, 0), early)
      ensures |taken| <= |old(free[PAGE_ORDER_4K])|
      ensures BusyGrew(old(busy), busy, taken)
      ensures All4k(taken)
      ensures !stopped ==> free == WithFrame(WithoutFirst(old(free), |taken|), Frame(mfn, order, 0), early)
      ensures !stopped ==> forall p: nat ::
        Cover(free, p) + Count(taken, p) == old(Cover(free, p)) + Hit(Frame(mfn, order, 0), p)
    {
      stopped, taken := GetSlot();
      if stopped {
        return;
      }
      var f := Frame(mfn, order, 0);
      framesCount := framesCount[order := framesCount[order] + 1];
      forall p: nat ensures Cover(WithFrame(free, f, early), p) == Cover(free, p) + Hit(f, p) {
        CoverPush(free, order, f, p);
      }
      free := WithFrame(free, f, early);
    }

    /** relink_frame_to_order, within the orders that exist. */
    method RelinkFrameToOrder(o: nat, i: nat, newOrder: nat) returns (frame: Frame)
      requires Queued() && o < ORDERS && i < |free[o]| && newOrder < ORDERS && newOrder != o
      requires FrameOk(free[o][i].(order := newOrder), newOrder, 0)
      modifies this
      ensures Queued() && busy == old(busy) && slots == old(slots)
      ensures frame == old(free[o][i]).(order := newOrder)
      ensures free == WithFrame(old(free)[o := RemoveAt(old(free[o]), i)], frame, false)
      ensures forall p: nat :: Cover(free, p) + Hit(old(free[o][i]), p) == old(Cover(free, p)) + Hit(frame, p)
    {
      var f := free[o][i];
      frame := f.(order := newOrder);
      var rest := free[o := RemoveAt(free[o], i)];
      forall p: nat ensures Cover(WithFrame(rest, frame, false), p) + Hit(f, p) == Cover(free, p) + Hit(frame, p) {
        CoverRemove(free, o, i, p);
        CoverPush(rest, newOrder, frame, p);
      }
      assert |free[o]| >= 1;
      framesCount := framesCount[o := framesCount[o] - 1];
      free := WithFrame(rest, frame, false);
      framesCount := framesCount[newOrder := framesCount[newOrder] + 1];
    }

    /** destroy_frame on a free frame. */
    method DestroyFrame(o: nat, i: nat)
      requires Queued() && o < ORDERS && i < |free[o]|
      modifies this
      ensures Queued() && busy == old(busy) && slots == old(slots) + 1
      ensures free == old(free)[o := RemoveAt(old(free[o]), i)]
      ensures forall p: nat :: Cover(free, p) + Hit(old(free[o][i]), p) == old(Cover(free, p))
    {
      forall p: nat ensures Cover(free[o := RemoveAt(free[o], i)], p) + Hit(free[o][i], p) == Cover(free, p) {
        CoverRemove(free, o, i, p);
      }
      assert |free[o]| >= 1;
      framesCount := framesCount[o := framesCount[o] - 1];
      free := free[o := RemoveAt(free[o], i)];
      slots, totalFree := slots + 1, (totalFree + 1) % 0x1_0000_0000_0000_0000;
    }

    /** split_frame on the first frame of list `o`. */
    method SplitFrame(o: nat) returns (stopped: bool, taken: seq<Frame>)
      requires Queued() && 1 <= o < ORDERS && free[o] != []
      modifies this
      ensures Queued()
      ensures stopped <==> !CanSplit(old(TheStock()), o)
      ensures !stopped ==> Stock(free, slots, taken) == Split(old(TheStock()), o)
      ensures stopped ==> free[PAGE_ORDER_4K] == []
      ensures BusyGrew(old(busy), busy, taken)
      ensures All4k(taken)
      ensures !stopped ==> SplitLists(old(free), free, o, |taken|)
      ensures !stopped ==> Slack(free) == old(Slack(free)) - 1
      ensures !stopped ==> FreeShrank(old(free), free, taken)
    {
      var f := free[o][0];
      assert FrameOk(f, o, 0);
      SplitOk(f, o);
      var lo := RelinkFrameToOrder(o, 0, o - 1);
      assert RemoveAt(old(free[o]), 0) == old(free[o])[1..];
      assert free == Relinked(old(free), o);
      ghost var s1 := TheStock();
      var hi := Frame(NextMfn(lo.mfn, lo.order), lo.order, 0);
      stopped, taken := AddFrame(hi.mfn, hi.order, false);
      if stopped {
        return;
      }
      assert Stock(free, slots, taken) == Added(s1, hi, false);
      forall p: nat ensures Cover(free, p) + Count(taken, p) == old(Cover(free, p)) {
        HalvesCover(f, lo, hi, p);
      }
      SplitSlack(old(free), free, o, |taken|);
    }

    /** try_create_4k_frames: splits the least larger frame until there are enough 4K frames, as `Refill` says. */
    method TryCreate4kFrames() returns (stopped: bool, taken: seq<Frame>)
      requires Queued()
      modifies this
      ensures Queued() && BusyGrew(old(busy), busy, taken)
      ensures All4k(taken)
      ensures stopped <==> Refill(old(TheStock())).None?
      ensures !stopped ==> Stock(free, slots, taken) == Refill(old(TheStock())).value
      ensures stopped ==> |free[PAGE_ORDER_4K]| < MIN_NUM_4K_FRAMES
      ensures stopped ==> free[PAGE_ORDER_4K] == [] || !HasFrom(free, 1)
      ensures !stopped ==> |free[PAGE_ORDER_4K]| >= MIN_NUM_4K_FRAMES
      ensures !stopped ==> FreeShrank(old(free), free, taken)
    {
      stopped, taken := false, [];
      ghost var goal := Refill(TheStock());
      var enough := Enough4kFrames(free[PAGE_ORDER_4K]);
      while !enough
        invariant Queued() && BusyGrew(old(busy), busy, taken) && All4k(taken)
        invariant enough <==> |free[PAGE_ORDER_4K]| >= MIN_NUM_4K_FRAMES
        invariant FreeShrank(old(free), free, taken) && goal == Refill(Stock(free, slots, taken))
        decreases Slack(free)
      {
        stopped, taken := Create4kFrame(taken, old(free), old(busy), goal);
        if stopped {
          return;
        }
        enough := Enough4kFrames(free[PAGE_ORDER_4K]);
      }
    }

    /** One round of it. */
    method Create4kFrame(taken: seq<Frame>, ghost free0: Lists, ghost busy0: Lists, ghost goal: Option<Stock>)
      returns (stopped: bool, taken': seq<Frame>)
      requires Queued() && BusyGrew(busy0, busy, taken) && All4k(taken) && FreeShrank(free0, free, taken)
      requires |free[PAGE_ORDER_4K]| < MIN_NUM_4K_FRAMES && goal == Refill(Stock(free, slots, taken))
      modifies this
      ensures Queued() && BusyGrew(busy0, busy, taken') && All4k(taken')
      ensures stopped ==> goal == None && |free[PAGE_ORDER_4K]| < MIN_NUM_4K_FRAMES
      ensures stopped ==> free[PAGE_ORDER_4K] == [] || !HasFrom(free, 1)
      ensures !stopped ==> FreeShrank(free0, free, taken') && goal == Refill(Stock(free, slots, taken'))
      ensures !stopped ==> Slack(free) < old(Slack(free))
    {
      ghost var busy1, free1, s1 := busy, free, TheStock();
      var o := FindLargerFrame(free, PAGE_ORDER_4K);
      RefillStep(s1.(taken := taken), o, goal);
      stopped, taken' := o == ORDERS, taken;
      if stopped {
        return;
      }
      var more;
      SplitTaken(s1, taken, o);
      stopped, more := SplitFrame(o);
      BusyGrewTrans(busy0, busy1, busy, taken, more);
      taken' := taken + more;
      if !stopped {
        FreeShrankTrans(free0, free1, free, taken, more);
      }
    }

    /**
      The loop of get_free_frames: unless the list has a frame, the first one
      of the least larger order is broken up.  That takes a descriptor for each
      of its halves, and stops exactly if there are not enough 4K frames for
      these.
     */
    method BreakUp(order: nat, ghost o: nat, ghost need: nat)
      returns (stopped: bool, none: bool, kept: seq<Frame>, ghost done: nat)
      requires Queued() && order < ORDERS && (order == PAGE_ORDER_4K ==> free[PAGE_ORDER_4K] != [])
      requires order <= o <= ORDERS && (o < ORDERS ==> free[o] != []) && forall k :: order <= k < o ==> free[k] == []
      requires need == Needs(slots, o - order)
      modifies this
      ensures Queued() && BusyGrew(old(busy), busy, kept) && All4k(kept)
      ensures none <==> o == ORDERS
      ensures none ==> !stopped && kept == [] && free == old(free) && busy == old(busy) && slots == old(slots)
      ensures stopped <==> o < ORDERS && |old(free[PAGE_ORDER_4K])| < need
      ensures !none && !stopped ==> done == o - order && BrokenTo(old(free), old(slots), o, done, kept)
      ensures !stopped ==> FreeShrank(old(free), free, kept)
      ensures stopped ==> free[PAGE_ORDER_4K] == []
    {
      ghost var ls, slots0 := free, slots;
      stopped, none, kept, done := false, false, [], 0;
      BreakingStart(order, o);
      while free[order] == []
        invariant |free| == ORDERS && done <= o - order && (order == PAGE_ORDER_4K ==> free[order] != [])
        invariant Breaking(ls, slots0, old(busy), order, o, done, kept)
        decreases o - done
      {
        assert order != PAGE_ORDER_4K;  // the BUG_ON at the head of the loop
        ghost var next := Needs(slots0, done + 1);
        stopped, none, kept := BreakOnce(order, kept, ls, slots0, old(busy), o, done, next);
        if none {
          return;
        }
        NeedsGrow(slots0, done + 1, o - order, next, need);
        if stopped {
          return;
        }
        done := done + 1;
      }
      BrokenDone(ls, slots0, old(busy), order, o, done, kept, need);
    }

    ghost predicate BreakingAs(state: State, ls: Lists, slots0: nat, busy0: Lists, order: nat, o: nat, done: nat,
                               kept: seq<Frame>)
      reads this
    {
      match state case InLoop =>
        && Queued() && ListsOk(ls, 0) && order <= o <= ORDERS && order < ORDERS && done <= o - order
        && (forall k :: order <= k < o ==> ls[k] == []) && (order == PAGE_ORDER_4K ==> o == 0)
        && BusyGrew(busy0, busy, kept) && All4k(kept) && FreeShrank(ls, free, kept)
        && if o == ORDERS then free == ls && busy == busy0 && slots == slots0 && kept == []
           else BrokenTo(ls, slots0, o, done, kept)
    }

    /** How far the loop has come. */
    ghost predicate Breaking(ls: Lists, slots0: nat, busy0: Lists, order: nat, o: nat, done: nat, kept: seq<Frame>)
      reads this
    {
      forall state :: BreakingAs(state, ls, slots0, busy0, order, o, done, kept)
    }

    lemma BreakingStart(order: nat, o: nat)
      requires Queued() && order <= o <= ORDERS && order < ORDERS && (o < ORDERS ==> free[o] != [])
      requires (forall k :: order <= k < o ==> free[k] == []) && (order == PAGE_ORDER_4K ==> o == 0)
      ensures Breaking(free, slots, busy, order, o, 0, [])
    {
      var none: seq<Frame> := [];
      assert forall p: nat :: Count(none, p) == 0;
      if o < ORDERS {
        BrokenNothing(free, o);
      }
    }

    lemma BrokenDone(ls: Lists, slots0: nat, busy0: Lists, order: nat, o: nat, done: nat, kept: seq<Frame>, need: nat)
      requires Breaking(ls, slots0, busy0, order, o, done, kept) && order < |free| && free[order] != []
      requires order <= o && need == Needs(slots0, o - order)
      ensures Queued() && BusyGrew(busy0, busy, kept) && All4k(kept) && FreeShrank(ls, free, kept)
      ensures o < ORDERS && done == o - order && BrokenTo(ls, slots0, o, done, kept) && need <= |ls[PAGE_ORDER_4K]|
    {
      assert BreakingAs(InLoop, ls, slots0, busy0, order, o, done, kept);
      if order > 0 && o < ORDERS {
        BrokenLeast(ls, o, o - done, Needs(slots0, done), order);
      }
    }

    /** One round of it. */
    method BreakOnce(order: nat, kept: seq<Frame>, ghost ls: Lists, ghost slots0: nat, ghost busy0: Lists,
                     ghost o: nat, ghost done: nat, ghost next: nat)
      returns (stopped: bool, none: bool, kept': seq<Frame>)
      requires Breaking(ls, slots0, busy0, order, o, done, kept) && |free| == ORDERS && order < ORDERS
      requires free[order] == [] && order > PAGE_ORDER_4K && |ls| == ORDERS && next == Needs(slots0, done + 1)
      modifies this
      ensures Queued() && BusyGrew(busy0, busy, kept') && All4k(kept') && (stopped ==> free[PAGE_ORDER_4K] == [])
      ensures none <==> o == ORDERS
      ensures none ==> !stopped && kept' == [] && free == ls && busy == busy0 && slots == slots0
      ensures !none ==> done < o - order && (stopped <==> |ls[PAGE_ORDER_4K]| < next)
      ensures !none && !stopped ==> Breaking(ls, slots0, busy0, order, o, done + 1, kept')
    {
      assert BreakingAs(InLoop, ls, slots0, busy0, order, o, done, kept);
      stopped, none, kept' := false, false, kept;
      var q := FindLargerFrame(free, order);
      if o < ORDERS {
        BrokenLeast(ls, o, o - done, Needs(slots0, done), order);
      }
      if q == ORDERS {
        none := true;
        return;
      }
      stopped, kept' := SplitLargest(order, q, kept, ls, slots0, o, done, next, busy0);
    }

    /** The first frame of list `o` is broken up by `done` splits. */
    ghost predicate BrokenTo(ls: Lists, slots0: nat, o: nat, done: nat, kept: seq<Frame>)
      reads this
    {
      && |ls| == ORDERS && done <= o < ORDERS && ls[o] != [] && Needs(slots0, done) <= |ls[PAGE_ORDER_4K]|
      && free == Broken(ls, o, o - done, Needs(slots0, done)) && slots == LeftAfter(slots0, done)
      && kept == Reserved(ls[PAGE_ORDER_4K][..Needs(slots0, done)])
    }

    /** Its split. */
    method SplitLargest(order: nat, p: nat, kept: seq<Frame>, ghost ls: Lists, ghost slots0: nat, ghost o: nat,
                        ghost done: nat, ghost next: nat, ghost busy0: Lists)
      returns (stopped: bool, kept': seq<Frame>)
      requires Queued() && ListsOk(ls, 0) && 1 <= order < p <= o < ORDERS && p == o - done &&
        next == Needs(slots0, done + 1)
      requires BrokenTo(ls, slots0, o, done, kept) && forall k :: order <= k < o ==> ls[k] == []
      requires BusyGrew(busy0, busy, kept) && All4k(kept) && FreeShrank(ls, free, kept)
      modifies this
      ensures Queued() && BusyGrew(busy0, busy, kept') && All4k(kept')
      ensures stopped <==> |ls[PAGE_ORDER_4K]| < next
      ensures !stopped ==> BrokenTo(ls, slots0, o, done + 1, kept') && FreeShrank(ls, free, kept')
      ensures stopped ==> free[PAGE_ORDER_4K] == []
    {
      ghost var busy1, free1, n := busy, free, Needs(slots0, done);
      var more;
      NeedsNext(slots0, done, n, slots);
      BrokenStep(ls, o, p, n, slots, []);
      stopped, more := SplitFrame(p);
      BusyGrewTrans(busy0, busy1, busy, kept, more);
      kept' := kept + more;
      if !stopped {
        FreeShrankTrans(ls, free1, free, kept, more);
        ReservedMore(ls[PAGE_ORDER_4K], n, next - n);
        assert free == Broken(ls, o, p - 1, next);
      }
    }

    /**
      get_free_frames.  `kept` are the 4K frames set aside for descriptors on
      the way.  NULL is the answer exactly if no frame of that order or larger
      is free, and never for 4K.  Above 4K the answer is the first frame of the
      list or, if that is empty, the start of the first frame of the least
      larger order, of which one frame is left in each order between.
     */
    method GetFreeFrames(order: nat) returns (stopped: bool, frame: Option<Frame>, kept: seq<Frame>)
      requires Valid()
      modifies this
      ensures Queued()
      ensures !stopped ==> Valid()
      ensures !stopped ==> All4k(kept)
      ensures !stopped ==> BusyGrew(old(busy), busy, Handed(kept, frame))
      ensures !stopped ==> FreeShrank(old(free), free, Handed(kept, frame))
      ensures !stopped && frame.Some? ==> FrameOk(frame.value, order, 1)
      ensures !stopped ==> (frame.None? <==> order > MAX_PAGE_ORDER || (order > 0 && !HasFrom(old(free), order)))
      ensures !stopped && frame.None? ==> free == old(free) && busy == old(busy) && slots == old(slots) && kept == []
      ensures stopped <==> Stops(old(TheStock()), order)
      ensures !stopped && frame.Some? ==>
        Answers(old(TheStock()), order, Stock(free, slots, kept), frame.value)
      ensures stopped ==> free[PAGE_ORDER_4K] == [] || (order == 0 && |free[PAGE_ORDER_4K]| == 1 && !HasFrom(free, 1))
    {
      stopped, frame, kept := false, None, [];
      if order > MAX_PAGE_ORDER {
        return;
      }
      if order == PAGE_ORDER_4K {
        stopped, kept := TryCreate4kFrames();
        if stopped {
          return;
        }
      }
      stopped, frame, kept := GetFrom(order, kept, old(TheStock()), old(busy));
      NoneIffEmpty(old(free), order);
    }

    /** The rest of get_free_frames, where `s` was the stock at its start. */
    method GetFrom(order: nat, taken: seq<Frame>, ghost s: Stock, ghost busy0: Lists)
      returns (stopped: bool, frame: Option<Frame>, kept: seq<Frame>)
      requires Queued() && order < ORDERS && All4k(taken) && |s.free| == ORDERS
      requires BusyGrew(busy0, busy, taken) && FreeShrank(s.free, free, taken)
      requires order == PAGE_ORDER_4K ==>
        |free[PAGE_ORDER_4K]| >= MIN_NUM_4K_FRAMES && Refill(s) == Some(Stock(free, slots, taken))
      requires order > PAGE_ORDER_4K ==> s == TheStock() && busy == busy0 && taken == []
      modifies this
      ensures Queued() && (stopped <==> Stops(s, order)) && (stopped ==> free[PAGE_ORDER_4K] == [])
      ensures !stopped ==> All4k(kept) && BusyGrew(busy0, busy, Handed(kept, frame))
      ensures !stopped ==> FreeShrank(s.free, free, Handed(kept, frame))
      ensures !stopped ==> (frame.None? <==> order > 0 && LeastFrom(s.free, order) == ORDERS)
      ensures !stopped && frame.None? ==> TheStock() == s && busy == busy0 && kept == []
      ensures !stopped && frame.Some? ==>
        FrameOk(frame.value, order, 1) && Answers(s, order, Stock(free, slots, kept), frame.value)
    {
      frame, kept := None, taken;
      var none, f, more;
      ghost var busy1, s1, o := busy, Stock(free, slots, taken), LeastFrom(free, order);
      ghost var need, left := Needs(slots, o - order), LeftAfter(slots, o - order);
      stopped, none, f, more := Obtain(order, o, need, left);
      if stopped || none {
        return;
      }
      frame, kept := Some(f), taken + more;
      AnswersAre(s, s1, Stock(free, slots, kept), order, o, more, f);
      assert taken + (more + [f]) == Handed(kept, frame);
      BusyGrewTrans(busy0, busy1, busy, taken, more + [f]);
      FreeShrankTrans(s.free, s1.free, free, taken, more + [f]);
    }

    /** The loop, and reserve_frame on the first frame of the list. */
    method Obtain(order: nat, ghost o: nat, ghost need: nat, ghost left: nat)
      returns (stopped: bool, none: bool, frame: Frame, kept: seq<Frame>)
      requires Queued() && order < ORDERS && (order == PAGE_ORDER_4K ==> free[PAGE_ORDER_4K] != [])
      requires order <= o <= ORDERS && (o < ORDERS ==> free[o] != []) && forall k :: order <= k < o ==> free[k] == []
      requires need == Needs(slots, o - order) && left == LeftAfter(slots, o - order)
      modifies this
      ensures Queued() && (none <==> o == ORDERS) && (stopped ==> free[PAGE_ORDER_4K] == [])
      ensures none ==> !stopped && kept == [] && free == old(free) && busy == old(busy) && slots == old(slots)
      ensures stopped <==> o < ORDERS && |old(free[PAGE_ORDER_4K])| < need
      ensures !none && !stopped ==>
        && frame == Frame(old(free[o][0].mfn), order, 1) && FrameOk(frame, order, 1) && All4k(kept)
        && free == BrokenUp(old(free), o, order, need) && slots == left
        && kept == Reserved(old(free[PAGE_ORDER_4K])[..need])
      ensures !none && !stopped ==>
        BusyGrew(old(busy), busy, kept + [frame]) && FreeShrank(old(free), free, kept + [frame])
    {
      ghost var done;
      frame := Frame(0, order, 1);
      stopped, none, kept, done := BreakUp(order, o, need);
      if stopped || none {
        return;
      }
      ghost var busy1, free1 := busy, free;
      frame := TakeFirst(order, old(free), old(slots), o, done, kept);
      BusyGrewTrans(old(busy), busy1, busy, kept, [frame]);
      FreeShrankTrans(old(free), free1, free, kept, [frame]);
    }

    /** reserve_frame on the first frame of the list, which is the start of what was broken up. */
    method TakeFirst(order: nat, ghost ls: Lists, ghost slots0: nat, ghost o: nat, ghost done: nat,
                     ghost kept: seq<Frame>)
      returns (frame: Frame)
      requires Queued() && ListsOk(ls, 0) && order + done == o && BrokenTo(ls, slots0, o, done, kept)
      requires order == PAGE_ORDER_4K ==> o == PAGE_ORDER_4K
      modifies this
      ensures Queued() && slots == old(slots) && FrameOk(frame, order, 1)
      ensures frame == Frame(ls[o][0].mfn, order, 1) && free == BrokenUp(ls, o, order, Needs(slots0, done))
      ensures BusyGrew(old(busy), busy, [frame]) && FreeShrank(old(free), free, [frame])
    {
      BrokenHead(ls, o, order, Needs(slots0, done));
      assert FrameOk(free[order][0], order, 0);
      frame := ReserveFrame(order, 0);
    }

    /**
      get_free_frames_cond: the first free frame the callback accepts, in
      order of size and then of queueing; no larger frame is split for it,
      beyond what try_create_4k_frames does.
     */
    method GetFreeFramesCond(cond: Frame -> bool)
      returns (stopped: bool, frame: Option<Frame>, kept: seq<Frame>)
      requires Valid()
      modifies this
      ensures Queued()
      ensures !stopped ==> Valid()
      ensures !stopped ==> BusyGrew(old(busy), busy, Handed(kept, frame))
      ensures !stopped ==> FreeShrank(old(free), free, Handed(kept, frame))
      ensures stopped <==> Refill(old(TheStock())).None?
      ensures !stopped ==>
        && slots == Refill(old(TheStock())).value.slots && kept == Refill(old(TheStock())).value.taken
        && FirstAccepted(cond, Refill(old(TheStock())).value.free, free, frame)
    {
      frame := None;
      stopped, kept := TryCreate4kFrames();
      if stopped {
        return;
      }
      for order := 0 to ORDERS
        invariant forall o, f :: 0 <= o < order && f in free[o] ==> !cond(f)
        invariant Valid() && BusyGrew(old(busy), busy, kept)
        invariant FreeShrank(old(free), free, kept)
        invariant Stock(free, slots, kept) == Refill(old(TheStock())).value
      {
        for i := 0 to |free[order]|
          invariant forall k :: 0 <= k < i ==> !cond(free[order][k])
        {
          if cond(free[order][i]) {
            ghost var busy1, free1 := busy, free;
            assert FrameOk(free[order][i], order, 0);
            var f := ReserveFrame(order, i);
            frame := Some(f);
            assert AcceptedAt(cond, free1, free, f, i);
            BusyGrewTrans(old(busy), busy1, busy, kept, [f]);
            FreeShrankTrans(old(free), free1, free, kept, [f]);
            return;
          }
        }
      }
    }

    /** The body of one merge: `lo` grows by one order and `hi` is destroyed. */
    method JoinPair(lo: Frame, hi: Frame) returns (joined: Frame)
      requires Valid() && lo.order == hi.order < MAX_PAGE_ORDER
      requires lo in free[lo.order] && hi in free[lo.order] && hi.mfn == lo.mfn + Pow2(lo.order)
      requires FrameOk(lo.(order := lo.order + 1), lo.order + 1, 0)
      modifies this
      ensures Valid() && busy == old(busy) && slots == old(slots) + 1
      ensures joined == lo.(order := lo.order + 1) && joined in free[joined.order]
      ensures forall p: nat :: Cover(free, p) == old(Cover(free, p))
      ensures lo.mfn !in old(StartsOf(free))[lo.order + 1]
      ensures StartsOf(free) ==
        Plus(Minus(Minus(old(StartsOf(free)), lo.order, lo.mfn), lo.order, hi.mfn), lo.order + 1, lo.mfn)
    {
      ghost var before := free;
      var o := lo.order;
      var i := FindMfn(free[o], lo.mfn);
      SameMfnSameFrame(free, o, i, lo);
      joined := RelinkFrameToOrder(o, i, o + 1);
      assert free[o + 1] == old(free[o + 1]) + [joined];
      assert hi in free[o];
      var k := FindMfn(free[o], hi.mfn);
      var victim := free[o][k];
      DestroyFrame(o, k);
      forall p: nat ensures Cover(free, p) == old(Cover(free, p)) {
        HalvesCover(joined, lo, victim, p);
      }
      PairStarts(before, free, o, i, k, joined);
      NotAbove(before, o, i);
    }

    /** One round of merge_frames, which ends where the merge of the pair does. */
    method JoinSiblings(first: Frame, sibling: Frame) returns (joined: Frame)
      requires Valid() && first.order < MAX_PAGE_ORDER && first in free[first.order] && sibling in free[first.order]
      requires sibling.mfn == SiblingMfn(first.mfn, first.order)
      modifies this
      ensures Valid() && busy == old(busy) && slots == old(slots) + 1
      ensures joined.order == first.order + 1 && joined in free[joined.order]
      ensures forall p: nat :: Cover(free, p) == old(Cover(free, p))
      ensures forall p: nat :: Covers(first, p) || Covers(sibling, p) ==> Covers(joined, p)
      ensures Climb(StartsOf(free), joined.mfn, joined.order) == Climb(old(StartsOf(free)), first.mfn, first.order)
      ensures Jams(StartsOf(free), joined.mfn, joined.order) <==> Jams(old(StartsOf(free)), first.mfn, first.order)
      ensures PutIn(Minus(StartsOf(free), joined.order, joined.mfn), joined.mfn, joined.order)
           == PutIn(Minus(old(StartsOf(free)), first.order, first.mfn), first.mfn, first.order)
    {
      ghost var st := StartsOf(free);
      assert FrameOk(first, first.order, 0) && FrameOk(sibling, first.order, 0);
      SiblingsJoin(first, sibling);
      var isFirst := FirstFrameSibling(first.mfn, first.order + 1);
      var lo, hi := if isFirst then first else sibling, if isFirst then sibling else first;
      joined := JoinPair(lo, hi);
      MinusSwap(st, first.order, first.mfn, sibling.mfn);
      PairJoined(st, StartsOf(free), first, sibling, joined);
    }

    /**
      merge_frames: joins `first` with its free sibling, and the result with
      its own, until there is none.  The block this ends with, whether it
      stops where two free siblings of the largest order meet, and what is
      left of the lists are all decided by the lists at entry.
     */
    method MergeFrames(first: Frame) returns (stopped: bool, merged: Frame)
      requires Valid() && first.order < ORDERS && first in free[first.order]
      modifies this
      ensures Valid() && busy == old(busy) && slots == old(slots) + merged.order - first.order
      ensures forall p: nat :: Cover(free, p) == old(Cover(free, p))
      ensures merged.order < ORDERS && merged in free[merged.order]
      ensures forall p: nat :: Covers(first, p) ==> Covers(merged, p)
      ensures stopped <==> merged.order == MAX_PAGE_ORDER && !NoFreeSibling(free, merged)
      ensures !stopped ==> NoFreeSibling(free, merged)
      ensures first.order < MAX_PAGE_ORDER ==>
        forall g, p: nat :: g in old(free[first.order]) && g.mfn == SiblingMfn(first.mfn, first.order) && Covers(g, p)
          ==> Covers(merged, p)
      ensures merged == Climb(old(StartsOf(free)), first.mfn, first.order)
      ensures stopped <==> Jams(old(StartsOf(free)), first.mfn, first.order)
      ensures StartsOf(free) == PutIn(Minus(old(StartsOf(free)), first.order, first.mfn), first.mfn, first.order)
      decreases ORDERS - first.order
    {
      var o := first.order;
      stopped, merged := false, first;
      var isFirst := FirstFrameSibling(first.mfn, o + 1);
      var j := FindMfn(free[o], if isFirst then NextMfn(first.mfn, o) else PrevMfn(first.mfn, o));
      ghost var st := StartsOf(free);
      assert FrameOk(first, o, 0);
      if j < 0 {
        NoStep(st, first.mfn, o);
        return;
      }
      var sibling := free[o][j];
      if o + 1 > MAX_PAGE_ORDER {
        NoStep(st, first.mfn, o);
        stopped := true;
        return;
      }
      var joined := JoinSiblings(first, sibling);
      stopped, merged := MergeFrames(joined);
    }

    /**
      split_frame on the first frame of list `o`, then merge_frames on one of
      its halves.  With both halves still free and no other free frame in the
      way, this gives back the frame exactly if the half finds the other one:
      always for a naturally aligned frame, and for one that is not so aligned
      only from the high half, unless that is itself aligned like the whole.
     */
    method SplitThenMerge(o: nat, high: bool) returns (stopped: bool, taken: seq<Frame>, half: Frame, merged: Frame)
      requires Valid() && 1 <= o < ORDERS && free[o] != []
      modifies this
      ensures half == HalfOf(old(free[o][0]), o, high)
      ensures stopped <==> !CanSplit(old(TheStock()), o) || JamsIn(Split(old(TheStock()), o).free, half)
      ensures !stopped ==> Valid() && BusyGrew(old(busy), busy, taken) && FreeShrank(old(free), free, taken)
      ensures !stopped && HalvesStay(old(free), o, |taken|) && NoFreeSibling(old(free), old(free[o][0])) ==>
        (HalvesMeet(old(free[o][0]), o, high) ==> merged == old(free[o][0]))
      ensures !stopped && HalvesStay(old(free), o, |taken|) && !HalvesMeet(old(free[o][0]), o, high) ==>
        (NobodyAt(old(free[o - 1]), SiblingMfn(half.mfn, o - 1)) ==> merged == half)
    {
      ghost var before, busy0, f := free, busy, free[o][0];
      assert FrameOk(f, o, 0);
      half := HalfOf(free[o][0], o, high);
      merged := half;
      stopped, taken := SplitFrame(o);
      if stopped {
        return;
      }
      SplitContents(before, free, o, |taken|);
      forall p: nat ensures Cover(free, p) + Cover(busy, p) <= 1 {
        assert Cover(free, p) + Count(taken, p) == Cover(before, p);
      }
      if half in free[o - 1] {
        HalvesAfter(before, free, o, |taken|, high);
        ghost var free1 := free;
        if HalvesStay(before, o, |taken|) {
          HalfClimbs(before, free, o, |taken|, high);
        }
        stopped, merged := MergeFrames(half);
        forall p: nat ensures Cover(free, p) + Count(taken, p) == Cover(before, p) {
          assert Cover(free, p) == Cover(free1, p);
        }
      }
    }

    /** return_frame on the frame at position i of a busy list: its only reference is dropped. */
    method ReturnFrame(o: nat, i: nat) returns (frame: Frame)
      requires Valid() && o < ORDERS && i < |busy[o]|
      modifies this
      ensures Valid() && frame == old(busy[o][i]).(refcount := 0) && frame in free[o] && slots == old(slots)
      ensures forall p: nat :: Cover(free, p) == old(Cover(free, p)) + Hit(frame, p)
      ensures forall p: nat :: Cover(busy, p) + Hit(frame, p) == old(Cover(busy, p))
      ensures forall k, f :: 0 <= k < ORDERS ==> (f in busy[k] <==> f in old(busy[k]) && f != old(busy[o][i]))
      ensures free == old(free)[o := [frame] + old(free[o])]
    {
      var f := busy[o][i];
      assert FrameOk(f, o, 1);
      frame := f.(refcount := f.refcount - 1);
      forall p: nat
        ensures Cover(busy[o := RemoveAt(busy[o], i)], p) + Hit(frame, p) == Cover(busy, p)
        ensures Cover(free[o := [frame] + free[o]], p) == Cover(free, p) + Hit(frame, p)
      {
        CoverRemove(busy, o, i, p);
        CoverPush(free, o, frame, p);
      }
      assert forall p: nat :: Cover(busy, p) <= 1;
      RemovedIsGone(busy, o, i);
      busy := busy[o := RemoveAt(busy[o], i)];
      free := free[o := [frame] + free[o]];
      forall p: nat ensures Cover(free, p) + Cover(busy, p) <= 1 {
        assert old(Cover(free, p)) + old(Cover(busy, p)) <= 1;
      }
    }

    /**
      put_free_frames.  A frame that is not busy at that order is left alone
      (`found` is false); otherwise exactly its pages become free, and the
      block they end up in has no free sibling unless the kernel stopped
      where two free siblings of the largest order met.
     */
    method PutFreeFrames(mfn: nat, order: nat) returns (stopped: bool, found: bool, merged: Frame)
      requires Valid()
      modifies this
      ensures Valid()
      ensures found <==> order <= MAX_PAGE_ORDER && Frame(mfn, order, 1) in old(busy[order])
      ensures !found ==> free == old(free) && busy == old(busy) && (stopped <==> order > MAX_PAGE_ORDER)
      ensures slots == old(slots) + if found then merged.order - order else 0
      ensures found ==> forall p: nat :: Cover(free, p) == old(Cover(free, p)) + Hit(Frame(mfn, order, 1), p)
      ensures found ==> forall p: nat :: Cover(busy, p) + Hit(Frame(mfn, order, 1), p) == old(Cover(busy, p))
      ensures found ==> forall k, f :: 0 <= k < ORDERS ==>
        (f in busy[k] <==> f in old(busy[k]) && f != Frame(mfn, order, 1))
      ensures found ==> merged.order < ORDERS && merged in free[merged.order]
      ensures found ==> forall p: nat :: Covers(Frame(mfn, order, 1), p) ==> Covers(merged, p)
      ensures found ==> merged == Climb(old(StartsOf(free)), mfn, order)
      ensures found ==> (stopped <==> Jams(old(StartsOf(free)), mfn, order))
      ensures found ==> StartsOf(free) == PutIn(old(StartsOf(free)), mfn, order)
      ensures found && !stopped ==> NoFreeSibling(free, merged)
    {
      merged := Frame(mfn, order, 0);
      found := false;
      stopped := order > MAX_PAGE_ORDER;
      if stopped {
        return;
      }
      var i := FindMfn(busy[order], mfn);
      if i < 0 {
        return;
      }
      found := true;
      assert FrameOk(busy[order][i], order, 1);
      assert busy[order][i] == Frame(mfn, order, 1);
      ghost var before, busyBefore := free, busy;
      var f := ReturnFrame(order, i);
      BusyElsewhere(before, busyBefore, order, i);
      StartsAdd(before, order, f);
      NoOwnSibling(f);
      PutBack(StartsOf(before), StartsOf(free), mfn, order);
      stopped, merged := MergeFrames(f);
    }

    /**
      Every run of requests and returns, in any order and with any splits,
      merges and descriptor pages inside, keeps the frames disjoint and well
      placed, and keeps the set of pages they cover.
     */
    method Run(ops: seq<Op>) returns (stopped: bool)
      requires Valid()
      modifies this
      ensures !stopped ==> Valid()
      ensures !stopped ==> forall p: nat :: Cover(free, p) + Cover(busy, p) == old(Cover(free, p) + Cover(busy, p))
    {
      stopped := false;
      for i := 0 to |ops|
        invariant Valid()
        invariant forall p: nat :: Cover(free, p) + Cover(busy, p) == old(Cover(free, p) + Cover(busy, p))
      {
        match ops[i] {
          case Get(order) =>
            var frame, kept;
            stopped, frame, kept := GetFreeFrames(order);
          case GetCond(cond) =>
            var frame, kept;
            stopped, frame, kept := GetFreeFramesCond(cond);
          case Put(mfn, order) =>
            var found, merged;
            stopped, found, merged := PutFreeFrames(mfn, order);
        }
        if stopped {
          return;
        }
      }
    }

    /** On top of the pages `seen`, the queued frames cover exactly the pages [first, upTo). */
    ghost predicate Tiled(first: nat, upTo: nat, seen: nat -> nat)
      reads this
    {
      Queued() && forall p: nat :: Cover(free, p) + Cover(busy, p) == seen(p) + InRange(first, upTo, p)
    }

    /** One step of process_memory_range: the frame at `mfn` extends the tiling and the frames `ps` added so far. */
    method AddNext(mfn: nat, order: nat, early: bool, ghost first: nat, ghost seen: nat -> nat, ghost next: nat,
                   ghost s0: Stock, ghost ps: seq<Piece>, ghost taken: seq<Frame>)
      returns (stopped: bool, ghost taken': seq<Frame>)
      requires Tiled(first, mfn, seen) && first <= mfn && order < ORDERS
      requires Aligned(mfn, order) && mfn + Pow2(order) == next <= MFN_LIMIT
      requires StockIs(s0, ps, Some(Stock(free, slots, taken)))
      modifies this
      ensures stopped ==> StockIs(s0, ps + [Piece(mfn, order, early)], None)
      ensures !stopped ==> Tiled(first, next, seen)
      ensures !stopped ==> StockIs(s0, ps + [Piece(mfn, order, early)], Some(Stock(free, slots, taken')))
    {
      var more;
      ghost var free0, busy0, s1 := free, busy, TheStock();
      StockNext(s0, ps, s1.(taken := taken), Piece(mfn, order, early));
      stopped, more := AddFrame(mfn, order, early);
      taken' := taken + more;
      if !stopped {
        AddedTaken(s1, taken, Frame(mfn, order, 0), early);
        forall p: nat ensures Cover(free, p) + Cover(busy, p) == seen(p) + InRange(first, next, p) {
          assert Cover(free0, p) + Cover(busy0, p) == seen(p) + InRange(first, mfn, p);
        }
      }
    }

    /** The first loop: 4K frames up to the first 2M boundary above the early memory. */
    method AddInitial4k(start: nat, end: nat, early: bool, ghost first: nat, ghost cut: nat, ghost seen: nat -> nat,
                        ghost s0: Stock, ghost ps: seq<Piece>, ghost taken0: seq<Frame>)
      returns (stopped: bool, cur: nat, ghost n: nat, ghost row: seq<Piece>, ghost taken: seq<Frame>)
      requires start == Bytes(first) && start <= end <= Bytes(MFN_LIMIT) && cut == CutPage(first, end / 4096)
      requires Tiled(first, first, seen) && StockIs(s0, ps, Some(Stock(free, slots, taken0)))
      modifies this
      ensures first + n <= cut && RowIs(row, first, 0, n, early)
      ensures stopped ==> StockIs(s0, ps + row, None)
      ensures !stopped ==> first + n == cut && cur == Bytes(cut) <= end && Tiled(first, cut, seen)
      ensures !stopped ==> Aligned(cut, PAGE_ORDER_2M) || PaddrToMfn(end) <= cut
      ensures !stopped ==> StockIs(s0, ps + row, Some(Stock(free, slots, taken)))
    {
      cur, n, row, stopped, taken := start, 0, [], false, taken0;
      RowStart(first, 0, early);
      CutStart(cut, first, end / 4096);
      assert ps + row == ps;
      while BeforeCut(cur, end)
        invariant CutIs(cut, first + n, end / 4096) && cur == Bytes(first + n) <= end
        invariant Tiled(first, first + n, seen) && RowIs(row, first, 0, n, early)
        invariant StockIs(s0, ps + row, Some(Stock(free, slots, taken)))
        decreases end - cur
      {
        ghost var page, row0 := first + n, row;
        CutGoesOn(cut, page, cur, end);
        RowNext(row, first, 0, n, early, page);
        n, row := n + 1, row + [Piece(page, 0, early)];
        assert ps + row == ps + row0 + [Piece(page, 0, early)];
        stopped, taken := AddNext(PaddrToMfn(cur), PAGE_ORDER_4K, early, first, seen, page + 1, s0, ps + row0, taken);
        if stopped { return; }
        cur := cur + OrderToSize(PAGE_ORDER_4K);
      }
      CutEnds(cut, first + n, cur, end);
    }

    /** One round of the second or the third loop. */
    method AddOneLarge(cur: nat, order: nat, ghost page: nat, ghost next: nat, ghost from: nat, ghost n: nat,
                       ghost many: nat, ghost limit: nat, ghost to: nat, ghost first: nat, ghost seen: nat -> nat,
                         ghost s0: Stock,
                       ghost ps: seq<Piece>, ghost row: seq<Piece>, ghost taken: seq<Frame>)
      returns (stopped: bool, ghost row': seq<Piece>, ghost taken': seq<Frame>)
      requires cur == Bytes(page) && first <= page && order <= MAX_PAGE_ORDER &&
        AtFrame(page, from, order, n, many, limit, to)
      requires page + Pow2(order) == next <= limit <= MFN_LIMIT && Tiled(first, page, seen) && Aligned(page, order)
      requires RowIs(row, from, order, n, false) && StockIs(s0, ps + row, Some(Stock(free, slots, taken)))
      modifies this
      ensures AtFrame(next, from, order, n + 1, many, limit, to) && RowIs(row', from, order, n + 1, false)
      ensures !stopped ==> Tiled(first, next, seen)
      ensures StockIs(s0, ps + row', if stopped then None else Some(Stock(free, slots, taken')))
    {
      var mfn := PaddrToMfn(cur);
      assert mfn == page;
      AtNext(row, page, next, from, order, n, many, limit, to);
      row' := row + [Piece(page, order, false)];
      assert ps + row' == ps + row + [Piece(page, order, false)];
      stopped, taken' := AddNext(mfn, order, false, first, seen, next, s0, ps + row, taken);
    }

    /** Where the second loop is. */
    ghost predicate Largening(c: Cuts, limit: nat, seen: nat -> nat, s0: Stock, ps: seq<Piece>, page: nat, n: nat,
                              row: seq<Piece>, taken: seq<Frame>)
      reads this
    {
      && c.first <= page && Tiled(c.first, page, seen) && Carving(page, limit, c.order)
      && AtFrame(page, c.cut, c.order, n, c.large, limit, c.mid) && RowIs(row, c.cut, c.order, n, false)
      && StockIs(s0, ps + row, Some(Stock(free, slots, taken)))
    }

    /** One round of it. */
    method AddOneLargest(cur: nat, order: nat, ghost c: Cuts, ghost limit: nat, ghost seen: nat -> nat, ghost s0: Stock,
                         ghost ps: seq<Piece>, ghost page: nat, ghost n: nat, ghost row: seq<Piece>,
                         ghost taken: seq<Frame>)
      returns (stopped: bool, ghost next: nat, ghost row': seq<Piece>, ghost taken': seq<Frame>)
      requires order == c.order <= MAX_PAGE_ORDER && Largening(c, limit, seen, s0, ps, page, n, row, taken)
      requires cur == Bytes(page) && page + Pow2(order) <= limit <= MFN_LIMIT
      modifies this
      ensures n + 1 <= c.large && RowIs(row', c.cut, order, n + 1, false) && next == page + Pow2(order)
      ensures stopped ==> StockIs(s0, ps + row', None)
      ensures !stopped ==> Largening(c, limit, seen, s0, ps, next, n + 1, row', taken')
    {
      next := page + Pow2(order);
      CarveStep(page, limit, order, next);
      stopped, row', taken' := AddOneLarge(cur, order, page, next, c.cut, n, c.large, limit, c.mid, c.first, seen, s0,
                                           ps,
        row, taken);
    }

    /** The second loop: as many frames of the largest order that fits as there is room for. */
    method AddLargest(start: nat, end: nat, ghost c: Cuts, ghost limit: nat, ghost seen: nat -> nat, ghost s0: Stock,
                      ghost ps: seq<Piece>, ghost taken0: seq<Frame>)
      returns (stopped: bool, cur: nat, ghost n: nat, ghost row: seq<Piece>, ghost taken: seq<Frame>)
      requires c.first <= c.cut && start == Bytes(c.cut) <= end && Tiled(c.first, c.cut, seen)
      requires Bytes(limit) <= end < Bytes(limit + 1) && AtFrame(c.cut, c.cut, c.order, 0, c.large, limit, c.mid)
      requires limit <= MFN_LIMIT && (Aligned(c.cut, PAGE_ORDER_2M) || limit <= c.cut) &&
        FitsBest(c.order, limit - c.cut)
      requires StockIs(s0, ps, Some(Stock(free, slots, taken0)))
      modifies this
      ensures n <= c.large && RowIs(row, c.cut, c.order, n, false)
      ensures StockIs(s0, ps + row, if stopped then None else Some(Stock(free, slots, taken)))
      ensures !stopped ==> n == c.large && cur == Bytes(c.mid) && Tiled(c.first, c.mid, seen)
      ensures !stopped ==> Aligned(c.mid, PAGE_ORDER_2M) || limit < c.mid + 512
    {
      ghost var page := c.cut;
      cur, stopped, n, row, taken := start, false, 0, [], taken0;
      var maxOrder := FindMaxAvailOrder(end - cur);
      BestIs(c.order, maxOrder, limit - c.cut);
      CarvingStart(page, limit, maxOrder);
      RowStart(c.cut, maxOrder, false);
      assert ps + row == ps;
      while cur + OrderToSize(maxOrder) <= end
        invariant cur == Bytes(page) && Largening(c, limit, seen, s0, ps, page, n, row, taken)
      {
        stopped, page, row, taken := AddOneLargest(cur, maxOrder, c, limit, seen, s0, ps, page, n, row, taken);
        n := n + 1;
        if stopped { return; }
        cur := cur + OrderToSize(maxOrder);
      }
      AtEnd(page, c.cut, maxOrder, n, c.large, limit, c.mid);
      CarveEnd(page, limit, maxOrder);
    }

    /** The third loop: the remaining 2M frames. */
    method AddRemaining2m(start: nat, end: nat, ghost c: Cuts, ghost limit: nat, ghost seen: nat -> nat,
                          ghost s0: Stock,
                          ghost ps: seq<Piece>, ghost taken0: seq<Frame>)
      returns (stopped: bool, cur: nat, ghost n: nat, ghost row: seq<Piece>, ghost taken: seq<Frame>)
      requires c.first <= c.mid && start == Bytes(c.mid) <= end && Tiled(c.first, c.mid, seen)
      requires Bytes(limit) <= end < Bytes(limit + 1) && AtFrame(c.mid, c.mid, PAGE_ORDER_2M, 0, c.twos, limit, c.rest)
      requires limit <= MFN_LIMIT && (Aligned(c.mid, PAGE_ORDER_2M) || limit < c.mid + 512)
      requires StockIs(s0, ps, Some(Stock(free, slots, taken0)))
      modifies this
      ensures n <= c.twos && RowIs(row, c.mid, PAGE_ORDER_2M, n, false)
      ensures StockIs(s0, ps + row, if stopped then None else Some(Stock(free, slots, taken)))
      ensures !stopped ==> n == c.twos && cur == Bytes(c.rest) && Tiled(c.first, c.rest, seen)
    {
      ghost var page := c.mid;
      cur, stopped, n, row, taken := start, false, 0, [], taken0;
      Pow2Orders();
      RowStart(c.mid, PAGE_ORDER_2M, false);
      assert ps + row == ps;
      while cur + 0x20_0000 <= end
        invariant c.first <= page && cur == Bytes(page) && Tiled(c.first, page, seen)
        invariant Aligned(page, PAGE_ORDER_2M) || limit < page + 512
        invariant AtFrame(page, c.mid, PAGE_ORDER_2M, n, c.twos, limit, c.rest) &&
          RowIs(row, c.mid, PAGE_ORDER_2M, n, false)
        invariant StockIs(s0, ps + row, Some(Stock(free, slots, taken)))
      {
        AlignedStep(page, PAGE_ORDER_2M, page + 512);
        stopped, row, taken := AddOneLarge(cur, PAGE_ORDER_2M, page, page + 512, c.mid, n, c.twos, limit, c.rest,
                                           c.first, seen, s0, ps, row,
          taken);
        page, n := page + 512, n + 1;
        if stopped { return; }
        cur := cur + OrderToSize(PAGE_ORDER_2M);
      }
      AtEnd(page, c.mid, PAGE_ORDER_2M, n, c.twos, limit, c.rest);
    }

    /** The last loop: the remaining 4K frames, the last one even if `end` cuts it short. */
    method AddRemaining4k(start: nat, end: nat, ghost from: nat, ghost first: nat, ghost seen: nat -> nat,
                          ghost s0: Stock, ghost ps: seq<Piece>, ghost taken0: seq<Frame>)
      returns (stopped: bool, ghost n: nat, ghost row: seq<Piece>, ghost taken: seq<Frame>)
      requires first <= from && start == Bytes(from) <= end <= Bytes(MFN_LIMIT) && Tiled(first, from, seen)
      requires StockIs(s0, ps, Some(Stock(free, slots, taken0)))
      modifies this
      ensures from + n <= PagesUpTo(end) && RowIs(row, from, 0, n, false)
      ensures stopped ==> StockIs(s0, ps + row, None)
      ensures !stopped ==> from + n == PagesUpTo(end) && Tiled(first, from + n, seen)
      ensures !stopped ==> StockIs(s0, ps + row, Some(Stock(free, slots, taken)))
    {
      var cur := start;
      stopped, n, row, taken := false, 0, [], taken0;
      RowStart(from, 0, false);
      assert ps + row == ps;
      while cur < end
        invariant cur < end + 4096 && cur == Bytes(from + n) && Tiled(first, from + n, seen)
        invariant RowIs(row, from, 0, n, false) && StockIs(s0, ps + row, Some(Stock(free, slots, taken)))
      {
        ghost var page, row0 := from + n, row;
        RowNext(row, from, 0, n, false, page);
        n, row := n + 1, row + [Piece(page, 0, false)];
        assert ps + row == ps + row0 + [Piece(page, 0, false)];
        stopped, taken := AddNext(PaddrToMfn(cur), PAGE_ORDER_4K, false, first, seen, page + 1, s0, ps + row0, taken);
        if stopped { return; }
        cur := cur + OrderToSize(PAGE_ORDER_4K);
      }
    }

    /**
      process_memory_range on the free part [start, end) of one region: the
      frames added tile it from `start` up to `end` rounded up to a page, and
      they are exactly `Pieces`.  It stops exactly if there is no 4K frame for
      the descriptors of one of them.
     */
    method ProcessMemoryRange(start: nat, end: nat, early: bool, ghost seen: nat -> nat, ghost s0: Stock,
                              ghost ps: seq<Piece>, ghost taken0: seq<Frame>)
      returns (stopped: bool, size: nat, ghost pieces: seq<Piece>, ghost taken: seq<Frame>)
      requires Queued() && start % 4096 == 0 && start <= end <= Bytes(MFN_LIMIT)
      requires forall p: nat :: Cover(free, p) + Cover(busy, p) == seen(p)
      requires StockIs(s0, ps, Some(Stock(free, slots, taken0)))
      modifies this
      ensures PiecesAre(pieces, start, end, early) && size == end - start
      ensures !stopped ==> Tiled(PaddrToMfn(start), PagesUpTo(end), seen)
      ensures StockIs(s0, ps + pieces, if stopped then None else Some(Stock(free, slots, taken)))
    {
      ghost var c := CutFacts(start, end);
      ghost var row, n;
      var cur;
      size := end - start;
      stopped, cur, n, row, taken := AddInitial4k(start, end, early, c.first, c.cut, seen, s0, ps, taken0);
      ghost var early4k := RowOn(row, c.first, 0, n, c.cut - c.first, early);
      ghost var rows := TheRows(c);
      ghost var rest := rows[0] + rows[1] + rows[2];
      pieces := early4k + rest;
      RowsArePieces(c, start, end, early, early4k, rows, pieces);
      if stopped {
        RowStops(s0, ps, row, early4k, rest);
      } else {
        stopped, taken := ProcessRest(cur, end, c, seen, s0, ps + early4k, taken, rows);
      }
      assert ps + early4k + rest == ps + pieces;
    }

    /** The three loops behind the first one. */
    method ProcessRest(start: nat, end: nat, ghost c: Cuts, ghost seen: nat -> nat, ghost s0: Stock,
                       ghost ps: seq<Piece>, ghost taken0: seq<Frame>, ghost rows: seq<seq<Piece>>)
      returns (stopped: bool, ghost taken: seq<Frame>)
      requires RestOf(c, end) && start == Bytes(c.cut) <= end <= Bytes(MFN_LIMIT) && Tiled(c.first, c.cut, seen)
      requires Aligned(c.cut, PAGE_ORDER_2M) || PaddrToMfn(end) <= c.cut
      requires RowsAre(rows, c) && StockIs(s0, ps, Some(Stock(free, slots, taken0)))
      modifies this
      ensures !stopped ==> Tiled(c.first, PagesUpTo(end), seen)
      ensures StockIs(s0, ps + (rows[0] + rows[1] + rows[2]), if stopped then None else Some(Stock(free, slots, taken)))
    {
      var cur;
      ghost var n, row;
      assert ps + rows[0] + rows[1] + rows[2] == ps + (rows[0] + rows[1] + rows[2]);
      AtStart(c.cut, c.order, c.large, end / 4096, c.mid);
      stopped, cur, n, row, taken := AddLargest(start, end, c, end / 4096, seen, s0, ps, taken0);
      ghost var full := RowOn(row, c.cut, c.order, n, c.large, false);
      RowSame(full, rows[0], c.cut, c.order, c.large, false);
      if stopped {
        RowStops(s0, ps, row, rows[0], rows[1] + rows[2]);
        assert ps + rows[0] + (rows[1] + rows[2]) == ps + rows[0] + rows[1] + rows[2];
        return;
      }
      stopped, taken := ProcessSmall(cur, end, c, seen, s0, ps + rows[0], taken, rows);
    }

    /** The last two loops. */
    method ProcessSmall(start: nat, end: nat, ghost c: Cuts, ghost seen: nat -> nat, ghost s0: Stock,
                        ghost ps: seq<Piece>, ghost taken0: seq<Frame>, ghost rows: seq<seq<Piece>>)
      returns (stopped: bool, ghost taken: seq<Frame>)
      requires RestOf(c, end) && start == Bytes(c.mid) <= end <= Bytes(MFN_LIMIT) && Tiled(c.first, c.mid, seen)
      requires Aligned(c.mid, PAGE_ORDER_2M) || PaddrToMfn(end) < c.mid + 512
      requires RowsAre(rows, c) && StockIs(s0, ps, Some(Stock(free, slots, taken0)))
      modifies this
      ensures !stopped ==> Tiled(c.first, PagesUpTo(end), seen)
      ensures StockIs(s0, ps + rows[1] + rows[2], if stopped then None else Some(Stock(free, slots, taken)))
    {
      var cur;
      ghost var n, row;
      Pow2Orders();
      AtStart(c.mid, PAGE_ORDER_2M, c.twos, end / 4096, c.rest);
      stopped, cur, n, row, taken := AddRemaining2m(start, end, c, end / 4096, seen, s0, ps, taken0);
      ghost var full := RowOn(row, c.mid, PAGE_ORDER_2M, n, c.twos, false);
      RowSame(full, rows[1], c.mid, PAGE_ORDER_2M, c.twos, false);
      if stopped {
        RowStops(s0, ps, row, rows[1], rows[2]);
        return;
      }
      stopped, n, row, taken := AddRemaining4k(cur, end, c.rest, c.first, seen, s0, ps + rows[1], taken);
      full := RowOn(row, c.rest, 0, n, c.last, false);
      RowSame(full, rows[2], c.rest, 0, c.last, false);
      if stopped {
        RowStops(s0, ps + rows[1], row, rows[2], []);
        assert ps + rows[1] + rows[2] + [] == ps + rows[1] + rows[2];
      }
    }

    /**
      init_pmm over the regions that are available: a region counts only from
      its free start, and early frames are queued in front for the first one.
      The frames are exactly `AllPieces`, and it stops exactly if there is no
      4K frame for the descriptors of one of them.  Above 4K each list then holds
      the frames of its order as they lie in memory, and every 2M block that lies
      whole in a region behind its early part is free for a 2M request.
     */
    method InitPmm(regions: seq<Region>) returns (stopped: bool, total: nat, ghost taken: seq<Frame>)
      requires RegionsOk(regions) && (forall p: nat :: RegionCover(regions, p) <= 1) && Initial()
      modifies this
      ensures StockIs(EarlyStock(), AllPieces(regions), if stopped then None else Some(Stock(free, slots, taken)))
      ensures stopped <==> exists j: nat :: TooFew4k(AllPieces(regions), j)
      ensures !stopped ==> Valid() && total == RegionSize(regions)
      ensures !stopped ==> forall p: nat :: Cover(free, p) + Cover(busy, p) == RegionCover(regions, p)
      ensures !stopped ==> forall o :: 1 <= o < ORDERS ==> free[o] == FramesOf(AllPieces(regions), o)
      ensures !stopped ==>
        |free[0]| + DescriptorPages(|AllPieces(regions)|) == |FramesOf(AllPieces(regions), 0)|
      ensures !stopped ==> forall b: nat :: WholeIn(b, regions) ==> BlockFree(free, b) && HasFrom(free, PAGE_ORDER_2M)
    {
      stopped, total, taken := false, 0, [];
      ghost var parts, s0 := [], TheStock();
      forall p: nat ensures Cover(free, p) == Cover(busy, p) == 0 {
        EmptyCover(free, 0, p);
      }
      assert s0 == EarlyStock();
      StockStart(s0);
      PartsStart(regions);
      for i := 0 to |regions|
        invariant Queued() && total == RegionSize(regions[..i]) && |parts| == i && PartsAre(parts, regions)
        invariant forall p: nat :: Cover(free, p) + Cover(busy, p) == RegionCover(regions[..i], p)
        invariant StockIs(s0, Concat(parts), Some(Stock(free, slots, taken)))
      {
        var size;
        ghost var done, pieces := regions[..i], [];
        assert regions[i] in regions && regions[..i + 1][..i] == done;
        stopped, size, pieces, taken := ProcessMemoryRange(regions[i].start, regions[i].end, i == 0,
          (p: nat) => RegionCover(done, p), s0, Concat(parts), taken);
        PartsNext(parts, regions, pieces);
        parts := parts + [pieces];
        if stopped {
          PartsOn(parts, regions, s0);
          InitStops(regions, None);
          return;
        }
        total := total + size;
      }
      assert regions[..|regions|] == regions;
      PartsEnd(parts, regions);
      InitDone(regions, TheStock().(taken := taken));
    }
  }

  /** What init_pmm leaves when it does not stop. */
  lemma InitDone(regions: seq<Region>, s: Stock)
    requires RegionsOk(regions) && StockIs(EarlyStock(), AllPieces(regions), Some(s))
    ensures !exists j: nat :: TooFew4k(AllPieces(regions), j)
    ensures |s.free| == ORDERS && forall o :: 1 <= o < ORDERS ==> s.free[o] == FramesOf(AllPieces(regions), o)
    ensures forall b: nat :: WholeIn(b, regions) ==> BlockFree(s.free, b) && HasFrom(s.free, PAGE_ORDER_2M)
    ensures |s.free[0]| + DescriptorPages(|AllPieces(regions)|) == |FramesOf(AllPieces(regions), 0)|
  {
    InitStops(regions, Some(s));
    ListsAfterInit(regions, s);
    PagesAfterInit(regions, s);
    BlocksAfterInit(regions, s);
    forall b: nat | BlockFree(s.free, b) ensures HasFrom(s.free, PAGE_ORDER_2M) {
      BlockServes(s.free, b);
    }
  }

  /** While a 2M block lies whole in a free frame, there is a frame for a 2M request. */
  lemma BlockServes(ls: Lists, b: nat)
    requires BlockFree(ls, b)
    ensures HasFrom(ls, PAGE_ORDER_2M)
  {
    var o: nat, f :| o < |ls| && f in ls[o] && HoldsBlock(f.mfn, o, b);
  }

  /** One half of a frame of order `o`. */
  function HalfOf(f: Frame, o: nat, high: bool): Frame
    requires o >= 1
  {
    Frame(if high then f.mfn + Pow2(o - 1) else f.mfn, o - 1, 0)
  }

  /** Merging this half of the frame finds the other one. */
  predicate HalvesMeet(f: Frame, o: nat, high: bool)
    requires o >= 1
  {
    if high then f.mfn % Pow2(o) != Pow2(o - 1) else f.mfn % Pow2(o) == 0
  }

  /** The `n` frames set aside for descriptors leave both halves alone. */
  predicate HalvesStay(before: Lists, o: nat, n: nat) {
    o >= 2 || (|before| > 0 && n <= |before[PAGE_ORDER_4K]|)
  }

  ghost predicate NobodyAt(l: seq<Frame>, mfn: nat) {
    forall g :: g in l ==> g.mfn != mfn
  }

  ghost predicate OnlyThese(l: seq<Frame>, others: seq<Frame>, lo: Frame, hi: Frame) {
    forall g :: g in l ==> g in others || g == lo || g == hi
  }

  lemma SplitContents(before: Lists, after: Lists, o: nat, n: nat)
    requires SplitLists(before, after, o, n)
    ensures var lo, hi := Frame(before[o][0].mfn, o - 1, 0), Frame(before[o][0].mfn + Pow2(o - 1), o - 1, 0);
            && hi in after[o - 1] && (HalvesStay(before, o, n) ==> lo in after[o - 1])
            && OnlyThese(after[o - 1], before[o - 1], lo, hi) && after[o] == before[o][1..]
  {
    var lo, hi := Frame(before[o][0].mfn, o - 1, 0), Frame(before[o][0].mfn + Pow2(o - 1), o - 1, 0);
    var l := before[o - 1] + [lo];
    if o == 1 {
      assert after[0] == l[n..] + [hi];
      assert after[0][|l| - n] == hi;
      if HalvesStay(before, o, n) {
        assert after[0][|l| - n - 1] == lo;
      }
    } else {
      assert after[o - 1] == l + [hi];
      assert after[o - 1][|l|] == hi && after[o - 1][|l| - 1] == lo;
    }
  }

  /** Where the halves meet, each is the other's sibling and their union is the frame. */
  lemma HalvesPair(f: Frame, o: nat, high: bool)
    requires 1 <= o < ORDERS && FrameOk(f, o, 0) && HalvesMeet(f, o, high)
    ensures HalfOf(f, o, !high).mfn == SiblingMfn(HalfOf(f, o, high).mfn, o - 1)
    ensures Joined(HalfOf(f, o, high), HalfOf(f, o, !high)) == f
  {
    HalvesFind(f.mfn, o, high);
    HalvesJoined(f, o, high);
  }

  lemma HalvesFind(mfn: nat, o: nat, high: bool)
    requires 1 <= o < ORDERS && mfn + Pow2(o) <= MFN_LIMIT
    requires mfn % Pow2(o) == 0 || (high && mfn % Pow2(o) != Pow2(o - 1))
    ensures SiblingMfn(if high then mfn + Pow2(o - 1) else mfn, o - 1) == if high then mfn else mfn + Pow2(o - 1)
  {
    SplitHalvesPair(mfn, o);
  }

  lemma HalvesJoined(f: Frame, o: nat, high: bool)
    requires 1 <= o < ORDERS && FrameOk(f, o, 0)
    ensures Joined(HalfOf(f, o, high), HalfOf(f, o, !high)) == f
  {
  }

  /** Where they do not, a half looks elsewhere. */
  lemma HalvesMiss(f: Frame, o: nat, high: bool)
    requires 1 <= o < ORDERS && FrameOk(f, o, 0) && !HalvesMeet(f, o, high)
    ensures SiblingMfn(HalfOf(f, o, high).mfn, o - 1) != HalfOf(f, o, !high).mfn
    ensures SiblingMfn(HalfOf(f, o, high).mfn, o - 1) != HalfOf(f, o, high).mfn
  {
    NoOwnSibling(HalfOf(f, o, high));
    if high {
      HighMisses(f.mfn, o, Pow2(o - 1));
    } else {
      LowMisses(f.mfn, o, Pow2(o - 1));
    }
  }

  lemma LowMisses(mfn: nat, o: nat, half: nat)
    requires 1 <= o < ORDERS && mfn + Pow2(o) <= MFN_LIMIT && half == Pow2(o - 1) && mfn % Pow2(o) != 0
    ensures SiblingMfn(mfn, o - 1) != mfn + half
  {
    SplitHalvesPair(mfn, o);
  }

  lemma HighMisses(mfn: nat, o: nat, half: nat)
    requires 1 <= o < ORDERS && mfn + Pow2(o) <= MFN_LIMIT && half == Pow2(o - 1) && mfn % Pow2(o) == half
    ensures SiblingMfn(mfn + half, o - 1) != mfn
  {
    SplitHalvesPair(mfn, o);
  }

  /** 4M at page 512 are a frame none of whose halves finds the other. */
  lemma NoHalfMeets()
    ensures FrameOk(Frame(512, 10, 0), 10, 0)
    ensures !HalvesMeet(Frame(512, 10, 0), 10, false) && !HalvesMeet(Frame(512, 10, 0), 10, true)
  {
    Pow2Orders();
    assert Pow2(10) == 2 * Pow2(9);
  }

  /** What the merge rule will find for a half. */
  lemma HalvesAfter(before: Lists, after: Lists, o: nat, n: nat, high: bool)
    requires SplitLists(before, after, o, n) && ListsOk(before, 0)
    ensures var f := before[o][0];
            var half, other := HalfOf(f, o, high), HalfOf(f, o, !high);
            && (HalvesMeet(f, o, high) && HalvesStay(before, o, n) ==>
              other in after[o - 1] && other.mfn == SiblingMfn(half.mfn, o - 1) && Joined(half, other) == f)
            && (NoFreeSibling(before, f) ==> NoFreeSibling(after, f))
            && (!HalvesMeet(f, o, high) && NobodyAt(before[o - 1], SiblingMfn(half.mfn, o - 1)) ==>
              NoFreeSibling(after, half))
  {
    var f := before[o][0];
    assert FrameOk(f, o, 0);
    SplitContents(before, after, o, n);
    if HalvesMeet(f, o, high) {
      HalvesPair(f, o, high);
    } else {
      HalvesMiss(f, o, high);
    }
  }

  lemma SplitOk(f: Frame, o: nat)
    requires 1 <= o < ORDERS && FrameOk(f, o, 0)
    ensures NextMfn(f.mfn, o - 1) == f.mfn + Pow2(o - 1)
    ensures FrameOk(Frame(f.mfn, o - 1, 0), o - 1, 0)
    ensures FrameOk(Frame(f.mfn + Pow2(o - 1), o - 1, 0), o - 1, 0)
  {
    SplitAligned(f.mfn, o);
  }

  /** The frame is free, and merging it stops the kernel. */
  ghost predicate JamsIn(ls: Lists, f: Frame) {
    |ls| == ORDERS && f.order < ORDERS && f in ls[f.order] && Jams(StartsOf(ls), f.mfn, f.order)
  }

  /** What the merge makes of a half. */
  lemma HalfClimbs(before: Lists, after: Lists, o: nat, n: nat, high: bool)
    requires SplitLists(before, after, o, n) && ListsOk(before, 0) && ListsOk(after, 0) && HalvesStay(before, o, n)
    ensures var f := before[o][0];
            var half := HalfOf(f, o, high);
            var merged := Climb(StartsOf(after), half.mfn, o - 1);
            && (HalvesMeet(f, o, high) && NoFreeSibling(before, f) ==> merged == f)
            && (!HalvesMeet(f, o, high) && NobodyAt(before[o - 1], SiblingMfn(half.mfn, o - 1)) ==> merged == half)
  {
    var f := before[o][0];
    var half, other := HalfOf(f, o, high), HalfOf(f, o, !high);
    HalvesAfter(before, after, o, n, high);
    SplitContents(before, after, o, n);
    if HalvesMeet(f, o, high) && NoFreeSibling(before, f) {
      assert FrameOk(half, o - 1, 0);
      ClimbOne(after, half, other);
    }
    if !HalvesMeet(f, o, high) && NobodyAt(before[o - 1], SiblingMfn(half.mfn, o - 1)) {
      ClimbNone(after, half);
    }
  }

  /** There are fewer 4K frames than the descriptors for breaking up a frame need. */
  predicate TooFew(s: Stock, order: nat) {
    && |s.free| == ORDERS && order < ORDERS && LeastFrom(s.free, order) < ORDERS
    && |s.free[PAGE_ORDER_4K]| < Needs(s.slots, LeastFrom(s.free, order) - order)
  }

  /** A request stops the kernel: for 4K without a way to have two of them, otherwise for want of descriptors. */
  ghost predicate Stops(s: Stock, order: nat) {
    |s.free| == ORDERS && if order == PAGE_ORDER_4K then Refill(s).None? else TooFew(s, order)
  }

  /** What a request is answered with, and the stock it leaves. */
  ghost predicate Answers(s: Stock, order: nat, s': Stock, f: Frame) {
    |s.free| == ORDERS && order < ORDERS &&
    if order == PAGE_ORDER_4K then
      && Refill(s).Some? && Refill(s).value.free[PAGE_ORDER_4K] != []
      && var r := Refill(s).value;
      && f == Frame(r.free[PAGE_ORDER_4K][0].mfn, PAGE_ORDER_4K, 1) && s'.slots == r.slots && s'.taken == r.taken
      && s'.free == r.free[PAGE_ORDER_4K := r.free[PAGE_ORDER_4K][1..]]
    else
      && LeastFrom(s.free, order) < ORDERS && !TooFew(s, order)
      && var o := LeastFrom(s.free, order);
      && var n := Needs(s.slots, o - order);
      && f == Frame(s.free[o][0].mfn, order, 1) && s'.slots == LeftAfter(s.slots, o - order)
      && s'.taken == Reserved(s.free[PAGE_ORDER_4K][..n]) && s'.free == BrokenUp(s.free, o, order, n)
  }

  /** With two of them, a 4K request is answered with the first, and nothing else changes. */
  lemma FirstOfTwo(s: Stock, s': Stock, f: Frame)
    requires |s.free| == ORDERS && |s.free[PAGE_ORDER_4K]| >= MIN_NUM_4K_FRAMES
    ensures !Stops(s, PAGE_ORDER_4K)
    ensures Answers(s, PAGE_ORDER_4K, s', f) ==>
      && f == Frame(s.free[PAGE_ORDER_4K][0].mfn, PAGE_ORDER_4K, 1) && s'.slots == s.slots && s'.taken == s.taken
      && s'.free == s.free[PAGE_ORDER_4K := s.free[PAGE_ORDER_4K][1..]]
  {
  }

  lemma NoneIffEmpty(ls: Lists, order: nat)
    requires order <= |ls|
    ensures HasFrom(ls, order) <==> LeastFrom(ls, order) < |ls|
  {
  }

  lemma AnswersAre(s: Stock, s0: Stock, s': Stock, order: nat, o: nat, more: seq<Frame>, f: Frame)
    requires |s.free| == |s0.free| == ORDERS && order <= o < ORDERS && o == LeastFrom(s0.free, order)
    requires if order == PAGE_ORDER_4K then Refill(s) == Some(s0) else s0 == s.(taken := [])
    requires Needs(s0.slots, o - order) <= |s0.free[PAGE_ORDER_4K]| && s0.free[o] != []
    requires f == Frame(s0.free[o][0].mfn, order, 1) && s'.slots == LeftAfter(s0.slots, o - order)
    requires s'.free == BrokenUp(s0.free, o, order, Needs(s0.slots, o - order)) && s'.taken == s0.taken + more
    requires more == Reserved(s0.free[PAGE_ORDER_4K][..Needs(s0.slots, o - order)])
    ensures Answers(s, order, s', f)
  {
    if order == PAGE_ORDER_4K {
      assert o == 0 && more == [];
      assert s'.free == s0.free[0 := s0.free[0][1..]];
    }
  }

  /** The frame at place `i` of its list is the first that is accepted, and leaves it. */
  ghost predicate AcceptedAt(cond: Frame -> bool, before: Lists, after: Lists, f: Frame, i: nat) {
    && |before| == ORDERS && f.order < ORDERS && i < |before[f.order]| && f == before[f.order][i].(refcount := 1)
    && cond(before[f.order][i]) && after == before[f.order := RemoveAt(before[f.order], i)]
    && (forall k :: 0 <= k < i ==> !cond(before[f.order][k]))
    && forall o, g :: 0 <= o < f.order && g in before[o] ==> !cond(g)
  }

  ghost predicate FirstAccepted(cond: Frame -> bool, before: Lists, after: Lists, frame: Option<Frame>) {
    if frame.None? then after == before && forall o, g :: 0 <= o < |before| && g in before[o] ==> !cond(g)
    else exists i :: AcceptedAt(cond, before, after, frame.value, i)
  }

  lemma AddedTaken(s: Stock, t: seq<Frame>, f: Frame, early: bool)
    requires s.taken == [] && CanAdd(s) && f.order < ORDERS
    ensures Added(s.(taken := t), f, early) == Added(s, f, early).(taken := t + Added(s, f, early).taken)
  {
  }

  /** The frames set aside are collected. */
  lemma SplitTaken(s: Stock, t: seq<Frame>, o: nat)
    requires s.taken == []
    ensures CanSplit(s, o) <==> CanSplit(s.(taken := t), o)
    ensures CanSplit(s, o) ==> Split(s.(taken := t), o) == Split(s, o).(taken := t + Split(s, o).taken)
  {
  }

  lemma ReservedMore(l: seq<Frame>, n: nat, m: nat)
    requires n + m <= |l|
    ensures Reserved(l[..n]) + Reserved(l[n..][..m]) == Reserved(l[..n + m])
  {
  }

  lemma BrokenNothing(ls: Lists, o: nat)
    requires |ls| == ORDERS && o < ORDERS && ls[o] != []
    ensures Broken(ls, o, o, 0) == ls
  {
    assert ls[0][0..] == ls[0];
  }

  /** The frames a request moved to the busy lists: descriptor pages and the answer. */
  ghost function Handed(kept: seq<Frame>, frame: Option<Frame>): seq<Frame> {
    if frame.Some? then kept + [frame.value] else kept
  }

  /** The two halves the merge rule pairs up are adjacent, and their union is a well-formed frame. */
  lemma SiblingsJoin(first: Frame, sibling: Frame)
    requires first.order < MAX_PAGE_ORDER
    requires FrameOk(first, first.order, 0) && FrameOk(sibling, first.order, 0)
    requires sibling.mfn == SiblingMfn(first.mfn, first.order)
    ensures var (lo, hi) :=
              if FirstFrameSibling(first.mfn, first.order + 1) then (first, sibling) else (sibling, first);
            && hi.mfn == lo.mfn + Pow2(lo.order)
            && FrameOk(lo.(order := lo.order + 1), lo.order + 1, 0)
  {
    var o := first.order;
    Pow2Monotonic(o, MAX_PAGE_ORDER);
    Pow2Orders();
    MergeAligned(first.mfn, o);
    WrapAway(first.mfn, Pow2(o), sibling.mfn);
  }

  /** The half that merge_frames goes on with. */
  function LowerOf(first: Frame, sibling: Frame): Frame {
    if FirstFrameSibling(first.mfn, first.order + 1) then first else sibling
  }

  /** What the merge rule makes of a frame and its sibling. */
  function Joined(first: Frame, sibling: Frame): Frame {
    Frame(if first.mfn < sibling.mfn then first.mfn else sibling.mfn, first.order + 1, 0)
  }

  /** A frame without a free sibling stays as it is. */
  lemma ClimbNone(ls: Lists, f: Frame)
    requires |ls| == ORDERS && f.order < ORDERS && f.refcount == 0 && NoFreeSibling(ls, f)
    ensures Climb(StartsOf(ls), f.mfn, f.order) == f
  {
  }

  /** If a frame has a free sibling and their union has none, the merge ends with the union. */
  lemma ClimbOne(ls: Lists, first: Frame, g: Frame)
    requires |ls| == ORDERS && first.order < MAX_PAGE_ORDER && ListsOk(ls, 0) && FrameOk(first, first.order, 0)
    requires g in ls[first.order] && g.mfn == SiblingMfn(first.mfn, first.order) && NoFreeSibling(ls, Joined(first, g))
    ensures Climb(StartsOf(ls), first.mfn, first.order) == Joined(first, g)
  {
    assert FrameOk(g, first.order, 0);
    SiblingsJoin(first, g);
    assert g.mfn in MfnsOf(ls[first.order]);
    ClimbNone(ls, Joined(first, g));
  }

  /** Joining a pair is one step of the climb. */
  lemma PairJoined(st: Starts, st1: Starts, first: Frame, sibling: Frame, joined: Frame)
    requires |st| == ORDERS && first.order < MAX_PAGE_ORDER
    requires FrameOk(first, first.order, 0) && FrameOk(sibling, first.order, 0)
    requires sibling.mfn == SiblingMfn(first.mfn, first.order) && sibling.mfn in st[first.order]
    requires joined == LowerOf(first, sibling).(order := first.order + 1) && FrameOk(joined, joined.order, 0)
    requires joined.mfn !in st[joined.order]
    requires st1 == Plus(Minus(Minus(st, first.order, first.mfn), first.order, sibling.mfn), joined.order, joined.mfn)
    ensures Climb(st, first.mfn, first.order) == Climb(st1, joined.mfn, joined.order)
    ensures Jams(st, first.mfn, first.order) <==> Jams(st1, joined.mfn, joined.order)
    ensures PutIn(Minus(st, first.order, first.mfn), first.mfn, first.order)
         == PutIn(Minus(st1, joined.order, joined.mfn), joined.mfn, joined.order)
  {
    NoOwnSibling(first);
    NoOwnSibling(joined);
    JoinStep(st, st1, first.mfn, first.order);
  }

  /** The numbers left when the frame at `i` is relinked one order up and that at `k` of the rest is destroyed. */
  lemma PairStarts(before: Lists, after: Lists, o: nat, i: nat, k: nat, joined: Frame)
    requires |before| == ORDERS && o < MAX_PAGE_ORDER && forall p: nat :: Cover(before, p) <= 1
    requires i < |before[o]| && k < |RemoveAt(before[o], i)| && joined.order == o + 1
    requires var relinked := WithFrame(before[o := RemoveAt(before[o], i)], joined, false);
             after == relinked[o := RemoveAt(relinked[o], k)]
    ensures StartsOf(after) == Plus(Minus(Minus(StartsOf(before), o, before[o][i].mfn), o,
                                          RemoveAt(before[o], i)[k].mfn), o + 1, joined.mfn)
  {
    var rest := before[o := RemoveAt(before[o], i)];
    DisjointUnique(before, o);
    StartsRemove(before, o, i);
    var less := rest[o := RemoveAt(rest[o], k)];
    StartsRemove(rest, o, k);
    StartsAdd(less, o + 1, joined);
    assert after == less[o + 1 := less[o + 1] + [joined]];
  }

  /** No frame of the next order starts where a frame does. */
  lemma NotAbove(ls: Lists, o: nat, i: nat)
    requires |ls| == ORDERS && o < MAX_PAGE_ORDER && i < |ls[o]| && forall p: nat :: Cover(ls, p) <= 1
    ensures ls[o][i].mfn !in StartsOf(ls)[o + 1]
  {
    if ls[o][i].mfn in MfnsOf(ls[o + 1]) {
      var j :| 0 <= j < |ls[o + 1]| && ls[o + 1][j].mfn == ls[o][i].mfn;
      CoverTwice(ls, o, i, o + 1, j, ls[o][i].mfn);
    }
  }

  /** No free frame starts where a busy one does. */
  lemma BusyElsewhere(free: Lists, busy: Lists, o: nat, i: nat)
    requires |free| == |busy| == ORDERS && o < ORDERS && i < |busy[o]|
    requires forall p: nat :: Cover(free, p) + Cover(busy, p) <= 1
    ensures busy[o][i].mfn !in StartsOf(free)[o]
  {
    if busy[o][i].mfn in MfnsOf(free[o]) {
      var j :| 0 <= j < |free[o]| && free[o][j].mfn == busy[o][i].mfn;
      CoverAt(free, o, j, busy[o][i].mfn);
      CoverAt(busy, o, i, busy[o][i].mfn);
    }
  }

  lemma NoOwnSibling(f: Frame)
    requires f.order < ORDERS && f.mfn < MFN_LIMIT
    ensures SiblingMfn(f.mfn, f.order) != f.mfn
  {
    Pow2Monotonic(f.order, MAX_PAGE_ORDER);
    Pow2Orders();
    NotOwnSibling(f.mfn, Pow2(f.order));
  }

  lemma NotOwnSibling(mfn: nat, step: nat)
    requires mfn < MFN_LIMIT && 1 <= step <= 262144
    ensures (mfn + step) % WORD != mfn && (mfn - step) % WORD != mfn
  {
  }

  /** A neighbour that lies in physical memory was not reached by wrapping around. */
  lemma WrapAway(mfn: nat, step: nat, neighbour: nat)
    requires mfn < MFN_LIMIT && neighbour < MFN_LIMIT && step <= 262144
    ensures neighbour == (mfn - step) % WORD ==> neighbour == mfn - step
    ensures neighbour == (mfn + step) % WORD ==> neighbour == mfn + step
  {
  }

  /** Within one list of disjoint frames the frame number identifies the frame. */
  lemma SameMfnSameFrame(ls: Lists, o: nat, i: nat, f: Frame)
    requires o < |ls| && i < |ls[o]| && f in ls[o] && f.mfn == ls[o][i].mfn
    requires forall g :: g in ls[o] ==> g.order == o
    requires forall p: nat :: Cover(ls, p) <= 1
    ensures ls[o][i] == f
  {
    var j :| 0 <= j < |ls[o]| && ls[o][j] == f;
    if i != j {
      CoverTwice(ls, o, i, o, j, f.mfn);
    }
  }

  /** A list of disjoint frames holds each frame once, so taking one out leaves none behind. */
  lemma RemovedIsGone(ls: Lists, o: nat, i: nat)
    requires o < |ls| && i < |ls[o]|
    requires forall k, g :: 0 <= k < |ls| && g in ls[k] ==> g.order == k
    requires forall p: nat :: Cover(ls, p) <= 1
    ensures forall k, f :: 0 <= k < |ls| ==> (f in ls[o := RemoveAt(ls[o], i)][k] <==> f in ls[k] && f != ls[o][i])
  {
    var rest := RemoveAt(ls[o], i);
    assert ls[o] == ls[o][..i] + [ls[o][i]] + ls[o][i + 1..];
    if ls[o][i] in rest {
      var j :| 0 <= j < |rest| && rest[j] == ls[o][i];
      CoverTwice(ls, o, i, o, if j < i then j else j + 1, ls[o][i].mfn);
    }
  }

  /** The test of the first loop. */
  predicate BeforeCut(cur: nat, end: nat) {
    (cur < EARLY_MEM || cur % 0x20_0000 != 0) && cur + 4096 <= end
  }

  lemma CutGoesOn(cut: nat, page: nat, cur: nat, end: nat)
    requires CutIs(cut, page, end / 4096) && cur == Bytes(page) && BeforeCut(cur, end)
    ensures CutIs(cut, page + 1, end / 4096) && PaddrToMfn(cur) == page
  {
    CutNext(cut, page, end / 4096);
  }

  lemma CutEnds(cut: nat, page: nat, cur: nat, end: nat)
    requires CutIs(cut, page, end / 4096) && cur == Bytes(page) <= end && !BeforeCut(cur, end)
    ensures cut == page && (Aligned(cut, PAGE_ORDER_2M) || PaddrToMfn(end) <= cut)
  {
    CutNext(cut, page, end / 4096);
    Pow2Orders();
    HalvesIffMultiple(page, PAGE_ORDER_2M);
  }

  /** A descriptor costs a page at most once: a new array is far above the threshold. */
  lemma SlotCounts(slots: nat)
    ensures TotalFree(126) > MIN_FREE && (slots > 0 ==> TotalFree(slots - 1) == (TotalFree(slots) - 1) % WORD)
  {
  }

  /**
    While frames of one order are carved off below page `limit`, the next one
    to fit is aligned, and so is the next 2M frame.
   */
  ghost predicate CarvingAs(state: State, page: nat, limit: nat, order: nat) {
    match state case InLoop =>
      && (page + Pow2(order) <= limit ==> Aligned(page, order))
      && (order < MAX_PAGE_ORDER ==> limit < page + 2 * Pow2(order))
      && (page + 512 <= limit ==> Aligned(page, PAGE_ORDER_2M))
  }

  ghost predicate Carving(page: nat, limit: nat, order: nat) {
    forall state :: CarvingAs(state, page, limit, order)
  }

  lemma CarvingStart(page: nat, limit: nat, order: nat)
    requires page <= limit && FitsBest(order, limit - page) && (Aligned(page, PAGE_ORDER_2M) || limit <= page)
    ensures Carving(page, limit, order)
  {
    if Aligned(page, PAGE_ORDER_2M) {
      HalvesFewer(page, PAGE_ORDER_2M, AlignOrder(order));
    }
  }

  lemma CarveStep(page: nat, limit: nat, order: nat, next: nat)
    requires order <= MAX_PAGE_ORDER && Carving(page, limit, order) && page + Pow2(order) == next <= limit
    ensures Aligned(page, order) && Carving(next, limit, order)
  {
    assert CarvingAs(InLoop, page, limit, order);
    AlignedStep(page, order, next);
    if order < PAGE_ORDER_2M {
      Pow2Orders();
      Pow2Monotonic(order + 1, PAGE_ORDER_2M);
    }
  }

  lemma CarveEnd(page: nat, limit: nat, order: nat)
    requires Carving(page, limit, order)
    ensures Aligned(page, PAGE_ORDER_2M) || limit < page + 512
  {
    assert CarvingAs(InLoop, page, limit, order);
  }

  lemma AlignedStep(page: nat, order: nat, next: nat)
    requires Aligned(page, order) && next == page + Pow2(order)
    ensures Aligned(next, order)
  {
    HalvesPow2(order, AlignOrder(order));
    HalvesSum(page, Pow2(order), AlignOrder(order));
  }

  lemma {:induction false} EmptyCover(ls: Lists, from: nat, page: nat)
    requires forall o :: 0 <= o < |ls| ==> ls[o] == []
    ensures CoverFrom(ls, from, page) == 0
    decreases |ls| - from
  {
    if from < |ls| {
      EmptyCover(ls, from + 1, page);
    }
  }
}
