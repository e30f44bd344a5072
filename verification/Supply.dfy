/**
  What the requests of mm/pmm.c make of the free lists and of the frame
  descriptors, as functions of both: which frame is split, which pages are set
  aside for descriptors, and when there is none left for them.

  frames_array_t holds 127 descriptors.  total_free_frames starts at 0 and does
  not count those of early_frames, so that it is always 127 below the number of
  free descriptors, modulo 2^64.
 */
module Supply {
  import opened Wrappers
  import opened Frames

  /** What holds while a loop runs, to be looked at only where it is needed. */
  datatype State = InLoop

  const MIN_NUM_4K_FRAMES: nat := 2

  /** MIN_FREE_FRAMES_THRESHOLD */
  const MIN_FREE: nat := 2

  /** The value of total_free_frames. */
  function TotalFree(slots: nat): nat {
    (slots - 127) % 0x1_0000_0000_0000_0000
  }

  /** How many pages a descriptor costs, with `slots` of them free: get_frames_array and take_frame. */
  function Need(slots: nat): nat {
    if slots == 0 || TotalFree(slots - 1) <= MIN_FREE then 1 else 0
  }

  /** How many are free afterwards. */
  function Left(slots: nat): nat {
    if slots == 0 then 126 else if TotalFree(slots - 1) <= MIN_FREE then slots + 126 else slots - 1
  }

  /** Where the threshold works: with 128 to 130 descriptors left, not with 1 to 3. */
  lemma NeedIff(slots: nat)
    requires slots < 0x1_0000_0000_0000_0000
    ensures Need(slots) == 1 <==> slots == 0 || 128 <= slots <= 130
  {
  }

  /** The free lists, the free descriptors, and the frames set aside for descriptors so far. */
  datatype Stock = Stock(free: Lists, slots: nat, taken: seq<Frame>)

  /** Frames with one reference each. */
  function Reserved(l: seq<Frame>): (r: seq<Frame>)
    ensures |r| == |l|
  {
    seq(|l|, i requires 0 <= i < |l| => l[i].(refcount := 1))
  }

  function WithoutFirst(ls: Lists, n: nat): Lists
    requires |ls| == ORDERS && n <= |ls[PAGE_ORDER_4K]|
  {
    ls[PAGE_ORDER_4K := ls[PAGE_ORDER_4K][n..]]
  }

  function WithFrame(ls: Lists, f: Frame, front: bool): Lists
    requires f.order < |ls|
  {
    ls[f.order := if front then [f] + ls[f.order] else ls[f.order] + [f]]
  }

  /** There is a 4K frame if one more descriptor needs it. */
  predicate CanAdd(s: Stock) {
    |s.free| == ORDERS && Need(s.slots) <= |s.free[PAGE_ORDER_4K]|
  }

  /** add_frame, or add_early_frame. */
  function Added(s: Stock, f: Frame, early: bool): (s': Stock)
    requires CanAdd(s) && f.order < ORDERS
    ensures |s'.free| == ORDERS
  {
    var n := Need(s.slots);
    Stock(WithFrame(WithoutFirst(s.free, n), f, early), Left(s.slots),
          s.taken + Reserved(s.free[PAGE_ORDER_4K][..n]))
  }

  // ---- splitting -------------------------------------------------------

  /** The first frame of list `o` relinked to the order below. */
  function Relinked(ls: Lists, o: nat): Lists
    requires 1 <= o < |ls| && ls[o] != []
  {
    ls[o := ls[o][1..]][o - 1 := ls[o - 1] + [Frame(ls[o][0].mfn, o - 1, 0)]]
  }

  predicate CanSplit(s: Stock, o: nat) {
    |s.free| == ORDERS && 1 <= o < ORDERS && s.free[o] != [] && CanAdd(s.(free := Relinked(s.free, o)))
  }

  /** split_frame on the first frame of list `o`. */
  function Split(s: Stock, o: nat): (s': Stock)
    requires CanSplit(s, o)
    ensures |s'.free| == ORDERS
  {
    Added(s.(free := Relinked(s.free, o)), Frame(s.free[o][0].mfn + Pow2(o - 1), o - 1, 0), false)
  }

  /** The lists after splitting the first frame of list `o`, with `n` 4K frames set aside in between. */
  ghost predicate SplitLists(before: Lists, after: Lists, o: nat, n: nat) {
    && |before| == |after| == ORDERS && 1 <= o < ORDERS && before[o] != []
    && var f := before[o][0];
    && var lo, hi := Frame(f.mfn, o - 1, 0), Frame(f.mfn + Pow2(o - 1), o - 1, 0);
    && var relinked := before[o := before[o][1..]][o - 1 := before[o - 1] + [lo]];
    && n <= |relinked[PAGE_ORDER_4K]|
    && after == WithFrame(WithoutFirst(relinked, n), hi, false)
  }

  /** Each split brings the free lists one step closer to single pages. */
  lemma SplitSlack(before: Lists, after: Lists, o: nat, n: nat)
    requires SplitLists(before, after, o, n)
    ensures Slack(after) == Slack(before) - 1
  {
    var f := before[o][0];
    var lo, hi := Frame(f.mfn, o - 1, 0), Frame(f.mfn + Pow2(o - 1), o - 1, 0);
    var tail := before[o := before[o][1..]];
    var relinked := tail[o - 1 := before[o - 1] + [lo]];
    var kept := WithoutFirst(relinked, n);
    SlackPop(before, o, before[o][1..]);
    SlackPush(tail, o - 1, before[o - 1] + [lo]);
    SlackPages(relinked, relinked[0][n..]);
    SlackPush(kept, o - 1, kept[o - 1] + [hi]);
  }

  lemma SplitIsSplit(s: Stock, o: nat)
    requires CanSplit(s, o)
    ensures SplitLists(s.free, Split(s, o).free, o, Need(s.slots)) && Slack(Split(s, o).free) == Slack(s.free) - 1
  {
    SplitSlack(s.free, Split(s, o).free, o, Need(s.slots));
  }

  /** The least order from `o` on that has a frame, or ORDERS (find_larger_frame). */
  function LeastFrom(ls: Lists, o: nat): (r: nat)
    requires o <= |ls|
    ensures o <= r <= |ls| && (r < |ls| ==> ls[r] != []) && forall k :: o <= k < r ==> ls[k] == []
    decreases |ls| - o
  {
    if o == |ls| || ls[o] != [] then o else LeastFrom(ls, o + 1)
  }

  // ---- 4K frames: try_create_4k_frames ---------------------------------

  /** The stock once there are enough 4K frames, or None where the kernel stops. */
  function Refill(s: Stock): (r: Option<Stock>)
    requires |s.free| == ORDERS
    ensures r.Some? ==> |r.value.free| == ORDERS && |r.value.free[PAGE_ORDER_4K]| >= MIN_NUM_4K_FRAMES
    decreases Slack(s.free)
  {
    if |s.free[PAGE_ORDER_4K]| >= MIN_NUM_4K_FRAMES then Some(s)
    else
      var o := LeastFrom(s.free, 1);
      if o == ORDERS || !CanSplit(s, o) then None
      else
        SplitIsSplit(s, o);
        Refill(Split(s, o))
  }

  /** One split towards it. */
  lemma RefillStep(s: Stock, o: nat, goal: Option<Stock>)
    requires |s.free| == ORDERS && |s.free[PAGE_ORDER_4K]| < MIN_NUM_4K_FRAMES && o == LeastFrom(s.free, 1)
    requires goal == Refill(s)
    ensures o == ORDERS || !CanSplit(s, o) ==> goal == None
    ensures o < ORDERS && CanSplit(s, o) ==> goal == Refill(Split(s, o))
  {
  }

  // ---- larger frames: the loop of get_free_frames ----------------------

  /** How many pages the next `n` descriptors cost, and how many descriptors are free then. */
  function Needs(slots: nat, n: nat): nat {
    if n == 0 then 0 else Needs(slots, n - 1) + Need(LeftAfter(slots, n - 1))
  }

  function LeftAfter(slots: nat, n: nat): nat {
    if n == 0 then slots else Left(LeftAfter(slots, n - 1))
  }

  lemma {:induction false} NeedsGrow(slots: nat, n: nat, m: nat, need: nat, need': nat)
    requires n <= m && need == Needs(slots, n) && need' == Needs(slots, m)
    ensures need <= need'
    decreases m - n
  {
    if n < m {
      NeedsGrow(slots, n + 1, m, Needs(slots, n + 1), need');
    }
  }

  lemma NeedsNext(slots: nat, n: nat, need: nat, left: nat)
    requires need == Needs(slots, n) && left == LeftAfter(slots, n)
    ensures Needs(slots, n + 1) == need + Need(left) && LeftAfter(slots, n + 1) == Left(left)
  {
  }

  /** The upper half, of order `k`, of the part that starts where `f` does. */
  function Upper(f: Frame, k: nat): Frame {
    Frame(f.mfn + Pow2(k), k, 0)
  }

  /**
    The lists when the first frame of list `o` is broken up down to order `p`,
    and `n` 4K frames were set aside for the descriptors of its parts.
   */
  function Broken(ls: Lists, o: nat, p: nat, n: nat): (r: Lists)
    requires |ls| == ORDERS && p <= o < ORDERS && ls[o] != [] && n <= |ls[PAGE_ORDER_4K]|
    ensures |r| == ORDERS
  {
    seq(ORDERS, k requires 0 <= k < ORDERS =>
      if p < o && k == o then ls[o][1..]
      else if p < k < o then [Upper(ls[o][0], k)]
      else if p < o && k == p then [Frame(ls[o][0].mfn, p, 0), Upper(ls[o][0], p)]
      else if k == PAGE_ORDER_4K then ls[PAGE_ORDER_4K][n..]
      else ls[k])
  }

  /** The same once the first part of order `p` is handed out: one frame is left of each order below `o`. */
  function BrokenUp(ls: Lists, o: nat, p: nat, n: nat): (r: Lists)
    requires |ls| == ORDERS && p <= o < ORDERS && ls[o] != [] && n <= |ls[PAGE_ORDER_4K]|
    ensures |r| == ORDERS
  {
    seq(ORDERS, k requires 0 <= k < ORDERS =>
      if k == o then ls[o][1..]
      else if p <= k < o then [Upper(ls[o][0], k)]
      else if k == PAGE_ORDER_4K then ls[PAGE_ORDER_4K][n..]
      else ls[k])
  }

  /** While it goes on, the part to split next is the first of the least order above `order` that has a frame. */
  lemma BrokenLeast(ls: Lists, o: nat, p: nat, n: nat, order: nat)
    requires |ls| == ORDERS && 1 <= order <= p <= o < ORDERS && ls[o] != [] && n <= |ls[PAGE_ORDER_4K]|
    requires forall k :: order <= k < o ==> ls[k] == []
    ensures var b := Broken(ls, o, p, n);
            (b[order] == [] <==> order < p) && (order < p ==> LeastFrom(b, order + 1) == p)
  {
    var b := Broken(ls, o, p, n);
    assert b[p] != [];
    assert forall k :: order <= k < p ==> b[k] == [];
  }

  /** Splitting what the breaking up has come to is one step of it. */
  lemma BrokenStep(ls: Lists, o: nat, p: nat, n: nat, slots: nat, t: seq<Frame>)
    requires |ls| == ORDERS && 2 <= p <= o < ORDERS && ls[o] != [] && n <= |ls[PAGE_ORDER_4K]| && ls[p - 1] == []
    requires forall f :: f in ls[o] ==> f.order == o && f.refcount == 0
    ensures var s := Stock(Broken(ls, o, p, n), slots, t);
            && s.free[p] != [] && s.free[p][0] == Frame(ls[o][0].mfn, p, 0)
            && (CanSplit(s, p) <==> n + Need(slots) <= |ls[PAGE_ORDER_4K]|)
            && (CanSplit(s, p) ==> Split(s, p).free == Broken(ls, o, p - 1, n + Need(slots)))
  {
    var b := Broken(ls, o, p, n);
    var s := Stock(b, slots, t);
    assert b[p][0] == Frame(ls[o][0].mfn, p, 0);
    assert Relinked(b, p)[PAGE_ORDER_4K] == ls[PAGE_ORDER_4K][n..];
    if CanSplit(s, p) {
      var b' := Broken(ls, o, p - 1, n + Need(slots));
      forall k | 0 <= k < ORDERS ensures Split(s, p).free[k] == b'[k] {
        if k == PAGE_ORDER_4K {
          assert ls[0][n..][Need(slots)..] == ls[0][n + Need(slots)..];
        }
      }
    }
  }

  /** Handing out the first part. */
  lemma BrokenHead(ls: Lists, o: nat, p: nat, n: nat)
    requires |ls| == ORDERS && p <= o < ORDERS && ls[o] != [] && n <= |ls[PAGE_ORDER_4K]| && (p == 0 ==> o == n == 0)
    requires forall f :: f in ls[o] ==> f.order == o && f.refcount == 0
    ensures var b := Broken(ls, o, p, n);
            && b[p] != [] && b[p][0] == Frame(ls[o][0].mfn, p, 0)
            && b[p := RemoveAt(b[p], 0)] == BrokenUp(ls, o, p, n)
  {
    var b := Broken(ls, o, p, n);
    var f := ls[o][0];
    if p == 0 {
      assert ls[0][0..] == ls[0];
    }
    assert b[p][0] == Frame(f.mfn, p, 0);
    forall k | 0 <= k < ORDERS ensures b[p := RemoveAt(b[p], 0)][k] == BrokenUp(ls, o, p, n)[k] {
    }
  }
}
