/**
  Physical page frames: the descriptor, the sibling arithmetic of the buddy
  allocator and, for reasoning, how often the frames of a family of lists
  cover a given page.  Follows include/mm/pmm.h and the constants of
  include/arch/x86/page.h.
 */
module Frames {
  import opened Arithmetic

  const PAGE_ORDER_4K: nat := 0
  const PAGE_ORDER_2M: nat := 9
  const PAGE_ORDER_1G: nat := 18
  const MAX_PAGE_ORDER: nat := PAGE_ORDER_1G

  /** Number of lists in free_frames[] and busy_frames[]. */
  const ORDERS: nat := MAX_PAGE_ORDER + 1

  /** Machine words wrap here; a frame number of a 64-bit address stays below MFN_LIMIT. */
  const WORD: nat := 0x1_0000_0000_0000_0000
  const MFN_LIMIT: nat := 0x10_0000_0000_0000

  /** PAGE_SIZE is written out: the solver treats a product with a named constant as non-linear. */
  function Bytes(pages: nat): nat {
    4096 * pages
  }

  function PaddrToMfn(paddr: nat): nat {
    paddr / 4096
  }

  function Pow2(n: nat): (r: nat)
    ensures r >= 1
  {
    if n == 0 then 1 else 2 * Pow2(n - 1)
  }

  datatype Frame = Frame(mfn: nat, order: nat, refcount: nat)

  function NextMfn(mfn: nat, order: nat): nat {
    (mfn + Pow2(order)) % WORD
  }

  function PrevMfn(mfn: nat, order: nat): nat {
    (mfn - Pow2(order)) % WORD
  }

  predicate FirstFrameSibling(mfn: nat, order: nat) {
    mfn % Pow2(order) == 0
  }

  /** The frame number at which the merge rule looks for the other half of a pair. */
  function SiblingMfn(mfn: nat, order: nat): nat {
    if FirstFrameSibling(mfn, order + 1) then NextMfn(mfn, order) else PrevMfn(mfn, order)
  }

  predicate Covers(f: Frame, page: nat) {
    f.mfn <= page < f.mfn + Pow2(f.order)
  }

  /** Frames above 2M are only as aligned as the 2M boundary they were carved at. */
  function AlignOrder(order: nat): nat {
    if order <= PAGE_ORDER_2M then order else PAGE_ORDER_2M
  }

  /** `x` can be halved `n` times without remainder. */
  predicate Halves(x: nat, n: nat) {
    n == 0 || (x % 2 == 0 && Halves(x / 2, n - 1))
  }

  predicate Aligned(mfn: nat, order: nat) {
    Halves(mfn, AlignOrder(order))
  }

  /** What every frame queued on list `order` with reference count `refcount` satisfies. */
  predicate FrameOk(f: Frame, order: nat, refcount: nat) {
    && f.order == order
    && f.refcount == refcount
    && f.mfn + Pow2(order) <= MFN_LIMIT
    && Aligned(f.mfn, order)
  }

  type Lists = seq<seq<Frame>>

  ghost predicate ListsOk(ls: Lists, refcount: nat) {
    && |ls| == ORDERS
    && forall o, f :: 0 <= o < |ls| && f in ls[o] ==> FrameOk(f, o, refcount)
  }

  // ---- counting covers -------------------------------------------------

  function Hit(f: Frame, page: nat): nat {
    if Covers(f, page) then 1 else 0
  }

  /** How many frames of one list cover `page`. */
  function Count(l: seq<Frame>, page: nat): nat {
    if l == [] then 0 else Hit(l[0], page) + Count(l[1..], page)
  }

  /** How many frames of the lists of order `from` and above cover `page`. */
  function CoverFrom(ls: Lists, from: nat, page: nat): nat
    decreases |ls| - from
  {
    if from >= |ls| then 0 else Count(ls[from], page) + CoverFrom(ls, from + 1, page)
  }

  function Cover(ls: Lists, page: nat): nat {
    CoverFrom(ls, 0, page)
  }

  lemma {:induction false} CountAppend(a: seq<Frame>, b: seq<Frame>, page: nat)
    ensures Count(a + b, page) == Count(a, page) + Count(b, page)
  {
    if a == [] {
      assert a + b == b;
    } else {
      assert (a + b)[1..] == a[1..] + b;
      CountAppend(a[1..], b, page);
    }
  }

  function RemoveAt<T>(l: seq<T>, i: nat): seq<T>
    requires i < |l|
  {
    l[..i] + l[i + 1..]
  }

  lemma CountRemove(l: seq<Frame>, i: nat, page: nat)
    requires i < |l|
    ensures Count(l, page) == Count(RemoveAt(l, i), page) + Hit(l[i], page)
  {
    assert l == l[..i] + ([l[i]] + l[i + 1..]);
    CountAppend(l[..i], [l[i]] + l[i + 1..], page);
    CountAppend([l[i]], l[i + 1..], page);
    CountAppend(l[..i], l[i + 1..], page);
  }

  lemma {:induction false} CoverFromUpdate(ls: Lists, from: nat, o: nat, l: seq<Frame>, page: nat)
    requires o < |ls|
    ensures CoverFrom(ls[o := l], from, page) + (if from <= o then Count(ls[o], page) else 0)
         == CoverFrom(ls, from, page) + (if from <= o then Count(l, page) else 0)
    decreases |ls| - from
  {
    if from < |ls| {
      CoverFromUpdate(ls, from + 1, o, l, page);
    }
  }

  /** Replacing one list changes the cover by exactly the change of that list. */
  lemma CoverUpdate(ls: Lists, o: nat, l: seq<Frame>, page: nat)
    requires o < |ls|
    ensures Cover(ls[o := l], page) + Count(ls[o], page) == Cover(ls, page) + Count(l, page)
  {
    CoverFromUpdate(ls, 0, o, l, page);
  }

  lemma CoverPush(ls: Lists, o: nat, f: Frame, page: nat)
    requires o < |ls|
    ensures Cover(ls[o := [f] + ls[o]], page) == Cover(ls, page) + Hit(f, page)
    ensures Cover(ls[o := ls[o] + [f]], page) == Cover(ls, page) + Hit(f, page)
  {
    CoverUpdate(ls, o, [f] + ls[o], page);
    CoverUpdate(ls, o, ls[o] + [f], page);
    CountAppend([f], ls[o], page);
    CountAppend(ls[o], [f], page);
  }

  lemma CoverRemove(ls: Lists, o: nat, i: nat, page: nat)
    requires o < |ls| && i < |ls[o]|
    ensures Cover(ls, page) == Cover(ls[o := RemoveAt(ls[o], i)], page) + Hit(ls[o][i], page)
  {
    CoverUpdate(ls, o, RemoveAt(ls[o], i), page);
    CountRemove(ls[o], i, page);
  }

  lemma {:induction false} CountAt(l: seq<Frame>, i: nat, page: nat)
    requires i < |l| && Covers(l[i], page)
    ensures Count(l, page) >= 1
  {
    CountRemove(l, i, page);
  }

  lemma {:induction false} CoverAt(ls: Lists, o: nat, i: nat, page: nat)
    requires o < |ls| && i < |ls[o]| && Covers(ls[o][i], page)
    ensures Cover(ls, page) >= 1
  {
    CoverRemove(ls, o, i, page);
  }

  /** Two different queued frames that share a page are counted twice for it. */
  lemma CoverTwice(ls: Lists, o: nat, i: nat, o': nat, i': nat, page: nat)
    requires o < |ls| && i < |ls[o]| && o' < |ls| && i' < |ls[o']|
    requires o != o' || i != i'
    requires Covers(ls[o][i], page) && Covers(ls[o'][i'], page)
    ensures Cover(ls, page) >= 2
  {
    CoverRemove(ls, o, i, page);
    var rest := ls[o := RemoveAt(ls[o], i)];
    var j := if o == o' && i < i' then i' - 1 else i';
    assert rest[o'][j] == ls[o'][i'];
    CoverAt(rest, o', j, page);
  }

  /** A page with a positive cover lies in some queued frame. */
  lemma {:induction false} CoverWitness(ls: Lists, from: nat, page: nat) returns (o: nat, i: nat)
    requires CoverFrom(ls, from, page) >= 1
    ensures from <= o < |ls| && i < |ls[o]| && Covers(ls[o][i], page)
    decreases |ls| - from
  {
    if Count(ls[from], page) >= 1 {
      o := from;
      i := CountWitness(ls[from], page);
    } else {
      o, i := CoverWitness(ls, from + 1, page);
    }
  }

  lemma {:induction false} CountWitness(l: seq<Frame>, page: nat) returns (i: nat)
    requires Count(l, page) >= 1
    ensures i < |l| && Covers(l[i], page)
  {
    if Covers(l[0], page) {
      i := 0;
    } else {
      var j := CountWitness(l[1..], page);
      i := j + 1;
    }
  }

  /** No two frames of the lists have a page in common. */
  ghost predicate NoSharedPage(ls: Lists) {
    forall o, i, o', i', p: nat ::
      (0 <= o < |ls| && 0 <= i < |ls[o]| && 0 <= o' < |ls| && 0 <= i' < |ls[o']| && (o != o' || i != i'))
      ==> !(Covers(ls[o][i], p) && Covers(ls[o'][i'], p))
  }

  lemma {:induction false} CoverFromConcat(a: Lists, b: Lists, from: nat, page: nat)
    requires from <= |a|
    ensures CoverFrom(a + b, from, page) == CoverFrom(a, from, page) + Cover(b, page)
    decreases |a| - from
  {
    if from < |a| {
      CoverFromConcat(a, b, from + 1, page);
    } else {
      CoverFromShift(a, b, 0, page);
    }
  }

  lemma {:induction false} CoverFromShift(a: Lists, b: Lists, from: nat, page: nat)
    ensures CoverFrom(a + b, |a| + from, page) == CoverFrom(b, from, page)
    decreases |b| - from
  {
    if from < |b| {
      CoverFromShift(a, b, from + 1, page);
    }
  }

  /** Counting covers is exactly the absence of overlap between free and busy frames. */
  lemma CoverOnceIffNoSharedPage(free: Lists, busy: Lists)
    ensures (forall p: nat :: Cover(free, p) + Cover(busy, p) <= 1) <==> NoSharedPage(free + busy)
  {
    var all := free + busy;
    forall p: nat ensures Cover(all, p) == Cover(free, p) + Cover(busy, p) {
      CoverFromConcat(free, busy, 0, p);
    }
    if NoSharedPage(all) {
      forall p: nat ensures Cover(all, p) <= 1 {
        if Cover(all, p) >= 2 {
          CoveredTwiceShared(all, p);
        }
      }
    }
    if forall p: nat :: Cover(all, p) <= 1 {
      CoveredOnceUnshared(all);
    }
  }

  lemma CoveredOnceUnshared(ls: Lists)
    requires forall p: nat :: Cover(ls, p) <= 1
    ensures NoSharedPage(ls)
  {
    forall o, i, o', i', p: nat |
      && 0 <= o < |ls| && 0 <= i < |ls[o]| && 0 <= o' < |ls| && 0 <= i' < |ls[o']| && (o != o' || i != i')
      && Covers(ls[o][i], p) && Covers(ls[o'][i'], p)
      ensures false
    {
      CoverTwice(ls, o, i, o', i', p);
    }
  }

  lemma CoveredTwiceShared(ls: Lists, page: nat)
    requires Cover(ls, page) >= 2
    ensures !NoSharedPage(ls)
  {
    var o, i := CoverWitness(ls, 0, page);
    CoverRemove(ls, o, i, page);
    var rest := ls[o := RemoveAt(ls[o], i)];
    var o', j := CoverWitness(rest, 0, page);
    var i' := if o' == o && j >= i then j + 1 else j;
    assert ls[o'][i'] == rest[o'][j];
  }

  // ---- splitting and joining -------------------------------------------

  /** The two halves of a frame cover its pages, each exactly once. */
  lemma HalvesCover(f: Frame, lo: Frame, hi: Frame, page: nat)
    requires lo.order == hi.order && f.order == lo.order + 1
    requires lo.mfn == f.mfn && hi.mfn == f.mfn + Pow2(lo.order)
    ensures Hit(f, page) == Hit(lo, page) + Hit(hi, page)
  {
  }

  lemma {:induction false} HalvesIffMultiple(x: nat, n: nat)
    ensures Halves(x, n) <==> x % Pow2(n) == 0
  {
    if n > 0 {
      HalvesIffMultiple(x / 2, n - 1);
      MultipleOfDouble(x, Pow2(n - 1));
    }
  }

  lemma MultipleOfDouble(x: nat, m: nat)
    requires m > 0
    ensures x % (2 * m) == 0 <==> x % 2 == 0 && (x / 2) % m == 0
  {
    var h := x / 2;
    var q, r := h / m, h % m;
    assert x == (2 * m) * q + (2 * r + x % 2) by {
      assert h == m * q + r;
      assert (2 * m) * q == 2 * (m * q);
    }
    DivisionUnique(x, 2 * m, q, 2 * r + x % 2);
  }

  lemma {:induction false} HalvesFewer(x: nat, n: nat, k: nat)
    requires k <= n && Halves(x, n)
    ensures Halves(x, k)
  {
    if k > 0 {
      HalvesFewer(x / 2, n - 1, k - 1);
    }
  }

  lemma {:induction false} HalvesSum(x: nat, y: nat, n: nat)
    requires Halves(x, n) && Halves(y, n)
    ensures Halves(x + y, n)
    ensures x >= y ==> Halves(x - y, n)
  {
    if n > 0 {
      HalvesSum(x / 2, y / 2, n - 1);
      assert (x + y) / 2 == x / 2 + y / 2;
      assert x >= y ==> (x - y) / 2 == x / 2 - y / 2;
    }
  }

  lemma {:induction false} HalvesPow2(n: nat, k: nat)
    requires k <= n
    ensures Halves(Pow2(n), k)
  {
    if k > 0 {
      HalvesPow2(n - 1, k - 1);
      HalvesDouble(Pow2(n - 1), k - 1);
    }
  }

  lemma HalvesDouble(x: nat, k: nat)
    requires Halves(x, k)
    ensures Halves(2 * x, k + 1)
  {
    assert 2 * x / 2 == x;
  }

  /** What halves `n` times but not once more, halves once more after taking 2^n away. */
  lemma {:induction false} HalvesOdd(x: nat, n: nat)
    requires Halves(x, n) && !Halves(x, n + 1) && Pow2(n) <= x
    ensures Halves(x - Pow2(n), n + 1)
  {
    if n > 0 {
      HalvesOdd(x / 2, n - 1);
      assert (x - Pow2(n)) / 2 == x / 2 - Pow2(n - 1);
    }
  }

  lemma {:induction false} Pow2Monotonic(a: nat, b: nat)
    requires a <= b
    ensures Pow2(a) <= Pow2(b)
  {
    if a < b {
      Pow2Monotonic(a, b - 1);
    }
  }

  lemma Pow2Orders()
    ensures Pow2(PAGE_ORDER_2M) == 512 && Pow2(PAGE_ORDER_1G) == 262144
  {
    assert Pow2(9) == 512 && Pow2(18) == 262144;
  }

  /** Both halves of an aligned frame are aligned for the smaller order. */
  lemma SplitAligned(mfn: nat, order: nat)
    requires order >= 1 && Aligned(mfn, order)
    ensures Aligned(mfn, order - 1) && Aligned(mfn + Pow2(order - 1), order - 1)
  {
    HalvesFewer(mfn, AlignOrder(order), AlignOrder(order - 1));
    HalvesPow2(order - 1, AlignOrder(order - 1));
    HalvesSum(mfn, Pow2(order - 1), AlignOrder(order - 1));
  }

  /**
    The lower frame of a pair is aligned for the larger order, whichever of
    the two halves the merge started from.
   */
  lemma MergeAligned(mfn: nat, order: nat)
    requires Aligned(mfn, order)
    ensures FirstFrameSibling(mfn, order + 1) ==> Aligned(mfn, order + 1)
    ensures !FirstFrameSibling(mfn, order + 1) && Pow2(order) <= mfn ==> Aligned(mfn - Pow2(order), order + 1)
  {
    HalvesIffMultiple(mfn, order + 1);
    if FirstFrameSibling(mfn, order + 1) {
      HalvesFewer(mfn, order + 1, AlignOrder(order + 1));
    } else if Pow2(order) <= mfn {
      if order < PAGE_ORDER_2M {
        HalvesOdd(mfn, order);
      } else {
        HalvesPow2(order, PAGE_ORDER_2M);
        HalvesSum(mfn, Pow2(order), PAGE_ORDER_2M);
      }
    }
  }

  /**
    Which half of a split frame finds the other one again.  For a naturally
    aligned frame both do; a frame that is only aligned to 2M may lose one
    direction or both.
   */
  lemma SplitHalvesPair(mfn: nat, order: nat)
    requires 1 <= order <= MAX_PAGE_ORDER && mfn + Pow2(order) <= MFN_LIMIT
    ensures SiblingMfn(mfn, order - 1) == mfn + Pow2(order - 1) <==> mfn % Pow2(order) == 0
    ensures SiblingMfn(mfn + Pow2(order - 1), order - 1) == mfn <==> mfn % Pow2(order) != Pow2(order - 1)
  {
    Pow2Monotonic(order, MAX_PAGE_ORDER);
    Pow2Orders();
    LowFindsHigh(mfn, order);
    HighFindsLow(mfn, order);
  }

  lemma LowFindsHigh(mfn: nat, order: nat)
    requires order >= 1 && Pow2(order) <= 262144 && mfn + Pow2(order) <= MFN_LIMIT
    ensures SiblingMfn(mfn, order - 1) == mfn + Pow2(order - 1) <==> mfn % Pow2(order) == 0
  {
    WrapDown(mfn, Pow2(order - 1));
  }

  lemma HighFindsLow(mfn: nat, order: nat)
    requires order >= 1 && Pow2(order) <= 262144 && mfn + Pow2(order) <= MFN_LIMIT
    ensures SiblingMfn(mfn + Pow2(order - 1), order - 1) == mfn <==> mfn % Pow2(order) != Pow2(order - 1)
  {
    HalfShift(mfn, Pow2(order - 1));
    WrapDown(mfn, Pow2(order - 1));
  }

  lemma HalfShift(x: nat, half: nat)
    requires half > 0
    ensures (x + half) % (2 * half) == 0 <==> x % (2 * half) == half
  {
    var q, r := x / (2 * half), x % (2 * half);
    if r < half {
      DivisionUnique(x + half, 2 * half, q, r + half);
    } else {
      assert x + half == 2 * half * (q + 1) + (r - half) by {
        assert 2 * half * (q + 1) == 2 * half * q + 2 * half;
      }
      DivisionUnique(x + half, 2 * half, q + 1, r - half);
    }
  }

  lemma WrapDown(mfn: nat, half: nat)
    requires 1 <= half <= 262144 && mfn + 2 * half <= MFN_LIMIT
    ensures (mfn + half) % WORD == mfn + half
    ensures (mfn + half - half) % WORD == mfn
    ensures (mfn - half) % WORD != mfn + half
    ensures (mfn + half + half) % WORD != mfn
  {
  }

  // ---- how much splitting is left --------------------------------------

  /** Free pages minus free frames, for the lists of order `from` and above. */
  function SlackFrom(ls: Lists, from: nat): nat
    decreases |ls| - from
  {
    if from >= |ls| then 0 else |ls[from]| * (Pow2(from) - 1) + SlackFrom(ls, from + 1)
  }

  function Slack(ls: Lists): nat {
    SlackFrom(ls, 0)
  }

  lemma {:induction false} SlackFromUpdate(ls: Lists, from: nat, o: nat, l: seq<Frame>)
    requires o < |ls|
    ensures SlackFrom(ls[o := l], from) + (if from <= o then |ls[o]| * (Pow2(o) - 1) else 0)
         == SlackFrom(ls, from) + (if from <= o then |l| * (Pow2(o) - 1) else 0)
    decreases |ls| - from
  {
    if from < |ls| {
      SlackFromUpdate(ls, from + 1, o, l);
    }
  }

  lemma SlackPush(ls: Lists, o: nat, l: seq<Frame>)
    requires o < |ls| && |l| == |ls[o]| + 1
    ensures Slack(ls[o := l]) == Slack(ls) + Pow2(o) - 1
  {
    SlackFromUpdate(ls, 0, o, l);
    MulSucc(|ls[o]|, Pow2(o) - 1);
  }

  lemma SlackPop(ls: Lists, o: nat, l: seq<Frame>)
    requires o < |ls| && |l| + 1 == |ls[o]|
    ensures Slack(ls[o := l]) + Pow2(o) - 1 == Slack(ls)
  {
    SlackFromUpdate(ls, 0, o, l);
    MulSucc(|l|, Pow2(o) - 1);
  }

  /** Single pages have nothing left to split. */
  lemma SlackPages(ls: Lists, l: seq<Frame>)
    requires |ls| > 0
    ensures Slack(ls[0 := l]) == Slack(ls)
  {
    SlackFromUpdate(ls, 0, 0, l);
    assert Pow2(0) - 1 == 0;
  }

  lemma MulSucc(n: nat, m: int)
    ensures (n + 1) * m == n * m + m
  {
  }
}
