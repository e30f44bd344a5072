/**
  How vmap_range of arch/x86/pagetables.c cuts a physical range into pages of
  1G, 2M and 4K.
 */
module Cutting {
  import opened Arithmetic
  import opened Address

  /** paddr_round_up(paddr + size), in 64 bits. */
  function RangeEnd(paddr: nat, size: nat): nat {
    var end := (paddr + size) % 0x1_0000_0000_0000_0000;
    (end + 4095) % 0x1_0000_0000_0000_0000 / 4096 * 4096
  }

  /** The page size vmap_range picks at `cur` with `size` bytes to go, as the depth of its table. */
  function ChunkDepth(cur: nat, size: nat): nat {
    if size >= 0x4000_0000 && cur % 0x4000_0000 == 0 then 1
    else if size >= 0x20_0000 && cur % 0x20_0000 == 0 then 2
    else 3
  }

  /** size -= PAGE_SIZE_*, in 64 bits. */
  function SizeLeft(size: nat, depth: nat): nat
    requires depth <= 3
  {
    (size - SizeAt(depth)) % 0x1_0000_0000_0000_0000
  }

  function PagesAt(depth: nat): nat {
    if depth == 3 then 1 else if depth == 2 then 512 else 0x4_0000
  }

  /** page % PagesAt(depth) == 0 */
  predicate PageAligned(page: nat, depth: nat) {
    if depth == 3 then true else if depth == 2 then page % 512 == 0 else page % 0x4_0000 == 0
  }

  /** The state of the loop: `size` is what is left, counted modulo 2^64. */
  ghost predicate Cutting(paddr: nat, total: nat, end: nat, cur: nat, size: nat) {
    && end % 4096 == 0 && paddr <= cur < end + 4096 && cur % 4096 == paddr % 4096
    && size < 0x1_0000_0000_0000_0000
    && (paddr % 4096 == 0 ==>
      && paddr + total <= end < paddr + total + 4096
      && size == (if cur <= paddr + total then paddr + total - cur
                  else paddr + total - cur + 0x1_0000_0000_0000_0000))
  }

  /** A request that is not refused starts cutting in order. */
  lemma CuttingStarts(paddr: nat, size: nat)
    requires paddr < 0x1_0000_0000_0000_0000 && size < 0x1_0000_0000_0000_0000 && paddr < RangeEnd(paddr, size)
    ensures Cutting(paddr, size, RangeEnd(paddr, size), paddr, size)
    ensures RangeEnd(paddr, size) < 0x1_0000_0000_0000_0000
  {
  }

  /**
    Each chunk is aligned to its own size and ends within the range, and the
    loop goes on in order behind it, even where `size` wraps on the last page.
   */
  lemma CutOne(paddr: nat, total: nat, end: nat, cur: nat, size: nat)
    requires Cutting(paddr, total, end, cur, size) && cur < end
    ensures var to := ChunkDepth(cur, size);
            && 1 <= to <= 3 && cur / 4096 + PagesAt(to) <= end / 4096 && PageAligned(cur / 4096, to)
            && (cur + SizeAt(to)) / 4096 == cur / 4096 + PagesAt(to)
            && Cutting(paddr, total, end, cur + SizeAt(to), SizeLeft(size, to))
  {
    var to := ChunkDepth(cur, size);
    if to == 1 {
      Cut1g(paddr, total, end, cur, size);
    } else if to == 2 {
      Cut2m(paddr, total, end, cur, size);
    } else {
      CutSmall(paddr, total, end, cur, size);
    }
  }

  lemma OneGig(cur: nat)
    requires cur % 0x4000_0000 == 0
    ensures cur % 4096 == 0 && cur / 4096 % 0x4_0000 == 0
    ensures (cur + 0x4000_0000) % 4096 == 0 && (cur + 0x4000_0000) / 4096 == cur / 4096 + 0x4_0000
  {
    var j := cur / 0x4000_0000;
    assert cur == 4096 * (0x4_0000 * j);
  }

  lemma Cut1g(paddr: nat, total: nat, end: nat, cur: nat, size: nat)
    requires Cutting(paddr, total, end, cur, size) && cur < end && size >= 0x4000_0000 && cur % 0x4000_0000 == 0
    ensures cur / 4096 + 0x4_0000 <= end / 4096 && cur / 4096 % 0x4_0000 == 0 &&
      (cur + 0x4000_0000) / 4096 == cur / 4096 + 0x4_0000
    ensures Cutting(paddr, total, end, cur + 0x4000_0000, size - 0x4000_0000)
  {
    OneGig(cur);
    assert cur <= paddr + total;
    assert cur + 0x4000_0000 <= end;
  }

  lemma TwoMegs(cur: nat)
    requires cur % 0x20_0000 == 0
    ensures cur % 4096 == 0 && cur / 4096 % 512 == 0
    ensures (cur + 0x20_0000) % 4096 == 0 && (cur + 0x20_0000) / 4096 == cur / 4096 + 512
  {
    var j := cur / 0x20_0000;
    assert cur == 4096 * (512 * j);
  }

  lemma Cut2m(paddr: nat, total: nat, end: nat, cur: nat, size: nat)
    requires Cutting(paddr, total, end, cur, size) && cur < end && size >= 0x20_0000 && cur % 0x20_0000 == 0
    ensures cur / 4096 + 512 <= end / 4096 && cur / 4096 % 512 == 0 && (cur + 0x20_0000) / 4096 == cur / 4096 + 512
    ensures Cutting(paddr, total, end, cur + 0x20_0000, size - 0x20_0000)
  {
    TwoMegs(cur);
    assert cur <= paddr + total;
    assert cur + 0x20_0000 <= end;
  }

  lemma CutSmall(paddr: nat, total: nat, end: nat, cur: nat, size: nat)
    requires Cutting(paddr, total, end, cur, size) && cur < end
    ensures cur / 4096 + 1 <= end / 4096 && (cur + 4096) / 4096 == cur / 4096 + 1
    ensures Cutting(paddr, total, end, cur + 4096, (size - 4096) % 0x1_0000_0000_0000_0000)
  {
    if paddr % 4096 == 0 {
      assert cur <= end - 4096;
      assert cur < paddr + total;
    }
  }

  /** The loop at one of its heads: position, bytes left, page number, and the chunk it picks. */
  datatype Cut = Cut(cur: nat, left: nat, page: nat, to: nat)

  /** All heads of the loop, up to the one at which it ends. */
  function Plan(cur: nat, left: nat, end: nat): (plan: seq<Cut>)
    ensures |plan| >= 1 && plan[0] == Cut(cur, left, cur / 4096, ChunkDepth(cur, left))
    decreases end - cur
  {
    var to := ChunkDepth(cur, left);
    [Cut(cur, left, cur / 4096, to)] + if cur < end then Plan(cur + SizeAt(to), SizeLeft(left, to), end) else []
  }

  ghost predicate StepOk(plan: seq<Cut>, k: nat, end: nat)
    requires k + 1 < |plan|
  {
    var c, n := plan[k], plan[k + 1];
    && c.cur < end && 1 <= c.to <= 3 && c.to == ChunkDepth(c.cur, c.left) && c.page == c.cur / 4096
    && n.cur == c.cur + SizeAt(c.to) && n.left == SizeLeft(c.left, c.to)
    && n.page == c.page + PagesAt(c.to) <= end / 4096 && PageAligned(c.page, c.to)
  }

  ghost predicate IsPlan(plan: seq<Cut>, paddr: nat, size: nat, end: nat) {
    && |plan| >= 1 && plan[0].cur == paddr && plan[0].left == size && plan[0].page == paddr / 4096
    && (forall k {:trigger StepOk(plan, k, end)} :: 0 <= k < |plan| - 1 ==> StepOk(plan, k, end))
    && plan[|plan| - 1].cur >= end && plan[|plan| - 1].page == end / 4096
  }

  /**
    The chunks of a range follow each other without gap or overlap from
    floor(paddr) to its end, each aligned to its own size.
   */
  lemma {:induction false} PlanTiles(paddr: nat, total: nat, end: nat, cur: nat, left: nat)
    requires Cutting(paddr, total, end, cur, left)
    ensures IsPlan(Plan(cur, left, end), cur, left, end)
    decreases end + 4096 - cur
  {
    var plan := Plan(cur, left, end);
    if cur < end {
      CutOne(paddr, total, end, cur, left);
      var to := ChunkDepth(cur, left);
      var rest := Plan(cur + SizeAt(to), SizeLeft(left, to), end);
      PlanTiles(paddr, total, end, cur + SizeAt(to), SizeLeft(left, to));
      forall k | 0 <= k < |plan| - 1 ensures StepOk(plan, k, end) {
        if k > 0 {
          assert StepOk(rest, k - 1, end);
        }
      }
    } else {
      CutEnds(paddr, total, end, cur, left);
    }
  }

  /** The closing BUG_ON never fires. */
  lemma CutEnds(paddr: nat, total: nat, end: nat, cur: nat, size: nat)
    requires Cutting(paddr, total, end, cur, size) && end <= cur
    ensures cur / 4096 == end / 4096
  {
  }

  /** The wrapped sum lies in the page of `paddr` itself, not at its start, and that page is not the last one. */
  predicate Refolds(paddr: nat, size: nat) {
    var end := paddr + size - 0x1_0000_0000_0000_0000;
    0 <= end && end / 4096 == paddr / 4096 && end % 4096 != 0 && end + 4095 < 0x1_0000_0000_0000_0000
  }

  /**
    The range that is mapped is the one asked for, unless the sum of address
    and size overflows; an overflow is refused except where the wrapped sum
    falls back into the first page, which is then mapped alone.
   */
  lemma OverflowRefused(paddr: nat, size: nat)
    requires paddr < 0x1_0000_0000_0000_0000 && size < 0x1_0000_0000_0000_0000
    ensures paddr + size + 4095 < 0x1_0000_0000_0000_0000 ==>
      RangeEnd(paddr, size) == (paddr + size + 4095) / 4096 * 4096
    ensures paddr + size + 4095 >= 0x1_0000_0000_0000_0000 ==>
      (paddr < RangeEnd(paddr, size) <==> Refolds(paddr, size))
    ensures paddr < RangeEnd(paddr, size) && paddr + size + 4095 >= 0x1_0000_0000_0000_0000 ==>
      RangeEnd(paddr, size) == (paddr / 4096 + 1) * 4096
  {
    var end := paddr + size - 0x1_0000_0000_0000_0000;
    if paddr + size + 4095 < 0x1_0000_0000_0000_0000 {
      NoOverflow(paddr, size);
    } else if end < 0 {
      EndsAtTop(paddr, size, paddr + size);
    } else if end + 4095 < 0x1_0000_0000_0000_0000 {
      Refolded(paddr, size, end);
    } else {
      EndsAtTop(paddr, size, end);
    }
  }

  lemma NoOverflow(paddr: nat, size: nat)
    requires paddr + size + 4095 < 0x1_0000_0000_0000_0000
    ensures RangeEnd(paddr, size) == (paddr + size + 4095) / 4096 * 4096
  {
  }

  /** Rounding up wraps: the end is 0. */
  lemma EndsAtTop(paddr: nat, size: nat, x: nat)
    requires paddr < 0x1_0000_0000_0000_0000 && size < 0x1_0000_0000_0000_0000
    requires x == paddr + size || x + 0x1_0000_0000_0000_0000 == paddr + size
    requires x < 0x1_0000_0000_0000_0000 <= x + 4095
    ensures RangeEnd(paddr, size) == 0
  {
    assert (paddr + size) % 0x1_0000_0000_0000_0000 == x;
  }

  /** The end of a range whose sum wraps once. */
  lemma Refolded(paddr: nat, size: nat, end: nat)
    requires paddr < 0x1_0000_0000_0000_0000 && size < 0x1_0000_0000_0000_0000
    requires end == paddr + size - 0x1_0000_0000_0000_0000 && end + 4095 < 0x1_0000_0000_0000_0000
    ensures RangeEnd(paddr, size) == (end + 4095) / 4096 * 4096 && end < paddr
    ensures paddr < RangeEnd(paddr, size) <==> end / 4096 == paddr / 4096 && end % 4096 != 0
  {
    assert (paddr + size) % 0x1_0000_0000_0000_0000 == end;
  }

  // ---- when a range is cut into a 1G page ------------------------------

  /** The first address from `paddr` on that is aligned to 1G. */
  function NextGig(paddr: nat): nat {
    (paddr + 0x3FFF_FFFF) / 0x4000_0000 * 0x4000_0000
  }

  /** The range starts on a page boundary and holds a whole aligned 1G page. */
  predicate HoldsGig(paddr: nat, size: nat) {
    paddr % 4096 == 0 && NextGig(paddr) + 0x4000_0000 <= paddr + size
  }

  ghost predicate CutsGig(plan: seq<Cut>) {
    exists k :: 0 <= k < |plan| - 1 && plan[k].to == 1
  }

  /**
    The plan from `cur` on has a 1G page exactly if the rest of the range
    holds one.
   */
  lemma {:induction false} GigFrom(paddr: nat, total: nat, end: nat, cur: nat, left: nat)
    requires Cutting(paddr, total, end, cur, left)
    ensures CutsGig(Plan(cur, left, end)) <==>
      cur < end && paddr % 4096 == 0 && NextGig(cur) + 0x4000_0000 <= paddr + total
    decreases end + 4096 - cur
  {
    var plan := Plan(cur, left, end);
    if cur < end {
      CutOne(paddr, total, end, cur, left);
      var to := ChunkDepth(cur, left);
      var rest := Plan(cur + SizeAt(to), SizeLeft(left, to), end);
      GigFrom(paddr, total, end, cur + SizeAt(to), SizeLeft(left, to));
      GigTail(plan, rest);
      GigStep(paddr, total, end, cur, left);
    }
  }

  lemma GigTail(plan: seq<Cut>, rest: seq<Cut>)
    requires |rest| >= 1 && |plan| == |rest| + 1 && plan[1..] == rest
    ensures CutsGig(plan) <==> plan[0].to == 1 || CutsGig(rest)
  {
    if CutsGig(rest) {
      var k :| 0 <= k < |rest| - 1 && rest[k].to == 1;
      assert plan[k + 1].to == 1;
    }
    if CutsGig(plan) && plan[0].to != 1 {
      var k :| 0 <= k < |plan| - 1 && plan[k].to == 1;
      assert rest[k - 1].to == 1;
    }
  }

  /** One step of the loop skips no aligned 1G page that would fit. */
  lemma GigStep(paddr: nat, total: nat, end: nat, cur: nat, left: nat)
    requires Cutting(paddr, total, end, cur, left) && cur < end
    ensures var to := ChunkDepth(cur, left);
            var next := cur + SizeAt(to);
            (paddr % 4096 == 0 && NextGig(cur) + 0x4000_0000 <= paddr + total) <==>
            (to == 1 || (next < end && paddr % 4096 == 0 && NextGig(next) + 0x4000_0000 <= paddr + total))
  {
    var to := ChunkDepth(cur, left);
    if paddr % 4096 == 0 {
      BytesLeft(paddr, total, end, cur, left);
      GigRange(cur + SizeAt(to));
      if cur % 0x4000_0000 == 0 {
        GigAligned(cur, cur + SizeAt(to));
      } else {
        GigUnaligned(cur, if to == 2 then 512 else 1);
      }
    } else {
      NotPageAligned(cur);
    }
  }

  lemma BytesLeft(paddr: nat, total: nat, end: nat, cur: nat, left: nat)
    requires Cutting(paddr, total, end, cur, left) && cur < end && paddr % 4096 == 0
    ensures left == paddr + total - cur && paddr + total <= end
  {
    assert cur + 4096 <= end;
  }

  lemma NotPageAligned(cur: nat)
    requires cur % 4096 != 0
    ensures cur % 0x4000_0000 != 0
  {
    if cur % 0x4000_0000 == 0 {
      OneGig(cur);
    }
  }

  lemma GigRange(x: nat)
    ensures x <= NextGig(x) < x + 0x4000_0000
  {
  }

  lemma GigAligned(cur: nat, next: nat)
    requires cur % 0x4000_0000 == 0 && cur < next <= cur + 0x4000_0000
    ensures NextGig(cur) == cur && NextGig(next) == cur + 0x4000_0000
  {
    var q := cur / 0x4000_0000;
    assert cur == 0x4000_0000 * q;
  }

  /** Below the next 1G boundary a page of `pages` 4K pages, aligned to its size, does not cross it. */
  lemma GigUnaligned(cur: nat, pages: nat)
    requires cur % 0x4000_0000 != 0 && (pages == 1 || pages == 512) && cur % (4096 * pages) == 0
    ensures NextGig(cur + 4096 * pages) == NextGig(cur)
  {
    var q, r := cur / 0x4000_0000, cur % 0x4000_0000;
    if pages == 1 {
      InGig4k(cur, q, r);
    } else {
      InGig2m(cur, q, r);
    }
    GigInside(q, r + 4096 * pages);
    GigInside(q, r);
  }

  lemma InGig4k(cur: nat, q: nat, r: nat)
    requires cur == 0x4000_0000 * q + r && r < 0x4000_0000 && cur % 4096 == 0
    ensures r + 4096 <= 0x4000_0000
  {
    var k := cur / 4096;
    assert r == 4096 * (k - 0x4_0000 * q);
  }

  lemma InGig2m(cur: nat, q: nat, r: nat)
    requires cur == 0x4000_0000 * q + r && r < 0x4000_0000 && cur % 0x20_0000 == 0
    ensures r + 0x20_0000 <= 0x4000_0000
  {
    var k := cur / 0x20_0000;
    assert r == 0x20_0000 * (k - 512 * q);
  }

  lemma GigInside(q: nat, r: nat)
    requires 0 < r <= 0x4000_0000
    ensures NextGig(0x4000_0000 * q + r) == 0x4000_0000 * (q + 1)
  {
  }
}
