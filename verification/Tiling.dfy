/**
  How process_memory_range of mm/pmm.c cuts a region of memory into frames, and
  what init_pmm makes of all regions: which frames there are, by address, and
  whether there are enough 4K frames for their descriptors.
 */
module Tiling {
  import opened Wrappers
  import opened Arithmetic
  import opened Frames
  import opened Supply

  /** A frame to be added, in front of its list or behind it. */
  datatype Piece = Piece(mfn: nat, order: nat, early: bool)

  /** A region of memory from the first address that is free in it. */
  datatype Region = Region(start: nat, end: nat)

  /** MB(EARLY_VIRT_MEM), the memory mapped by the boot page tables, in pages. */
  const EARLY_PAGES: nat := 2048

  predicate Orders(ps: seq<Piece>) {
    forall p :: p in ps ==> p.order < ORDERS
  }

  // ---- adding frames one after the other -------------------------------

  /** The stock with all these frames, or None where there is no 4K frame for their descriptors. */
  function AddAll(s: Stock, ps: seq<Piece>): (r: Option<Stock>)
    requires |s.free| == ORDERS && Orders(ps)
    ensures r.Some? ==> |r.value.free| == ORDERS
  {
    if ps == [] then Some(s)
    else
      var p, before := ps[|ps| - 1], AddAll(s, ps[..|ps| - 1]);
      if before.None? || !CanAdd(before.value) then None
      else Some(Added(before.value, Frame(p.mfn, p.order, 0), p.early))
  }

  ghost predicate StockAs(state: State, s: Stock, ps: seq<Piece>, s': Option<Stock>) {
    match state case InLoop => |s.free| == ORDERS && Orders(ps) && AddAll(s, ps) == s'
  }

  /** The frames added to the stock `s` make the stock `s'`. */
  ghost predicate StockIs(s: Stock, ps: seq<Piece>, s': Option<Stock>) {
    forall state :: StockAs(state, s, ps, s')
  }

  lemma StockStart(s: Stock)
    requires |s.free| == ORDERS
    ensures StockIs(s, [], Some(s))
  {
  }

  lemma StockValue(s: Stock, ps: seq<Piece>, s': Option<Stock>)
    requires StockIs(s, ps, s')
    ensures |s.free| == ORDERS && Orders(ps) && AddAll(s, ps) == s'
  {
    assert StockAs(InLoop, s, ps, s');
  }

  /** One more frame. */
  lemma StockNext(s: Stock, ps: seq<Piece>, now: Stock, p: Piece)
    requires StockIs(s, ps, Some(now)) && p.order < ORDERS
    ensures CanAdd(now) ==> StockIs(s, ps + [p], Some(Added(now, Frame(p.mfn, p.order, 0), p.early)))
    ensures !CanAdd(now) ==> StockIs(s, ps + [p], None)
  {
    StockValue(s, ps, Some(now));
    assert (ps + [p])[..|ps|] == ps;
  }

  /** Once a frame cannot be added, nothing behind it can. */
  lemma {:induction false} StockStops(s: Stock, ps: seq<Piece>, more: seq<Piece>)
    requires StockIs(s, ps, None) && Orders(more)
    ensures StockIs(s, ps + more, None)
  {
    StockValue(s, ps, None);
    if more == [] {
      assert ps + more == ps;
    } else {
      StockStops(s, ps, more[..|more| - 1]);
      StockValue(s, ps + more[..|more| - 1], None);
      assert (ps + more)[..|ps + more| - 1] == ps + more[..|more| - 1];
    }
  }

  // ---- the cutting of a range ------------------------------------------

  /** `n` frames of one order, one behind the other. */
  function Row(from: nat, order: nat, n: nat, early: bool): (ps: seq<Piece>)
    ensures |ps| == n && forall p :: p in ps ==> p.order == order && p.early == early
  {
    if n == 0 then [] else Row(from, order, n - 1, early) + [Piece(from + (n - 1) * Pow2(order), order, early)]
  }

  /** Where the first loop ends: at a 2M boundary behind the early memory, or with the range. */
  function CutPage(page: nat, limit: nat): (cut: nat)
    requires page <= limit
    ensures page <= cut <= limit
    decreases limit - page
  {
    if page == limit || (page >= EARLY_PAGES && page % 512 == 0) then page else CutPage(page + 1, limit)
  }

  /** find_max_avail_order: the largest order that fits, 4K if none does. */
  function LargestOrder(pages: nat, o: nat): (r: nat)
    requires o <= MAX_PAGE_ORDER && (o < MAX_PAGE_ORDER ==> pages < Pow2(o + 1))
    ensures r <= MAX_PAGE_ORDER && (r > 0 ==> Pow2(r) <= pages) && (r < MAX_PAGE_ORDER ==> pages < Pow2(r + 1))
  {
    if o == 0 || Pow2(o) <= pages then o else LargestOrder(pages, o - 1)
  }

  function Largest(pages: nat): (o: nat)
    ensures o <= MAX_PAGE_ORDER && (o > 0 ==> Pow2(o) <= pages) && (o < MAX_PAGE_ORDER ==> pages < Pow2(o + 1))
  {
    LargestOrder(pages, MAX_PAGE_ORDER)
  }

  /** How many frames of `size` pages fit. */
  function HowMany(pages: nat, size: nat): (n: nat)
    requires size > 0
    ensures n * size <= pages < n * size + size
  {
    if pages < size then 0 else HowMany(pages - size, size) + 1
  }

  /** So many frames of `size` pages fit, and no more. */
  ghost predicate Fills(n: nat, pages: nat, size: nat) {
    n * size <= pages < n * size + size
  }

  /** The largest order that fits, 4K if none does. */
  ghost predicate FitsBest(o: nat, pages: nat) {
    o <= MAX_PAGE_ORDER && (o > 0 ==> Pow2(o) <= pages) && (o < MAX_PAGE_ORDER ==> pages < Pow2(o + 1))
  }

  /** Number of pages that hold the addresses below `end`. */
  function PagesUpTo(end: nat): nat {
    (end + 4095) / 4096
  }

  /** Where the four loops of process_memory_range start, and how many frames each adds. */
  datatype Cuts = Cuts(first: nat, cut: nat, order: nat, large: nat, mid: nat, twos: nat, rest: nat, last: nat)

  function CutsOf(start: nat, end: nat): (c: Cuts)
    requires start <= end
    ensures c.order <= MAX_PAGE_ORDER && c.first <= c.cut <= c.mid <= c.rest <= end / 4096
  {
    var first, limit := start / 4096, end / 4096;
    var cut := CutPage(first, limit);
    var order := Largest(limit - cut);
    var large := HowMany(limit - cut, Pow2(order));
    var mid := cut + large * Pow2(order);
    var twos := HowMany(limit - mid, 512);
    var rest := mid + 512 * twos;
    Cuts(first, cut, order, large, mid, twos, rest, PagesUpTo(end) - rest)
  }

  /** The frames a range is cut into. */
  function Pieces(start: nat, end: nat, early: bool): (ps: seq<Piece>)
    requires start <= end
    ensures Orders(ps)
  {
    var c := CutsOf(start, end);
    Row(c.first, 0, c.cut - c.first, early) + Row(c.cut, c.order, c.large, false) +
    Row(c.mid, PAGE_ORDER_2M, c.twos, false) + Row(c.rest, 0, c.last, false)
  }

  // ---- following the loops ---------------------------------------------

  ghost predicate RowAs(state: State, row: seq<Piece>, from: nat, order: nat, n: nat, early: bool) {
    match state case InLoop => row == Row(from, order, n, early)
  }

  ghost predicate RowIs(row: seq<Piece>, from: nat, order: nat, n: nat, early: bool) {
    forall state :: RowAs(state, row, from, order, n, early)
  }

  lemma RowStart(from: nat, order: nat, early: bool)
    ensures RowIs([], from, order, 0, early)
  {
  }

  /** The next frame of a row. */
  lemma RowNext(row: seq<Piece>, from: nat, order: nat, n: nat, early: bool, page: nat)
    requires RowIs(row, from, order, n, early) && page == from + n * Pow2(order)
    ensures RowIs(row + [Piece(page, order, early)], from, order, n + 1, early)
    ensures page + Pow2(order) == from + (n + 1) * Pow2(order)
  {
    assert RowAs(InLoop, row, from, order, n, early);
    assert (n + 1) * Pow2(order) == n * Pow2(order) + Pow2(order);
  }

  lemma {:induction false} RowGrows(from: nat, order: nat, k: nat, n: nat, early: bool)
    requires k <= n
    ensures Row(from, order, k, early) <= Row(from, order, n, early)
    decreases n - k
  {
    if k < n {
      RowGrows(from, order, k + 1, n, early);
    }
  }

  /** The whole row of which this is the start. */
  lemma RowOn(row: seq<Piece>, from: nat, order: nat, k: nat, n: nat, early: bool) returns (all: seq<Piece>)
    requires RowIs(row, from, order, k, early) && k <= n && order < ORDERS
    ensures RowIs(all, from, order, n, early) && row <= all && Orders(all) && (k == n ==> all == row)
  {
    assert RowAs(InLoop, row, from, order, k, early);
    RowGrows(from, order, k, n, early);
    all := Row(from, order, n, early);
  }

  lemma RowSame(row: seq<Piece>, row': seq<Piece>, from: nat, order: nat, n: nat, early: bool)
    requires RowIs(row, from, order, n, early) && RowIs(row', from, order, n, early)
    ensures row == row'
  {
    assert RowAs(InLoop, row, from, order, n, early) && RowAs(InLoop, row', from, order, n, early);
  }

  /** A row that cannot be added stops all that comes behind. */
  lemma RowStops(s: Stock, before: seq<Piece>, part: seq<Piece>, all: seq<Piece>, more: seq<Piece>)
    requires part <= all && StockIs(s, before + part, None) && Orders(all) && Orders(more)
    ensures StockIs(s, before + all + more, None)
  {
    StockStops(s, before + part, all[|part|..] + more);
    assert before + part + (all[|part|..] + more) == before + all + more;
  }

  ghost predicate PiecesAs(state: State, ps: seq<Piece>, start: nat, end: nat, early: bool) {
    match state case InLoop => start <= end && ps == Pieces(start, end, early)
  }

  ghost predicate PiecesAre(ps: seq<Piece>, start: nat, end: nat, early: bool) {
    Orders(ps) && forall state :: PiecesAs(state, ps, start, end, early)
  }

  ghost predicate CutsAs(state: State, c: Cuts, start: nat, end: nat) {
    match state case InLoop => start <= end && c == CutsOf(start, end)
  }

  ghost predicate CutsAre(c: Cuts, start: nat, end: nat) {
    forall state :: CutsAs(state, c, start, end)
  }

  /** What the loops behind the first one have to find. */
  ghost predicate RestOf(c: Cuts, end: nat) {
    && c.first <= c.cut <= c.mid <= c.rest <= end / 4096 && FitsBest(c.order, end / 4096 - c.cut)
    && Fills(c.large, end / 4096 - c.cut, Pow2(c.order)) && c.mid == c.cut + c.large * Pow2(c.order)
    && Fills(c.twos, end / 4096 - c.mid, 512) && c.rest == c.mid + 512 * c.twos
    && c.rest + c.last == PagesUpTo(end)
  }

  lemma CutFacts(start: nat, end: nat) returns (c: Cuts)
    requires start <= end
    ensures CutsAre(c, start, end) && c.first == start / 4096 && c.cut == CutPage(c.first, end / 4096) && RestOf(c, end)
  {
    c := CutsOf(start, end);
  }

  /** The rows of the last three loops. */
  ghost predicate RowsAre(rows: seq<seq<Piece>>, c: Cuts) {
    && |rows| == 3 && Orders(rows[0]) && Orders(rows[1]) && Orders(rows[2]) && c.order <= MAX_PAGE_ORDER
    && RowIs(rows[0], c.cut, c.order, c.large, false) && RowIs(rows[1], c.mid, PAGE_ORDER_2M, c.twos, false)
    && RowIs(rows[2], c.rest, 0, c.last, false)
  }

  lemma TheRows(c: Cuts) returns (rows: seq<seq<Piece>>)
    requires c.order <= MAX_PAGE_ORDER
    ensures RowsAre(rows, c)
  {
    RowStart(c.cut, c.order, false);
    RowStart(c.mid, PAGE_ORDER_2M, false);
    RowStart(c.rest, 0, false);
    var large := RowOn([], c.cut, c.order, 0, c.large, false);
    var twos := RowOn([], c.mid, PAGE_ORDER_2M, 0, c.twos, false);
    var last := RowOn([], c.rest, 0, 0, c.last, false);
    rows := [large, twos, last];
  }

  /** The four rows together. */
  lemma RowsArePieces(c: Cuts, start: nat, end: nat, early: bool, early4k: seq<Piece>, rows: seq<seq<Piece>>,
                      ps: seq<Piece>)
    requires CutsAre(c, start, end) && c.first <= c.cut && RowIs(early4k, c.first, 0, c.cut - c.first, early)
    requires RowsAre(rows, c) && ps == early4k + (rows[0] + rows[1] + rows[2])
    ensures PiecesAre(ps, start, end, early)
  {
    assert CutsAs(InLoop, c, start, end);
    assert RowAs(InLoop, early4k, c.first, 0, c.cut - c.first, early);
    assert RowAs(InLoop, rows[0], c.cut, c.order, c.large, false);
    assert RowAs(InLoop, rows[1], c.mid, PAGE_ORDER_2M, c.twos, false);
    assert RowAs(InLoop, rows[2], c.rest, 0, c.last, false);
    assert ps == early4k + rows[0] + rows[1] + rows[2];
  }

  lemma ThePieces(start: nat, end: nat, early: bool) returns (ps: seq<Piece>)
    requires start <= end
    ensures PiecesAre(ps, start, end, early)
  {
    ps := Pieces(start, end, early);
  }

  ghost predicate CutAs(state: State, cut: nat, page: nat, limit: nat) {
    match state case InLoop => page <= limit && cut == CutPage(page, limit)
  }

  /** From this page on the first loop ends at the cut. */
  ghost predicate CutIs(cut: nat, page: nat, limit: nat) {
    page <= cut <= limit && forall state :: CutAs(state, cut, page, limit)
  }

  lemma CutStart(cut: nat, page: nat, limit: nat)
    requires page <= limit && cut == CutPage(page, limit)
    ensures CutIs(cut, page, limit)
  {
  }

  lemma CutNext(cut: nat, page: nat, limit: nat)
    requires CutIs(cut, page, limit)
    ensures if page == limit || (page >= EARLY_PAGES && page % 512 == 0) then cut == page else CutIs(cut, page + 1,
                                                                                                     limit)
  {
    assert CutAs(InLoop, cut, page, limit);
  }

  lemma BestIs(o: nat, r: nat, pages: nat)
    requires FitsBest(o, pages) && FitsBest(r, pages)
    ensures o == r
  {
    if r < o {
      Pow2Monotonic(r + 1, o);
    } else if o < r {
      Pow2Monotonic(o + 1, r);
    }
  }

  /** Frames that fit are among those that do. */
  lemma AmongThem(n: nat, many: nat, pages: nat, size: nat)
    requires Fills(many, pages, size) && n * size <= pages
    ensures n <= many && (pages < n * size + size ==> n == many)
  {
    if many < n {
      MulLess(many + 1, n, size);
    } else if n < many {
      MulLess(n + 1, many, size);
    }
  }

  /** The page behind `n` frames of one order. */
  function PageAfter(from: nat, order: nat, n: nat): (page: nat)
    ensures page >= from
  {
    if n == 0 then from else PageAfter(from, order, n - 1) + Pow2(order)
  }

  lemma {:induction false} PageAfterIs(from: nat, order: nat, n: nat)
    ensures PageAfter(from, order, n) == from + n * Pow2(order)
  {
    if n > 0 {
      PageAfterIs(from, order, n - 1);
      MulLess(n, n, Pow2(order));
    }
  }

  ghost predicate AtAs(state: State, page: nat, from: nat, order: nat, n: nat, many: nat, limit: nat, to: nat) {
    match state case InLoop =>
      page == PageAfter(from, order, n) && to == PageAfter(from, order, many) && to <= limit < to + Pow2(order)
  }

  /** `page` lies behind `n` of the frames of a row, of which `many` fit and end at `to`. */
  ghost predicate AtFrame(page: nat, from: nat, order: nat, n: nat, many: nat, limit: nat, to: nat) {
    from <= page <= limit && n <= many && forall state :: AtAs(state, page, from, order, n, many, limit, to)
  }

  lemma AtStart(from: nat, order: nat, many: nat, limit: nat, to: nat)
    requires from <= limit && Fills(many, limit - from, Pow2(order)) && to == from + many * Pow2(order)
    ensures AtFrame(from, from, order, 0, many, limit, to)
  {
    PageAfterIs(from, order, many);
  }

  lemma AtNext(row: seq<Piece>, page: nat, next: nat, from: nat, order: nat, n: nat, many: nat, limit: nat, to: nat)
    requires AtFrame(page, from, order, n, many, limit, to) && RowIs(row, from, order, n, false)
    requires page + Pow2(order) == next <= limit
    ensures AtFrame(next, from, order, n + 1, many, limit, to)
    ensures RowIs(row + [Piece(page, order, false)], from, order, n + 1, false)
  {
    assert AtAs(InLoop, page, from, order, n, many, limit, to);
    PageAfterIs(from, order, n);
    PageAfterIs(from, order, many);
    RowNext(row, from, order, n, false, page);
    AmongThem(n + 1, many, limit - from, Pow2(order));
  }

  lemma AtEnd(page: nat, from: nat, order: nat, n: nat, many: nat, limit: nat, to: nat)
    requires AtFrame(page, from, order, n, many, limit, to) && limit < page + Pow2(order)
    ensures n == many && page == to
  {
    assert AtAs(InLoop, page, from, order, n, many, limit, to);
    PageAfterIs(from, order, n);
    PageAfterIs(from, order, many);
    AmongThem(n, many, limit - from, Pow2(order));
  }

  lemma MulLess(a: nat, b: nat, c: nat)
    requires a <= b
    ensures a * c <= b * c && (a > 0 ==> a * c == (a - 1) * c + c)
  {
    assert b * c == a * c + (b - a) * c;
  }

  // ---- all regions -----------------------------------------------------

  function InRange(from: nat, to: nat, page: nat): nat {
    if from <= page < to then 1 else 0
  }

  /** How many of the regions hold a byte of `page`. */
  function RegionCover(regions: seq<Region>, page: nat): nat {
    if regions == [] then 0
    else
      var r := regions[|regions| - 1];
      RegionCover(regions[..|regions| - 1], page) + InRange(PaddrToMfn(r.start), PagesUpTo(r.end), page)
  }

  function RegionSize(regions: seq<Region>): int {
    if regions == [] then 0
    else
      var r := regions[|regions| - 1];
      RegionSize(regions[..|regions| - 1]) + r.end - r.start
  }

  /** Regions start on a page and lie in the physical address space. */
  predicate RegionsOk(regions: seq<Region>) {
    forall r :: r in regions ==> r.start % 4096 == 0 && r.start <= r.end <= Bytes(MFN_LIMIT)
  }

  /** The frames of each region, those of the first one early, and of all. */
  function PartsOf(regions: seq<Region>): (parts: seq<seq<Piece>>)
    requires RegionsOk(regions)
    ensures |parts| == |regions| && forall i :: 0 <= i < |parts| ==> Orders(parts[i])
  {
    seq(|regions|, i requires 0 <= i < |regions| =>
      assert regions[i] in regions; Pieces(regions[i].start, regions[i].end, i == 0))
  }

  function Concat(parts: seq<seq<Piece>>): seq<Piece> {
    if parts == [] then [] else Concat(parts[..|parts| - 1]) + parts[|parts| - 1]
  }

  lemma {:induction false} ConcatOrders(parts: seq<seq<Piece>>)
    requires forall i :: 0 <= i < |parts| ==> Orders(parts[i])
    ensures Orders(Concat(parts))
  {
    if parts != [] {
      ConcatOrders(parts[..|parts| - 1]);
    }
  }

  function AllPieces(regions: seq<Region>): (ps: seq<Piece>)
    requires RegionsOk(regions)
    ensures Orders(ps)
  {
    ConcatOrders(PartsOf(regions));
    Concat(PartsOf(regions))
  }

  /** The empty lists, and the descriptors of early_frames. */
  function EarlyStock(): (s: Stock)
    ensures |s.free| == ORDERS
  {
    Stock(seq(ORDERS, _ => []), 127, [])
  }

  /** These are the frames of the first regions. */
  ghost predicate PartsAre(parts: seq<seq<Piece>>, regions: seq<Region>) {
    |parts| <= |regions| &&
    forall i :: 0 <= i < |parts| ==> PiecesAre(parts[i], regions[i].start, regions[i].end, i == 0)
  }

  lemma PartsStart(regions: seq<Region>)
    requires RegionsOk(regions)
    ensures PartsAre([], regions)
  {
  }

  /** One more region. */
  lemma PartsNext(parts: seq<seq<Piece>>, regions: seq<Region>, ps: seq<Piece>)
    requires PartsAre(parts, regions) && |parts| < |regions|
    requires var i := |parts|; PiecesAre(ps, regions[i].start, regions[i].end, i == 0)
    ensures PartsAre(parts + [ps], regions) && Concat(parts + [ps]) == Concat(parts) + ps
  {
    assert (parts + [ps])[..|parts|] == parts;
  }

  lemma PartsEnd(parts: seq<seq<Piece>>, regions: seq<Region>)
    requires RegionsOk(regions) && PartsAre(parts, regions) && |parts| == |regions|
    ensures Concat(parts) == AllPieces(regions)
  {
    forall i | 0 <= i < |parts| ensures parts[i] == PartsOf(regions)[i] {
      PieceValue(parts[i], regions[i].start, regions[i].end, i == 0);
    }
    assert parts == PartsOf(regions);
  }

  lemma PieceValue(ps: seq<Piece>, start: nat, end: nat, early: bool)
    requires PiecesAre(ps, start, end, early)
    ensures start <= end && ps == Pieces(start, end, early)
  {
    assert PiecesAs(InLoop, ps, start, end, early);
  }

  /** A region that cannot be added stops all that come behind. */
  lemma {:induction false} PartsOn(parts: seq<seq<Piece>>, regions: seq<Region>, s: Stock)
    requires RegionsOk(regions) && PartsAre(parts, regions) && |parts| <= |regions| && StockIs(s, Concat(parts), None)
    ensures StockIs(s, AllPieces(regions), None)
    decreases |regions| - |parts|
  {
    if |parts| == |regions| {
      PartsEnd(parts, regions);
    } else {
      var i := |parts|;
      assert regions[i] in regions;
      var ps := ThePieces(regions[i].start, regions[i].end, i == 0);
      PartsNext(parts, regions, ps);
      StockStops(s, Concat(parts), ps);
      PartsOn(parts + [ps], regions, s);
    }
  }
}
