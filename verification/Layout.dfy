/**
  Which frames init_pmm of mm/pmm.c makes of the memory, by address: where a
  range is cut, which 2M blocks stay whole, what each free list holds when it is
  done, and for which memory maps there are enough 4K frames for descriptors.
 */
module Layout {
  import opened Wrappers
  import opened Arithmetic
  import opened Frames
  import opened Supply
  import opened Tiling

  // ---- where a range is cut --------------------------------------------

  /** The first 2M boundary from `page` on. */
  function Up2m(page: nat): (b: nat)
    ensures b % 512 == 0 && page <= b < page + 512
  {
    (page + 511) / 512 * 512
  }

  /**
    The first 2M boundary at or above the start of the range and the end of the
    early memory, or the end of the range.
   */
  function Boundary(first: nat, limit: nat): (cut: nat)
    requires first <= limit
    ensures first <= cut <= limit && (cut < limit ==> cut % 512 == 0 && cut >= EARLY_PAGES)
  {
    var b := Up2m(if first < EARLY_PAGES then EARLY_PAGES else first);
    if b < limit then b else limit
  }

  lemma Up2mNext(page: nat)
    ensures if page % 512 == 0 then Up2m(page) == page else Up2m(page) == Up2m(page + 1)
  {
  }

  /** The first loop ends there. */
  lemma {:induction false} CutIsBoundary(page: nat, limit: nat)
    requires page <= limit
    ensures CutPage(page, limit) == Boundary(page, limit)
    decreases limit - page
  {
    Up2mNext(page);
    if page < limit && (page < EARLY_PAGES || page % 512 != 0) {
      CutIsBoundary(page + 1, limit);
    }
  }

  /** The cuts of a range, by division. */
  ghost predicate ByAddress(c: Cuts, start: nat, end: nat) {
    var limit := end / 4096;
    && c.first == start / 4096 && c.first <= limit && c.cut == Boundary(c.first, limit) &&
      FitsBest(c.order, limit - c.cut)
    && c.large == (limit - c.cut) / Pow2(c.order) && c.mid == limit - (limit - c.cut) % Pow2(c.order)
    && c.twos == (limit - c.mid) / 512 && c.rest == limit - (limit - c.mid) % 512
    && c.rest + c.last == PagesUpTo(end)
  }

  lemma CutsByAddress(start: nat, end: nat) returns (c: Cuts)
    requires start <= end
    ensures CutsAre(c, start, end) && ByAddress(c, start, end) && RestOf(c, end)
  {
    c := CutFacts(start, end);
    var limit := end / 4096;
    CutIsBoundary(c.first, limit);
    FillsByDivision(c.cut, c.large, Pow2(c.order), c.mid, limit);
    FillsByDivision(c.mid, c.twos, 512, c.rest, limit);
  }

  lemma FillsByDivision(from: nat, n: nat, size: nat, to: nat, limit: nat)
    requires from <= limit && Fills(n, limit - from, size) && to == from + n * size
    ensures size > 0 && n == (limit - from) / size && to == limit - (limit - from) % size
  {
    assert n * size == size * n;
    DivisionUnique(limit - from, size, n, limit - to);
  }

  lemma {:induction false} RowAt(from: nat, order: nat, n: nat, early: bool, i: nat)
    requires i < n
    ensures Row(from, order, n, early)[i] == Piece(from + i * Pow2(order), order, early)
  {
    if i < n - 1 {
      RowAt(from, order, n - 1, early, i);
    }
  }

  lemma RowHas(row: seq<Piece>, from: nat, order: nat, n: nat, early: bool, i: nat)
    requires RowIs(row, from, order, n, early)
    ensures |row| == n && (i < n ==> row[i] == Piece(from + i * Pow2(order), order, early))
  {
    assert RowAs(InLoop, row, from, order, n, early);
    if i < n {
      RowAt(from, order, n, early, i);
    }
  }

  lemma PiecesAreRows(ps: seq<Piece>, c: Cuts, start: nat, end: nat, early: bool)
    returns (early4k: seq<Piece>, rows: seq<seq<Piece>>)
    requires PiecesAre(ps, start, end, early) && CutsAre(c, start, end) && RestOf(c, end)
    ensures RowIs(early4k, c.first, 0, c.cut - c.first, early) && RowsAre(rows, c)
    ensures ps == early4k + (rows[0] + rows[1] + rows[2])
  {
    rows := TheRows(c);
    RowStart(c.first, 0, early);
    early4k := RowOn([], c.first, 0, 0, c.cut - c.first, early);
    var all := early4k + (rows[0] + rows[1] + rows[2]);
    RowsArePieces(c, start, end, early, early4k, rows, all);
    assert PiecesAs(InLoop, ps, start, end, early) && PiecesAs(InLoop, all, start, end, early);
  }

  /**
    Every frame of a range, by address: 4K frames up to the boundary, then as
    many of the largest order that fits as there is room for, then 2M frames,
    then 4K frames.
   */
  function PieceNo(c: Cuts, early: bool, i: nat): Piece
    requires c.first <= c.cut
  {
    var head := c.cut - c.first;
    if i < head then Piece(c.first + i, 0, early)
    else if i < head + c.large then Piece(c.cut + (i - head) * Pow2(c.order), c.order, false)
    else if i < head + c.large + c.twos then Piece(c.mid + (i - head - c.large) * 512, PAGE_ORDER_2M, false)
    else Piece(c.rest + (i - head - c.large - c.twos), 0, false)
  }

  lemma PiecesByAddress(ps: seq<Piece>, c: Cuts, start: nat, end: nat, early: bool)
    requires PiecesAre(ps, start, end, early) && CutsAre(c, start, end) && RestOf(c, end)
    ensures |ps| == c.cut - c.first + c.large + c.twos + c.last
    ensures forall i :: 0 <= i < |ps| ==> ps[i] == PieceNo(c, early, i)
  {
    var head := c.cut - c.first;
    var early4k, rows := PiecesAreRows(ps, c, start, end, early);
    RowHas(early4k, c.first, 0, head, early, 0);
    RowHas(rows[0], c.cut, c.order, c.large, false, 0);
    RowHas(rows[1], c.mid, PAGE_ORDER_2M, c.twos, false, 0);
    RowHas(rows[2], c.rest, 0, c.last, false, 0);
    forall i | 0 <= i < |ps| ensures ps[i] == PieceNo(c, early, i) {
      PieceInRows(ps, c, early, early4k, rows, i);
    }
  }

  lemma PieceInRows(ps: seq<Piece>, c: Cuts, early: bool, early4k: seq<Piece>, rows: seq<seq<Piece>>, i: nat)
    requires c.first <= c.cut && RowIs(early4k, c.first, 0, c.cut - c.first, early) && RowsAre(rows, c)
    requires ps == early4k + (rows[0] + rows[1] + rows[2]) && i < |ps|
    ensures ps[i] == PieceNo(c, early, i)
  {
    var head := c.cut - c.first;
    Pow2Orders();
    RowHas(early4k, c.first, 0, head, early, i);
    if i >= head {
      RowHas(rows[0], c.cut, c.order, c.large, false, i - head);
      if i >= head + c.large {
        RowHas(rows[1], c.mid, PAGE_ORDER_2M, c.twos, false, i - head - c.large);
        if i >= head + c.large + c.twos {
          RowHas(rows[2], c.rest, 0, c.last, false, i - head - c.large - c.twos);
        }
      }
    }
  }

  // ---- whole 2M blocks -------------------------------------------------

  /** A 2M block, given by its first page, that lies whole in a range behind the early part. */
  predicate WholeBlock(b: nat, start: nat, end: nat) {
    start <= end && b % 512 == 0 && Boundary(start / 4096, end / 4096) <= b && b + 512 <= end / 4096
  }

  predicate HoldsBlock(mfn: nat, order: nat, b: nat) {
    order >= PAGE_ORDER_2M && mfn <= b && b + 512 <= mfn + Pow2(order)
  }

  /** Such a block lies whole in one of the frames. */
  lemma BlockInPiece(ps: seq<Piece>, b: nat, start: nat, end: nat, early: bool) returns (p: Piece)
    requires WholeBlock(b, start, end) && PiecesAre(ps, start, end, early)
    ensures p in ps && HoldsBlock(p.mfn, p.order, b)
  {
    var c := CutsByAddress(start, end);
    PiecesByAddress(ps, c, start, end, early);
    CutOf2m(c, start, end);
    var i;
    if b < c.mid {
      i := BlockInLarge(b, c, Pow2(c.order), end, early);
    } else {
      i := BlockInTwos(b, c, end, early);
    }
    p := ps[i];
  }

  /** With room for 2M behind the boundary, the cuts are multiples of 2M. */
  lemma CutOf2m(c: Cuts, start: nat, end: nat)
    requires ByAddress(c, start, end) && RestOf(c, end) && c.cut + 512 <= end / 4096
    ensures c.order >= PAGE_ORDER_2M && c.cut % 512 == c.mid % 512 == Pow2(c.order) % 512 == 0
  {
    LargeOrder(c.order, end / 4096 - c.cut);
    Multiple(c.cut, c.large, Pow2(c.order), c.mid);
  }

  lemma BlockInLarge(b: nat, c: Cuts, size: nat, end: nat, early: bool) returns (i: nat)
    requires b % 512 == c.cut % 512 == size % 512 == 0 && size == Pow2(c.order) && c.order >= PAGE_ORDER_2M
    requires RestOf(c, end) && c.cut <= b < c.mid
    ensures i < c.cut - c.first + c.large
    ensures var p := PieceNo(c, early, i); HoldsBlock(p.mfn, p.order, b)
  {
    var no := BlockInRow(b, c.cut, size, c.large);
    i := c.cut - c.first + no;
    assert PieceNo(c, early, i) == Piece(c.cut + no * size, c.order, false);
  }

  lemma BlockInTwos(b: nat, c: Cuts, end: nat, early: bool) returns (i: nat)
    requires b % 512 == c.mid % 512 == 0 && RestOf(c, end) && c.mid <= b && b + 512 <= end / 4096
    ensures i < c.cut - c.first + c.large + c.twos
    ensures var p := PieceNo(c, early, i); HoldsBlock(p.mfn, p.order, b)
  {
    Pow2Orders();
    var no := TwoNo(b, c.mid, c.twos, end / 4096);
    i := c.cut - c.first + c.large + no;
    assert PieceNo(c, early, i) == Piece(b, PAGE_ORDER_2M, false);
  }

  lemma TwoNo(b: nat, mid: nat, n: nat, limit: nat) returns (no: nat)
    requires b % 512 == mid % 512 == 0 && mid <= b && b + 512 <= limit && Fills(n, limit - mid, 512)
    ensures no < n && b == mid + no * 512
  {
    no := (b - mid) / 512;
  }

  lemma Multiple(cut: nat, n: nat, size: nat, mid: nat)
    requires cut % 512 == size % 512 == 0 && mid == cut + n * size
    ensures mid % 512 == 0
  {
    var k := size / 512;
    assert size == 512 * k;
    Scaled(n, k);
  }

  lemma BlockInRow(b: nat, cut: nat, size: nat, n: nat) returns (i: nat)
    requires b % 512 == cut % 512 == size % 512 == 0 && size > 0 && cut <= b < cut + n * size
    ensures i < n && cut + i * size <= b && b + 512 <= cut + i * size + size
  {
    var d, k := (b - cut) / 512, size / 512;
    assert size == 512 * k && b == cut + 512 * d;
    Scaled(n, k);
    i := InLarge(d, k, n);
    Scaled(i, k);
  }

  lemma Scaled(n: nat, k: nat)
    ensures n * (512 * k) == 512 * (n * k)
  {
  }

  lemma InLarge(d: nat, k: nat, n: nat) returns (i: nat)
    requires k > 0 && d < n * k
    ensures i < n && i * k <= d < i * k + k
  {
    i := d / k;
    assert d == i * k + d % k;
    if n <= i {
      MulLess(n, i, k);
    }
  }

  /** With room for 2M the largest order is at least that, and a multiple of it. */
  lemma LargeOrder(order: nat, pages: nat)
    requires FitsBest(order, pages) && pages >= 512
    ensures order >= PAGE_ORDER_2M && Pow2(order) % 512 == 0
  {
    Pow2Orders();
    if order < PAGE_ORDER_2M {
      Pow2Monotonic(order + 1, PAGE_ORDER_2M);
    } else {
      Pow2Multiple(order);
    }
  }

  lemma {:induction false} Pow2Multiple(order: nat)
    requires order >= PAGE_ORDER_2M
    ensures Pow2(order) % 512 == 0
  {
    Pow2Orders();
    if order > PAGE_ORDER_2M {
      Pow2Multiple(order - 1);
    }
  }

  // ---- the free lists --------------------------------------------------

  /** The frames of one order, as they are added. */
  function FramesOf(ps: seq<Piece>, o: nat): (l: seq<Frame>)
    ensures |l| <= |ps|
  {
    if ps == [] then []
    else
      var p := ps[|ps| - 1];
      FramesOf(ps[..|ps| - 1], o) + if p.order == o then [Frame(p.mfn, o, 0)] else []
  }

  lemma {:induction false} FramesOfHas(ps: seq<Piece>, o: nat, p: Piece)
    requires p in ps && p.order == o
    ensures Frame(p.mfn, o, 0) in FramesOf(ps, o)
  {
    if p != ps[|ps| - 1] {
      FramesOfHas(ps[..|ps| - 1], o, p);
    }
  }

  lemma {:induction false} FramesOfAll(a: seq<Piece>, b: seq<Piece>, o: nat)
    ensures FramesOf(a + b, o) == FramesOf(a, o) + FramesOf(b, o)
  {
    if b == [] {
      assert a + b == a;
    } else {
      FramesOfAll(a, b[..|b| - 1], o);
      assert (a + b)[..|a + b| - 1] == a + b[..|b| - 1];
    }
  }

  lemma {:induction false} FramesOfRow(from: nat, order: nat, n: nat, early: bool, o: nat)
    ensures |FramesOf(Row(from, order, n, early), o)| == if o == order then n else 0
  {
    if n > 0 {
      FramesOfRow(from, order, n - 1, early, o);
      var row := Row(from, order, n, early);
      assert row[..n - 1] == Row(from, order, n - 1, early);
    }
  }

  /** Only 4K frames are queued in front. */
  predicate EarlyAre4k(ps: seq<Piece>) {
    forall p :: p in ps && p.early ==> p.order == 0
  }

  /** Above 4K, a free list gets the frames of its order, one behind the other. */
  lemma {:induction false} ListsAfter(s: Stock, ps: seq<Piece>, o: nat)
    requires |s.free| == ORDERS && Orders(ps) && EarlyAre4k(ps) && 1 <= o < ORDERS && AddAll(s, ps).Some?
    ensures AddAll(s, ps).value.free[o] == s.free[o] + FramesOf(ps, o)
  {
    if ps != [] {
      ListsAfter(s, ps[..|ps| - 1], o);
    }
  }

  lemma FrontStep(s: Stock, f: Frame, early: bool, front: seq<Frame>, back: seq<Frame>)
    returns (front': seq<Frame>, back': seq<Frame>)
    requires CanAdd(s) && f.order < ORDERS && s.free[PAGE_ORDER_4K] == front + back
    ensures Added(s, f, early).free[PAGE_ORDER_4K] == front' + back'
    ensures forall g :: g in front' ==> g in front || (early && f.order == 0 && g == f)
    ensures forall g :: g in back' ==> g in back || (!early && f.order == 0 && g == f)
  {
    front', back' := front, back;
    if Need(s.slots) == 1 {
      if front != [] {
        front' := front[1..];
      } else {
        back' := back[1..];
      }
    }
    assert WithoutFirst(s.free, Need(s.slots))[PAGE_ORDER_4K] == front' + back';
    if f.order == 0 {
      if early {
        front' := [f] + front';
      } else {
        back' := back' + [f];
      }
    }
  }

  /** In the 4K list, what is left of the early frames comes first. */
  lemma {:induction false} EarlyInFront(s: Stock, ps: seq<Piece>) returns (front: seq<Frame>, back: seq<Frame>)
    requires |s.free| == ORDERS && Orders(ps) && s.free[PAGE_ORDER_4K] == [] && AddAll(s, ps).Some?
    ensures AddAll(s, ps).value.free[PAGE_ORDER_4K] == front + back
    ensures forall f :: f in front ==> Piece(f.mfn, 0, true) in ps
    ensures forall f :: f in back ==> Piece(f.mfn, 0, false) in ps
  {
    if ps == [] {
      front, back := [], [];
    } else {
      var p, before := ps[|ps| - 1], AddAll(s, ps[..|ps| - 1]).value;
      front, back := EarlyInFront(s, ps[..|ps| - 1]);
      front, back := FrontStep(before, Frame(p.mfn, p.order, 0), p.early, front, back);
    }
  }

  /**
    What a range is cut into, by address: what starts below the boundary are 4K
    frames, queued in front if the range is the first, and from there on there
    are exactly as many frames of the largest order that fits as there is room for.
   */
  lemma RangeByAddress(ps: seq<Piece>, start: nat, end: nat, early: bool)
    requires start <= end && PiecesAre(ps, start, end, early)
    ensures var limit, cut := end / 4096, Boundary(start / 4096, end / 4096);
            var o := Largest(limit - cut);
            && (forall i :: 0 <= i < |ps| ==> if ps[i].mfn < cut then ps[i] == Piece(start / 4096 + i, 0, early)
                                              else i >= cut - start / 4096 && !ps[i].early)
            && (o >= 1 ==> |FramesOf(ps, o)| == (limit - cut) / Pow2(o))
  {
    var limit, cut := end / 4096, Boundary(start / 4096, end / 4096);
    var c := CutsByAddress(start, end);
    BestIs(Largest(limit - cut), c.order, limit - cut);
    PiecesByAddress(ps, c, start, end, early);
    forall i | 0 <= i < |ps|
      ensures if ps[i].mfn < cut then ps[i] == Piece(start / 4096 + i, 0, early) else i >= cut - c.first && !ps[i].early
    {
      BehindCut(c, end, early, i);
    }
    if c.order >= 1 {
      HowManyOf(ps, c, start, end, early, c.order);
      Pow2Orders();
    }
  }

  lemma BehindCut(c: Cuts, end: nat, early: bool, i: nat)
    requires RestOf(c, end)
    ensures if i < c.cut - c.first then PieceNo(c, early, i) == Piece(c.first + i, 0, early)
            else PieceNo(c, early, i).mfn >= c.cut && !PieceNo(c, early, i).early
  {
    if c.cut - c.first <= i < c.cut - c.first + c.large {
      MulLess(0, i - (c.cut - c.first), Pow2(c.order));
    }
  }

  /** How many frames of each order above 4K a range gives. */
  lemma HowManyOf(ps: seq<Piece>, c: Cuts, start: nat, end: nat, early: bool, o: nat)
    requires PiecesAre(ps, start, end, early) && CutsAre(c, start, end) && RestOf(c, end) && o >= 1
    ensures |FramesOf(ps, o)| ==
      (if o == c.order then c.large else 0) + (if o == PAGE_ORDER_2M then c.twos else 0)
  {
    var early4k, rows := PiecesAreRows(ps, c, start, end, early);
    FramesOfAll(early4k, rows[0] + rows[1] + rows[2], o);
    FramesOfAll(rows[0] + rows[1], rows[2], o);
    FramesOfAll(rows[0], rows[1], o);
    HowManyIn(early4k, c.first, 0, c.cut - c.first, early, o);
    HowManyIn(rows[0], c.cut, c.order, c.large, false, o);
    HowManyIn(rows[1], c.mid, PAGE_ORDER_2M, c.twos, false, o);
    HowManyIn(rows[2], c.rest, 0, c.last, false, o);
  }

  lemma HowManyIn(row: seq<Piece>, from: nat, order: nat, n: nat, early: bool, o: nat)
    requires RowIs(row, from, order, n, early)
    ensures |FramesOf(row, o)| == if o == order then n else 0
  {
    assert RowAs(InLoop, row, from, order, n, early);
    FramesOfRow(from, order, n, early, o);
  }

  // ---- descriptors -----------------------------------------------------

  /** How many descriptors and 4K frames are left. */
  lemma {:induction false} LeftOver(s: Stock, ps: seq<Piece>)
    requires |s.free| == ORDERS && Orders(ps) && AddAll(s, ps).Some?
    ensures var s', n := AddAll(s, ps).value, |ps|;
            && s'.slots == LeftAfter(s.slots, n)
            && |s'.free[PAGE_ORDER_4K]| + Needs(s.slots, n) == |s.free[PAGE_ORDER_4K]| + |FramesOf(ps, 0)|
  {
    if ps != [] {
      LeftOver(s, ps[..|ps| - 1]);
    }
  }

  /** There are too few 4K frames when frame number `j` is to be added. */
  ghost predicate ShortAt(s: Stock, ps: seq<Piece>, j: nat) {
    |s.free| == ORDERS && j < |ps| && |s.free[PAGE_ORDER_4K]| + |FramesOf(ps[..j], 0)| < Needs(s.slots, j + 1)
  }

  lemma {:induction false} StopsIffShort(s: Stock, ps: seq<Piece>)
    requires |s.free| == ORDERS && Orders(ps)
    ensures AddAll(s, ps).None? <==> exists j: nat :: ShortAt(s, ps, j)
  {
    if ps != [] {
      var n, before := |ps| - 1, ps[..|ps| - 1];
      StopsIffShort(s, before);
      assert forall j: nat :: j < n ==> before[..j] == ps[..j];
      assert forall j: nat :: j < n ==> (ShortAt(s, before, j) <==> ShortAt(s, ps, j));
      if AddAll(s, before).Some? {
        LeftOver(s, before);
        assert AddAll(s, ps).None? <==> ShortAt(s, ps, n);
      } else {
        var j: nat :| ShortAt(s, before, j);
        assert ShortAt(s, ps, j);
      }
    }
  }

  /** A page holds the descriptors of 127 frames, and early_frames the first 127. */
  lemma {:induction false} OnePerPage(n: nat)
    requires n >= 1
    ensures Needs(127, n) == (n - 1) / 127 && LeftAfter(127, n) == 126 - (n - 1) % 127
  {
    if n > 1 {
      OnePerPage(n - 1);
    }
  }

  /** Among the first `j` frames there is no 4K frame for each 127 of them. */
  ghost predicate TooFew4k(ps: seq<Piece>, j: nat) {
    j < |ps| && |FramesOf(ps[..j], 0)| < j / 127
  }

  lemma RunsOutIff(ps: seq<Piece>)
    requires Orders(ps)
    ensures AddAll(EarlyStock(), ps).None? <==> exists j: nat :: TooFew4k(ps, j)
  {
    var s := EarlyStock();
    StopsIffShort(s, ps);
    forall j: nat ensures ShortAt(s, ps, j) <==> TooFew4k(ps, j) {
      OnePerPage(j + 1);
    }
  }

  // ---- all regions -----------------------------------------------------

  lemma {:induction false} InConcat(parts: seq<seq<Piece>>, p: Piece)
    ensures p in Concat(parts) <==> exists i :: 0 <= i < |parts| && p in parts[i]
  {
    if parts != [] {
      var n := |parts| - 1;
      InConcat(parts[..n], p);
      if p in Concat(parts[..n]) {
        var i :| 0 <= i < n && p in parts[..n][i];
        assert p in parts[i];
      } else if p in parts[n] {
      } else {
        forall i | 0 <= i < |parts| ensures p !in parts[i] {
          assert i < n ==> parts[..n][i] == parts[i];
        }
      }
    }
  }

  /** A 2M block that lies whole in one of the regions behind its early part. */
  ghost predicate WholeIn(b: nat, regions: seq<Region>) {
    exists i :: 0 <= i < |regions| && WholeBlock(b, regions[i].start, regions[i].end)
  }

  /** It lies whole in a free frame. */
  ghost predicate BlockFree(free: Lists, b: nat) {
    exists o: nat, f :: o < |free| && f in free[o] && HoldsBlock(f.mfn, o, b)
  }

  lemma WholePiece(b: nat, regions: seq<Region>) returns (p: Piece)
    requires RegionsOk(regions) && WholeIn(b, regions)
    ensures p in AllPieces(regions) && HoldsBlock(p.mfn, p.order, b)
  {
    var i :| 0 <= i < |regions| && WholeBlock(b, regions[i].start, regions[i].end);
    assert regions[i] in regions;
    var ps := PartsOf(regions)[i];
    assert PiecesAre(ps, regions[i].start, regions[i].end, i == 0);
    p := BlockInPiece(ps, b, regions[i].start, regions[i].end, i == 0);
    InConcat(PartsOf(regions), p);
  }

  lemma AllEarlyAre4k(regions: seq<Region>)
    requires RegionsOk(regions)
    ensures EarlyAre4k(AllPieces(regions))
  {
    var parts := PartsOf(regions);
    forall p | p in AllPieces(regions) && p.early ensures p.order == 0 {
      InConcat(parts, p);
      var i :| 0 <= i < |parts| && p in parts[i];
    }
  }

  /** What init_pmm leaves: above 4K each list holds the frames of its order. */
  lemma ListsAfterInit(regions: seq<Region>, s: Stock)
    requires RegionsOk(regions) && StockIs(EarlyStock(), AllPieces(regions), Some(s))
    ensures |s.free| == ORDERS
    ensures forall o :: 1 <= o < ORDERS ==> s.free[o] == FramesOf(AllPieces(regions), o)
  {
    AllEarlyAre4k(regions);
    ListsOfAll(AllPieces(regions), s);
  }

  lemma ListsOfAll(ps: seq<Piece>, s: Stock)
    requires EarlyAre4k(ps) && StockIs(EarlyStock(), ps, Some(s))
    ensures |s.free| == ORDERS && forall o :: 1 <= o < ORDERS ==> s.free[o] == FramesOf(ps, o)
  {
    StockValue(EarlyStock(), ps, Some(s));
    forall o | 1 <= o < ORDERS ensures s.free[o] == FramesOf(ps, o) {
      ListsAfter(EarlyStock(), ps, o);
    }
  }

  /** Every whole 2M block is free in a frame that holds it. */
  lemma BlocksAfterInit(regions: seq<Region>, s: Stock)
    requires RegionsOk(regions) && |s.free| == ORDERS
    requires forall o :: 1 <= o < ORDERS ==> s.free[o] == FramesOf(AllPieces(regions), o)
    ensures forall b: nat :: WholeIn(b, regions) ==> BlockFree(s.free, b)
  {
    forall b: nat | WholeIn(b, regions) ensures BlockFree(s.free, b) {
      var p := WholePiece(b, regions);
      FramesOfHas(AllPieces(regions), p.order, p);
      assert Frame(p.mfn, p.order, 0) in s.free[p.order];
    }
  }

  /** How many pages the descriptors of `n` frames take, beside those of early_frames. */
  function DescriptorPages(n: nat): nat {
    if n == 0 then 0 else (n - 1) / 127
  }

  /** How many 4K frames it leaves. */
  lemma PagesAfterInit(regions: seq<Region>, s: Stock)
    requires RegionsOk(regions) && StockIs(EarlyStock(), AllPieces(regions), Some(s)) && |s.free| == ORDERS
    ensures var ps := AllPieces(regions);
            |s.free[PAGE_ORDER_4K]| + DescriptorPages(|ps|) == |FramesOf(ps, 0)|
  {
    PagesOfAll(AllPieces(regions), s);
  }

  lemma PagesOfAll(ps: seq<Piece>, s: Stock)
    requires StockIs(EarlyStock(), ps, Some(s)) && |s.free| == ORDERS
    ensures |s.free[PAGE_ORDER_4K]| + DescriptorPages(|ps|) == |FramesOf(ps, 0)|
  {
    StockValue(EarlyStock(), ps, Some(s));
    LeftOver(EarlyStock(), ps);
    if ps != [] {
      OnePerPage(|ps|);
    }
  }

  /** It stops exactly if the 4K frames run out. */
  lemma InitStops(regions: seq<Region>, s: Option<Stock>)
    requires RegionsOk(regions) && StockIs(EarlyStock(), AllPieces(regions), s)
    ensures s.None? <==> exists j: nat :: TooFew4k(AllPieces(regions), j)
  {
    StockValue(EarlyStock(), AllPieces(regions), s);
    RunsOutIff(AllPieces(regions));
  }

  // ---- memory maps with enough 4K frames -------------------------------

  lemma {:induction false} StartsWith(parts: seq<seq<Piece>>)
    requires parts != []
    ensures parts[0] <= Concat(parts)
  {
    if |parts| > 1 {
      StartsWith(parts[..|parts| - 1]);
    } else {
      assert Concat(parts) == Concat(parts[..0]) + parts[0];
    }
  }

  lemma {:induction false} PrefixOf4k(ps: seq<Piece>, n: nat, j: nat)
    requires n <= |ps| && j <= |ps| && forall i :: 0 <= i < n ==> ps[i].order == 0
    ensures |FramesOf(ps[..j], 0)| >= if j < n then j else n
  {
    if j > 0 {
      PrefixOf4k(ps, n, j - 1);
      assert ps[..j][..j - 1] == ps[..j - 1];
    }
  }

  /**
    Enough is one early 4K frame for each 127 frames there are: then the kernel
    does not stop.
   */
  lemma EnoughEarly(regions: seq<Region>)
    requires RegionsOk(regions) && regions != [] && regions[0] in regions
    requires var r := regions[0];
             var early := Boundary(r.start / 4096, r.end / 4096) - r.start / 4096;
             |AllPieces(regions)| <= 127 * early + 127
    ensures AddAll(EarlyStock(), AllPieces(regions)).Some?
  {
    var r, ps, part := regions[0], AllPieces(regions), PartsOf(regions)[0];
    var early := Boundary(r.start / 4096, r.end / 4096) - r.start / 4096;
    StartsWith(PartsOf(regions));
    FirstAre4k(part, r.start, r.end, early);
    forall j: nat | j < |ps| ensures !TooFew4k(ps, j) {
      PrefixOf4k(ps, early, j);
    }
    RunsOutIff(ps);
  }

  lemma FirstAre4k(ps: seq<Piece>, start: nat, end: nat, n: nat)
    requires start <= end && PiecesAre(ps, start, end, true) && n == Boundary(start / 4096, end / 4096) - start / 4096
    ensures n <= |ps| && forall i :: 0 <= i < n ==> ps[i].order == 0
  {
    var c := CutsByAddress(start, end);
    PiecesByAddress(ps, c, start, end, true);
  }
}
