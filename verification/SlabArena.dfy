/**
  The structure behind kmalloc and kfree of mm/slab.c: descriptors
  (meta_slab_t) at addresses inside descriptor pages, a list of them for each
  order, and what every change of them keeps.
 */
module SlabArena {
  import opened Frames
  import opened Bits
  import opened Arithmetic

  const SLAB_ORDER_MAX: nat := 8

  /** SLAB_SIZE_16 .. SLAB_SIZE_2048 */
  function SizeOf(order: nat): nat {
    match order
    case 0 => 16
    case 1 => 32
    case 2 => 64
    case 3 => 128
    case 4 => 256
    case 5 => 512
    case 6 => 1024
    case _ => 2048
  }

  /** meta_slab_t, with its free list as the addresses of the blocks. */
  datatype MetaSlab = MetaSlab(base: nat, len: nat, size: nat, allocs: nat, free: seq<nat>)

  // ---- blocks of one slab ----------------------------------------------

  ghost function Blocks(base: nat, size: nat, n: nat): set<nat> {
    if n == 0 then {} else Blocks(base, size, n - 1) + {base + (n - 1) * size}
  }

  ghost function Elems(l: seq<nat>): set<nat> {
    set x | x in l
  }

  ghost predicate NoDup(l: seq<nat>) {
    forall i, j :: 0 <= i < j < |l| ==> l[i] != l[j]
  }

  ghost function Grid(s: MetaSlab): set<nat>
    requires s.size > 0
  {
    Blocks(s.base, s.size, s.len / s.size)
  }

  /** The blocks that are handed out: all that are not on the free list. */
  ghost function Used(s: MetaSlab): set<nat>
    requires s.size > 0
  {
    Grid(s) - Elems(s.free)
  }

  /** Free list and count agree, and neither field overflows its bits. */
  ghost predicate Counts(s: MetaSlab) {
    && 0 < s.size < 4096 && s.len / s.size < 1024
    && NoDup(s.free) && Elems(s.free) <= Grid(s) && s.allocs + |s.free| == s.len / s.size
  }

  lemma {:induction false} BlocksCount(base: nat, size: nat, n: nat)
    requires size > 0
    ensures |Blocks(base, size, n)| == n
    ensures forall b :: b in Blocks(base, size, n) ==> base <= b && b + size <= base + n * size
  {
    if n > 0 {
      BlocksCount(base, size, n - 1);
      assert n * size == (n - 1) * size + size;
    }
  }

  /** Two blocks do not overlap. */
  lemma {:induction false} BlocksApart(base: nat, size: nat, n: nat, b: nat, b': nat)
    requires size > 0 && b in Blocks(base, size, n) && b' in Blocks(base, size, n) && b != b'
    ensures b + size <= b' || b' + size <= b
  {
    BlocksCount(base, size, n - 1);
    if b in Blocks(base, size, n - 1) && b' in Blocks(base, size, n - 1) {
      BlocksApart(base, size, n - 1, b, b');
    }
  }

  lemma {:induction false} BlocksAligned(base: nat, size: nat, n: nat, b: nat)
    requires size > 0 && base % size == 0 && b in Blocks(base, size, n)
    ensures b % size == 0
  {
    if b in Blocks(base, size, n - 1) {
      BlocksAligned(base, size, n - 1, b);
    } else {
      MultipleOf(base, size, n - 1);
    }
  }

  lemma MultipleOf(base: nat, size: nat, k: nat)
    requires size > 0 && base % size == 0
    ensures (base + k * size) % size == 0
  {
    var q := base / size;
    assert base + k * size == size * (q + k) + 0 by {
      assert base == size * q;
      assert k * size == size * k;
      assert size * q + size * k == size * (q + k);
    }
    DivisionUnique(base + k * size, size, q + k, 0);
  }

  lemma {:induction false} ElemsCount(l: seq<nat>)
    requires NoDup(l)
    ensures |Elems(l)| == |l|
  {
    if l != [] {
      var rest := l[1..];
      ElemsCount(rest);
      assert Elems(l) == {l[0]} + Elems(rest);
    }
  }

  /** slab_allocs counts the blocks handed out. */
  lemma UsedCount(s: MetaSlab)
    requires Counts(s)
    ensures |Used(s)| == s.allocs
  {
    BlocksCount(s.base, s.size, s.len / s.size);
    ElemsCount(s.free);
  }

  /** Block `r` was handed out. */
  ghost predicate Taken(s: MetaSlab, s': MetaSlab, r: nat)
    requires s.size > 0
  {
    && Counts(s') && s'.base == s.base && s'.len == s.len && s'.size == s.size && s'.allocs == s.allocs + 1
    && r !in Used(s) && Used(s') == Used(s) + {r}
  }

  /** Block `r` was given back. */
  ghost predicate Freed(s: MetaSlab, s': MetaSlab, r: nat)
    requires s.size > 0
  {
    && Counts(s') && s'.base == s.base && s'.len == s.len && s'.size == s.size && s'.allocs + 1 == s.allocs
    && Used(s') == Used(s) - {r}
  }

  lemma TakeFirst(s: MetaSlab)
    requires Counts(s) && s.free != []
    ensures s.allocs < s.len / s.size
    ensures Taken(s, s.(free := s.free[1..], allocs := s.allocs + 1), s.free[0])
  {
    var s' := s.(free := s.free[1..], allocs := s.allocs + 1);
    assert Elems(s.free) == {s.free[0]} + Elems(s'.free);
    assert s.free[0] !in Elems(s'.free);
    assert s.free[0] in Elems(s.free);
    assert Used(s') == Used(s) + {s.free[0]};
  }

  lemma PutLast(s: MetaSlab, r: nat)
    requires Counts(s) && r in Used(s)
    ensures s.allocs > 0
    ensures Freed(s, s.(free := s.free + [r], allocs := s.allocs - 1), r)
  {
    UsedCount(s);
    assert Used(s) != {};
    var s' := s.(free := s.free + [r], allocs := s.allocs - 1);
    assert s'.free[|s.free|] == r;
    assert Elems(s'.free) == Elems(s.free) + {r};
    assert Used(s') == Used(s) - {r};
  }

  // ---- all slabs -------------------------------------------------------

  /** meta_slab_list, meta_slab_page_list, and the descriptors by address. */
  datatype Arena = Arena(lists: seq<seq<nat>>, pages: seq<nat>, mem: map<nat, MetaSlab>)

  /** META_SLAB_PAGE_ENTRY */
  function PageEntry(x: nat): nat {
    x / 4096 * 4096
  }

  ghost predicate Listed(lists: seq<seq<nat>>, x: nat) {
    exists o :: 0 <= o < |lists| && x in lists[o]
  }

  /** A descriptor page: its first entry describes the 63 others. */
  ghost predicate PageOk(a: Arena, p: nat) {
    && p in a.mem && p > 0 && p % 4096 == 0 && Counts(a.mem[p])
    && a.mem[p].base == p + 64 && a.mem[p].len == 4032 && a.mem[p].size == 64
  }

  /** A slab of order `o`: a page of its own, at least one block handed out, and a descriptor from a descriptor page. */
  ghost predicate SlabOk(a: Arena, o: nat, x: nat) {
    && x in a.mem && Counts(a.mem[x]) && a.mem[x].allocs >= 1
    && a.mem[x].base > 0 && a.mem[x].base % 4096 == 0 && a.mem[x].len == 4096 && a.mem[x].size == SizeOf(o)
    && a.mem[x].base !in a.pages && InPage(a, x)
  }

  /** Address `x` is a descriptor handed out by its page. */
  ghost predicate InPage(a: Arena, x: nat) {
    var p := PageEntry(x);
    p in a.pages && p in a.mem && a.mem[p].size > 0 && x in Used(a.mem[p])
  }

  /** Descriptors handed out are listed, except for those in `spare`. */
  ghost predicate Inv(a: Arena, spare: set<nat>) {
    && |a.lists| == SLAB_ORDER_MAX && NoDup(a.pages)
    && (forall p :: p in a.pages ==> PageOk(a, p))
    && (forall o :: 0 <= o < |a.lists| ==> NoDup(a.lists[o]))
    && (forall o, x :: 0 <= o < |a.lists| && x in a.lists[o] ==> SlabOk(a, o, x))
    && (forall x, y :: Listed(a.lists, x) && Listed(a.lists, y) && x != y && x in a.mem && y in a.mem ==>
                         a.mem[x].base != a.mem[y].base)
    && (forall x :: InPage(a, x) ==> Listed(a.lists, x) || x in spare)
    && (forall x :: x in spare ==> InPage(a, x) && !Listed(a.lists, x))
  }

  /** A block the allocator has handed out. */
  ghost predicate Live(a: Arena, b: nat) {
    exists x :: Listed(a.lists, x) && x in a.mem && a.mem[x].size > 0 && b in Used(a.mem[x])
  }

  ghost predicate LiveSame(a: Arena, a': Arena) {
    forall b :: Live(a', b) <==> Live(a, b)
  }

  ghost predicate LivePlus(a: Arena, a': Arena, r: nat) {
    !Live(a, r) && forall b :: Live(a', b) <==> Live(a, b) || b == r
  }

  ghost predicate LiveMinus(a: Arena, a': Arena, r: nat) {
    forall b :: Live(a', b) <==> Live(a, b) && b != r
  }

  /** Descriptors do not stand at the start of their page, where that of the page itself is. */
  lemma DescriptorOffset(a: Arena, x: nat)
    requires PageOk(a, PageEntry(x)) && x in Grid(a.mem[PageEntry(x)])
    ensures x % 4096 >= 64
  {
    var p := PageEntry(x);
    BlocksCount(p + 64, 64, 63);
  }

  /** Entries of a descriptor page lie in that page. */
  lemma EntryInPage(a: Arena, p: nat, x: nat)
    requires PageOk(a, p) && x in Grid(a.mem[p])
    ensures PageEntry(x) == p && x % 4096 >= 64
  {
    BlocksCount(p + 64, 64, 63);
  }

  /** Blocks of a slab lie in the slab's page. */
  lemma BlockInPage(a: Arena, o: nat, x: nat, b: nat)
    requires SlabOk(a, o, x) && b in Grid(a.mem[x])
    ensures PageEntry(b) == a.mem[x].base && a.mem[x].base <= b < a.mem[x].base + 4096
  {
    var s := a.mem[x];
    BlocksCount(s.base, s.size, s.len / s.size);
    assert (s.len / s.size) * s.size <= 4096;
    PageOf(s.base, b);
  }

  lemma PageOf(base: nat, b: nat)
    requires base % 4096 == 0 && base <= b < base + 4096
    ensures PageEntry(b) == base
  {
  }

  lemma ListedOk(a: Arena, x: nat, spare: set<nat>)
    requires Inv(a, spare) && Listed(a.lists, x)
    ensures InPage(a, x) && x % 4096 >= 64 && x in a.mem && Counts(a.mem[x]) && x !in a.pages
    ensures a.mem[x].base !in a.pages
    ensures forall b :: b in Grid(a.mem[x]) ==> PageEntry(b) == a.mem[x].base
  {
    var o :| 0 <= o < |a.lists| && x in a.lists[o];
    assert SlabOk(a, o, x);
    DescriptorOffset(a, x);
    forall b | b in Grid(a.mem[x]) ensures PageEntry(b) == a.mem[x].base {
      BlockInPage(a, o, x, b);
    }
  }

  /** A block belongs to one slab only. */
  lemma OneOwner(a: Arena, spare: set<nat>, x: nat, y: nat, b: nat)
    requires Inv(a, spare) && Listed(a.lists, x) && Listed(a.lists, y) && x in a.mem && y in a.mem
    requires a.mem[x].size > 0 && a.mem[y].size > 0 && b in Grid(a.mem[x]) && b in Grid(a.mem[y])
    ensures x == y
  {
    ListedOk(a, x, spare);
    ListedOk(a, y, spare);
  }

  // ---- steps -----------------------------------------------------------

  /** The blocks in use other than those of slab `x` stay in use. */
  lemma LiveBut(a: Arena, a': Arena, x: nat, b: nat)
    requires a'.lists == a.lists && Listed(a.lists, x) && x in a.mem && x in a'.mem && a'.mem == a.mem[x := a'.mem[x]]
    requires a'.mem[x].size == a.mem[x].size > 0
    requires b in Used(a'.mem[x]) <==> b in Used(a.mem[x])
    ensures Live(a', b) <==> Live(a, b)
  {
    if Live(a', b) {
      var y :| Listed(a.lists, y) && y in a'.mem && a'.mem[y].size > 0 && b in Used(a'.mem[y]);
      assert y in a.mem && b in Used(a.mem[y]);
    }
    if Live(a, b) {
      var y :| Listed(a.lists, y) && y in a.mem && a.mem[y].size > 0 && b in Used(a.mem[y]);
      assert y in a'.mem && b in Used(a'.mem[y]);
    }
  }

  /** A block of a slab is in use exactly if that slab says so. */
  lemma LiveHere(a: Arena, spare: set<nat>, x: nat, b: nat)
    requires Inv(a, spare) && Listed(a.lists, x) && x in a.mem && a.mem[x].size > 0 && b in Grid(a.mem[x])
    ensures Live(a, b) <==> b in Used(a.mem[x])
  {
    if Live(a, b) {
      var y :| Listed(a.lists, y) && y in a.mem && a.mem[y].size > 0 && b in Used(a.mem[y]);
      OneOwner(a, spare, x, y, b);
    }
  }

  /** slab_alloc from a listed slab. */
  lemma SlabTaken(a: Arena, a': Arena, x: nat, r: nat)
    requires Inv(a, {}) && Listed(a.lists, x) && x in a.mem && x in a'.mem && a' == a.(mem := a.mem[x := a'.mem[x]])
    requires a.mem[x].size > 0 && Taken(a.mem[x], a'.mem[x], r)
    ensures Inv(a', {}) && LivePlus(a, a', r)
  {
    ListedOk(a, x, {});
    SameDescriptors(a, a', x);
    assert r in Used(a'.mem[x]);
    LiveHere(a, {}, x, r);
    forall b ensures Live(a', b) <==> Live(a, b) || b == r {
      if b != r {
        LiveBut(a, a', x, b);
      }
    }
  }

  /** slab_free of a block, when others of the slab remain. */
  lemma SlabFreed(a: Arena, a': Arena, x: nat, r: nat)
    requires Inv(a, {}) && Listed(a.lists, x) && x in a.mem && x in a'.mem && a' == a.(mem := a.mem[x := a'.mem[x]])
    requires a.mem[x].size > 0 && r in Used(a.mem[x]) && Freed(a.mem[x], a'.mem[x], r) && a'.mem[x].allocs >= 1
    ensures Inv(a', {}) && LiveMinus(a, a', r)
  {
    ListedOk(a, x, {});
    SameDescriptors(a, a', x);
    LiveHere(a', {}, x, r);
    forall b ensures Live(a', b) <==> Live(a, b) && b != r {
      if b != r {
        LiveBut(a, a', x, b);
      }
    }
  }

  /** Changing the free list of one slab leaves the structure as it is. */
  lemma SameDescriptors(a: Arena, a': Arena, x: nat)
    requires Inv(a, {}) && Listed(a.lists, x) && x in a.mem && x in a'.mem && a' == a.(mem := a.mem[x := a'.mem[x]])
    requires x % 4096 >= 64 && Counts(a'.mem[x]) && a'.mem[x].allocs >= 1
    requires a'.mem[x].base == a.mem[x].base && a'.mem[x].len == a.mem[x].len && a'.mem[x].size == a.mem[x].size
    ensures Inv(a', {})
  {
    forall y ensures InPage(a', y) <==> InPage(a, y) {
    }
    forall o, y | 0 <= o < |a'.lists| && y in a'.lists[o] ensures SlabOk(a', o, y) {
      assert SlabOk(a, o, y);
    }
    forall p | p in a'.pages ensures PageOk(a', p) {
      assert PageOk(a, p);
    }
  }

  /** The structure above a descriptor page whose free list changed. */
  ghost predicate PageChanged(a: Arena, a': Arena, p: nat) {
    && p in a.pages && p in a.mem && p in a'.mem && a' == a.(mem := a.mem[p := a'.mem[p]])
    && a.mem[p].size > 0 && Counts(a'.mem[p])
    && a'.mem[p].base == a.mem[p].base && a'.mem[p].len == a.mem[p].len && a'.mem[p].size == a.mem[p].size
  }

  lemma PageChangedKeeps(a: Arena, a': Arena, p: nat, spare: set<nat>)
    requires Inv(a, spare) && PageChanged(a, a', p)
    ensures forall q :: q in a'.pages ==> PageOk(a', q)
    ensures forall y :: Listed(a.lists, y) ==> y in a.mem && y in a'.mem && a'.mem[y] == a.mem[y]
    ensures LiveSame(a, a')
  {
    forall q | q in a'.pages ensures PageOk(a', q) {
      assert PageOk(a, q);
    }
    forall y | Listed(a.lists, y) ensures y in a.mem && y in a'.mem && a'.mem[y] == a.mem[y] {
      ListedOk(a, y, spare);
    }
  }

  /** slab_alloc from a descriptor page: the new descriptor is spare until it is listed. */
  lemma PageTaken(a: Arena, a': Arena, p: nat, r: nat)
    requires Inv(a, {}) && PageChanged(a, a', p) && Taken(a.mem[p], a'.mem[p], r)
    ensures Inv(a', {r}) && LiveSame(a, a')
  {
    PageChangedKeeps(a, a', p, {});
    assert r in Used(a'.mem[p]);
    EntryInPage(a', p, r);
    forall y ensures InPage(a', y) <==> InPage(a, y) || y == r {
    }
    assert !InPage(a, r);
    forall o, y | 0 <= o < |a'.lists| && y in a'.lists[o] ensures SlabOk(a', o, y) {
      assert SlabOk(a, o, y) && Listed(a.lists, y);
    }
  }

  /** slab_free of a descriptor that is not listed. */
  lemma PageFreed(a: Arena, a': Arena, p: nat, r: nat)
    requires Inv(a, {r}) && p == PageEntry(r) && PageChanged(a, a', p) && Freed(a.mem[p], a'.mem[p], r)
    ensures Inv(a', {}) && LiveSame(a, a')
  {
    PageChangedKeeps(a, a', p, {r});
    forall y ensures InPage(a', y) <==> InPage(a, y) && y != r {
    }
    forall o, y | 0 <= o < |a'.lists| && y in a'.lists[o] ensures SlabOk(a', o, y) {
      assert SlabOk(a, o, y) && Listed(a.lists, y);
    }
  }

  /** A page that neither holds descriptors nor is a slab. */
  ghost predicate Unused(a: Arena, p: nat) {
    && p > 0 && p % 4096 == 0 && p !in a.pages
    && forall x :: Listed(a.lists, x) && x in a.mem ==> a.mem[x].base != p
  }

  /** slab_meta_alloc sets up a new descriptor page. */
  lemma PageAdded(a: Arena, a': Arena, p: nat)
    requires Inv(a, {}) && Unused(a, p) && p in a'.mem && a' == Arena(a.lists, [p] + a.pages, a.mem[p := a'.mem[p]])
    requires PageOk(a', p) && Used(a'.mem[p]) == {}
    ensures Inv(a', {}) && LiveSame(a, a')
  {
    assert a'.pages[0] == p;
    forall q | q in a'.pages ensures PageOk(a', q) {
      assert q != p ==> PageOk(a, q);
    }
    forall y ensures InPage(a', y) <==> InPage(a, y) {
      assert InPage(a, y) ==> PageOk(a, PageEntry(y));
    }
    forall y | Listed(a.lists, y) ensures y in a.mem && y in a'.mem && a'.mem[y] == a.mem[y] {
      ListedOk(a, y, {});
    }
    forall o, y | 0 <= o < |a'.lists| && y in a'.lists[o] ensures SlabOk(a', o, y) {
      assert SlabOk(a, o, y) && Listed(a.lists, y);
    }
  }

  /** ktf_free returns an empty descriptor page. */
  lemma PageGone(a: Arena, a': Arena, i: nat)
    requires Inv(a, {}) && i < |a.pages| && a.pages[i] in a.mem && a.mem[a.pages[i]].allocs == 0
    requires a' == a.(pages := a.pages[..i] + a.pages[i + 1..])
    ensures Inv(a', {}) && LiveSame(a, a') && a.pages[i] !in a'.pages
  {
    var p := a.pages[i];
    assert PageOk(a, p);
    UsedCount(a.mem[p]);
    forall q ensures q in a'.pages <==> q in a.pages && q != p {
      InRest(a.pages, i, q);
    }
    RestNoDup(a.pages, i);
    forall y ensures InPage(a', y) <==> InPage(a, y) {
    }
    forall q | q in a'.pages ensures PageOk(a', q) {
      assert PageOk(a, q);
    }
    forall o, y | 0 <= o < |a'.lists| && y in a'.lists[o] ensures SlabOk(a', o, y) {
      assert SlabOk(a, o, y);
    }
  }

  lemma InRest(l: seq<nat>, i: nat, q: nat)
    requires i < |l| && NoDup(l)
    ensures q in l[..i] + l[i + 1..] <==> q in l && q != l[i]
  {
    if q in l && q != l[i] {
      var j :| 0 <= j < |l| && l[j] == q;
      assert (l[..i] + l[i + 1..])[if j < i then j else j - 1] == q;
    }
  }

  lemma RestNoDup(l: seq<nat>, i: nat)
    requires i < |l| && NoDup(l)
    ensures NoDup(l[..i] + l[i + 1..])
  {
  }

  lemma ListedAfterAdd(lists: seq<seq<nat>>, o: nat, x: nat, y: nat)
    requires o < |lists|
    ensures Listed(lists[o := [x] + lists[o]], y) <==> Listed(lists, y) || y == x
  {
    var lists' := lists[o := [x] + lists[o]];
    if Listed(lists, y) {
      var k :| 0 <= k < |lists| && y in lists[k];
      assert y in lists'[k];
    }
    assert x in lists'[o];
  }

  /** A descriptor that was spare becomes a slab of order `o` with one block handed out. */
  lemma SlabAdded(a: Arena, a': Arena, o: nat, x: nat, r: nat)
    requires Inv(a, {x}) && o < SLAB_ORDER_MAX && x in a'.mem
    requires a' == Arena(a.lists[o := [x] + a.lists[o]], a.pages, a.mem[x := a'.mem[x]])
    requires Counts(a'.mem[x]) && a'.mem[x].len == 4096 && a'.mem[x].size == SizeOf(o) && Unused(a, a'.mem[x].base)
    requires a'.mem[x].allocs == 1 && Used(a'.mem[x]) == {r}
    ensures Inv(a', {}) && LivePlus(a, a', r)
  {
    assert InPage(a, x) && PageOk(a, PageEntry(x));
    DescriptorOffset(a, x);
    AddedStructure(a, a', o, x);
    assert r in Used(a'.mem[x]);
    BlockInPage(a', o, x, r);
    if Live(a, r) {
      var y :| Listed(a.lists, y) && y in a.mem && a.mem[y].size > 0 && r in Used(a.mem[y]);
      ListedOk(a, y, {x});
    }
    forall b ensures Live(a', b) <==> Live(a, b) || b == r {
      AddedLive(a, a', o, x, r, b);
    }
  }

  lemma AddedLive(a: Arena, a': Arena, o: nat, x: nat, r: nat, b: nat)
    requires o < |a.lists| && !Listed(a.lists, x) && x in a'.mem && a'.mem[x].size > 0 && Used(a'.mem[x]) == {r}
    requires a' == Arena(a.lists[o := [x] + a.lists[o]], a.pages, a.mem[x := a'.mem[x]])
    ensures Live(a', b) <==> Live(a, b) || b == r
  {
    ListedAfterAdd(a.lists, o, x, x);
    if Live(a, b) {
      var y :| Listed(a.lists, y) && y in a.mem && a.mem[y].size > 0 && b in Used(a.mem[y]);
      ListedAfterAdd(a.lists, o, x, y);
      assert y in a'.mem && b in Used(a'.mem[y]);
    }
    if Live(a', b) {
      var y :| Listed(a'.lists, y) && y in a'.mem && a'.mem[y].size > 0 && b in Used(a'.mem[y]);
      ListedAfterAdd(a.lists, o, x, y);
    }
    assert b == r ==> b in Used(a'.mem[x]);
  }

  lemma AddedStructure(a: Arena, a': Arena, o: nat, x: nat)
    requires Inv(a, {x}) && o < SLAB_ORDER_MAX && x in a'.mem && x % 4096 >= 64
    requires a' == Arena(a.lists[o := [x] + a.lists[o]], a.pages, a.mem[x := a'.mem[x]])
    requires Counts(a'.mem[x]) && a'.mem[x].len == 4096 && a'.mem[x].size == SizeOf(o) && Unused(a, a'.mem[x].base)
    requires a'.mem[x].allocs == 1
    ensures Inv(a', {}) && SlabOk(a', o, x)
  {
    forall q | q in a'.pages ensures PageOk(a', q) {
      assert PageOk(a, q);
    }
    forall y ensures InPage(a', y) <==> InPage(a, y) {
      assert InPage(a, y) ==> PageOk(a, PageEntry(y));
    }
    forall y ensures Listed(a'.lists, y) <==> Listed(a.lists, y) || y == x {
      ListedAfterAdd(a.lists, o, x, y);
    }
    forall k, y | 0 <= k < |a'.lists| && y in a'.lists[k] ensures SlabOk(a', k, y) {
      if y != x {
        assert y in a.lists[k];
        assert SlabOk(a, k, y);
      }
    }
    NoDupAdd(a.lists, a'.lists, o, x);
  }

  lemma NoDupAdd(lists: seq<seq<nat>>, lists': seq<seq<nat>>, o: nat, x: nat)
    requires o < |lists| && !Listed(lists, x) && forall k :: 0 <= k < |lists| ==> NoDup(lists[k])
    requires lists' == lists[o := [x] + lists[o]]
    ensures forall k :: 0 <= k < |lists'| ==> NoDup(lists'[k])
  {
    assert x !in lists[o];
  }

  /** A slab whose last block is given back leaves its list; its descriptor is spare, its page unused. */
  lemma SlabGone(a: Arena, a': Arena, o: nat, i: nat, r: nat)
    requires Inv(a, {}) && o < SLAB_ORDER_MAX && i < |a.lists[o]| && a.lists[o][i] in a.mem && a.lists[o][i] in a'.mem
    requires a.mem[a.lists[o][i]].size > 0 && Used(a.mem[a.lists[o][i]]) == {r}
    requires a' == Arena(a.lists[o := a.lists[o][..i] + a.lists[o][i + 1..]], a.pages,
                         a.mem[a.lists[o][i] := a'.mem[a.lists[o][i]]])
    ensures Inv(a', {a.lists[o][i]}) && LiveMinus(a, a', r) && Unused(a', a.mem[a.lists[o][i]].base)
  {
    var x := a.lists[o][i];
    assert Listed(a.lists, x);
    ListedOk(a, x, {});
    forall y ensures Listed(a'.lists, y) <==> Listed(a.lists, y) && y != x {
      ListedAfterRemove(a, o, i, y);
    }
    RestNoDup(a.lists[o], i);
    forall q | q in a'.pages ensures PageOk(a', q) {
      assert PageOk(a, q);
    }
    forall y ensures InPage(a', y) <==> InPage(a, y) {
      assert InPage(a, y) ==> PageOk(a, PageEntry(y));
    }
    forall k, y | 0 <= k < |a'.lists| && y in a'.lists[k] ensures SlabOk(a', k, y) {
      assert Listed(a'.lists, y);
      InRest(a.lists[o], i, y);
      assert SlabOk(a, k, y);
    }
    forall b ensures Live(a', b) <==> Live(a, b) && b != r {
      GoneLive(a, a', x, r, b);
    }
  }

  lemma ListedAfterRemove(a: Arena, o: nat, i: nat, y: nat)
    requires Inv(a, {}) && o < SLAB_ORDER_MAX && i < |a.lists[o]|
    ensures Listed(a.lists[o := a.lists[o][..i] + a.lists[o][i + 1..]], y) <==> Listed(a.lists, y) && y != a.lists[o][i]
  {
    var lists' := a.lists[o := a.lists[o][..i] + a.lists[o][i + 1..]];
    InRest(a.lists[o], i, y);
    if Listed(a.lists, y) && y != a.lists[o][i] {
      var k :| 0 <= k < |a.lists| && y in a.lists[k];
      assert y in lists'[k];
    }
    if Listed(lists', y) {
      var k :| 0 <= k < |lists'| && y in lists'[k];
      assert y in a.lists[k] && SlabOk(a, k, y) && SlabOk(a, o, a.lists[o][i]);
    }
  }

  lemma GoneLive(a: Arena, a': Arena, x: nat, r: nat, b: nat)
    requires Inv(a, {}) && Listed(a.lists, x) && x in a.mem && x in a'.mem && a.mem[x].size > 0 && Used(a.mem[x]) == {r}
    requires a'.mem == a.mem[x := a'.mem[x]] && forall y :: Listed(a'.lists, y) <==> Listed(a.lists, y) && y != x
    ensures Live(a', b) <==> Live(a, b) && b != r
  {
    if Live(a', b) {
      var y :| Listed(a'.lists, y) && y in a'.mem && a'.mem[y].size > 0 && b in Used(a'.mem[y]);
      assert y in a.mem && b in Used(a.mem[y]);
      if b == r {
        assert r in Used(a.mem[x]);
        OneOwner(a, {}, x, y, b);
      }
    }
    if Live(a, b) && b != r {
      var y :| Listed(a.lists, y) && y in a.mem && a.mem[y].size > 0 && b in Used(a.mem[y]);
      assert Listed(a'.lists, y) && y in a'.mem && b in Used(a'.mem[y]);
    }
  }

  // ---- which slab serves a request -------------------------------------

  /** The size ktf_alloc hands to next_power_of_two, which takes 32 bits. */
  function Narrow(size: nat): nat {
    (if size < 16 then 16 else size) % 0x1_0000_0000
  }

  /** The order for a request, if it has one. */
  function OrderFor(size: nat): int {
    Log2(NextPowerOfTwo(Narrow(size))) - 4
  }

  /** A block of `block` bytes for a request of `size` bytes: large enough, and less than twice as large. */
  predicate Fits(size: nat, block: nat) {
    Narrow(size) <= block && (size >= 16 ==> block < 2 * Narrow(size))
  }

  lemma SizeIsPow2(o: nat)
    requires o < SLAB_ORDER_MAX
    ensures SizeOf(o) == Pow2(o + 4)
  {
    assert Pow2(4) == 16 && Pow2(5) == 32 && Pow2(6) == 64 && Pow2(7) == 128;
    assert Pow2(8) == 256 && Pow2(9) == 512 && Pow2(10) == 1024 && Pow2(11) == 2048;
  }

  /**
    Every request from 9 to 2048 bytes, after narrowing, has its order, and
    the blocks of that order fit it; larger ones up to 2^31 are refused; and
    outside of that the order would be below 0, which indexes outside of
    meta_slab_list.
   */
  lemma SizeClass(size: nat)
    ensures 9 <= Narrow(size) <= 2048 ==>
      var o := OrderFor(size);
      0 <= o < SLAB_ORDER_MAX && NextPowerOfTwo(Narrow(size)) == SizeOf(o) && Fits(size, SizeOf(o))
    ensures NextPowerOfTwo(Narrow(size)) > 2048 <==> 2048 < Narrow(size) <= 0x8000_0000
    ensures Narrow(size) <= 8 || Narrow(size) > 0x8000_0000 ==> OrderFor(size) < 0
  {
    var n := Narrow(size);
    var k := RoundUp(n);
    ClassOf(size, n, NextPowerOfTwo(n), k);
  }

  lemma ClassOf(size: nat, n: nat, p: nat, k: nat)
    requires n == Narrow(size)
    requires if 1 <= n <= 0x8000_0000 then RoundsUpTo(n, p, k) else p == 0
    ensures 9 <= n <= 2048 ==> 4 <= Log2(p) < 4 + SLAB_ORDER_MAX && p == SizeOf(Log2(p) - 4) && Fits(size, p)
    ensures p > 2048 <==> 2048 < n <= 0x8000_0000
    ensures n <= 8 || n > 0x8000_0000 ==> Log2(p) < 4
  {
    if 1 <= n <= 0x8000_0000 {
      LogOfPow2(k);
      ExponentRange(n, k);
    }
  }

  lemma ExponentRange(n: nat, k: nat)
    requires n <= Pow2(k) < 2 * n
    ensures n <= 8 ==> k <= 3
    ensures n > 2048 ==> k >= 12 && Pow2(k) > 2048
    ensures 9 <= n <= 2048 ==> 4 <= k <= 11 && Pow2(k) == SizeOf(k - 4)
  {
    SizeIsPow2(0);
    SizeIsPow2(7);
    if k >= 4 {
      Pow2Monotonic(4, k);
    } else {
      Pow2Monotonic(k, 3);
    }
    if k >= 12 {
      Pow2Monotonic(12, k);
    } else {
      Pow2Monotonic(k, 11);
    }
    if 4 <= k <= 11 {
      SizeIsPow2(k - 4);
    }
  }

  /** Narrowing loses nothing exactly below 4G; from there on a block is smaller than what was asked for. */
  lemma NarrowExact(size: nat, block: nat)
    requires 9 <= Narrow(size) <= 2048 && Fits(size, block) && block <= 2048
    ensures size <= block <==> size < 0x1_0000_0000
  {
  }

  /** A request for 4G and 16 bytes is served with a block of 16 bytes. */
  lemma NarrowedRequest(size: nat)
    requires size == 0x1_0000_0010
    ensures 9 <= Narrow(size) <= 2048 && OrderFor(size) == 0 && SizeOf(0) < size
  {
    SizeClass(size);
    assert SizeOf(OrderFor(size)) < 32;
  }

  /** A request for one byte over 2G has no order. */
  lemma NoOrder(size: nat)
    requires size == 0x8000_0001
    ensures OrderFor(size) < 0
  {
    SizeClass(size);
  }

  // ---- initialize_slab -------------------------------------------------

  /** (n & (n - 1)) == 0 */
  predicate PowerOfTwo(n: nat)
    requires n >= 1
  {
    NoCommonBit(BitsOf(n, 32), BitsOf(n - 1, 32))
  }

  /**
    initialize_slab: refuses a base of 0 and a size that is not a slab size;
    otherwise all blocks are free, in order.
   */
  method InitializeSlab(base: nat, len: nat, size: nat) returns (ok: bool, free: seq<nat>)
    requires len < 0x1_0000_0000
    ensures ok <==> base != 0 && SlabSize(size)
    ensures ok ==> size > 0 && |free| == len / size && NoDup(free) && Elems(free) == Blocks(base, size, len / size)
  {
    free := [];
    ok := CheckSlab(base, size);
    if ok {
      free := LinkBlocks(base, size, len / size);
    }
  }

  /** The checks at its start. */
  method CheckSlab(base: nat, size: nat) returns (ok: bool)
    ensures ok <==> base != 0 && SlabSize(size)
    ensures ok ==> size > 0
  {
    if base == 0 || size > 2048 || size < 16 {
      return false;
    }
    IsSlabSize(size);
    ok := PowerOfTwo(size);
  }

  method LinkBlocks(base: nat, size: nat, count: nat) returns (free: seq<nat>)
    requires size > 0
    ensures |free| == count && NoDup(free) && Elems(free) == Blocks(base, size, count)
  {
    free := [];
    for index := 0 to count
      invariant |free| == index && NoDup(free) && Elems(free) == Blocks(base, size, index)
    {
      var entry := base + index * size;
      BlocksNext(base, size, index, entry);
      ElemsAdd(free, entry);
      free := free + [entry];
    }
  }

  lemma BlocksNext(base: nat, size: nat, n: nat, b: nat)
    requires size > 0 && b == base + n * size
    ensures Blocks(base, size, n + 1) == Blocks(base, size, n) + {b} && b !in Blocks(base, size, n)
  {
    BlocksCount(base, size, n);
  }

  lemma ElemsAdd(l: seq<nat>, x: nat)
    requires NoDup(l) && x !in Elems(l)
    ensures Elems(l + [x]) == Elems(l) + {x} && NoDup(l + [x])
  {
    assert (l + [x])[|l|] == x;
    assert forall i :: 0 <= i < |l| ==> l[i] in Elems(l);
  }

  /** The bit test accepts exactly the slab sizes. */
  lemma IsSlabSize(size: nat)
    requires 16 <= size <= 2048
    ensures PowerOfTwo(size) <==> SlabSize(size)
  {
    Pow2Of32();
    PowerTest(size, 32);
    PowerIsSize(size);
  }

  ghost predicate SlabSize(size: nat) {
    exists o :: 0 <= o < SLAB_ORDER_MAX && size == SizeOf(o)
  }

  lemma PowerIsSize(size: nat)
    requires 16 <= size <= 2048
    ensures size == Pow2(Log2(size)) <==> SlabSize(size)
  {
    if size == Pow2(Log2(size)) {
      ExponentRange(size, Log2(size));
      assert size == SizeOf(Log2(size) - 4);
    }
    if SlabSize(size) {
      var o :| 0 <= o < SLAB_ORDER_MAX && size == SizeOf(o);
      SizeIsPow2(o);
      LogOfPow2(o + 4);
    }
  }

  /** Block `r` was taken from the slab `x`, and no other descriptor changed. */
  ghost predicate TookFrom(m: map<nat, MetaSlab>, m': map<nat, MetaSlab>, x: nat, r: nat) {
    x in m && x in m' && m' == m[x := m'[x]] && Counts(m[x]) && Taken(m[x], m'[x], r)
  }

  ghost predicate GaveTo(m: map<nat, MetaSlab>, m': map<nat, MetaSlab>, x: nat, r: nat) {
    x in m && x in m' && m' == m[x := m'[x]] && Counts(m[x]) && Freed(m[x], m'[x], r)
  }

  ghost predicate CanAlloc(m: map<nat, MetaSlab>, x: nat) {
    x in m && Counts(m[x]) && m[x].base > 0
  }

  // ---- kmalloc and kfree -----------------------------------------------

  ghost predicate HasRoom(a: Arena, l: seq<nat>) {
    exists x :: x in l && x in a.mem && a.mem[x].free != []
  }

  ghost predicate Empty(a: Arena, p: nat) {
    p in a.pages && p in a.mem && a.mem[p].allocs == 0
  }

  /** No descriptor page is empty. */
  ghost predicate NoneEmpty(a: Arena) {
    forall p :: !Empty(a, p)
  }

  /** `sizes` holds the live blocks with what was asked for, and each fits. */
  ghost predicate Served(a: Arena, sizes: map<nat, nat>) {
    && (forall b :: Live(a, b) <==> b in sizes)
    && forall x :: Listed(a.lists, x) && x in a.mem && a.mem[x].size > 0 ==> SlabFits(a.mem[x], sizes)
  }

  ghost predicate SlabFits(s: MetaSlab, sizes: map<nat, nat>)
    requires s.size > 0
  {
    forall b :: b in Used(s) && b in sizes ==> Fits(sizes[b], s.size)
  }

  /** The pages obtained from get_free_page and not returned are those of descriptors and of slabs. */
  ghost predicate Holds(a: Arena, held: set<nat>) {
    forall p :: p in held <==> p in a.pages || IsBase(a, p)
  }

  ghost predicate IsBase(a: Arena, p: nat) {
    exists x :: Listed(a.lists, x) && x in a.mem && a.mem[x].base == p
  }

  lemma NotHeld(a: Arena, held: set<nat>, p: nat)
    requires Holds(a, held) && p > 0 && p % 4096 == 0 && p !in held
    ensures Unused(a, p)
  {
    forall x | Listed(a.lists, x) && x in a.mem ensures a.mem[x].base != p {
      assert !IsBase(a, p);
    }
  }

  /** As long as the lists, the pages and the bases of the listed slabs stay, so do the pages held. */
  lemma HoldsSame(a: Arena, a': Arena, held: set<nat>)
    requires Holds(a, held) && a'.lists == a.lists && a'.pages == a.pages
    requires forall x :: Listed(a.lists, x) ==> x in a.mem && x in a'.mem && a'.mem[x].base == a.mem[x].base
    ensures Holds(a', held)
  {
    forall p ensures IsBase(a', p) <==> IsBase(a, p) {
      if IsBase(a, p) {
        var x :| Listed(a.lists, x) && x in a.mem && a.mem[x].base == p;
        assert Listed(a'.lists, x);
      }
      if IsBase(a', p) {
        var x :| Listed(a'.lists, x) && x in a'.mem && a'.mem[x].base == p;
        assert Listed(a.lists, x);
      }
    }
  }

  /** What slab_alloc and slab_free on a slab leave of the rest. */
  lemma SlabChangeKeeps(a: Arena, a': Arena, x: nat, held: set<nat>)
    requires Inv(a, {}) && Listed(a.lists, x) && x in a.mem && x in a'.mem && a' == a.(mem := a.mem[x := a'.mem[x]])
    requires a'.mem[x].base == a.mem[x].base && Holds(a, held) && NoneEmpty(a)
    ensures Holds(a', held) && NoneEmpty(a')
  {
    ListedOk(a, x, {});
    forall y | Listed(a.lists, y) ensures y in a.mem && y in a'.mem {
      ListedOk(a, y, {});
    }
    HoldsSame(a, a', held);
    forall p ensures Empty(a', p) <==> Empty(a, p) {
    }
  }

  /** A slab that does not hold the new block is served as before. */
  lemma FitsBut(a: Arena, y: nat, r: nat, sizes: map<nat, nat>, size: nat)
    requires Served(a, sizes) && !Live(a, r) && Listed(a.lists, y) && y in a.mem && a.mem[y].size > 0
    ensures SlabFits(a.mem[y], sizes[r := size])
  {
    assert SlabFits(a.mem[y], sizes);
    forall b | b in Used(a.mem[y]) ensures b != r {
      assert Live(a, b);
    }
  }

  lemma ServedTaken(a: Arena, a': Arena, x: nat, r: nat, sizes: map<nat, nat>, size: nat)
    requires Served(a, sizes) && LivePlus(a, a', r) && a'.lists == a.lists && Listed(a.lists, x)
    requires TookFrom(a.mem, a'.mem, x, r) && Fits(size, a.mem[x].size)
    ensures r !in sizes && Served(a', sizes[r := size])
  {
    forall y | Listed(a'.lists, y) && y in a'.mem && a'.mem[y].size > 0 ensures SlabFits(a'.mem[y], sizes[r := size]) {
      FitsBut(a, y, r, sizes, size);
    }
  }

  /** All that the allocator keeps, law by law. */
  datatype Law = Structure | Requests | PagesHeld | Vacancy

  ghost predicate Obeys(a: Arena, sizes: map<nat, nat>, held: set<nat>, law: Law) {
    match law
    case Structure => Inv(a, {})
    case Requests => Served(a, sizes)
    case PagesHeld => Holds(a, held)
    case Vacancy => NoneEmpty(a)
  }

  ghost predicate Sound(a: Arena, sizes: map<nat, nat>, held: set<nat>) {
    forall law :: Obeys(a, sizes, held, law)
  }

  lemma Laws(a: Arena, sizes: map<nat, nat>, held: set<nat>)
    requires Sound(a, sizes, held)
    ensures Inv(a, {}) && Served(a, sizes) && Holds(a, held) && NoneEmpty(a)
  {
    assert Obeys(a, sizes, held, Structure) && Obeys(a, sizes, held, Requests);
    assert Obeys(a, sizes, held, PagesHeld) && Obeys(a, sizes, held, Vacancy);
  }

  lemma Lawful(a: Arena, sizes: map<nat, nat>, held: set<nat>)
    requires Inv(a, {}) && Served(a, sizes) && Holds(a, held) && NoneEmpty(a)
    ensures Sound(a, sizes, held)
  {
    forall law ensures Obeys(a, sizes, held, law) {
      match law {
        case Structure =>
        case Requests =>
        case PagesHeld =>
        case Vacancy =>
      }
    }
  }

  /** slab_alloc from a slab that is listed. */
  lemma TakenKeeps(a: Arena, a': Arena, x: nat, r: nat, sizes: map<nat, nat>, size: nat, held: set<nat>)
    requires Sound(a, sizes, held)
    requires Listed(a.lists, x) && a' == a.(mem := a'.mem) && TookFrom(a.mem, a'.mem, x, r) && Fits(size, a.mem[x].size)
    ensures Sound(a', sizes[r := size], held) && r !in sizes
  {
    Laws(a, sizes, held);
    SlabTaken(a, a', x, r);
    SlabChangeKeeps(a, a', x, held);
    ServedTaken(a, a', x, r, sizes, size);
    Lawful(a', sizes[r := size], held);
  }

  /** A new descriptor `x`, not yet listed, on an old page or on the new page in `taken`. */
  ghost predicate Slotted(a: Arena, a': Arena, x: nat, taken: set<nat>) {
    && Inv(a', {x}) && LiveSame(a, a') && a'.lists == a.lists
    && (forall y :: Listed(a.lists, y) ==> y in a.mem && y in a'.mem && a'.mem[y] == a.mem[y])
    && (forall p :: p in a'.pages <==> p in a.pages || p in taken)
    && NoneEmpty(a')
  }

  lemma SlotFromPage(a: Arena, a': Arena, p: nat, x: nat)
    requires Inv(a, {}) && p in a.pages && a' == a.(mem := a'.mem) && TookFrom(a.mem, a'.mem, p, x)
    requires forall q :: Empty(a, q) ==> q == p
    ensures Slotted(a, a', x, {}) && PageEntry(x) == p
  {
    assert PageChanged(a, a', p);
    PageTaken(a, a', p, x);
    PageChangedKeeps(a, a', p, {});
    assert x in Used(a'.mem[p]);
    EntryInPage(a', p, x);
    NowInUse(a, a', p, x);
  }

  lemma NowInUse(a: Arena, a': Arena, p: nat, x: nat)
    requires a' == a.(mem := a'.mem) && TookFrom(a.mem, a'.mem, p, x) && forall q :: Empty(a, q) ==> q == p
    ensures NoneEmpty(a')
  {
    forall q ensures !Empty(a', q) {
      assert q != p ==> (Empty(a', q) <==> Empty(a, q));
    }
  }

  lemma SlotFromNew(a: Arena, a1: Arena, a': Arena, p: nat, x: nat)
    requires Inv(a, {}) && NoneEmpty(a) && Unused(a, p)
    requires p in a1.mem && a1 == Arena(a.lists, [p] + a.pages, a.mem[p := a1.mem[p]])
    requires PageOk(a1, p) && Used(a1.mem[p]) == {} && a' == a1.(mem := a'.mem) && TookFrom(a1.mem, a'.mem, p, x)
    ensures Slotted(a, a', x, {p})
  {
    PageAdded(a, a1, p);
    assert a1.pages[0] == p;
    forall q | Empty(a1, q) ensures q == p {
      assert q != p ==> !Empty(a, q);
    }
    SlotFromPage(a1, a', p, x);
    forall y | Listed(a.lists, y) ensures y in a.mem && y in a'.mem && a'.mem[y] == a.mem[y] {
      ListedOk(a, y, {});
    }
  }

  lemma ServedSame(a: Arena, a': Arena, sizes: map<nat, nat>)
    requires Served(a, sizes) && a'.lists == a.lists
    requires forall y :: Listed(a.lists, y) ==> y in a.mem && y in a'.mem && a'.mem[y] == a.mem[y]
    ensures Served(a', sizes) && LiveSame(a, a')
  {
    forall b ensures Live(a', b) <==> Live(a, b) {
    }
    forall y | Listed(a'.lists, y) && a'.mem[y].size > 0 ensures SlabFits(a'.mem[y], sizes) {
    }
  }

  lemma HoldsMore(a: Arena, a': Arena, held: set<nat>, taken: set<nat>)
    requires Holds(a, held) && a'.lists == a.lists
    requires forall y :: Listed(a.lists, y) ==> y in a.mem && y in a'.mem && a'.mem[y] == a.mem[y]
    requires forall p :: p in a'.pages <==> p in a.pages || p in taken
    ensures Holds(a', held + taken)
  {
    var a1 := a.(mem := a'.mem);
    HoldsSame(a, a1, held);
    forall p ensures IsBase(a', p) <==> IsBase(a1, p) {
    }
  }

  /** ktf_alloc with a new slab. */
  lemma AddKeeps(a: Arena, a1: Arena, a': Arena, o: nat, x: nat, r: nat, taken: set<nat>, sizes: map<nat, nat>,
                 size: nat, held: set<nat>)
    requires Sound(a, sizes, held) && Slotted(a, a1, x, taken) && o < SLAB_ORDER_MAX && x in a'.mem
    requires a' == Arena(a1.lists[o := [x] + a1.lists[o]], a1.pages, a1.mem[x := a'.mem[x]])
    requires Counts(a'.mem[x]) && a'.mem[x].len == 4096 && a'.mem[x].size == SizeOf(o) && Unused(a1, a'.mem[x].base)
    requires a'.mem[x].allocs == 1 && Used(a'.mem[x]) == {r} && Fits(size, SizeOf(o))
    ensures Sound(a', sizes[r := size], held + taken + {a'.mem[x].base}) && r !in sizes
  {
    Laws(a, sizes, held);
    ServedSame(a, a1, sizes);
    HoldsMore(a, a1, held, taken);
    SlabAdded(a1, a', o, x, r);
    AddServed(a1, a', o, x, r, sizes, size);
    AddHolds(a1, a', o, x, held + taken);
    AddEmpty(a1, a', o, x);
    Lawful(a', sizes[r := size], held + taken + {a'.mem[x].base});
  }

  lemma AddServed(a: Arena, a': Arena, o: nat, x: nat, r: nat, sizes: map<nat, nat>, size: nat)
    requires Served(a, sizes) && LivePlus(a, a', r) && o < |a.lists| && x in a'.mem
    requires a' == Arena(a.lists[o := [x] + a.lists[o]], a.pages, a.mem[x := a'.mem[x]])
    requires a'.mem[x].size == SizeOf(o) && Used(a'.mem[x]) == {r} && Fits(size, SizeOf(o))
    ensures r !in sizes && Served(a', sizes[r := size])
  {
    forall y | Listed(a'.lists, y) && y in a'.mem && a'.mem[y].size > 0 ensures SlabFits(a'.mem[y], sizes[r := size]) {
      if y != x {
        ListedAfterAdd(a.lists, o, x, y);
        FitsBut(a, y, r, sizes, size);
      }
    }
  }

  lemma AddHolds(a: Arena, a': Arena, o: nat, x: nat, held: set<nat>)
    requires Holds(a, held) && o < |a.lists| && x in a'.mem && !Listed(a.lists, x)
    requires a' == Arena(a.lists[o := [x] + a.lists[o]], a.pages, a.mem[x := a'.mem[x]])
    ensures Holds(a', held + {a'.mem[x].base})
  {
    ListedAfterAdd(a.lists, o, x, x);
    forall p ensures IsBase(a', p) <==> IsBase(a, p) || p == a'.mem[x].base {
      if IsBase(a, p) {
        var y :| Listed(a.lists, y) && y in a.mem && a.mem[y].base == p;
        ListedAfterAdd(a.lists, o, x, y);
        assert y in a'.mem && a'.mem[y].base == p;
      }
      if IsBase(a', p) {
        var y :| Listed(a'.lists, y) && y in a'.mem && a'.mem[y].base == p;
        ListedAfterAdd(a.lists, o, x, y);
      }
    }
  }

  lemma AddEmpty(a: Arena, a': Arena, o: nat, x: nat)
    requires Inv(a, {x}) && x in a'.mem && a'.pages == a.pages && a'.mem == a.mem[x := a'.mem[x]]
    requires NoneEmpty(a)
    ensures NoneEmpty(a')
  {
    assert InPage(a, x) && PageOk(a, PageEntry(x));
    DescriptorOffset(a, x);
    forall q ensures !Empty(a', q) {
      if q in a.pages {
        assert PageOk(a, q) && q != x && !Empty(a, q);
      }
    }
  }

  lemma SpareIsUsed(a: Arena, x: nat)
    requires Inv(a, {x})
    ensures PageEntry(x) in a.mem && Counts(a.mem[PageEntry(x)]) && x in Used(a.mem[PageEntry(x)]) &&
      !Listed(a.lists, x)
  {
    assert InPage(a, x) && PageOk(a, PageEntry(x));
  }

  lemma StillUnused(a: Arena, a': Arena, x: nat, taken: set<nat>, p: nat)
    requires Slotted(a, a', x, taken) && Unused(a, p) && p !in taken
    ensures Unused(a', p)
  {
  }

  lemma NewSlabCounts(s: MetaSlab, o: nat)
    requires o < SLAB_ORDER_MAX && s.len == 4096 && s.size == SizeOf(o) && s.allocs == 0 && |s.free| == s.len / s.size
    requires NoDup(s.free) && Elems(s.free) == Blocks(s.base, s.size, s.len / s.size)
    ensures Counts(s) && Used(s) == {} && s.free != []
  {
  }

  /** slab_free of a block of a slab that keeps others. */
  lemma FreeKeeps(a: Arena, a': Arena, x: nat, r: nat, sizes: map<nat, nat>, held: set<nat>)
    requires Sound(a, sizes, held) && Listed(a.lists, x) && a' == a.(mem := a'.mem)
    requires GaveTo(a.mem, a'.mem, x, r) && r in Used(a.mem[x]) && a'.mem[x].allocs >= 1
    ensures Sound(a', sizes - {r}, held)
  {
    Laws(a, sizes, held);
    SlabFreed(a, a', x, r);
    SlabChangeKeeps(a, a', x, held);
    ServedMinus(a, a', x, r, sizes);
    Lawful(a', sizes - {r}, held);
  }

  lemma ServedMinus(a: Arena, a': Arena, x: nat, r: nat, sizes: map<nat, nat>)
    requires Served(a, sizes) && LiveMinus(a, a', r) && GaveTo(a.mem, a'.mem, x, r)
    requires forall y :: Listed(a'.lists, y) ==> Listed(a.lists, y)
    ensures Served(a', sizes - {r})
  {
    forall y | Listed(a'.lists, y) && y in a'.mem && a'.mem[y].size > 0 ensures SlabFits(a'.mem[y], sizes - {r}) {
      assert y in a.mem && (y == x || a'.mem[y] == a.mem[y]);
      assert SlabFits(a.mem[y], sizes);
    }
  }

  /** What is kept between the last block of slab `i` and the return of its page. */
  lemma GoneKeeps(a: Arena, a': Arena, o: nat, i: nat, r: nat, sizes: map<nat, nat>, held: set<nat>)
    requires Inv(a, {}) && Served(a, sizes) && Holds(a, held)
    requires o < SLAB_ORDER_MAX && i < |a.lists[o]| && a.lists[o][i] in a.mem && a.lists[o][i] in a'.mem
    requires a.mem[a.lists[o][i]].size > 0 && Used(a.mem[a.lists[o][i]]) == {r} &&
      GaveTo(a.mem, a'.mem, a.lists[o][i], r)
    requires a' == Arena(a.lists[o := a.lists[o][..i] + a.lists[o][i + 1..]], a.pages,
                         a.mem[a.lists[o][i] := a'.mem[a.lists[o][i]]])
    ensures Inv(a', {a.lists[o][i]}) && Served(a', sizes - {r}) && Holds(a', held - {a.mem[a.lists[o][i]].base})
    ensures forall q :: Empty(a', q) <==> Empty(a, q)
  {
    var x := a.lists[o][i];
    assert Listed(a.lists, x);
    ListedOk(a, x, {});
    SlabGone(a, a', o, i, r);
    forall y ensures Listed(a'.lists, y) <==> Listed(a.lists, y) && y != x {
      ListedAfterRemove(a, o, i, y);
    }
    ServedMinus(a, a', x, r, sizes);
    GoneHolds(a, a', x, held);
  }

  lemma GoneHolds(a: Arena, a': Arena, x: nat, held: set<nat>)
    requires Inv(a, {}) && Holds(a, held) && Listed(a.lists, x) && x in a.mem && x in a'.mem
    requires forall y :: Listed(a'.lists, y) <==> Listed(a.lists, y) && y != x
    requires a'.pages == a.pages && a'.mem == a.mem[x := a'.mem[x]]
    ensures Holds(a', held - {a.mem[x].base})
  {
    var base := a.mem[x].base;
    ListedOk(a, x, {});
    forall p ensures IsBase(a', p) <==> IsBase(a, p) && p != base {
      if IsBase(a, p) && p != base {
        var y :| Listed(a.lists, y) && y in a.mem && a.mem[y].base == p;
        assert Listed(a'.lists, y) && y in a'.mem && a'.mem[y].base == p;
      }
      if IsBase(a', p) {
        var y :| Listed(a'.lists, y) && y in a'.mem && a'.mem[y].base == p;
        assert Listed(a.lists, y) && y in a.mem && a.mem[y].base == p;
      }
    }
  }

  /** The descriptor of a slab that is gone returns to its page. */
  lemma DescriptorBack(a: Arena, a': Arena, x: nat, sizes: map<nat, nat>, held: set<nat>)
    requires Inv(a, {x}) && Served(a, sizes) && Holds(a, held)
    requires a' == a.(mem := a'.mem) && GaveTo(a.mem, a'.mem, PageEntry(x), x)
    ensures Inv(a', {}) && Served(a', sizes) && Holds(a', held)
    ensures !Empty(a, PageEntry(x)) && forall q :: q != PageEntry(x) ==> (Empty(a', q) <==> Empty(a, q))
  {
    var p := PageEntry(x);
    assert InPage(a, x);
    assert PageChanged(a, a', p);
    PageFreed(a, a', p, x);
    PageChangedKeeps(a, a', p, {x});
    ServedSame(a, a', sizes);
    HoldsSame(a, a', held);
  }

  /** An empty descriptor page leaves the list. */
  lemma PageBack(a: Arena, a': Arena, i: nat, sizes: map<nat, nat>, held: set<nat>)
    requires Inv(a, {}) && Served(a, sizes) && Holds(a, held)
    requires i < |a.pages| && Empty(a, a.pages[i]) && a' == a.(pages := a.pages[..i] + a.pages[i + 1..])
    ensures Inv(a', {}) && Served(a', sizes) && Holds(a', held - {a.pages[i]})
    ensures forall q :: Empty(a', q) <==> Empty(a, q) && q != a.pages[i]
  {
    var p := a.pages[i];
    PageGone(a, a', i);
    forall q ensures q in a'.pages <==> q in a.pages && q != p {
      InRest(a.pages, i, q);
    }
    forall q ensures IsBase(a', q) <==> IsBase(a, q) {
    }
    forall x | Listed(a.lists, x) && x in a.mem ensures a.mem[x].base != p {
      ListedOk(a, x, {});
    }
  }

  /** The page of slab `x` holds `ptr`. */
  ghost predicate Within(a: Arena, x: nat, ptr: nat) {
    x in a.mem && a.mem[x].base <= ptr < a.mem[x].base + a.mem[x].len
  }

  ghost predicate InSlab(a: Arena, ptr: nat) {
    exists x :: Listed(a.lists, x) && Within(a, x, ptr)
  }

  lemma NotLive(a: Arena, ptr: nat)
    requires Inv(a, {}) && !InSlab(a, ptr)
    ensures !Live(a, ptr)
  {
    if Live(a, ptr) {
      var x :| Listed(a.lists, x) && x in a.mem && a.mem[x].size > 0 && ptr in Used(a.mem[x]);
      LiveWithin(a, x, ptr);
    }
  }

  lemma LiveWithin(a: Arena, x: nat, ptr: nat)
    requires Inv(a, {}) && Listed(a.lists, x) && x in a.mem && a.mem[x].size > 0 && ptr in Used(a.mem[x])
    ensures Within(a, x, ptr) && a.mem[x].base == PageEntry(ptr)
  {
    var o :| 0 <= o < |a.lists| && x in a.lists[o];
    assert SlabOk(a, o, x);
    BlockInPage(a, o, x, ptr);
  }

  lemma WithinPage(a: Arena, o: nat, x: nat, ptr: nat)
    requires SlabOk(a, o, x) && Within(a, x, ptr)
    ensures a.mem[x].base == PageEntry(ptr)
  {
    var k := a.mem[x].base / 4096;
    assert 4096 * k <= ptr < 4096 * k + 4096;
  }

  /** The slab found is the one that handed the block out. */
  lemma OwnerOf(a: Arena, o: nat, i: nat, ptr: nat)
    requires Inv(a, {}) && o < SLAB_ORDER_MAX && i < |a.lists[o]| && Within(a, a.lists[o][i], ptr) && Live(a, ptr)
    ensures var x := a.lists[o][i]; Listed(a.lists, x) && Counts(a.mem[x]) && ptr in Used(a.mem[x])
  {
    var x := a.lists[o][i];
    assert SlabOk(a, o, x) && Listed(a.lists, x);
    var y :| Listed(a.lists, y) && y in a.mem && a.mem[y].size > 0 && ptr in Used(a.mem[y]);
    LiveWithin(a, y, ptr);
    WithinPage(a, o, x, ptr);
  }

  /** A slab that gives back a block and then counts none had only that one. */
  lemma LastBlock(a: Arena, x: nat, s': MetaSlab, r: nat)
    requires x in a.mem && a.mem[x].size > 0 && r in Used(a.mem[x]) && Freed(a.mem[x], s', r) && s'.allocs == 0
    ensures Used(a.mem[x]) == {r}
  {
    UsedCount(s');
  }

  ghost predicate FoundIn(a: Arena, o: nat, i: nat, ptr: nat) {
    o < SLAB_ORDER_MAX && o < |a.lists| && i < |a.lists[o]| && Within(a, a.lists[o][i], ptr) && Live(a, ptr)
  }

  /** Slab `i` of order `o` just gave back its last block `ptr`. */
  ghost predicate Emptied(a: Arena, a': Arena, o: nat, i: nat, ptr: nat) {
    && o < SLAB_ORDER_MAX && o < |a.lists| && i < |a.lists[o]| && a' == a.(mem := a'.mem)
    && GaveTo(a.mem, a'.mem, a.lists[o][i], ptr) && a'.mem[a.lists[o][i]].allocs == 0
    && ptr in Used(a.mem[a.lists[o][i]])
  }

  /** Slab `x` is off its list, and its page `base` is no longer accounted for. */
  ghost predicate Unlinked(a: Arena, a': Arena, x: nat, base: nat, sizes: map<nat, nat>, held: set<nat>) {
    && Inv(a', {x}) && Served(a', sizes) && Holds(a', held - {base}) && base in held && base != PageEntry(x)
    && PageEntry(x) in a'.pages && PageEntry(x) in held
    && forall q :: Empty(a', q) <==> Empty(a, q)
  }

  /** The descriptor of the slab that was at `base` is back on `page`, which may now be empty. */
  ghost predicate Dropped(a: Arena, a': Arena, page: nat, base: nat, sizes: map<nat, nat>, held: set<nat>) {
    && Inv(a', {}) && Served(a', sizes) && Holds(a', held - {base}) && base in held && base != page
    && page in a'.pages && page in a'.mem && page in held && !Empty(a, page)
    && forall q :: q != page ==> (Empty(a', q) <==> Empty(a, q))
  }

  lemma BaseHeld(a: Arena, x: nat, held: set<nat>)
    requires Inv(a, {}) && Holds(a, held) && Listed(a.lists, x) && x in a.mem
    ensures a.mem[x].base in held && a.mem[x].base != PageEntry(x) && PageEntry(x) in a.pages && PageEntry(x) in held
  {
    ListedOk(a, x, {});
    assert IsBase(a, a.mem[x].base);
  }

  lemma PageStays(a: Arena, a': Arena, page: nat, base: nat, sizes: map<nat, nat>, ptr: nat, held: set<nat>)
    requires Sound(a, sizes, held) && Dropped(a, a', page, base, sizes - {ptr}, held) && a'.mem[page].allocs != 0
    ensures Sound(a', sizes - {ptr}, held - {base})
  {
    Laws(a, sizes, held);
    Lawful(a', sizes - {ptr}, held - {base});
  }

  lemma PageReturned(a: Arena, a1: Arena, a': Arena, j: nat, base: nat, sizes: map<nat, nat>, ptr: nat, held: set<nat>)
    requires Sound(a, sizes, held)
    requires j < |a1.pages| && Dropped(a, a1, a1.pages[j], base, sizes - {ptr}, held)
    requires a1.mem[a1.pages[j]].allocs == 0 && a' == a1.(pages := a1.pages[..j] + a1.pages[j + 1..])
    ensures Sound(a', sizes - {ptr}, held - {base, a1.pages[j]}) && a1.pages[j] in held
  {
    Laws(a, sizes, held);
    PageBack(a1, a', j, sizes - {ptr}, held - {base});
    assert held - {base} - {a1.pages[j]} == held - {base, a1.pages[j]};
    Lawful(a', sizes - {ptr}, held - {base, a1.pages[j]});
  }

  lemma SlabsCanAlloc(a: Arena, o: nat)
    requires Inv(a, {}) && o < SLAB_ORDER_MAX
    ensures forall y :: y in a.lists[o] ==> CanAlloc(a.mem, y) && Listed(a.lists, y) && a.mem[y].size == SizeOf(o)
  {
    forall y | y in a.lists[o] ensures CanAlloc(a.mem, y) && Listed(a.lists, y) && a.mem[y].size == SizeOf(o) {
      assert SlabOk(a, o, y);
    }
  }

  lemma PagesCanAlloc(a: Arena)
    requires Inv(a, {})
    ensures forall y :: y in a.pages ==> CanAlloc(a.mem, y)
  {
    forall y | y in a.pages ensures CanAlloc(a.mem, y) {
      assert PageOk(a, y);
    }
  }

  /** sizeof(meta_slab_t) is 48, so that descriptors take 64 bytes each. */
  const META_SLAB_BYTES: nat := 48

  lemma DescriptorSize(n: nat)
    requires 32 < n <= 64
    ensures NextPowerOfTwo(n) == 64
  {
    var k := RoundUp(n);
    SixtyFour(n, k);
  }

  lemma SixtyFour(n: nat, k: nat)
    requires 32 < n <= 64 && n <= Pow2(k) < 2 * n
    ensures Pow2(k) == 64
  {
    ExponentRange(n, k);
  }

  method DescriptorBytes(n: nat) returns (metaSize: nat)
    requires 32 < n <= 64
    ensures metaSize == 64
  {
    DescriptorSize(n);
    metaSize := NextPowerOfTwo(n);
  }

  lemma NewPageOk(a: Arena, p: nat, free: seq<nat>)
    requires p in a.mem && p > 0 && p % 4096 == 0 && a.mem[p] == MetaSlab(p + 64, 4032, 64, 0, free)
    requires |free| == 63 && NoDup(free) && Elems(free) == Blocks(p + 64, 64, 63)
    ensures PageOk(a, p) && Used(a.mem[p]) == {} && a.mem[p].free != []
  {
  }
}
