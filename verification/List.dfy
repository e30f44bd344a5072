/**
  The intrusive circular lists of include/list.h, on which the lists of the
  frame allocator, the slab allocator and the scheduler rest: the sequence of
  the elements behind a list head, and what each operation makes of it.
 */
module List {

  class ListHead {
    var next: ListHead?
    var prev: ListHead?

    constructor ()
      ensures next == null && prev == null
    {
      next, prev := null, null;
    }
  }

  ghost function Succ(s: seq<ListHead>, i: nat): ListHead
    requires i < |s|
  {
    if i + 1 < |s| then s[i + 1] else s[0]
  }

  ghost predicate Distinct(s: seq<ListHead>) {
    forall i, j :: 0 <= i < j < |s| ==> s[i] != s[j]
  }

  /** Element `i` of the ring and the next one point to each other. */
  ghost predicate Linked(s: seq<ListHead>, i: nat)
    requires i < |s|
    reads s
  {
    s[i].next == Succ(s, i) && Succ(s, i).prev == s[i]
  }

  /** The elements of `s`, in this order, form a ring; the first one is the list head. */
  ghost predicate Ring(s: seq<ListHead>)
    reads s
  {
    |s| > 0 && Distinct(s) && forall i :: 0 <= i < |s| ==> Linked(s, i)
  }

  ghost function With(s: seq<ListHead>, k: nat, n: ListHead): seq<ListHead>
    requires k < |s|
  {
    s[..k + 1] + [n] + s[k + 1..]
  }

  ghost function Without(s: seq<ListHead>, k: nat): seq<ListHead>
    requires k < |s|
  {
    s[..k] + s[k + 1..]
  }

  method ListInit(head: ListHead)
    modifies head
    ensures Ring([head])
  {
    head.next := head;
    head.prev := head;
  }

  method ListInsert(n: ListHead, prev: ListHead, next: ListHead, ghost s: seq<ListHead>, ghost k: nat)
    requires Ring(s) && k < |s| && prev == s[k] && next == Succ(s, k) && n !in s
    modifies n, prev, next
    ensures Ring(With(s, k, n))
  {
    n.prev := prev;
    n.next := next;
    next.prev := n;
    prev.next := n;
    ghost var r := With(s, k, n);
    forall i | 0 <= i < |r| ensures Linked(r, i) {
      if i < k {
        assert old(Linked(s, i)) && r[i] == s[i] && r[i + 1] == s[i + 1];
      } else if i > k + 1 {
        assert old(Linked(s, i - 1)) && r[i] == s[i - 1];
      }
    }
  }

  /** list_add puts an element behind the head. */
  method ListAdd(n: ListHead, top: ListHead, ghost s: seq<ListHead>)
    requires Ring(s) && top == s[0] && n !in s
    modifies n, s
    ensures Ring([top, n] + s[1..])
  {
    assert Linked(s, 0);
    ListInsert(n, top, top.next, s, 0);
    assert With(s, 0, n) == [top, n] + s[1..];
  }

  /** list_add_tail puts it at the end. */
  method ListAddTail(n: ListHead, top: ListHead, ghost s: seq<ListHead>)
    requires Ring(s) && top == s[0] && n !in s
    modifies n, s
    ensures Ring(s + [n])
  {
    assert Linked(s, |s| - 1);
    ListInsert(n, top.prev, top, s, |s| - 1);
    assert With(s, |s| - 1, n) == s + [n];
  }

  /** list_unlink takes an element out, wherever it is; a head stays. */
  method ListUnlink(entry: ListHead, ghost s: seq<ListHead>, ghost k: nat)
    requires Ring(s) && 0 < k < |s| && entry == s[k]
    modifies entry, s[k - 1], Succ(s, k)
    ensures Ring(Without(s, k)) && entry.next == null && entry.prev == null
  {
    assert Linked(s, k) && Linked(s, k - 1);
    entry.next.prev := entry.prev;
    entry.prev.next := entry.next;
    entry.next := null;
    entry.prev := null;
    ghost var r := Without(s, k);
    forall i | 0 <= i < |r| ensures Linked(r, i) {
      if i < k - 1 {
        assert old(Linked(s, i)) && r[i] == s[i] && r[i + 1] == s[i + 1];
      } else if i >= k {
        assert old(Linked(s, i + 1)) && r[i] == s[i + 1];
      }
    }
  }

  method ListIsEmpty(list: ListHead, ghost s: seq<ListHead>) returns (empty: bool)
    requires Ring(s) && list == s[0]
    ensures empty <==> s == [list]
  {
    assert Linked(s, 0);
    empty := list.next == list;
  }

  /** list_unlink undoes list_add. */
  method AddThenUnlink(n: ListHead, top: ListHead, ghost s: seq<ListHead>)
    requires Ring(s) && top == s[0] && n !in s
    modifies n, s
    ensures Ring(s)
  {
    ListAdd(n, top, s);
    ListUnlink(n, [top, n] + s[1..], 1);
    assert Without([top, n] + s[1..], 1) == s;
  }

  // ---- safe iteration --------------------------------------------------

  ghost function Rest(s: seq<ListHead>, drop: ListHead -> bool): seq<ListHead> {
    if s == [] then [] else (if drop(s[0]) then [] else [s[0]]) + Rest(s[1..], drop)
  }

  /**
    list_for_each_entry_safe with a body that may unlink the element it is
    given: every element is visited once, in order, and those not unlinked
    remain.
   */
  method ForEachSafe(head: ListHead, drop: ListHead -> bool, ghost s: seq<ListHead>)
    returns (ghost visited: seq<ListHead>)
    requires Ring(s) && head == s[0]
    modifies s
    ensures visited == s[1..] && Ring([head] + Rest(s[1..], drop))
  {
    ghost var done, todo := [head], s[1..];
    visited := [];
    assert s == done + todo && Linked(s, 0);
    var elem: ListHead := head.next;
    var bak := NextOf(elem, done + todo, if todo == [] then 0 else 1);
    while elem != head
      invariant Iterating(head, done, todo, s, elem, bak) && visited + todo == s[1..]
      invariant done + Rest(todo, drop) == [head] + Rest(s[1..], drop)
      decreases |todo|
    {
      NothingToDo(head, done, todo, s, elem, bak);
      RestNext(done, todo, drop);
      assert visited + [todo[0]] + todo[1..] == visited + todo;
      visited := visited + [elem];
      done, elem, bak := Advance(head, elem, bak, drop, done, todo, s);
      todo := todo[1..];
    }
    NothingToDo(head, done, todo, s, elem, bak);
  }

  /** One round: the body, and then on to the element that was next before it. */
  method Advance(ghost head: ListHead, elem: ListHead, bak: ListHead, drop: ListHead -> bool, ghost done: seq<ListHead>,
                 ghost todo: seq<ListHead>, ghost s: seq<ListHead>)
    returns (ghost done': seq<ListHead>, elem': ListHead, bak': ListHead)
    requires todo != [] && Iterating(head, done, todo, s, elem, bak)
    modifies s
    ensures done' == done + (if drop(elem) then [] else [elem]) && Iterating(head, done', todo[1..], s, elem', bak')
  {
    done' := OneElement(elem, drop, done, todo, s);
    elem' := bak;
    StillWithin(done, todo, done', s);
    bak' := NextOf(bak, done' + todo[1..], if todo[1..] == [] then 0 else |done'|);
  }

  lemma StillWithin(done: seq<ListHead>, todo: seq<ListHead>, done': seq<ListHead>, s: seq<ListHead>)
    requires Within(done + todo, s) && todo != [] && (done' == done || done' == done + [todo[0]])
    ensures Within(done' + todo[1..], s)
  {
    forall x | x in done' + todo[1..] ensures x in done + todo {
    }
  }

  /** The list is `done` and `todo`; `elem` is the next one to visit and `bak` the one behind it. */
  ghost predicate Iterating(head: ListHead, done: seq<ListHead>, todo: seq<ListHead>, s: seq<ListHead>, elem: ListHead,
                            bak: ListHead)
    reads done + todo
  {
    && Ring(done + todo) && done != [] && done[0] == head && Within(done + todo, s)
    && elem == (if todo == [] then head else todo[0])
    && bak == Succ(done + todo, if todo == [] then 0 else |done|)
  }

  lemma NothingToDo(head: ListHead, done: seq<ListHead>, todo: seq<ListHead>, s: seq<ListHead>, elem: ListHead,
                    bak: ListHead)
    requires Iterating(head, done, todo, s, elem, bak)
    ensures elem == head <==> todo == []
  {
    if todo != [] {
      assert (done + todo)[|done|] == todo[0] && (done + todo)[0] == head;
    }
  }

  lemma RestNext(done: seq<ListHead>, todo: seq<ListHead>, drop: ListHead -> bool)
    requires todo != []
    ensures done + Rest(todo, drop) == done + (if drop(todo[0]) then [] else [todo[0]]) + Rest(todo[1..], drop)
  {
  }

  ghost predicate Within(a: seq<ListHead>, s: seq<ListHead>) {
    forall x :: x in a ==> x in s
  }

  method NextOf(e: ListHead, ghost s: seq<ListHead>, ghost i: nat) returns (n: ListHead)
    requires Ring(s) && i < |s| && e == s[i]
    ensures n == Succ(s, i)
  {
    assert Linked(s, i);
    n := e.next;
  }

  /** The body of the loop. */
  method OneElement(elem: ListHead, drop: ListHead -> bool, ghost done: seq<ListHead>, ghost todo: seq<ListHead>,
                    ghost s: seq<ListHead>)
    returns (ghost done': seq<ListHead>)
    requires Ring(done + todo) && done != [] && todo != [] && elem == todo[0] && Within(done + todo, s)
    modifies s
    ensures done' == done + (if drop(elem) then [] else [elem]) && Ring(done' + todo[1..])
  {
    done' := done;
    if drop(elem) {
      ghost var all := done + todo;
      assert all[|done|] == elem && all[|done| - 1] in s && elem in s && Succ(all, |done|) in s;
      ListUnlink(elem, all, |done|);
      assert Without(done + todo, |done|) == done + todo[1..];
    } else {
      done' := done + [elem];
      assert done' + todo[1..] == done + todo;
    }
  }
}
