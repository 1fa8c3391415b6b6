/**
 kernel/list.c: a circular doubly linked list with a sentinel, refined to a
 sequence.  A node is an address; `next` and `prev` are the memory at it.
 */
module PageList {

  predicate NoDup(s: seq<nat>) {
    forall i, j :: 0 <= i < j < |s| ==> s[i] != s[j]
  }

  // `y` follows `x` in both directions
  predicate Joined(next: map<nat, nat>, prev: map<nat, nat>, x: nat, y: nat) {
    x in next && y in prev && next[x] == y && prev[y] == x
  }

  // The links form a ring through the sentinel and the items
  predicate Ring(head: nat, items: seq<nat>, next: map<nat, nat>, prev: map<nat, nat>) {
    && NoDup(items) && head !in items
    && Joined(next, prev, head, if items == [] then head else items[0])
    && Joined(next, prev, if items == [] then head else items[|items| - 1], head)
    && (forall i :: 0 <= i < |items| - 1 ==> Joined(next, prev, items[i], items[i + 1]))
  }

  class List {
    const head: nat
    var next: map<nat, nat>
    var prev: map<nat, nat>
    ghost var items: seq<nat>

    ghost predicate Valid()
      reads this
    {
      Ring(head, items, next, prev)
    }

    // lst_init (list.c:4-7)
    constructor (h: nat)
      ensures Valid() && items == [] && head == h
    {
      head := h;
      next, prev, items := map[h := h], map[h := h], [];
    }

    // lst_empty (list.c:9)
    method Empty() returns (b: bool)
      requires Valid()
      ensures b <==> items == []
    {
      b := next[head] == head;
    }

    // lst_push (list.c:11-19)
    method Push(p: nat)
      requires Valid() && p != head && p !in items
      modifies this
      ensures Valid() && items == [p] + old(items)
    {
      ghost var was := items;
      next := next[p := next[head]];
      prev := prev[p := head];
      prev := prev[next[head] := p];
      next := next[head := p];
      items := [p] + items;
      assert forall i :: 0 < i < |items| ==> items[i] == was[i - 1];
    }

    // lst_push_end (list.c:21-29)
    method PushEnd(p: nat)
      requires Valid() && p != head && p !in items
      modifies this
      ensures Valid() && items == old(items) + [p]
    {
      ghost var was := items;
      prev := prev[p := prev[head]];
      next := next[p := head];
      next := next[prev[head] := p];
      prev := prev[head := p];
      items := items + [p];
      assert forall i :: 0 <= i < |was| ==> items[i] == was[i];
    }

    // lst_pop (list.c:31-41); an empty list panics
    method Pop() returns (n: nat)
      requires Valid() && items != []
      modifies this
      ensures Valid() && n == old(items)[0] && items == old(items)[1..] && n !in items
    {
      ghost var was := items;
      n := next[head];
      assert |was| > 1 ==> Joined(next, prev, was[0], was[1]);
      prev := prev[next[n] := head];
      next := next[head := next[n]];
      items := items[1..];
      assert forall i :: 0 <= i < |items| ==> items[i] == was[i + 1];
    }

    // lst_pop_end (list.c:43-52); an empty list panics
    method PopEnd() returns (n: nat)
      requires Valid() && items != []
      modifies this
      ensures Valid() && n == old(items)[|old(items)| - 1] && items == old(items)[..|old(items)| - 1]
    {
      ghost var was := items;
      n := prev[head];
      assert |was| > 1 ==> Joined(next, prev, was[|was| - 2], was[(|was| - 2) + 1]);
      next := next[prev[n] := head];
      prev := prev[head := prev[n]];
      items := items[..|items| - 1];
      assert forall i :: 0 <= i < |items| ==> items[i] == was[i];
    }
  }
}
