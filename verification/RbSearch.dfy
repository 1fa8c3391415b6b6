/**
 When the search of rb_remove (kernel/scheduler/rb_tree.c:176-182) reaches the
 entity it is given: it turns right on an equal key, and rotations may have put
 the entity to the left of one.
 */
module RbSearch {
  import opened Threads
  import opened RbShape
  import opened RbHeap
  import opened RbTree

  // `e` is queued at most once
  ghost predicate Once(s: seq<Entity>, e: Entity) {
    forall i, j :: 0 <= i < |s| && 0 <= j < |s| && s[i] == e && s[j] == e ==> i == j
  }

  // Some entity with the key of `e` has `e` in its left subtree
  ghost predicate Shadowed(t: Tree, e: Entity)
    reads EntsOf(t)`vruntime, e`vruntime
  {
    t.Node? &&
    ((e in EntsOf(t.left) && t.se.vruntime == e.vruntime) || Shadowed(t.left, e) || Shadowed(t.right, e))
  }

  lemma {:induction false} Listed(t: Tree, e: Entity)
    ensures e in EntsOf(t) <==> e in Ents(Order(t))
  {
    if t.Node? {
      Listed(t.left, e);
      Listed(t.right, e);
      EntsOne(Order(t.left), Item(t.node, t.se), Order(t.right));
    }
  }

  lemma {:induction false} ShadowedListed(t: Tree, e: Entity)
    requires Shadowed(t, e)
    ensures e in EntsOf(t)
  {
    if Shadowed(t.left, e) { ShadowedListed(t.left, e); }
    if Shadowed(t.right, e) { ShadowedListed(t.right, e); }
  }

  // Both subtrees inherit order and uniqueness, and the root's key separates them
  lemma Halves(t: Tree, e: Entity)
    requires t.Node? && Sorted(Ents(Order(t))) && Once(Ents(Order(t)), e)
    ensures Sorted(Ents(Order(t.left))) && Once(Ents(Order(t.left)), e)
    ensures Sorted(Ents(Order(t.right))) && Once(Ents(Order(t.right)), e)
    ensures e in EntsOf(t.left) ==> e.vruntime <= t.se.vruntime && t.se != e && e !in EntsOf(t.right)
    ensures e in EntsOf(t.right) ==> t.se.vruntime <= e.vruntime && t.se != e && e !in EntsOf(t.left)
  {
    var l, r := Ents(Order(t.left)), Ents(Order(t.right));
    EntsOne(Order(t.left), Item(t.node, t.se), Order(t.right));
    Listed(t.left, e);
    Listed(t.right, e);
    CutSorted(l, t.se, r, e);
  }

  lemma CutSorted(l: seq<Entity>, x: Entity, r: seq<Entity>, e: Entity)
    requires Sorted(l + [x] + r) && Once(l + [x] + r, e)
    ensures Sorted(l) && Sorted(r) && Once(l, e) && Once(r, e)
    ensures e in l ==> e.vruntime <= x.vruntime && x != e && e !in r
    ensures e in r ==> x.vruntime <= e.vruntime && x != e && e !in l
  {
    CutOrder(l, x, r, e);
    CutOnce(l, x, r, e);
  }

  lemma CutOrder(l: seq<Entity>, x: Entity, r: seq<Entity>, e: Entity)
    requires Sorted(l + [x] + r)
    ensures Sorted(l) && Sorted(r) && (e in l ==> e.vruntime <= x.vruntime) && (e in r ==> x.vruntime <= e.vruntime)
  {
    var s := l + [x] + r;
    assert forall i :: 0 <= i < |l| ==> s[i] == l[i];
    assert s[|l|] == x;
    assert forall i :: 0 <= i < |r| ==> s[|l| + 1 + i] == r[i];
  }

  lemma CutOnce(l: seq<Entity>, x: Entity, r: seq<Entity>, e: Entity)
    requires Once(l + [x] + r, e)
    ensures Once(l, e) && Once(r, e) && (e in l ==> x != e && e !in r) && (e in r ==> x != e && e !in l)
  {
    var s := l + [x] + r;
    assert forall i :: 0 <= i < |l| ==> s[i] == l[i];
    assert s[|l|] == x;
    assert forall i :: 0 <= i < |r| ==> s[|l| + 1 + i] == r[i];
  }

  /** The search finds `e` exactly when it is queued and no entity with an equal
      key has it in its left subtree. */
  lemma {:induction false} FindsIff(t: Tree, e: Entity)
    requires Sorted(Ents(Order(t))) && Once(Ents(Order(t)), e)
    ensures Finds(t, e) <==> e in EntsOf(t) && !Shadowed(t, e)
  {
    if t.Node? {
      Halves(t, e);
      FindsIff(t.left, e);
      FindsIff(t.right, e);
      if Shadowed(t.left, e) { ShadowedListed(t.left, e); }
      if Shadowed(t.right, e) { ShadowedListed(t.right, e); }
      Listed(t.left, e);
      Listed(t.right, e);
      if t.se == e {
        assert e !in EntsOf(t.left) && e !in EntsOf(t.right);
      }
    }
  }

  // `e` stands at index `i` and no later key equals its own
  ghost predicate LastOfKey(s: seq<Entity>, e: Entity, i: nat)
    reads s`vruntime, e`vruntime
  {
    i < |s| && s[i] == e && Once(s, e) && forall j :: i < j < |s| ==> s[j].vruntime != e.vruntime
  }

  lemma CutLast(l: seq<Entity>, x: Entity, r: seq<Entity>, e: Entity, i: nat)
    requires LastOfKey(l + [x] + r, e, i)
    ensures i < |l| ==> LastOfKey(l, e, i) && x.vruntime != e.vruntime && e !in r
    ensures i >= |l| ==> e !in l
    ensures i == |l| ==> e !in r
    ensures i > |l| ==> LastOfKey(r, e, i - |l| - 1)
  {
    var s := l + [x] + r;
    assert forall j :: 0 <= j < |l| ==> s[j] == l[j];
    assert s[|l|] == x;
    assert forall j :: 0 <= j < |r| ==> s[|l| + 1 + j] == r[j];
  }

  // An entity that no later one ties with is never shadowed
  lemma {:induction false} LastNotShadowed(t: Tree, e: Entity, i: nat)
    requires LastOfKey(Ents(Order(t)), e, i)
    ensures !Shadowed(t, e)
  {
    var n := |Order(t.left)|;
    EntsOne(Order(t.left), Item(t.node, t.se), Order(t.right));
    CutLast(Ents(Order(t.left)), t.se, Ents(Order(t.right)), e, i);
    Listed(t.left, e);
    Listed(t.right, e);
    if Shadowed(t.left, e) { ShadowedListed(t.left, e); }
    if Shadowed(t.right, e) { ShadowedListed(t.right, e); }
    if i < n {
      LastNotShadowed(t.left, e, i);
    } else if i > n {
      LastNotShadowed(t.right, e, i - n - 1);
    }
  }

  /** Removal of an entity whose key no other queued entity has finds it. */
  lemma UniqueKeyFound(t: Tree, e: Entity)
    requires Sorted(Ents(Order(t))) && e in Ents(Order(t))
    requires forall x :: x in Ents(Order(t)) && x.vruntime == e.vruntime ==> x == e
    requires Once(Ents(Order(t)), e)
    ensures Finds(t, e)
  {
    var i :| 0 <= i < |Order(t)| && Ents(Order(t))[i] == e;
    LastNotShadowed(t, e, i);
    Listed(t, e);
    FindsIff(t, e);
  }

  // The entity of the nearest node that has `e` in its left subtree
  function Over(t: Tree, e: Entity): (o: Thread?)
    ensures o != null ==> o in EntsOf(t)
  {
    if !t.Node? then null
    else if e in EntsOf(t.left) then
      var o := Over(t.left, e);
      if o != null then o else t.se
    else
      Over(t.right, e)
  }

  // `e` lies to the left of no node, or its key is less than that of the nearest such node
  ghost predicate Clear(t: Tree, e: Entity)
    reads EntsOf(t)`vruntime, e`vruntime
  {
    var o := Over(t, e);
    o == null || e.vruntime < o.vruntime
  }

  /** The search finds a queued entity, wherever it stands, exactly when the key of the nearest
      node that has it on its left is strictly greater, or there is no such node. */
  lemma {:induction false} ClearIff(t: Tree, e: Entity)
    requires Sorted(Ents(Order(t))) && Once(Ents(Order(t)), e) && e in EntsOf(t)
    ensures Finds(t, e) <==> Clear(t, e)
  {
    Halves(t, e);
    FindsIff(t.right, e);
    if e !in EntsOf(t.right) { OverNone(t.right, e); }
    if e in EntsOf(t.left) {
      ClearIff(t.left, e);
      var o := Over(t.left, e);
      if o != null { LeftKey(t, o); }
    } else if e in EntsOf(t.right) {
      ClearIff(t.right, e);
    }
  }

  lemma {:induction false} OverNone(t: Tree, e: Entity)
    requires e !in EntsOf(t)
    ensures Over(t, e) == null
  {
    if t.Node? { OverNone(t.right, e); }
  }

  lemma LeftKey(t: Tree, o: Entity)
    requires t.Node? && Sorted(Ents(Order(t))) && o in EntsOf(t.left)
    ensures o.vruntime <= t.se.vruntime
  {
    EntsOne(Order(t.left), Item(t.node, t.se), Order(t.right));
    var l, s := Ents(Order(t.left)), Ents(Order(t));
    assert forall i :: 0 <= i < |l| ==> s[i] == l[i];
    assert s[|l|] == t.se;
    Listed(t.left, o);
  }

  // ---------- the entity that cfs_pick_next hands out

  // The entity of the leftmost node, and of its parent
  function FirstEnt(t: Tree): Entity
    requires t.Node?
  {
    if t.left.Node? then FirstEnt(t.left) else t.se
  }

  function FirstParent(t: Tree): Entity
    requires t.Node? && t.left.Node?
  {
    if t.left.left.Node? then FirstParent(t.left) else t.se
  }

  lemma {:induction false} FirstBounds(t: Tree)
    requires t.Node? && t.left.Node? && Sorted(Ents(Order(t)))
    ensures FirstEnt(t) in EntsOf(t.left) && FirstParent(t).vruntime <= t.se.vruntime
    ensures FirstEnt(t).vruntime <= FirstParent(t).vruntime
  {
    FirstListed(t.left);
    InLeft(t);
    if t.left.left.Node? {
      SortedLeft(t);
      FirstBounds(t.left);
    }
  }

  lemma SortedLeft(t: Tree)
    requires t.Node? && Sorted(Ents(Order(t)))
    ensures Sorted(Ents(Order(t.left)))
  {
    EntsOne(Order(t.left), Item(t.node, t.se), Order(t.right));
    var l, s := Ents(Order(t.left)), Ents(Order(t));
    assert forall i :: 0 <= i < |l| ==> s[i] == l[i];
  }

  // The root of the left subtree, and its first entity, come before the root
  lemma InLeft(t: Tree)
    requires t.Node? && t.left.Node? && Sorted(Ents(Order(t)))
    ensures t.left.se.vruntime <= t.se.vruntime && FirstEnt(t.left).vruntime <= t.se.vruntime
  {
    EntsOne(Order(t.left), Item(t.node, t.se), Order(t.right));
    var l, s := Ents(Order(t.left)), Ents(Order(t));
    assert forall i :: 0 <= i < |l| ==> s[i] == l[i];
    assert s[|l|] == t.se;
    FirstListed(t.left);
    Listed(t.left, t.left.se);
    Listed(t.left, FirstEnt(t.left));
  }

  lemma {:induction false} FirstListed(t: Tree)
    requires t.Node?
    ensures FirstEnt(t) in EntsOf(t)
  {
    if t.left.Node? { FirstListed(t.left); }
  }

  lemma {:induction false} FindsFirst(t: Tree)
    requires t.Node? && Sorted(Ents(Order(t))) && Once(Ents(Order(t)), FirstEnt(t))
    ensures Finds(t, FirstEnt(t)) <==> !t.left.Node? || FirstEnt(t).vruntime < FirstParent(t).vruntime
  {
    var e := FirstEnt(t);
    if t.left.Node? {
      FirstBounds(t);
      Halves(t, e);
      FindsFirst(t.left);
      FindsIff(t.right, e);
    }
  }

  // The cached leftmost node, its entity and its parent
  lemma {:induction false} SpineLinked(m: Mem, t: Tree, p: RbNode?)
    requires t.Node? && Linked(m, t, t.node, p)
    ensures var f := First(Order(t));
      && f != null && f in m && m[f].se == FirstEnt(t) && Order(t)[0].se == FirstEnt(t)
      && (!t.left.Node? ==> m[f].parent == p)
      && (t.left.Node? ==> m[f].parent != null && m[f].parent in m && m[m[f].parent].se == FirstParent(t))
  {
    LinkedKids(m, t, p, Left);
    if t.left.Node? {
      LinkedAt(m, t.left, m[t.node].left, t.node);
      SpineLinked(m, t.left, t.node);
    }
  }

  /** cfs_dequeue finds the entity that cfs_pick_next returned exactly when the
      leftmost node is the root or its parent's key is strictly greater. */
  lemma PickFound(q: SchedTree)
    requires q.Valid() && q.leftmost != null && Once(q.Contents(), q.Contents()[0])
    ensures q.leftmost in q.repr
    ensures q.leftmost.parent != null ==> q.leftmost.parent in q.repr
    ensures Finds(q.tree, q.Contents()[0]) <==>
      q.leftmost.parent == null || q.Contents()[0].vruntime < q.leftmost.parent.se.vruntime
  {
    q.ZipTopItems(q.tree, Order(q.tree));
    q.NotDoomed(Top, q.tree);
    SpineLinked(q.M(), q.tree, null);
    FindsFirst(q.tree);
  }

  // The shapes that three insertions with one key go through
  lemma EmptySlot(key: int)
    ensures SlotCtx(Leaf, Top, key) == Top
  {
  }

  lemma FirstInsert(na: RbNode, a: Entity)
    ensures FixInsert(Top, Node(Leaf, na, Red, a, Leaf)) == Node(Leaf, na, Black, a, Leaf)
  {
  }

  lemma SecondSlot(na: RbNode, a: Entity)
    ensures SlotCtx(Node(Leaf, na, Black, a, Leaf), Top, a.vruntime) == In(Right, na, Black, a, Leaf, Top)
  {
    var k := In(Right, na, Black, a, Leaf, Top);
    assert SlotCtx(Leaf, k, a.vruntime) == k;
  }

  lemma SecondInsert(na: RbNode, a: Entity, nb: RbNode, b: Entity)
    ensures FixInsert(In(Right, na, Black, a, Leaf, Top), Node(Leaf, nb, Red, b, Leaf))
         == Node(Leaf, na, Black, a, Node(Leaf, nb, Red, b, Leaf))
  {
    var k := In(Right, na, Black, a, Leaf, Top);
    assert Plug(k, Node(Leaf, nb, Red, b, Leaf)) == Plug(Top, k.Close(Node(Leaf, nb, Red, b, Leaf)));
  }

  lemma ThirdSlot(na: RbNode, a: Entity, nb: RbNode, b: Entity)
    requires a.vruntime == b.vruntime
    ensures SlotCtx(Node(Leaf, na, Black, a, Node(Leaf, nb, Red, b, Leaf)), Top, a.vruntime)
         == In(Right, nb, Red, b, Leaf, In(Right, na, Black, a, Leaf, Top))
  {
    var k := In(Right, na, Black, a, Leaf, Top);
    var k2, tb := In(Right, nb, Red, b, Leaf, k), Node(Leaf, nb, Red, b, Leaf);
    assert SlotCtx(tb, k, a.vruntime) == SlotCtx(Leaf, k2, a.vruntime) == k2;
  }

  lemma ThirdInsert(na: RbNode, a: Entity, nb: RbNode, b: Entity, nc: RbNode, c: Entity)
    ensures FixInsert(In(Right, nb, Red, b, Leaf, In(Right, na, Black, a, Leaf, Top)), Node(Leaf, nc, Red, c, Leaf))
         == Node(Node(Leaf, na, Red, a, Leaf), nb, Black, b, Node(Leaf, nc, Red, c, Leaf))
  {
    var k := In(Right, na, Black, a, Leaf, Top);
    var k2, tc := In(Right, nb, Red, b, Leaf, k), Node(Leaf, nc, Red, c, Leaf);
    assert FixLoop(k2, tc) == Plug(Top, Lifted(k2, tc));
  }

  lemma HeadMissed(na: RbNode, a: Entity, nb: RbNode, b: Entity, nc: RbNode, c: Entity)
    requires a.vruntime == b.vruntime == c.vruntime && a != b && a != c
    ensures !Finds(Node(Node(Leaf, na, Red, a, Leaf), nb, Black, b, Node(Leaf, nc, Red, c, Leaf)), a)
  {
    assert !Finds(Node(Leaf, nc, Red, c, Leaf), a);
  }

  /** A run of the real operations that loses track of an entity: after three
      insertions with one key, removing the entity at the head of the queue
      changes nothing. */
  method EqualKeysMiss(q: SchedTree, a: Entity, b: Entity, c: Entity) returns (ghost found: bool)
    requires q.Valid() && q.Contents() == []
    requires a != b && a != c && b != c && a.vruntime == b.vruntime == c.vruntime
    modifies q, q.repr
    ensures q.Valid() && q.Contents() == [a, b, c] && !found
  {
    hide SchedTree.Valid, FixInsert, SlotCtx, Finds;
    ghost var na, nb, nc, pos, steps, turns, rounds;
    EmptyTree(q);
    EmptySlot(a.vruntime);
    na := InsertLast(q, a);
    FirstInsert(na, a);
    SecondSlot(na, a);
    nb := InsertLast(q, b);
    SecondInsert(na, a, nb, b);
    ThirdSlot(na, a, nb, b);
    nc := InsertLast(q, c);
    ThirdInsert(na, a, nb, b, nc, c);
    HeadMissed(na, a, nb, b, nc, c);
    found, pos, steps, turns, rounds := q.Remove(a);
  }

  // A key that is nowhere exceeded goes to the end
  method InsertLast(q: SchedTree, e: Entity) returns (ghost node: RbNode)
    requires q.Valid() && forall x :: x in q.Contents() ==> x.vruntime <= e.vruntime
    modifies q, q.repr
    ensures q.Valid() && q.Contents() == old(q.Contents()) + [e] && fresh(q.repr - old(q.repr))
    ensures q.tree == FixInsert(old(SlotCtx(q.tree, Top, e.vruntime)), Node(Leaf, node, Red, e, Leaf))
  {
    hide SchedTree.Valid, FixInsert, SlotCtx, Logarithmic;
    ghost var pos, steps, turns, rounds;
    ghost var s := q.Contents();
    forall p | 0 <= p < |s| ensures !Slot(s, p, e) {
      assert s[p] in s;
    }
    node, pos, steps, turns, rounds := q.Insert(e);
  }

  lemma EmptyTree(q: SchedTree)
    requires q.Valid() && q.Contents() == []
    ensures q.tree.Leaf?
  {
  }
}
