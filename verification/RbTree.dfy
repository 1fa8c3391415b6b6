/**
 The run-queue tree of kernel/scheduler/rb_tree.c, as a class over linked nodes.
 */
module RbTree {
  import opened Words
  import opened Threads
  import opened RbShape
  import opened RbHeap

  class SchedTree {
    var root: RbNode?
    var leftmost: RbNode?
    ghost var repr: set<RbNode>
    ghost var tree: Tree
    ghost var height: nat

    constructor ()
      ensures Valid() && Contents() == [] && fresh(repr)
    {
      root, leftmost, repr, tree, height := null, null, {}, Leaf, 0;
    }

    // The queued entities, in order
    ghost function Contents(): seq<Entity>
      reads this
    {
      Ents(Order(tree))
    }

    /** A red-black tree whose node set is `repr`, sorted by key, with the
        cached first node. */
    ghost predicate Valid()
      reads this, repr, Contents()`vruntime
    {
      && Holds(tree, height, Order(tree))
      && NodesOf(Order(tree)) == repr
      && leftmost == First(Order(tree))
      && Sorted(Contents())
    }

    // The node fields, as one value
    ghost function M(): Mem
      reads `repr, repr
    {
      Snap(repr)
    }

    method SetColor(n: RbNode, c: Color)
      requires n in repr
      modifies n`color
      ensures M() == old(M())[n := old(M())[n].(color := c)]
    {
      n.color := c;
    }

    method SetChild(n: RbNode, d: Dir, x: RbNode?)
      requires n in repr
      modifies n`left, n`right
      ensures M() == old(M())[n := old(M())[n].WithChild(d, x)]
    {
      if d == Left { n.left := x; } else { n.right := x; }
    }

    method SetEntity(n: RbNode, e: Entity)
      requires n in repr
      modifies n`se
      ensures M() == old(M())[n := old(M())[n].(se := e)]
    {
      n.se := e;
    }

    // DIR: the side of `n` below its parent
    function Side(n: RbNode): Dir
      requires n.parent != null
      reads n, n.parent
    {
      if n == n.parent.right then Right else Left
    }

    // rotate (rb_tree.c:6-22): its writes, on nodes that are pairwise distinct
    method Turn(n: RbNode, d: Dir)
      requires n in repr && n.Child(Other(d)) != null
      requires var top := n.Child(Other(d)); var child := top.Child(d); var p := n.parent;
        && top in repr && top != n && top != p && n != p
        && (child != null ==> child in repr && child != n && child != top && child != p)
        && (p != null ==> p in repr)
      modifies this`root, repr
      ensures Turned(old(M()), M(), n, d, old(n.parent), old(if n.parent != null then Side(n) else Left),
                     old(root), root)
    {
      var p := n.parent;
      var top := n.Child(Other(d));
      var child := top.Child(d);

      n.SetChild(Other(d), child);
      if child != null { child.parent := n; }

      top.parent := p;
      if p != null {
        p.SetChild(Side(n), top);
      } else {
        root := top;
      }

      n.parent := top;
      top.SetChild(d, n);
    }

    method Rotate(n: RbNode, d: Dir, ghost k: Ctx, ghost t: Tree)
      requires t.Node? && t.Kid(Other(d)).Node? && Foot(t) + CtxFoot(k) <= repr
      requires n == t.node && Zip(M(), k, t, root)
      modifies this`root, repr
      ensures Zip(M(), k, Rotated(t, d), root)
    {
      ghost var m, r := M(), root;
      TurnReady(m, k, t, d, root);
      Turn(n, d);
      TurnedZip(m, M(), k, t, d, r, root);
    }

    // The tree is Plug(k, t), and its in-order items are `items`
    ghost predicate At(k: Ctx, t: Tree, items: seq<Item>)
      reads `root, `repr, repr
    {
      Zip(M(), k, t, root) && Foot(t) + CtxFoot(k) == repr && ZOrder(k, t) == items
    }

    lemma AtUp(k: Ctx, t: Tree, items: seq<Item>)
      requires k.In? && At(k, t, items)
      ensures At(k.up, k.Close(t), items)
    {
      ZipUp(M(), k, t, root);
      ZOrderUp(k, t);
    }

    lemma AtDown(k: Ctx, t: Tree, d: Dir, items: seq<Item>)
      requires t.Node? && At(k, t, items)
      ensures At(Under(k, t, d), t.Kid(d), items)
    {
      ZipDown(M(), k, t, d, root);
      ZOrderUp(Under(k, t, d), t.Kid(d));
    }

    lemma AtTop(k: Ctx, t: Tree, items: seq<Item>)
      requires At(k, t, items)
      ensures At(Top, Plug(k, t), items)
    {
      hide Zip, Plug, Order, Before, After;
      ZipTop(M(), k, t, root);
      PlugOrder(k, t);
      TopOrder(Plug(k, t));
    }

    method RotateAt(n: RbNode, d: Dir, ghost k: Ctx, ghost t: Tree, ghost items: seq<Item>)
      requires t.Node? && n == t.node && t.Kid(Other(d)).Node? && At(k, t, items)
      modifies this`root, repr
      ensures At(k, Rotated(t, d), items)
    {
      hide Zip;
      Rotate(n, d, k, t);
      RotatedKeeps(t, d);
    }

    method PaintHere(n: RbNode, c: Color, ghost k: Ctx, ghost t: Tree, ghost items: seq<Item>)
      requires t.Node? && n == t.node && At(k, t, items)
      modifies n`color
      ensures At(k, t.(color := c), items)
    {
      hide Zip;
      PaintedHere(M(), k, t, c, root);
      SetColor(n, c);
    }

    method PaintParent(p: RbNode, c: Color, ghost k: Ctx, ghost t: Tree, ghost items: seq<Item>)
      requires k.In? && k.node == p && At(k, t, items)
      modifies p`color
      ensures At(k.(color := c), t, items)
    {
      hide Zip;
      PaintedParent(M(), k, t, c, root);
      SetColor(p, c);
    }

    method PaintSib(s: RbNode, c: Color, ghost k: Ctx, ghost t: Tree, ghost items: seq<Item>)
      requires k.In? && k.sib.Node? && k.sib.node == s && At(k, t, items)
      modifies s`color
      ensures At(k.(sib := k.sib.(color := c)), t, items)
    {
      hide Zip;
      PaintedSib(M(), k, t, c, root);
      SetColor(s, c);
    }

    // Outcome of a fix-up: a valid tree with the same in-order items
    ghost predicate Holds(tree: Tree, height: nat, items: seq<Item>)
      reads `root, `repr, repr
    {
      At(Top, tree, items) && Ok(tree, height)
    }

    lemma Settle(k: Ctx, t: Tree, h: nat, items: seq<Item>)
      requires At(k, t, items) && Ok(t, h) && CtxOk(k, h)
      requires t.IsRed() ==> !k.RedAbove()
      ensures Holds(Plug(k, t), RootHeight(k, h), items)
    {
      AtTop(k, t, items);
      PlugOk(k, t, h);
    }

    // Uncle and parent both red (rb_tree.c:61-67)
    method PushUp(parent: RbNode, uncle: RbNode, gp: RbNode, ghost k: Ctx, ghost t: Tree, ghost items: seq<Item>)
      requires k.In? && k.up.In? && k.up.sib.Node? && At(k, t, items)
      requires parent == k.node && uncle == k.up.sib.node && gp == k.up.node
      modifies repr
      ensures At(k.up.up, PushedUp(k, t), items)
    {
      PaintParent(parent, Black, k, t, items);
      ghost var k1 := k.(color := Black);
      AtUp(k1, t, items);
      PaintSib(uncle, Black, k.up, k1.Close(t), items);
      ghost var k2 := k.up.(sib := k.up.sib.(color := Black));
      PaintParent(gp, Red, k2, k1.Close(t), items);
      AtUp(k2.(color := Red), k1.Close(t), items);
    }

    // Uncle black, new node on the outer side (rb_tree.c:54-57)
    method RotateOuter(parent: RbNode, gp: RbNode, d: Dir, ghost k: Ctx, ghost t: Tree, ghost items: seq<Item>)
      requires k.In? && k.dir == d && k.node == gp && t.Node? && t.node == parent && At(k, t, items)
      modifies this`root, repr
      ensures At(k.up, Mk(d, t.Kid(d), parent, Black, t.se, Mk(d, t.Kid(Other(d)), gp, Red, k.se, k.sib)), items)
    {
      AtUp(k, t, items);
      var o := Other(d);
      RotateAt(gp, o, k.up, k.Close(t), items);
      ghost var r := Rotated(k.Close(t), o);
      AtDown(k.up, r, o, items);
      PaintHere(gp, Red, Under(k.up, r, o), r.Kid(o), items);
      PaintParent(parent, Black, Under(k.up, r, o), r.Kid(o).(color := Red), items);
      AtUp(Under(k.up, r, o).(color := Black), r.Kid(o).(color := Red), items);
    }

    // What the code reads at the focus
    lemma Here(k: Ctx, t: Tree, items: seq<Item>)
      requires At(k, t, items)
      ensures var at := t.Root();
        && (at != null ==> at in repr && at.parent == k.Parent() && (at.color == Red <==> t.IsRed()))
        && (t.Node? ==> at.se == t.se && at.left == t.left.Root() && at.right == t.right.Root())
    {
      LinkedAt(M(), t, t.Root(), k.Parent());
      if t.Node? {
        LinkedAt(M(), t.left, M()[t.node].left, t.node);
        LinkedAt(M(), t.right, M()[t.node].right, t.node);
      }
    }

    // What the code reads at the parent and the sibling of the focus
    lemma Above(k: Ctx, t: Tree, items: seq<Item>)
      requires k.In? && At(k, t, items)
      ensures var p, at, s := k.node, t.Root(), k.sib.Root();
        && p in repr && p.color == k.color && p.parent == k.up.Parent()
        && p.Child(k.dir) == at && p.Child(Other(k.dir)) == s
        && (at != null ==> k.dir == (if at == p.right then Right else Left) && s != at)
        && (s != null ==> s in repr && (s.color == Red <==> k.sib.IsRed()))
    {
    }

    // balance_tree_insert (rb_tree.c:24-72)
    method BalanceInsert(node: RbNode, above: RbNode?, ghost k0: Ctx, ghost t0: Tree, ghost h0: nat,
                         ghost items: seq<Item>)
      returns (ghost tree: Tree, ghost height: nat, ghost turns: nat, ghost rounds: nat)
      requires At(k0, t0, items) && above == k0.Parent()
      requires t0.IsRed() && t0.node == node && Ok(t0, h0) && CtxOk(k0, h0)
      modifies this`root, repr
      ensures Holds(tree, height, items) && tree == FixInsert(k0, t0)
      ensures turns <= 2 && 2 * rounds <= Depth(k0) + 1
    {
      hide SchedTree.At, Ok, CtxOk, Plug, RootHeight;
      ghost var k, t, h := k0, t0, h0;
      var n, parent := node, above;
      turns, rounds := 0, 0;
      if parent == null {
        Here(k, t, items);
        PaintHere(n, Black, k, t, items);
        PaintedRootOk(t, h);
        tree, height := t.(color := Black), h + 1;
        return;
      }
      while parent != null
        invariant At(k, t, items) && parent == k.Parent()
        invariant t.IsRed() && t.node == n && Ok(t, h) && CtxOk(k, h)
        invariant k0.In? && FixLoop(k, t) == FixLoop(k0, t0)
        invariant turns == 0 && 2 * rounds + Depth(k) <= Depth(k0)
        decreases k
      {
        Here(k, t, items);
        Above(k, t, items);
        if parent.color == Black {
          Settle(k, t, h, items);
          tree, height, rounds := Plug(k, t), RootHeight(k, h), rounds + 1;
          return;
        }
        var gp := parent.parent;
        if gp == null {
          PaintParent(parent, Black, k, t, items);
          PaintedCtxOk(k, h);
          k := k.(color := Black);
          Settle(k, t, h, items);
          tree, height, rounds := Plug(k, t), RootHeight(k, h), rounds + 1;
          return;
        }
        AtUp(k, t, items);
        Above(k.up, k.Close(t), items);
        var dir := Side(parent);
        var uncle := gp.Child(Other(dir));
        if uncle == null || uncle.color == Black {
          tree, height, turns := LiftUp(n, parent, gp, dir, k, t, h, items);
          rounds := rounds + 1;
          return;
        }
        PushedUpOk(k, t, h);
        PushUp(parent, uncle, gp, k, t, items);
        t, k, h, rounds := PushedUp(k, t), k.up.up, h + 1, rounds + 1;
        n := gp;
        Here(k, t, items);
        parent := n.parent;
      }
      Settle(k, t, h, items);
      tree, height := Plug(k, t), RootHeight(k, h);
    }

    // Parent red, uncle black (rb_tree.c:45-59)
    method LiftUp(node: RbNode, above: RbNode, gp: RbNode, dir: Dir, ghost k: Ctx, ghost t: Tree, ghost h: nat,
                  ghost items: seq<Item>)
      returns (ghost tree: Tree, ghost height: nat, ghost turns: nat)
      requires At(k, t, items) && t.IsRed() && t.node == node && Ok(t, h) && CtxOk(k, h)
      requires k.In? && k.color == Red && k.node == above && k.up.In? && k.up.node == gp && k.up.dir == dir
      requires !k.up.sib.IsRed()
      modifies this`root, repr
      ensures Holds(tree, height, items) && turns <= 2 && tree == Plug(k.up.up, Lifted(k, t))
    {
      hide SchedTree.At;
      Here(k, t, items);
      Above(k, t, items);
      AtUp(k, t, items);
      ghost var s, g := k.Close(t), k.up;
      var n, parent := node, above;
      turns := 0;
      if n == parent.Child(Other(dir)) {
        RotateAt(parent, dir, g, s, items);
        s, turns := Rotated(s, dir), 1;
        n := parent;
        Above(g, s, items);
        parent := gp.Child(dir);
      }
      RotateOuter(parent, gp, dir, g, s, items);
      LiftPartsOk(k, t, h, dir);
      ghost var lifted := Mk(dir, s.Kid(dir), parent, Black, s.se, Mk(dir, s.Kid(Other(dir)), gp, Red, g.se, g.sib));
      LiftedOk(dir, s.Kid(dir), parent, s.se, s.Kid(Other(dir)), gp, g.se, g.sib, h);
      Settle(g.up, lifted, h + 1, items);
      tree, height, turns := Plug(g.up, lifted), RootHeight(g.up, h + 1), turns + 1;
    }

    // The writes of rb_tree.c:98-99
    method Wire(run: RbNode, parent: RbNode?, side: Dir)
      requires run !in repr && run.left == null && run.right == null && run.color == Red
      requires parent == null || parent in repr
      modifies this`root, this`repr, parent, run
      ensures repr == old(repr) + {run} && run.se == old(run.se)
      ensures if parent == null then root == run
              else root == old(root) && M()[parent] == old(M())[parent].WithChild(side, run)
      ensures M()[run] == Cell(null, null, parent, Red, run.se)
      ensures SameBut(old(M()), M(), old(M()).Keys, parent)
    {
      run.parent := parent;
      if parent == null {
        root := run;
      } else {
        parent.SetChild(side, run);
      }
      repr := repr + {run};
    }

    method Attach(run: RbNode, parent: RbNode?, side: Dir, ghost k: Ctx, ghost items: seq<Item>)
      requires At(k, Leaf, items) && parent == k.Parent() && (k.In? ==> side == k.dir)
      requires run !in repr && run.left == null && run.right == null && run.color == Red
      modifies this`root, this`repr, repr, run
      ensures repr == old(repr) + {run} && run.se == old(run.se)
      ensures At(k, Node(Leaf, run, Red, run.se, Leaf), Before(k) + [Item(run, run.se)] + After(k))
    {
      ghost var m, r := M(), root;
      Wire(run, parent, side);
      Attached(m, M(), k, run, run.se, r, root);
      assert Order(Node(Leaf, run, Red, run.se, Leaf)) == [Item(run, run.se)];
    }

    // The descent of rb_insert (rb_tree.c:84-92); `link` is child `side` of `parent`, or the root
    method FindSlot(key: u64) returns (parent: RbNode?, side: Dir, first: bool, ghost k: Ctx)
      requires Valid()
      ensures At(k, Leaf, Order(tree)) && CtxOk(k, 0)
      ensures parent == k.Parent() && (k.In? ==> side == k.dir)
      ensures first <==> Before(k) == []
      ensures AtMost(Before(k), key) && AtLeast(After(k), key + 1)
      ensures Depth(k) <= Height(tree) && k == SlotCtx(tree, Top, key)
    {
      hide SchedTree.At, Sorted;
      ghost var t, h := tree, height;
      var cur := root;
      parent, side, first, k := null, Left, true, Top;
      ZipTopItems(tree, Order(tree));
      while cur != null
        invariant At(k, t, Order(tree)) && Plug(k, t) == tree && cur == t.Root()
        invariant Ok(t, h) && CtxOk(k, h) && (t.IsRed() ==> !k.RedAbove())
        invariant parent == k.Parent() && (k.In? ==> side == k.dir)
        invariant SlotCtx(t, k, key) == SlotCtx(tree, Top, key)
        invariant first <==> Before(k) == []
        invariant AtMost(Before(k), key) && AtLeast(After(k), key + 1)
        invariant Sorted(Contents())
        decreases t
      {
        NotDoomed(k, t);
        Here(k, t, Order(tree));
        parent := cur;
        if key < parent.se.vruntime {
          side := Left;
        } else {
          side := Right;
          first := false;
        }
        SlotDown(k, t, side, key, Order(tree));
        AtDown(k, t, side, Order(tree));
        OkDown(k, t, h, side);
        t, k, h := t.Kid(side), Under(k, t, side), KidHeight(t, h);
        cur := parent.Child(side);
      }
      Here(k, t, Order(tree));
      DepthBound(k, t);
    }

    lemma SlotDown(k: Ctx, t: Tree, d: Dir, key: u64, items: seq<Item>)
      requires t.Node? && At(k, t, items) && Sorted(Ents(items))
      requires AtMost(Before(k), key) && AtLeast(After(k), key + 1)
      requires d == if key < t.se.vruntime then Left else Right
      ensures AtMost(Before(Under(k, t, d)), key) && AtLeast(After(Under(k, t, d)), key + 1)
      ensures Before(Under(k, t, d)) == [] <==> Before(k) == [] && d == Left
    {
      SortedAround(Before(k), Order(t.left), Item(t.node, t.se), Order(t.right), After(k));
    }

    // A linked node that is in the sequence is not doomed
    lemma NotDoomed(k: Ctx, t: Tree)
      requires At(k, t, Order(tree)) && NodesOf(Order(tree)) == repr
      ensures !t.Doomed?
    {
      if t.Doomed? { DoomedUnlisted(k, t); }
    }

    // rb_insert before the balancing (rb_tree.c:74-99)
    method InsertNode(se: Entity)
      returns (run: RbNode, parent: RbNode?, ghost pos: nat, ghost k: Ctx, ghost items: seq<Item>)
      requires Valid()
      modifies this, repr
      ensures fresh(repr - old(repr))
      ensures At(k, Node(Leaf, run, Red, se, Leaf), items) && CtxOk(k, 0) && parent == k.Parent()
      ensures items == Before(k) + [Item(run, se)] + After(k)
      ensures NodesOf(items) == repr && leftmost == First(items)
      ensures old(Slot(Contents(), pos, se)) && Ents(items) == Inserted(old(Contents()), pos, se)
      ensures Logarithmic(Depth(k), old(|Contents()|)) && k == old(SlotCtx(tree, Top, se.vruntime))
    {
      hide SchedTree.At;
      hide Logarithmic, Sorted, Inserted, Slot, Ok, Foot, Order;
      ghost var was := Order(tree);
      assert allocated(Ents(was)) && allocated(EntsOf(tree));
      var side, first;
      parent, side, first, k := FindSlot(se.vruntime);
      DepthLogarithmic(Depth(k), tree, height);
      ZipItems(k, was);
      pos := |Before(k)|;
      SlotItems(was, Before(k), se, After(k));
      run := new RbNode(se, Red);
      items := Before(k) + [Item(run, se)] + After(k);
      InsertedItems(was, Before(k), Item(run, se), After(k));
      if first { leftmost := run; }
      Attach(run, parent, side, k, was);
    }

    // Record the tree value that the nodes now represent
    method SetTree(ghost t: Tree, ghost h: nat, ghost items: seq<Item>)
      requires Holds(t, h, items) && NodesOf(items) == repr && leftmost == First(items) && Sorted(Ents(items))
      modifies `tree, `height
      ensures Valid() && Contents() == Ents(items) && tree == t && height == h
    {
      hide SchedTree.At, Sorted, First, NodesOf, Ok, Foot;
      ZipTopItems(t, items);
      assert allocated(Ents(items));
      tree, height := t, h;
    }

    // rb_insert (rb_tree.c:74-101)
    method Insert(se: Entity)
      returns (ghost node: RbNode, ghost pos: nat, ghost steps: nat, ghost turns: nat, ghost rounds: nat)
      requires Valid()
      modifies this, repr
      ensures Valid() && fresh(repr - old(repr))
      ensures old(Slot(Contents(), pos, se)) && Contents() == Inserted(old(Contents()), pos, se)
      ensures Logarithmic(steps, old(|Contents()|)) && 2 * rounds <= steps + 1 && turns <= 2
      ensures tree == FixInsert(old(SlotCtx(tree, Top, se.vruntime)), Node(Leaf, node, Red, se, Leaf))
    {
      hide SchedTree.At;
      hide Logarithmic, Sorted, Inserted, Slot, Before, After, Foot, CtxOk, FixInsert, SlotCtx;
      ghost var s := Contents();
      assert allocated(s) && allocated(EntsOf(tree));
      var run, parent;
      ghost var k, items, t, h;
      run, parent, pos, k, items := InsertNode(se);
      t, h, turns, rounds := BalanceInsert(run, parent, k, Node(Leaf, run, Red, se, Leaf), 0, items);
      SortedInserted(s, pos, se);
      SetTree(t, h, items);
      node, steps := run, Depth(k);
    }

    lemma ZipItems(k: Ctx, items: seq<Item>)
      requires At(k, Leaf, items)
      ensures items == Before(k) + [] + After(k)
    {
    }

    lemma ZipTopItems(t: Tree, items: seq<Item>)
      requires At(Top, t, items)
      ensures Order(t) == items && Foot(t) == repr && root == t.Root()
    {
    }

    // Case 3 (rb_tree.c:116-125)
    method RaiseRedSibling(p: RbNode, s: RbNode, d: Dir, ghost k: Ctx, ghost t: Tree, ghost items: seq<Item>)
      requires k.In? && k.sib.Node? && k.node == p && k.sib.node == s && k.dir == d && At(k, t, items)
      modifies this`root, repr
      ensures At(RaisedSib(k), t, items)
    {
      AtUp(k, t, items);
      RotateAt(p, d, k.up, k.Close(t), items);
      ghost var r := Rotated(k.Close(t), d);
      AtDown(k.up, r, d, items);
      PaintHere(p, Red, Under(k.up, r, d), r.Kid(d), items);
      PaintParent(s, Black, Under(k.up, r, d), r.Kid(d).(color := Red), items);
      AtDown(Under(k.up, r, d).(color := Black), r.Kid(d).(color := Red), d, items);
    }

    // Case 5 (rb_tree.c:139-146)
    method RaiseNearNephew(p: RbNode, s: RbNode, c: RbNode, d: Dir, ghost k: Ctx, ghost t: Tree, ghost items: seq<Item>)
      requires k.In? && k.sib.Node? && k.node == p && k.sib.node == s && k.dir == d && At(k, t, items)
      requires k.sib.Kid(d).Node? && k.sib.Kid(d).node == c
      modifies this`root, repr
      ensures At(NearNephew(k), t, items)
    {
      var o := Other(d);
      AtUp(k, t, items);
      AtDown(k.up, k.Close(t), o, items);
      ghost var ks := Under(k.up, k.Close(t), o);
      RotateAt(s, o, ks, k.sib, items);
      ghost var r := Rotated(k.sib, o);
      PaintHere(c, Black, ks, r, items);
      AtDown(ks, r.(color := Black), o, items);
      ghost var kc := Under(ks, r.(color := Black), o);
      PaintHere(s, Red, kc, r.Kid(o), items);
      AtUp(kc, r.Kid(o).(color := Red), items);
      ghost var sib := kc.Close(r.Kid(o).(color := Red));
      AtUp(ks, sib, items);
      AtDown(k.up, ks.Close(sib), d, items);
    }

    // Case 6 (rb_tree.c:149-154)
    method RaiseFarNephew(p: RbNode, s: RbNode, far: RbNode, d: Dir,
                          ghost k: Ctx, ghost t: Tree, ghost items: seq<Item>)
      requires k.In? && k.sib.Node? && k.node == p && k.sib.node == s && k.dir == d && At(k, t, items)
      requires k.sib.Kid(Other(d)).Node? && k.sib.Kid(Other(d)).node == far
      modifies this`root, repr
      ensures At(FarNephew(k), t, items)
    {
      AtUp(k, t, items);
      RotateAt(p, d, k.up, k.Close(t), items);
      ghost var r := Rotated(k.Close(t), d);
      AtDown(k.up, r, d, items);
      ghost var kp, tp := Under(k.up, r, d), r.Kid(d);
      Here(kp, tp, items);
      PaintParent(s, p.color, kp, tp, items);
      kp := kp.(color := k.color);
      PaintHere(p, Black, kp, tp, items);
      tp := tp.(color := Black);
      PaintSib(far, Black, kp, tp, items);
      kp := kp.(sib := kp.sib.(color := Black));
      AtDown(kp, tp, d, items);
    }

    // What the code reads at the sibling's children
    lemma Nephews(k: Ctx, t: Tree, items: seq<Item>)
      requires k.In? && k.sib.Node? && At(k, t, items)
      ensures forall d :: k.sib.node.Child(d) == k.sib.Kid(d).Root()
      ensures forall d :: var x := k.sib.Kid(d).Root();
        x != null ==> x in repr && (x.color == Red <==> k.sib.Kid(d).IsRed())
    {
      var m, s := M(), k.sib;
      LinkedAt(m, s, m[k.node].Child(Other(k.dir)), k.node);
      LinkedAt(m, s.left, m[s.node].left, s.node);
      LinkedAt(m, s.right, m[s.node].right, s.node);
    }

    // Down to the doomed node
    lemma {:induction false} AtInto(k: Ctx, j: Ctx, t: Tree, items: seq<Item>)
      requires At(k, Plug(j, t), items)
      ensures At(Append(j, k), t, items)
      decreases j
    {
      if j.In? {
        AtInto(k, j.up, j.Close(t), items);
        AtDown(Append(j.up, k), j.Close(t), j.dir, items);
      }
    }

    lemma Rest(k: Ctx, j: Ctx, node: RbNode, h: nat, items: seq<Item>)
      requires At(k, Plug(j, Doomed(node)), items) && Ok(Plug(j, Doomed(node)), h) && CtxOk(k, h)
      requires !Plug(j, Doomed(node)).IsRed()
      ensures At(Append(j, k), Doomed(node), items)
      ensures Ok(Plug(Append(j, k), Doomed(node)), RootHeight(k, h))
    {
      AtInto(k, j, Doomed(node), items);
      AppendPlug(j, k, Doomed(node));
      PlugOk(k, Plug(j, Doomed(node)), h);
    }

    lemma RestTop(j: Ctx, node: RbNode, h: nat, items: seq<Item>)
      requires At(Top, Plug(j, Doomed(node)), items) && Ok(Plug(j, Doomed(node)), h)
      ensures At(Append(j, Top), Doomed(node), items)
      ensures Ok(Plug(Append(j, Top), Doomed(node)), h)
    {
      AtInto(Top, j, Doomed(node), items);
      AppendPlug(j, Top, Doomed(node));
    }

    // Cases 2 and 4 (rb_tree.c:129-138): `done` in case 4
    method RedSiblingStep(p: RbNode, s: RbNode, ghost k: Ctx, ghost t: Tree, ghost items: seq<Item>)
      returns (done: bool)
      requires k.In? && k.sib.Node? && k.node == p && k.sib.node == s && At(k, t, items)
      modifies repr
      ensures At(ReddenedSib(k), t, items) && (done <==> k.color == Red)
    {
      PaintSib(s, Red, k, t, items);
      ghost var k1 := k.(sib := k.sib.(color := Red));
      Above(k1, t, items);
      done := p.color == Red;
      if done {
        PaintParent(p, Black, k1, t, items);
      }
    }

    // Cases 5 and 6: black sibling with a red child (rb_tree.c:128, 139-154)
    method RaiseSibling(p: RbNode, sib: RbNode, c: RbNode?, far: RbNode?, dir: Dir,
                        ghost k0: Ctx, ghost t: Tree, ghost h: nat, ghost items: seq<Item>)
      returns (ghost k: Ctx, ghost turns: nat)
      requires k0.In? && k0.node == p && k0.dir == dir && k0.sib.Node? && k0.sib.node == sib && k0.sib.color == Black
      requires c == k0.sib.Kid(dir).Root() && far == k0.sib.Kid(Other(dir)).Root()
      requires k0.sib.left.IsRed() || k0.sib.right.IsRed()
      requires At(k0, t, items) && CtxOk(k0, h + 1)
      modifies this`root, repr
      ensures At(k, t, items) && CtxOk(k, h) && k.In? && k.dir == dir && turns <= 2
    {
      hide SchedTree.At, CtxOk;
      k, turns := k0, 0;
      Nephews(k, t, items);
      var s, d := sib, far;
      if d == null || d.color == Black {
        NearNephewOk(k, h);
        RaiseNearNephew(p, s, c, dir, k, t, items);
        k, turns := NearNephew(k), 1;
        d := s;
        s := c;
      }
      FarNephewOk(k, h);
      RaiseFarNephew(p, s, d, dir, k, t, items);
      k, turns := FarNephew(k), turns + 1;
    }

    // Case 1 (rb_tree.c:157-158)
    method SetRoot(n: RbNode, ghost t: Tree, ghost items: seq<Item>)
      requires n == t.Root() && At(Top, t, items)
      modifies `root
      ensures At(Top, t, items)
    {
      root := n;
    }

    // One round of balance_tree_remove (rb_tree.c:110-154); not `done` in case 2
    method RemoveRound(n: RbNode, ghost k0: Ctx, ghost t: Tree, ghost h: nat, ghost items: seq<Item>)
      returns (done: bool, ghost k: Ctx, ghost turns: nat)
      requires k0.In? && At(k0, t, items) && n == t.Root() && Ok(t, h) && CtxOk(k0, h + 1)
      modifies this`root, repr
      ensures At(k, t, items) && k.In? && k.dir == k0.dir && turns <= 3
      ensures done ==> CtxOk(k, h)
      ensures !done ==> turns == 0 && k.up == k0.up && Ok(k.Close(t), h + 1) && CtxOk(k.up, h + 2)
      ensures !done ==> k.node == k0.node && k.color == Black
    {
      hide SchedTree.At, Ok, CtxOk;
      k, turns := k0, 0;
      Here(k, t, items);
      Above(k, t, items);
      SiblingExists(k, h);
      Nephews(k, t, items);
      var dir := Side(n);
      var p := n.parent;
      var s := p.Child(Other(dir));
      var c := s.Child(dir);
      var d := s.Child(Other(dir));

      if s.color == Red {
        RaisedSibOk(k, h);
        RaiseRedSibling(p, s, dir, k, t, items);
        k, turns := RaisedSib(k), 1;
        s := c;
        Above(k, t, items);
        Nephews(k, t, items);
        c := s.Child(dir);
        d := s.Child(Other(dir));
      }

      if (d == null || d.color == Black) && (c == null || c.color == Black) {
        ReddenedSibOk(k, t, h);
        done := RedSiblingStep(p, s, k, t, items);
        k := ReddenedSib(k);
        return;
      }
      ghost var more;
      k, more := RaiseSibling(p, s, c, d, dir, k, t, h, items);
      done, turns := true, turns + more;
    }

    // balance_tree_remove (rb_tree.c:103-160)
    method BalanceRemove(node: RbNode, ghost k0: Ctx, ghost items: seq<Item>)
      returns (ghost kk: Ctx, ghost height: nat, ghost turns: nat, ghost rounds: nat)
      requires k0.In? && At(k0, Doomed(node), items) && CtxOk(k0, 1)
      modifies this`root, repr
      ensures At(kk, Doomed(node), items) && kk.In? && kk.dir == k0.dir
      ensures Ok(Plug(kk, Doomed(node)), height)
      ensures turns <= 3 && rounds <= Depth(k0)
    {
      hide SchedTree.At, Ok, CtxOk, RootHeight, Append, Plug;
      DoomedBase(k0, node);
      ghost var k, j, h := k0, Top, 0;
      ghost var t := Doomed(node);
      var n: RbNode := node;
      rounds := 0;
      Here(k, t, items);
      while n.parent != null
        invariant At(k, t, items) && t == Plug(j, Doomed(node)) && n == t.Root() && n in repr && n.parent == k.Parent()
        invariant Ok(t, h) && (k.In? ==> CtxOk(k, h + 1)) && !t.IsRed()
        invariant Append(j, k).In? && Append(j, k).dir == k0.dir
        invariant rounds + Depth(k) <= Depth(k0)
        decreases k
      {
        var p := n.parent;
        var done;
        ghost var k';
        done, k', turns := RemoveRound(n, k, t, h, items);
        rounds := rounds + 1;
        AppendSide(j, k, k');
        if done {
          Rest(k', j, node, h, items);
          kk, height := Append(j, k'), RootHeight(k', h);
          return;
        }
        AtUp(k', t, items);
        AppendFrame(j, k', Doomed(node));
        t, j, k, h := k'.Close(t), Append(j, Frame(k')), k.up, h + 1;
        n := p;
        Here(k, t, items);
      }
      SetRoot(n, t, items);
      RestTop(j, node, h, items);
      kk, height, turns := Append(j, Top), h, 0;
    }

    // The search of rb_remove (rb_tree.c:173-182)
    method Find(se: Entity) returns (n: RbNode?, ghost k: Ctx, ghost t: Tree, ghost h: nat)
      requires Valid()
      ensures At(k, t, Order(tree)) && n == t.Root() && Plug(k, t) == tree
      ensures n != null <==> Finds(tree, se)
      ensures n != null ==> t.Node? && t.se == se
      ensures Ok(t, h) && CtxOk(k, h) && (t.IsRed() ==> !k.RedAbove())
      ensures Depth(k) <= Height(tree)
    {
      hide SchedTree.At;
      var key := se.vruntime;
      n, k, t, h := root, Top, tree, height;
      ZipTopItems(tree, Order(tree));
      NotDoomed(k, t);
      Here(k, t, Order(tree));
      while n != null && n.se != se
        invariant At(k, t, Order(tree)) && Plug(k, t) == tree && n == t.Root() && !t.Doomed?
        invariant n != null ==> n.se == t.se
        invariant Ok(t, h) && CtxOk(k, h) && (t.IsRed() ==> !k.RedAbove())
        invariant Finds(t, se) <==> Finds(tree, se)
        decreases t
      {
        Here(k, t, Order(tree));
        var d := if key < n.se.vruntime then Left else Right;
        n := n.Child(d);
        AtDown(k, t, d, Order(tree));
        OkDown(k, t, h, d);
        t, k, h := t.Kid(d), Under(k, t, d), KidHeight(t, h);
        NotDoomed(k, t);
        Here(k, t, Order(tree));
      }
      DepthBound(k, t);
    }

    // rightmost (rb_tree.c:167-170)
    method Rightmost(sub: RbNode, ghost k0: Ctx, ghost t0: Tree, ghost items: seq<Item>) returns (r: RbNode)
      requires t0.Node? && t0.node == sub && At(k0, t0, items) && NodesOf(items) == repr
      ensures r == RmTree(t0).node && r.se == RmTree(t0).se && RmTree(t0).right.Leaf?
    {
      hide SchedTree.At;
      ghost var k, t := k0, t0;
      r := sub;
      Here(k, t, items);
      NoDoomedChild(k, t, items);
      while r.right != null
        invariant t.Node? && r == t.node && At(k, t, items) && RmTree(t) == RmTree(t0)
        invariant r.se == t.se && r.right == t.right.Root() && !t.right.Doomed?
        decreases t
      {
        r := r.right;
        AtDown(k, t, Right, items);
        k, t := Under(k, t, Right), t.right;
        Here(k, t, items);
        NoDoomedChild(k, t, items);
      }
    }

    lemma NoDoomedChild(k: Ctx, t: Tree, items: seq<Item>)
      requires t.Node? && At(k, t, items) && NodesOf(items) == repr
      ensures !t.left.Doomed? && !t.right.Doomed?
    {
      AtDown(k, t, Left, items);
      AtDown(k, t, Right, items);
      if t.left.Doomed? { DoomedUnlisted(Under(k, t, Left), t.left); }
      if t.right.Doomed? { DoomedUnlisted(Under(k, t, Right), t.right); }
    }

    lemma {:induction false} AtRightmost(k: Ctx, t: Tree, items: seq<Item>)
      requires t.Node? && At(k, t, items)
      ensures At(RmCtx(k, t), RmTree(t), items)
      decreases t
    {
      if t.right.Node? {
        AtDown(k, t, Right, items);
        AtRightmost(Under(k, t, Right), t.right, items);
      }
    }

    // The node at the focus gets another entity
    method Reseat(n: RbNode, e: Entity, ghost k: Ctx, ghost t: Tree, ghost items: seq<Item>)
      requires t.Node? && t.node == n && At(k, t, items)
      modifies n`se
      ensures At(k, t.(se := e), ZOrder(k, t.(se := e)))
    {
      hide Zip;
      ReseatedHere(M(), k, t, e, root);
      SetEntity(n, e);
    }

    // The writes p->child[d] = NULL; free(n)
    method Clear(p: RbNode, d: Dir, n: RbNode)
      requires p in repr && n in repr && n != p
      modifies p`left, p`right, `repr
      ensures repr == old(repr) - {n} && M()[p] == old(M())[p].WithChild(d, null)
      ensures SameBut(old(M()), M(), old(M()).Keys - {n}, p)
    {
      p.SetChild(d, null);
      repr := repr - {n};
    }

    // The node at the focus leaves, its parent's link is cleared (rb_tree.c:222, 228)
    method Unlink(n: RbNode, p: RbNode, d: Dir, ghost k: Ctx, ghost t: Tree, ghost items: seq<Item>)
      requires k.In? && p == k.node && d == k.dir && At(k, t, items) && t.Root() == n && Foot(t) == {n}
      modifies p`left, p`right, `repr
      ensures repr == old(repr) - {n} && At(k, Leaf, Before(k) + After(k))
    {
      hide Zip;
      Apart(k, t, items);
      ghost var m := M();
      Clear(p, d, n);
      Unlinked(m, M(), k, t, root);
      assert ZOrder(k, Leaf) == Before(k) + After(k);
    }

    lemma Apart(k: Ctx, t: Tree, items: seq<Item>)
      requires At(k, t, items)
      ensures Foot(t) !! CtxFoot(k) && Foot(t) + CtxFoot(k) == repr && items == ZOrder(k, t)
      ensures t.Root() != null ==> t.Root() in Foot(t)
      ensures k.In? ==> k.node in CtxFoot(k)
      ensures Foot(Leaf) == {}
    {
    }

    lemma SepOf(k: Ctx, t: Tree, d: Dir, items: seq<Item>)
      requires t.Node? && At(k, t, items)
      ensures Foot(t) == Foot(t.Kid(d)) + {t.node} + Foot(t.Kid(Other(d))) && Foot(t) + CtxFoot(k) == repr
      ensures Foot(t) !! CtxFoot(k) && t.node !in Foot(t.Kid(d)) && Foot(t.Kid(d)) !! Foot(t.Kid(Other(d)))
    {
    }

    // A node with one child takes over its entity (rb_tree.c:197-208)
    method Absorb(n: RbNode, c: RbNode, d: Dir, ghost k: Ctx, ghost t: Tree, ghost items: seq<Item>)
      requires t.Node? && t.node == n && t.Kid(d).Node? && t.Kid(d).node == c && At(k, t, items)
      requires t.Kid(Other(d)).Leaf? && t.Kid(d).left.Leaf? && t.Kid(d).right.Leaf?
      modifies n`left, n`right, n`se, `repr
      ensures repr == old(repr) - {c}
      ensures At(k, Node(Leaf, n, t.color, t.Kid(d).se, Leaf), Before(k) + [Item(n, t.Kid(d).se)] + After(k))
    {
      hide Zip, Order, Before, After;
      AtDown(k, t, d, items);
      Here(Under(k, t, d), t.Kid(d), items);
      SepOf(k, t, d, items);
      ghost var m := M();
      SetEntity(n, c.se);
      Clear(n, d, c);
      Absorbed(m, M(), k, t, d, root);
      Single(n, t.color, t.Kid(d).se);
    }

    // A consistent tree value for the nodes, whether or not it is recorded in `tree`
    ghost predicate Whole(t: Tree, h: nat, items: seq<Item>)
      reads this, repr
    {
      Holds(t, h, items) && NodesOf(items) == repr && leftmost == First(items)
    }

    // rb_remove at a node with one child (rb_tree.c:195-209)
    method RemoveWithChild(n: RbNode, d: Dir, ghost k: Ctx, ghost t: Tree, ghost h: nat, ghost items: seq<Item>)
      returns (ghost t': Tree, ghost h': nat, ghost items': seq<Item>)
      requires At(k, t, items) && NodesOf(items) == repr && leftmost == First(items)
      requires t.Node? && n == t.node && t.Kid(d).Node? && t.Kid(Other(d)).Leaf?
      requires Ok(t, h) && CtxOk(k, h)
      modifies this, repr
      ensures Whole(t', h', items') && repr <= old(repr)
      ensures items' == Before(k) + [Item(n, t.Kid(d).se)] + After(k)
    {
      hide SchedTree.At, First, NodesOf, Before, After, Ok, CtxOk;
      Here(k, t, items);
      OnlyChild(k, t, h, d, items);
      var child := n.Child(d);
      items' := Before(k) + [Item(n, t.Kid(d).se)] + After(k);
      Absorb(n, child, d, k, t, items);
      if child == leftmost { leftmost := n; }
      ghost var s := Node(Leaf, n, Black, t.Kid(d).se, Leaf);
      Settle(k, s, h, items');
      t', h' := Plug(k, s), RootHeight(k, h);
    }

    lemma OnlyChild(k: Ctx, t: Tree, h: nat, d: Dir, items: seq<Item>)
      requires At(k, t, items) && NodesOf(items) == repr
      requires t.Node? && t.Kid(d).Node? && t.Kid(Other(d)).Leaf? && Ok(t, h)
      ensures t.color == Black && t.Kid(d).left.Leaf? && t.Kid(d).right.Leaf?
      ensures Ok(Node(Leaf, t.node, Black, t.Kid(d).se, Leaf), h)
      ensures var left := Before(k) + [Item(t.node, t.Kid(d).se)] + After(k); var c := t.Kid(d).node;
        NodesOf(left) == repr - {c} && First(left) == (if First(items) == c then t.node else First(items))
    {
      var c := t.Kid(d);
      AtDown(k, t, d, items);
      NoDoomedChild(Under(k, t, d), c, items);
      OneChild(t, h, d);
      SepParts(t, d);
      assert Order(c) == [Item(c.node, c.se)];
      assert d == Left ==> Order(t) == [Item(c.node, c.se), Item(t.node, t.se)];
      assert d == Right ==> Order(t) == [Item(t.node, t.se), Item(c.node, c.se)];
      ChildGone(k, t.node, t.se, c.node, c.se, d);
    }

    lemma OnlyNode(k: Ctx, t: Tree, h: nat, items: seq<Item>)
      requires At(k, t, items) && NodesOf(items) == repr
      requires t.Node? && t.left.Leaf? && t.right.Leaf? && Ok(t, h) && CtxOk(k, h)
      ensures var left := Before(k) + After(k);
        NodesOf(left) == repr - {t.node} && First(left) == (if First(items) == t.node then k.Parent() else First(items))
      ensures root == t.node <==> k.Top?
      ensures t.color == Red ==> Ok(Leaf, h)
      ensures t.color == Black ==> CtxOk(k, 1) && At(k, Doomed(t.node), Before(k) + After(k))
    {
      hide SchedTree.At;
      Apart(k, t, items);
      assert Order(t) == [Item(t.node, t.se)];
      LeafGone(k, t.node, t.se);
      RootOf(k, t, items);
      if t.color == Black { Doom(k, t, items); }
    }

    lemma RootOf(k: Ctx, t: Tree, items: seq<Item>)
      requires t.Node? && At(k, t, items)
      ensures root == t.node <==> k.Top?
    {
      CtxRoot(M(), k, t.node, root);
    }

    lemma Doom(k: Ctx, t: Tree, items: seq<Item>)
      requires t.Node? && t.color == Black && t.left.Leaf? && t.right.Leaf? && At(k, t, items)
      ensures At(k, Doomed(t.node), Before(k) + After(k))
    {
      DoomedHere(M(), k, t, root);
      assert ZOrder(k, Doomed(t.node)) == Before(k) + After(k);
    }

    // The whole tree was one node (rb_tree.c:214-218)
    method RemoveRoot(n: RbNode, ghost t: Tree, ghost items: seq<Item>)
      requires At(Top, t, items) && Foot(t) == {n}
      modifies `root, `repr
      ensures At(Top, Leaf, []) && repr == old(repr) - {n}
    {
      root := null;
      repr := repr - {n};
    }

    // rb_remove at a black leaf (rb_tree.c:220, 227-229)
    method RemoveBlackLeaf(n: RbNode, ghost k: Ctx, ghost items: seq<Item>)
      returns (ghost t': Tree, ghost h': nat, ghost turns: nat, ghost rounds: nat)
      requires k.In? && At(k, Doomed(n), items) && CtxOk(k, 1)
      modifies `root, `repr, repr
      ensures Holds(t', h', items) && repr == old(repr) - {n} && turns <= 3 && rounds <= Depth(k)
    {
      hide SchedTree.At;
      Here(k, Doomed(n), items);
      Above(k, Doomed(n), items);
      var dir := Side(n);
      ghost var kk;
      kk, h', turns, rounds := BalanceRemove(n, k, items);
      Here(kk, Doomed(n), items);
      Above(kk, Doomed(n), items);
      NoItems(kk, n, items);
      Unlink(n, n.parent, dir, kk, Doomed(n), items);
      OkSwap(kk, Doomed(n), Leaf, h');
      AtTop(kk, Leaf, items);
      t' := Plug(kk, Leaf);
    }

    lemma NoItems(k: Ctx, n: RbNode, items: seq<Item>)
      requires At(k, Doomed(n), items)
      ensures items == Before(k) + After(k)
    {
    }

    // rb_remove at a childless node (rb_tree.c:211-229)
    method RemoveLeaf(n: RbNode, ghost k: Ctx, ghost t: Tree, ghost h: nat, ghost items: seq<Item>)
      returns (ghost t': Tree, ghost h': nat, ghost items': seq<Item>, ghost turns: nat, ghost rounds: nat)
      requires At(k, t, items) && NodesOf(items) == repr && leftmost == First(items)
      requires t.Node? && n == t.node && t.left.Leaf? && t.right.Leaf?
      requires Ok(t, h) && CtxOk(k, h)
      modifies this, repr
      ensures Whole(t', h', items') && repr <= old(repr) && items' == Before(k) + After(k)
      ensures turns <= 3 && rounds <= Depth(k)
    {
      hide SchedTree.At, First, NodesOf, Before, After, CtxOk;
      items', turns, rounds := Before(k) + After(k), 0, 0;
      Here(k, t, items);
      OnlyNode(k, t, h, items);
      if n == leftmost { leftmost := n.parent; }
      if n == root {
        RemoveRoot(n, t, items);
        t', h' := Leaf, 0;
        EmptyTop();
        return;
      }
      Above(k, t, items);
      var dir := Side(n);
      if n.color == Red {
        Unlink(n, n.parent, dir, k, t, items);
        Settle(k, Leaf, h, items');
        t', h' := Plug(k, Leaf), RootHeight(k, h);
        return;
      }
      t', h', turns, rounds := RemoveBlackLeaf(n, k, items');
    }

    lemma EmptyTop()
      ensures Before(Top) + After(Top) == []
    {
    }

    // rb_remove at a node with at most one child (rb_tree.c:195-229)
    method RemoveNarrow(n: RbNode, ghost k: Ctx, ghost t: Tree, ghost h: nat, ghost items: seq<Item>)
      returns (ghost t': Tree, ghost h': nat, ghost items': seq<Item>, ghost turns: nat, ghost rounds: nat)
      requires At(k, t, items) && NodesOf(items) == repr && leftmost == First(items)
      requires t.Node? && n == t.node && (t.left.Leaf? || t.right.Leaf?)
      requires Ok(t, h) && CtxOk(k, h)
      modifies this, repr
      ensures Whole(t', h', items') && repr <= old(repr) && Ents(items') == Without(k, t)
      ensures turns <= 3 && rounds <= Depth(k)
    {
      hide SchedTree.At, SchedTree.Holds, First, NodesOf, Before, After, Ok, CtxOk;
      Here(k, t, items);
      NoDoomedChild(k, t, items);
      if n.left != null || n.right != null {
        var d := if n.left != null then Left else Right;
        OnlyChild(k, t, h, d, items);
        t', h', items' := RemoveWithChild(n, d, k, t, h, items);
        turns, rounds := 0, 0;
        EntsOne(Before(k), Item(n, t.Kid(d).se), After(k));
        assert Order(t.Kid(d)) == [Item(t.Kid(d).node, t.Kid(d).se)];
      } else {
        t', h', items', turns, rounds := RemoveLeaf(n, k, t, h, items);
        EntsSplit(Before(k), After(k));
      }
    }

    // Two children: the predecessor's entity goes up (rb_tree.c:187-193)
    method SwapDown(n: RbNode, ghost k: Ctx, ghost t: Tree, ghost h: nat, ghost items: seq<Item>)
      returns (sw: RbNode, ghost k': Ctx, ghost t': Tree, ghost h': nat, ghost items': seq<Item>)
      requires At(k, t, items) && NodesOf(items) == repr && leftmost == First(items)
      requires t.Node? && n == t.node && t.left.Node? && t.right.Node?
      requires Ok(t, h) && CtxOk(k, h) && (t.IsRed() ==> !k.RedAbove())
      modifies repr
      ensures At(k', t', items') && NodesOf(items') == repr && leftmost == First(items')
      ensures t'.Node? && sw == t'.node && t'.right.Leaf? && Ok(t', h') && CtxOk(k', h')
      ensures Without(k', t') == Without(k, t) && Depth(k') <= Depth(k) + Height(t)
    {
      hide SchedTree.At, First, NodesOf, Before, After, Without, Depth, Height;
      SwapDepth(k, t);
      Here(k, t, items);
      AtDown(k, t, Left, items);
      sw := Rightmost(n.left, Under(k, t, Left), t.left, items);
      AtRightmost(Under(k, t, Left), t.left, items);
      SwapWithout(k, t);
      ReseatedNodes(k, t, RmTree(t.left).se);
      OrderOf(k, t, items);
      Here(RmCtx(Under(k, t, Left), t.left), RmTree(t.left), items);
      Reseat(n, sw.se, k, t, items);
      ghost var t1 := t.(se := RmTree(t.left).se);
      items' := ZOrder(k, t1);
      AtDown(k, t1, Left, items');
      AtRightmost(Under(k, t1, Left), t.left, items');
      OkDown(k, t1, h, Left);
      h' := RmOk(Under(k, t1, Left), t.left, KidHeight(t1, h));
      k', t' := RmCtx(Under(k, t1, Left), t.left), RmTree(t.left);
    }

    lemma SwapDepth(k: Ctx, t: Tree)
      requires t.Node? && t.left.Node?
      ensures Depth(RmCtx(Under(k, t.(se := RmTree(t.left).se), Left), t.left)) <= Depth(k) + Height(t)
    {
      RmDepth(Under(k, t.(se := RmTree(t.left).se), Left), t.left);
    }

    lemma OrderOf(k: Ctx, t: Tree, items: seq<Item>)
      requires At(k, t, items)
      ensures items == ZOrder(k, t)
    {
    }

    // rb_remove (rb_tree.c:172-230)
    method Remove(se: Entity)
      returns (ghost found: bool, ghost pos: nat, ghost steps: nat, ghost turns: nat, ghost rounds: nat)
      requires Valid()
      modifies this, repr
      ensures Valid() && repr <= old(repr)
      ensures found <==> old(Finds(tree, se))
      ensures !found ==> tree == old(tree) && Contents() == old(Contents())
      ensures found ==> pos < |old(Contents())| && old(Contents())[pos] == se
      ensures found ==> Contents() == Removed(old(Contents()), pos)
      ensures Logarithmic(steps, old(|Contents()|)) && Logarithmic(rounds, old(|Contents()|)) && turns <= 3
    {
      hide SchedTree.At, First, NodesOf, Before, After, Without, Sorted, Ok, CtxOk, Logarithmic, Removed, Finds, Order;
      ghost var s, was := Contents(), Order(tree);
      assert allocated(s) && allocated(EntsOf(tree));
      var n;
      ghost var k, t, h;
      n, k, t, h := Find(se);
      DepthLogarithmic(Depth(k), tree, height);
      DepthLogarithmic(0, tree, height);
      DepthBound(k, t);
      found, steps, turns, rounds, pos := n != null, Depth(k), 0, 0, 0;
      if n == null { return; }
      ghost var was_tree, was_height := tree, height;
      Here(k, t, was);
      NoDoomedChild(k, t, was);
      OrderOf(k, t, was);
      WithoutRemoved(k, t);
      pos := Rank(k, t);
      SortedRemoved(s, pos);
      assert allocated(Removed(s, pos));
      ghost var items, k', t', h' := was, k, t, h;
      if n.left != null && n.right != null {
        n, k', t', h', items := SwapDown(n, k, t, h, was);
      }
      t', h', items, turns, rounds := RemoveNarrow(n, k', t', h', items);
      DepthLogarithmic(rounds, was_tree, was_height);
      SetTree(t', h', items);
    }

    // The cached node carries the first entity
    lemma Cached()
      requires Valid()
      ensures leftmost != null <==> Contents() != []
      ensures leftmost != null ==> leftmost in repr && leftmost.se == Contents()[0]
    {
      if leftmost != null {
        NotDoomed(Top, tree);
        FirstNode(M(), tree, null);
      }
    }
  }
}
