/**
 Node memory of kernel/scheduler/rb_tree.c: which contents of the node fields
 represent a tree value at a context.
 */
module RbHeap {
  import opened Threads
  import opened RbShape

  // The fields of one rb_node_t
  datatype Cell = Cell(left: RbNode?, right: RbNode?, parent: RbNode?, color: Color, se: Entity)
  {
    function Child(d: Dir): RbNode? { if d == Left then left else right }

    function WithChild(d: Dir, x: RbNode?): (c: Cell)
      ensures c.Child(d) == x && c.Child(Other(d)) == Child(Other(d))
    {
      if d == Left then this.(left := x) else this.(right := x)
    }
  }

  type Mem = map<RbNode, Cell>

  ghost function Snap(s: set<RbNode>): Mem
    reads s
  {
    map x | x in s :: Cell(x.left, x.right, x.parent, x.color, x.se)
  }

  // The nodes of `t` carry its shape, colours, entities and parent links
  predicate Linked(m: Mem, t: Tree, at: RbNode?, parent: RbNode?) {
    match t
    case Leaf => at == null
    case Doomed(n) => at == n && n in m && m[n] == Cell(null, null, parent, Black, m[n].se)
    case Node(l, n, c, e, r) =>
      && at == n && n in m && m[n].parent == parent && m[n].color == c && m[n].se == e
      && Linked(m, l, m[n].left, n) && Linked(m, r, m[n].right, n)
  }

  // The same for a context whose hole holds the pointer `at`
  predicate CtxLinked(m: Mem, k: Ctx, at: RbNode?, root: RbNode?)
    decreases k
  {
    match k
    case Top => at == root
    case In(d, n, c, e, s, up) =>
      && n in m && m[n].Child(d) == at && m[n].parent == up.Parent() && m[n].color == c && m[n].se == e
      && Linked(m, s, m[n].Child(Other(d)), n)
      && CtxLinked(m, up, n, root)
  }

  // The memory, from `root` down, is Plug(k, t)
  predicate Zip(m: Mem, k: Ctx, t: Tree, root: RbNode?) {
    && Sep(t) && CtxSep(k) && Foot(t) !! CtxFoot(k)
    && Linked(m, t, t.Root(), k.Parent())
    && CtxLinked(m, k, t.Root(), root)
  }

  predicate Same(m: Mem, m': Mem, s: set<RbNode>) {
    forall x :: x in s && x in m ==> x in m' && m'[x] == m[x]
  }

  predicate SameBut(m: Mem, m': Mem, s: set<RbNode>, y: RbNode?) {
    forall x :: x in s && x != y && x in m ==> x in m' && m'[x] == m[x]
  }

  lemma {:induction false} LinkedFrame(m: Mem, m': Mem, t: Tree, at: RbNode?, p: RbNode?)
    requires Linked(m, t, at, p) && Same(m, m', Foot(t))
    ensures Linked(m', t, at, p)
  {
    if t.Node? {
      LinkedFrame(m, m', t.left, m[t.node].left, t.node);
      LinkedFrame(m, m', t.right, m[t.node].right, t.node);
    }
  }

  lemma {:induction false} CtxFrame(m: Mem, m': Mem, k: Ctx, at: RbNode?, root: RbNode?)
    requires CtxLinked(m, k, at, root) && Same(m, m', CtxFoot(k))
    ensures CtxLinked(m', k, at, root)
    decreases k
  {
    if k.In? {
      LinkedFrame(m, m', k.sib, m[k.node].Child(Other(k.dir)), k.node);
      CtxFrame(m, m', k.up, k.node, root);
    }
  }

  lemma ZipUp(m: Mem, k: Ctx, t: Tree, root: RbNode?)
    requires k.In? && Zip(m, k, t, root)
    ensures Zip(m, k.up, k.Close(t), root)
    ensures Foot(k.Close(t)) + CtxFoot(k.up) == Foot(t) + CtxFoot(k)
  {
  }

  // The context seen from child `d` of the root of `t`
  function Under(k: Ctx, t: Tree, d: Dir): Ctx
    requires t.Node?
  {
    In(d, t.node, t.color, t.se, t.Kid(Other(d)), k)
  }

  lemma ZipDown(m: Mem, k: Ctx, t: Tree, d: Dir, root: RbNode?)
    requires t.Node? && Zip(m, k, t, root)
    ensures Zip(m, Under(k, t, d), t.Kid(d), root)
    ensures Foot(t.Kid(d)) + CtxFoot(Under(k, t, d)) == Foot(t) + CtxFoot(k)
  {
    LinkedKids(m, t, k.Parent(), d);
    LinkedAt(m, t.Kid(d), m[t.node].Child(d), t.node);
  }

  // Only the nodes named may differ
  predicate Kept(m: Mem, m': Mem, n: RbNode, top: RbNode, child: RbNode?, p: RbNode?) {
    forall x :: x in m && x != n && x != top && x != child && x != p ==> x in m' && m'[x] == m[x]
  }

  lemma KeptSame(m: Mem, m': Mem, s: set<RbNode>, n: RbNode, top: RbNode, child: RbNode?, p: RbNode?)
    requires Kept(m, m', n, top, child, p) && n !in s && top !in s
    ensures child == null || child !in s ==> SameBut(m, m', s, p)
    ensures p == null || p !in s ==> SameBut(m, m', s, child)
    ensures (child == null || child !in s) && (p == null || p !in s) ==> Same(m, m', s)
  {
  }

  // What the writes of rotate (rb_tree.c:6-22) leave in memory; `n` was on `side` of `p`
  predicate Turned(m: Mem, m': Mem, n: RbNode, d: Dir, p: RbNode?, side: Dir, root: RbNode?, root': RbNode?)
    requires n in m
  {
    var top := m[n].Child(Other(d));
    top != null && top in m &&
    var child := m[top].Child(d);
    && n in m' && m'[n] == m[n].WithChild(Other(d), child).(parent := top)
    && top in m' && m'[top] == m[top].WithChild(d, n).(parent := p)
    && (child != null && child in m ==> child in m' && m'[child] == m[child].(parent := n))
    && (p == null ==> root' == top)
    && (p != null && p in m ==> root' == root && p in m' && m'[p] == m[p].WithChild(side, top))
    && Kept(m, m', n, top, child, p)
  }

  // The four nodes that rotate writes are distinct, and DIR finds the right side
  lemma TurnReady(m: Mem, k: Ctx, t: Tree, d: Dir, root: RbNode?)
    requires t.Node? && t.Kid(Other(d)).Node?
    requires Zip(m, k, t, root)
    ensures var n, top, p := t.node, t.Kid(Other(d)).node, k.Parent();
      && n in m && m[n].Child(Other(d)) == top && m[n].parent == p
      && top in m && top in Foot(t) && top != n && n != p && top != p
      && (p != null ==> p in m && p in CtxFoot(k) && k.dir == if m[p].right == n then Right else Left)
      && var child := m[top].Child(d);
      child != null ==> child in Foot(t) && child != n && child != top && child != p
  {
    var y := t.Kid(Other(d));
    SepParts(t, d);
    SepParts(y, d);
    LinkedKids(m, t, k.Parent(), d);
    LinkedKids(m, y, t.node, d);
    LinkedAt(m, y.Kid(d), m[y.node].Child(d), y.node);
    if k.In? {
      LinkedAt(m, k.sib, m[k.node].Child(Other(k.dir)), k.node);
    }
  }

  lemma TurnedZip(m: Mem, m': Mem, k: Ctx, t: Tree, d: Dir, root: RbNode?, root': RbNode?)
    requires t.Node? && t.Kid(Other(d)).Node?
    requires Zip(m, k, t, root)
    requires Turned(m, m', t.node, d, k.Parent(), if k.In? then k.dir else Left, root, root')
    ensures Zip(m', k, Rotated(t, d), root')
  {
    var y := t.Kid(Other(d));
    SepParts(t, d);
    SepParts(y, d);
    RotatedKeeps(t, d);
    LinkedKids(m, t, k.Parent(), d);
    LinkedKids(m, y, t.node, d);
    TurnedSame(m, m', k, t, d, root, root');
    TurnedParts(m, m', t.node, y.node, d, t.Kid(d), y.Kid(d), y.Kid(Other(d)), k.Parent());
    HoleMoved(m, m', k, t.node, root, y.node, root');
  }

  lemma TurnedSame(m: Mem, m': Mem, k: Ctx, t: Tree, d: Dir, root: RbNode?, root': RbNode?)
    requires t.Node? && t.Kid(Other(d)).Node?
    requires Zip(m, k, t, root)
    requires Turned(m, m', t.node, d, k.Parent(), if k.In? then k.dir else Left, root, root')
    ensures var y := t.Kid(Other(d));
      && y.node in m
      && Same(m, m', Foot(t.Kid(d))) && Same(m, m', Foot(y.Kid(Other(d))))
      && SameBut(m, m', Foot(y.Kid(d)), m[y.node].Child(d))
      && SameBut(m, m', CtxFoot(k), k.Parent())
  {
    var n, y := t.node, t.Kid(Other(d));
    SepParts(t, d);
    SepParts(y, d);
    LinkedKids(m, t, k.Parent(), d);
    LinkedKids(m, y, n, d);
    var child, p := m[y.node].Child(d), k.Parent();
    LinkedAt(m, y.Kid(d), child, y.node);
    KeptSame(m, m', Foot(t.Kid(d)), n, y.node, child, p);
    KeptSame(m, m', Foot(y.Kid(d)), n, y.node, child, p);
    KeptSame(m, m', Foot(y.Kid(Other(d))), n, y.node, child, p);
    KeptSame(m, m', CtxFoot(k), n, y.node, child, p);
  }

  lemma LinkedKids(m: Mem, t: Tree, p: RbNode?, d: Dir)
    requires t.Node? && Linked(m, t, t.node, p)
    ensures t.node in m && m[t.node].color == t.color && m[t.node].se == t.se && m[t.node].parent == p
    ensures Linked(m, t.Kid(d), m[t.node].Child(d), t.node)
    ensures Linked(m, t.Kid(Other(d)), m[t.node].Child(Other(d)), t.node)
  {
  }

  // The subtree side of a rotation, on the three parts it does not look into
  lemma TurnedParts(m: Mem, m': Mem, n: RbNode, top: RbNode, d: Dir, a: Tree, b: Tree, c: Tree, p: RbNode?)
    requires n in m && top in m && Sep(b)
    requires Linked(m, a, m[n].Child(d), n) && Linked(m, b, m[top].Child(d), top)
    requires Linked(m, c, m[top].Child(Other(d)), top)
    requires Same(m, m', Foot(a)) && SameBut(m, m', Foot(b), m[top].Child(d)) && Same(m, m', Foot(c))
    requires n in m' && m'[n] == m[n].WithChild(Other(d), m[top].Child(d)).(parent := top)
    requires var child := m[top].Child(d);
      child != null && child in m ==> child in m' && m'[child] == m[child].(parent := n)
    requires top in m' && m'[top] == m[top].WithChild(d, n).(parent := p)
    ensures Linked(m', Mk(d, Mk(d, a, n, m[n].color, m[n].se, b), top, m[top].color, m[top].se, c), top, p)
  {
    TurnedLow(m, m', n, top, d, a, b);
    LinkedFrame(m, m', c, m[top].Child(Other(d)), top);
    LinkedMk(m', d, Mk(d, a, n, m[n].color, m[n].se, b), top, c, p);
  }

  lemma TurnedLow(m: Mem, m': Mem, n: RbNode, top: RbNode, d: Dir, a: Tree, b: Tree)
    requires n in m && top in m && Sep(b)
    requires Linked(m, a, m[n].Child(d), n) && Linked(m, b, m[top].Child(d), top)
    requires Same(m, m', Foot(a)) && SameBut(m, m', Foot(b), m[top].Child(d))
    requires n in m' && m'[n] == m[n].WithChild(Other(d), m[top].Child(d)).(parent := top)
    requires var child := m[top].Child(d);
      child != null && child in m ==> child in m' && m'[child] == m[child].(parent := n)
    ensures Linked(m', Mk(d, a, n, m[n].color, m[n].se, b), n, top)
  {
    LinkedAt(m, b, m[top].Child(d), top);
    LinkedFrame(m, m', a, m[n].Child(d), n);
    MovedTo(m, m', b, m[top].Child(d), top, n);
    LinkedMk(m', d, a, n, b, top);
  }

  lemma LinkedAt(m: Mem, t: Tree, at: RbNode?, p: RbNode?)
    requires Linked(m, t, at, p)
    ensures at == t.Root()
    ensures at != null ==> at in m && at in Foot(t)
  {
  }

  lemma LinkedMk(m: Mem, d: Dir, a: Tree, n: RbNode, b: Tree, p: RbNode?)
    requires n in m && m[n].parent == p
    requires Linked(m, a, m[n].Child(d), n) && Linked(m, b, m[n].Child(Other(d)), n)
    ensures Linked(m, Mk(d, a, n, m[n].color, m[n].se, b), n, p)
  {
  }

  // A subtree whose root only got another parent
  lemma MovedTo(m: Mem, m': Mem, t: Tree, at: RbNode?, p: RbNode?, p': RbNode?)
    requires Sep(t) && Linked(m, t, at, p)
    requires at != null ==> at in m && at in m' && m'[at] == m[at].(parent := p')
    requires SameBut(m, m', Foot(t), at)
    ensures Linked(m', t, at, p')
  {
  }

  // A context whose hole got another pointer
  lemma HoleMoved(m: Mem, m': Mem, k: Ctx, at: RbNode?, root: RbNode?, at': RbNode?, root': RbNode?)
    requires CtxSep(k) && CtxLinked(m, k, at, root)
    requires k.Top? ==> root' == at'
    requires k.In? ==> root' == root && k.node in m' && m'[k.node] == m[k.node].WithChild(k.dir, at')
    requires SameBut(m, m', CtxFoot(k), k.Parent())
    ensures CtxLinked(m', k, at', root')
  {
    if k.In? {
      LinkedFrame(m, m', k.sib, m[k.node].Child(Other(k.dir)), k.node);
      CtxFrame(m, m', k.up, k.node, root);
    }
  }

  // ---------- moving the focus to the root, and recolouring

  lemma {:induction false} ZipTop(m: Mem, k: Ctx, t: Tree, root: RbNode?)
    requires Zip(m, k, t, root)
    ensures Zip(m, Top, Plug(k, t), root)
    ensures Foot(Plug(k, t)) == Foot(t) + CtxFoot(k)
    decreases k
  {
    if k.In? {
      ZipUp(m, k, t, root);
      ZipTop(m, k.up, k.Close(t), root);
    }
  }

  lemma PaintedHere(m: Mem, k: Ctx, t: Tree, c: Color, root: RbNode?)
    requires t.Node? && Zip(m, k, t, root)
    ensures Zip(m[t.node := m[t.node].(color := c)], k, t.(color := c), root)
  {
    var m' := m[t.node := m[t.node].(color := c)];
    LinkedFrame(m, m', t.left, m[t.node].left, t.node);
    LinkedFrame(m, m', t.right, m[t.node].right, t.node);
    CtxFrame(m, m', k, t.node, root);
  }

  lemma PaintedParent(m: Mem, k: Ctx, t: Tree, c: Color, root: RbNode?)
    requires k.In? && Zip(m, k, t, root)
    ensures Zip(m[k.node := m[k.node].(color := c)], k.(color := c), t, root)
  {
    var m' := m[k.node := m[k.node].(color := c)];
    LinkedFrame(m, m', t, t.Root(), k.node);
    LinkedFrame(m, m', k.sib, m[k.node].Child(Other(k.dir)), k.node);
    CtxFrame(m, m', k.up, k.node, root);
  }

  lemma PaintedSib(m: Mem, k: Ctx, t: Tree, c: Color, root: RbNode?)
    requires k.In? && k.sib.Node? && Zip(m, k, t, root)
    ensures k.sib.node in m
    ensures Zip(m[k.sib.node := m[k.sib.node].(color := c)], k.(sib := k.sib.(color := c)), t, root)
  {
    var s := k.sib;
    LinkedAt(m, s, m[k.node].Child(Other(k.dir)), k.node);
    var m' := m[s.node := m[s.node].(color := c)];
    LinkedFrame(m, m', t, t.Root(), k.node);
    LinkedFrame(m, m', s.left, m[s.node].left, s.node);
    LinkedFrame(m, m', s.right, m[s.node].right, s.node);
    CtxFrame(m, m', k.up, k.node, root);
  }

  // A new red node in an empty hole (rb_tree.c:79-82, 98-99)
  lemma Attached(m: Mem, m': Mem, k: Ctx, run: RbNode, e: Entity, root: RbNode?, root': RbNode?)
    requires Zip(m, k, Leaf, root) && run !in m
    requires k.Top? ==> root' == run
    requires k.In? ==> root' == root && k.node in m' && m'[k.node] == m[k.node].WithChild(k.dir, run)
    requires run in m' && m'[run] == Cell(null, null, k.Parent(), Red, e)
    requires SameBut(m, m', m.Keys, k.Parent())
    ensures Zip(m', k, Node(Leaf, run, Red, e, Leaf), root')
  {
    CtxInMem(m, k, null, root);
    HoleMoved(m, m', k, null, root, run, root');
  }

  lemma {:induction false} InMem(m: Mem, t: Tree, at: RbNode?, p: RbNode?)
    requires Linked(m, t, at, p)
    ensures Foot(t) <= m.Keys
  {
    if t.Node? {
      InMem(m, t.left, m[t.node].left, t.node);
      InMem(m, t.right, m[t.node].right, t.node);
    }
  }

  lemma {:induction false} CtxInMem(m: Mem, k: Ctx, at: RbNode?, root: RbNode?)
    requires CtxLinked(m, k, at, root)
    ensures CtxFoot(k) <= m.Keys
    decreases k
  {
    if k.In? {
      InMem(m, k.sib, m[k.node].Child(Other(k.dir)), k.node);
      CtxInMem(m, k.up, k.node, root);
    }
  }

  lemma ReseatedHere(m: Mem, k: Ctx, t: Tree, e: Entity, root: RbNode?)
    requires t.Node? && Zip(m, k, t, root)
    ensures Zip(m[t.node := m[t.node].(se := e)], k, t.(se := e), root)
  {
    var m' := m[t.node := m[t.node].(se := e)];
    LinkedFrame(m, m', t.left, m[t.node].left, t.node);
    LinkedFrame(m, m', t.right, m[t.node].right, t.node);
    CtxFrame(m, m', k, t.node, root);
  }

  // The subtree at the focus is gone and its parent's link is cleared
  lemma Unlinked(m: Mem, m': Mem, k: Ctx, t: Tree, root: RbNode?)
    requires k.In? && Zip(m, k, t, root)
    requires k.node in m' && m'[k.node] == m[k.node].WithChild(k.dir, null)
    requires SameBut(m, m', m.Keys - Foot(t), k.node)
    ensures Zip(m', k, Leaf, root)
  {
    HoleMoved(m, m', k, t.Root(), root, null, root);
  }

  // A red leaf child is gone and its entity moved up (rb_tree.c:197-208)
  lemma Absorbed(m: Mem, m': Mem, k: Ctx, t: Tree, d: Dir, root: RbNode?)
    requires t.Node? && t.Kid(d).Node? && t.Kid(Other(d)).Leaf? && t.Kid(d).left.Leaf? && t.Kid(d).right.Leaf?
    requires Zip(m, k, t, root)
    requires t.node in m' && m'[t.node] == m[t.node].WithChild(d, null).(se := t.Kid(d).se)
    requires SameBut(m, m', m.Keys - Foot(t.Kid(d)), t.node)
    ensures Zip(m', k, Node(Leaf, t.node, t.color, t.Kid(d).se, Leaf), root)
  {
    LinkedKids(m, t, k.Parent(), d);
    CtxFrame(m, m', k, t.node, root);
  }

  // A childless black node is as good as doomed
  lemma DoomedHere(m: Mem, k: Ctx, t: Tree, root: RbNode?)
    requires t.Node? && t.color == Black && t.left.Leaf? && t.right.Leaf? && Zip(m, k, t, root)
    ensures Zip(m, k, Doomed(t.node), root)
  {
    LinkedKids(m, t, k.Parent(), Left);
    assert m[t.node] == Cell(null, null, k.Parent(), Black, t.se);
  }

  // The root is the focus, or a node of the context
  lemma {:induction false} CtxRoot(m: Mem, k: Ctx, at: RbNode?, root: RbNode?)
    requires CtxLinked(m, k, at, root)
    ensures k.Top? ==> root == at
    ensures k.In? ==> root != null && root in CtxFoot(k)
    decreases k
  {
    if k.In? { CtxRoot(m, k.up, k.node, root); }
  }

  lemma {:induction false} FirstNode(m: Mem, t: Tree, p: RbNode?)
    requires t.Node? && Linked(m, t, t.node, p)
    ensures Order(t) != [] && Order(t)[0].node in m && Order(t)[0].node in Foot(t)
    ensures m[Order(t)[0].node].se == Order(t)[0].se
  {
    if t.left.Node? { FirstNode(m, t.left, t.node); }
  }
}
