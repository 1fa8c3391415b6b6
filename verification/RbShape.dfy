/**
 Shapes of the run-queue tree as values: trees, one-hole contexts, in-order
 sequences, the red-black conditions, and what rotations and plugging do to
 them.  Nothing here reads a mutable field; RbHeap.dfy ties these values to
 the linked nodes of kernel/scheduler/rb_tree.c.
 */
module RbShape {
  import opened Threads

  datatype Color = Red | Black

  // dir_t, with the index arithmetic "1 - dir"
  datatype Dir = Left | Right

  function Other(d: Dir): Dir {
    if d == Left then Right else Left
  }

  // struct rb_node; `child[2]` overlays `left` and `right`
  class RbNode {
    var left: RbNode?
    var right: RbNode?
    var parent: RbNode?
    var color: Color
    var se: Entity

    constructor (e: Entity, c: Color)
      ensures left == null && right == null && parent == null && color == c && se == e
    {
      left, right, parent, color, se := null, null, null, c, e;
    }

    function Child(d: Dir): RbNode?
      reads this
    {
      if d == Left then left else right
    }

    method SetChild(d: Dir, x: RbNode?)
      modifies `left, `right
      ensures Child(d) == x && Child(Other(d)) == old(Child(Other(d)))
    {
      if d == Left { left := x; } else { right := x; }
    }
  }

  datatype Item = Item(node: RbNode, se: Entity)

  /** `Doomed` is a childless black node that is still linked but already out
      of the in-order sequence: the node rb_remove unlinks last. */
  datatype Tree =
    | Leaf
    | Doomed(gone: RbNode)
    | Node(left: Tree, node: RbNode, color: Color, se: Entity, right: Tree)
  {
    predicate IsRed() { Node? && color == Red }

    // The pointer to this tree
    function Root(): RbNode? {
      if Node? then node else if Doomed? then gone else null
    }

    function Kid(d: Dir): Tree
      requires Node?
    {
      if d == Left then left else right
    }
  }

  // The node with `a` on side `d` and `b` on the other side
  function Mk(d: Dir, a: Tree, n: RbNode, c: Color, e: Entity, b: Tree): (t: Tree)
    ensures t.Node? && t.node == n && t.color == c && t.se == e
    ensures t.Kid(d) == a && t.Kid(Other(d)) == b
  {
    if d == Left then Node(a, n, c, e, b) else Node(b, n, c, e, a)
  }

  // A tree with a hole; the hole is on side `dir` of `node`
  datatype Ctx =
    | Top
    | In(dir: Dir, node: RbNode, color: Color, se: Entity, sib: Tree, up: Ctx)
  {
    predicate RedAbove() { In? && color == Red }

    function Parent(): RbNode? { if In? then node else null }

    // The subtree of `node` once the hole holds `t`
    function Close(t: Tree): Tree
      requires In?
    {
      Mk(dir, t, node, color, se, sib)
    }
  }

  function Plug(k: Ctx, t: Tree): Tree
    decreases k
  {
    if k.Top? then t else Plug(k.up, k.Close(t))
  }

  // ---------- footprints

  function Foot(t: Tree): set<RbNode> {
    match t
    case Leaf => {}
    case Doomed(n) => {n}
    case Node(l, n, _, _, r) => Foot(l) + {n} + Foot(r)
  }

  function CtxFoot(k: Ctx): set<RbNode> {
    if k.Top? then {} else {k.node} + Foot(k.sib) + CtxFoot(k.up)
  }

  predicate Sep(t: Tree) {
    t.Node? ==>
      && t.node !in Foot(t.left) && t.node !in Foot(t.right)
      && Foot(t.left) !! Foot(t.right)
      && Sep(t.left) && Sep(t.right)
  }

  lemma SepParts(t: Tree, d: Dir)
    requires t.Node? && Sep(t)
    ensures t.node !in Foot(t.Kid(d)) && t.node !in Foot(t.Kid(Other(d)))
    ensures Foot(t.Kid(d)) !! Foot(t.Kid(Other(d)))
    ensures Sep(t.Kid(d)) && Sep(t.Kid(Other(d)))
    ensures Foot(t) == Foot(t.Kid(d)) + {t.node} + Foot(t.Kid(Other(d)))
  {
  }

  predicate CtxSep(k: Ctx) {
    k.In? ==>
      && k.node !in Foot(k.sib) && k.node !in CtxFoot(k.up)
      && Foot(k.sib) !! CtxFoot(k.up)
      && Sep(k.sib) && CtxSep(k.up)
  }

  // ---------- in-order sequence

  function Order(t: Tree): seq<Item> {
    if t.Node? then Order(t.left) + [Item(t.node, t.se)] + Order(t.right) else []
  }

  // Items left of the hole
  function Before(k: Ctx): seq<Item> {
    if k.Top? then []
    else if k.dir == Left then Before(k.up)
    else Before(k.up) + Order(k.sib) + [Item(k.node, k.se)]
  }

  // Items right of the hole
  function After(k: Ctx): seq<Item> {
    if k.Top? then []
    else if k.dir == Right then After(k.up)
    else [Item(k.node, k.se)] + Order(k.sib) + After(k.up)
  }

  function ZOrder(k: Ctx, t: Tree): seq<Item> {
    Before(k) + Order(t) + After(k)
  }

  lemma ZOrderUp(k: Ctx, t: Tree)
    requires k.In?
    ensures ZOrder(k, t) == ZOrder(k.up, k.Close(t))
  {
    var x := [Item(k.node, k.se)];
    if k.dir == Left {
      assert Before(k.up) + Order(t) + (x + Order(k.sib) + After(k.up))
          == Before(k.up) + (Order(t) + x + Order(k.sib)) + After(k.up);
    } else {
      assert (Before(k.up) + Order(k.sib) + x) + Order(t) + After(k.up)
          == Before(k.up) + (Order(k.sib) + x + Order(t)) + After(k.up);
    }
  }

  lemma {:induction false} PlugOrder(k: Ctx, t: Tree)
    ensures Order(Plug(k, t)) == ZOrder(k, t)
    decreases k
  {
    if k.In? {
      PlugOrder(k.up, k.Close(t));
      ZOrderUp(k, t);
    }
  }

  lemma TopOrder(t: Tree)
    ensures ZOrder(Top, t) == Order(t) && CtxFoot(Top) == {}
  {
  }

  // ---------- rotation

  // rotate(t, n, d) at the root of `t`: the child on side 1 - d comes up
  function Rotated(t: Tree, d: Dir): Tree
    requires t.Node? && t.Kid(Other(d)).Node?
  {
    var y := t.Kid(Other(d));
    Mk(d, Mk(d, t.Kid(d), t.node, t.color, t.se, y.Kid(d)), y.node, y.color, y.se, y.Kid(Other(d)))
  }

  lemma RotatedKeeps(t: Tree, d: Dir)
    requires t.Node? && t.Kid(Other(d)).Node?
    ensures Order(Rotated(t, d)) == Order(t)
    ensures Foot(Rotated(t, d)) == Foot(t)
    ensures Sep(t) ==> Sep(Rotated(t, d))
  {
    var y := t.Kid(Other(d));
    var a, b, c := Order(t.Kid(d)), Order(y.Kid(d)), Order(y.Kid(Other(d)));
    var m, n := [Item(t.node, t.se)], [Item(y.node, y.se)];
    assert Sep(t) ==> Sep(y);
    if d == Left {
      assert (a + m + b) + n + c == a + m + (b + n + c);
    } else {
      assert c + n + (b + m + a) == (c + n + b) + m + a;
    }
  }

  // ---------- red-black conditions

  /** `t` has no red node with a red child, and every path from its root to a
      missing child passes `h` black nodes.  The root's colour is free. */
  predicate Ok(t: Tree, h: nat) {
    match t
    case Leaf => h == 0
    case Doomed(_) => h == 0
    case Node(l, _, c, _, r) =>
      if c == Red then !l.IsRed() && !r.IsRed() && Ok(l, h) && Ok(r, h)
      else h > 0 && Ok(l, h - 1) && Ok(r, h - 1)
  }

  // `k` becomes a valid tree once its hole, of black height `h`, is filled
  predicate CtxOk(k: Ctx, h: nat) {
    k.In? ==>
      && Ok(k.sib, h)
      && (k.color == Red ==> !k.sib.IsRed() && !k.up.RedAbove())
      && CtxOk(k.up, if k.color == Red then h else h + 1)
  }

  function RootHeight(k: Ctx, h: nat): nat {
    if k.Top? then h else RootHeight(k.up, if k.color == Red then h else h + 1)
  }

  lemma {:induction false} PlugOk(k: Ctx, t: Tree, h: nat)
    requires CtxOk(k, h) && Ok(t, h)
    requires t.IsRed() ==> !k.RedAbove()
    ensures Ok(Plug(k, t), RootHeight(k, h))
    decreases k
  {
    if k.In? {
      PlugOk(k.up, k.Close(t), if k.color == Red then h else h + 1);
    }
  }

  // ---------- insertion fix-up (rb_tree.c:24-72)

  function Depth(k: Ctx): nat {
    if k.Top? then 0 else 1 + Depth(k.up)
  }

  lemma PaintedRootOk(t: Tree, h: nat)
    requires t.IsRed() && Ok(t, h)
    ensures Ok(t.(color := Black), h + 1)
  {
  }

  lemma PaintedCtxOk(k: Ctx, h: nat)
    requires k.In? && k.color == Red && k.up.Top? && CtxOk(k, h)
    ensures CtxOk(k.(color := Black), h)
  {
  }

  // Red parent and red uncle: the grandparent's subtree after recolouring
  function PushedUp(k: Ctx, t: Tree): Tree
    requires k.In? && k.up.In? && k.up.sib.Node?
  {
    k.up.(sib := k.up.sib.(color := Black), color := Red).Close(k.(color := Black).Close(t))
  }

  lemma PushedUpOk(k: Ctx, t: Tree, h: nat)
    requires t.IsRed() && Ok(t, h) && CtxOk(k, h)
    requires k.In? && k.color == Red && k.up.In? && k.up.sib.IsRed()
    ensures Ok(PushedUp(k, t), h + 1) && PushedUp(k, t).IsRed() && CtxOk(k.up.up, h + 1)
  {
  }

  // The parent's subtree before the outer rotation (`dir` is the parent's side)
  lemma LiftPartsOk(k: Ctx, t: Tree, h: nat, dir: Dir)
    requires t.IsRed() && Ok(t, h) && k.In? && k.color == Red && CtxOk(k, h)
    ensures var s := if k.dir == dir then k.Close(t) else Rotated(k.Close(t), dir);
      Ok(s.Kid(dir), h) && Ok(s.Kid(Other(dir)), h) && !s.Kid(Other(dir)).IsRed()
  {
  }

  // Red parent, black uncle: the grandparent's subtree after the rotations and the recolouring
  function Lifted(k: Ctx, t: Tree): Tree
    requires t.Node? && k.In? && k.up.In?
  {
    var g, d := k.up, k.up.dir;
    var s := if k.dir == d then k.Close(t) else Rotated(k.Close(t), d);
    Mk(d, s.Kid(d), s.node, Black, s.se, Mk(d, s.Kid(Other(d)), g.node, Red, g.se, g.sib))
  }

  // The tree that balance_tree_insert leaves (rb_tree.c:31-69)
  function FixLoop(k: Ctx, t: Tree): Tree
    requires t.Node?
    decreases k
  {
    if k.Top? || k.color == Black then Plug(k, t)
    else if k.up.Top? then Plug(k.(color := Black), t)
    else if k.up.sib.IsRed() then FixLoop(k.up.up, PushedUp(k, t))
    else Plug(k.up.up, Lifted(k, t))
  }

  function FixInsert(k: Ctx, t: Tree): Tree
    requires t.Node?
  {
    if k.Top? then t.(color := Black) else FixLoop(k, t)
  }

  // Red parent, black uncle, after the rotations: `a` and `b` hang below the new
  // black root `n`, the old grandparent `g` is red on the side away from `d`
  lemma LiftedOk(d: Dir, a: Tree, n: RbNode, e: Entity, b: Tree, g: RbNode, eg: Entity, uncle: Tree, h: nat)
    requires Ok(a, h) && Ok(b, h) && Ok(uncle, h) && !b.IsRed() && !uncle.IsRed()
    ensures Ok(Mk(d, a, n, Black, e, Mk(d, b, g, Red, eg, uncle)), h + 1)
  {
  }

  // ---------- entities in order

  function Ents(items: seq<Item>): (s: seq<Entity>)
    ensures |s| == |items| && forall i :: 0 <= i < |s| ==> s[i] == items[i].se
  {
    seq(|items|, i requires 0 <= i < |items| => items[i].se)
  }

  function NodesOf(items: seq<Item>): set<RbNode> {
    set i | 0 <= i < |items| :: items[i].node
  }

  // The leftmost pointer: the first node in order
  function First(items: seq<Item>): RbNode? {
    if items == [] then null else items[0].node
  }

  // Non-decreasing keys
  ghost predicate Sorted(s: seq<Entity>)
    reads s`vruntime
  {
    forall i, j :: 0 <= i < j < |s| ==> s[i].vruntime <= s[j].vruntime
  }

  // ---------- searching (rb_tree.c:84-92, 176-182)

  function KidHeight(t: Tree, h: nat): nat
    requires t.Node? && Ok(t, h)
  {
    if t.color == Red then h else h - 1
  }

  lemma OkDown(k: Ctx, t: Tree, h: nat, d: Dir)
    requires t.Node? && Ok(t, h) && CtxOk(k, h) && (t.IsRed() ==> !k.RedAbove())
    ensures var k' := In(d, t.node, t.color, t.se, t.Kid(Other(d)), k); var h' := KidHeight(t, h);
      Ok(t.Kid(d), h') && CtxOk(k', h') && (t.Kid(d).IsRed() ==> !k'.RedAbove())
  {
  }

  function EntSet(items: seq<Item>): set<Entity> {
    set i | 0 <= i < |items| :: items[i].se
  }

  // Every key is at most `v`
  ghost predicate AtMost(items: seq<Item>, v: int)
    reads EntSet(items)`vruntime
  {
    forall i :: 0 <= i < |items| ==> items[i].se.vruntime <= v
  }

  // Every key is at least `v`
  ghost predicate AtLeast(items: seq<Item>, v: int)
    reads EntSet(items)`vruntime
  {
    forall i :: 0 <= i < |items| ==> v <= items[i].se.vruntime
  }

  // In a sorted sequence the items around a node bound it
  lemma SortedAround(b: seq<Item>, l: seq<Item>, x: Item, r: seq<Item>, a: seq<Item>)
    requires Sorted(Ents(b + (l + [x] + r) + a))
    ensures AtMost(b, x.se.vruntime) && AtMost(l, x.se.vruntime)
    ensures AtLeast(r, x.se.vruntime) && AtLeast(a, x.se.vruntime)
  {
    var s := b + (l + [x] + r) + a;
    var n := |b| + |l|;
    assert s[n] == x;
    forall i | 0 <= i < |b| ensures b[i].se.vruntime <= x.se.vruntime {
      assert Ents(s)[i] == b[i].se && Ents(s)[n] == x.se;
    }
    forall i | 0 <= i < |l| ensures l[i].se.vruntime <= x.se.vruntime {
      assert s[|b| + i] == l[i] && Ents(s)[|b| + i] == l[i].se && Ents(s)[n] == x.se;
    }
    forall i | 0 <= i < |r| ensures x.se.vruntime <= r[i].se.vruntime {
      assert s[n + 1 + i] == r[i] && Ents(s)[n + 1 + i] == r[i].se && Ents(s)[n] == x.se;
    }
    forall i | 0 <= i < |a| ensures x.se.vruntime <= a[i].se.vruntime {
      assert s[n + 1 + |r| + i] == a[i] && Ents(s)[n + 1 + |r| + i] == a[i].se && Ents(s)[n] == x.se;
    }
  }

  // The empty place that the descent of rb_insert reaches
  ghost function SlotCtx(t: Tree, k: Ctx, key: int): Ctx
    reads EntsOf(t)`vruntime
    decreases t
  {
    if !t.Node? then k
    else if key < t.se.vruntime then SlotCtx(t.left, In(Left, t.node, t.color, t.se, t.right, k), key)
    else SlotCtx(t.right, In(Right, t.node, t.color, t.se, t.left, k), key)
  }

  // ---------- height

  function Height(t: Tree): nat {
    if t.Node? then 1 + Max(Height(t.left), Height(t.right)) else 0
  }

  function Max(a: nat, b: nat): nat { if a < b then b else a }

  function Pow2(n: nat): (p: nat)
    ensures p > 0
  {
    if n == 0 then 1 else 2 * Pow2(n - 1)
  }

  lemma {:induction false} Pow2Mono(a: nat, b: nat)
    requires a <= b
    ensures Pow2(a) <= Pow2(b)
  {
    if a < b { Pow2Mono(a, b - 1); }
  }

  lemma {:induction false} BlackBound(t: Tree, h: nat)
    requires Ok(t, h)
    ensures Pow2(if t.IsRed() then h + 1 else h) <= |Order(t)| + 1
    ensures Height(t) <= if t.IsRed() then 2 * h + 1 else 2 * h
  {
    if t.Node? {
      var h' := KidHeight(t, h);
      BlackBound(t.left, h');
      BlackBound(t.right, h');
      Pow2Mono(h', h' + 1);
    }
  }

  // `steps` is at most twice the binary logarithm of n + 1
  predicate Logarithmic(steps: nat, n: nat) {
    Pow2((steps + 1) / 2) <= n + 1
  }

  /** A tree of n items and height h has 2^ceil(h/2) <= n + 1. */
  lemma HeightBound(t: Tree, h: nat)
    requires Ok(t, h)
    ensures Pow2((Height(t) + 1) / 2) <= |Order(t)| + 1
  {
    BlackBound(t, h);
    Pow2Mono((Height(t) + 1) / 2, if t.IsRed() then h + 1 else h);
  }

  lemma {:induction false} DepthBound(k: Ctx, t: Tree)
    ensures Depth(k) + Height(t) <= Height(Plug(k, t))
    decreases k
  {
    if k.In? { DepthBound(k.up, k.Close(t)); }
  }

  // ---------- listed nodes

  lemma {:induction false} OrderFoot(t: Tree, i: nat)
    requires i < |Order(t)|
    ensures Order(t)[i].node in Foot(t)
  {
    var n := |Order(t.left)|;
    if i < n {
      OrderFoot(t.left, i);
    } else if i > n {
      OrderFoot(t.right, i - n - 1);
    }
  }

  lemma {:induction false} BeforeFoot(k: Ctx, i: nat)
    requires i < |Before(k)|
    ensures Before(k)[i].node in CtxFoot(k)
  {
    var n := |Before(k.up)|;
    if i < n {
      BeforeFoot(k.up, i);
    } else if i < n + |Order(k.sib)| {
      OrderFoot(k.sib, i - n);
    }
  }

  lemma {:induction false} AfterFoot(k: Ctx, i: nat)
    requires i < |After(k)|
    ensures After(k)[i].node in CtxFoot(k)
  {
    if k.dir == Right {
      AfterFoot(k.up, i);
    } else if i > |Order(k.sib)| {
      AfterFoot(k.up, i - 1 - |Order(k.sib)|);
    } else if i > 0 {
      OrderFoot(k.sib, i - 1);
    }
  }

  // No item outside the focus carries one of its nodes
  lemma OutsideFocus(k: Ctx, i: nat, x: RbNode)
    requires x !in CtxFoot(k)
    ensures i < |Before(k)| ==> Before(k)[i].node != x
    ensures i < |After(k)| ==> After(k)[i].node != x
  {
    if i < |Before(k)| { BeforeFoot(k, i); }
    if i < |After(k)| { AfterFoot(k, i); }
  }

  lemma DoomedUnlisted(k: Ctx, t: Tree)
    requires t.Doomed? && Foot(t) !! CtxFoot(k)
    ensures t.gone !in NodesOf(ZOrder(k, t))
  {
    var items := ZOrder(k, t);
    forall i | 0 <= i < |items| ensures items[i].node != t.gone {
      assert items == Before(k) + After(k);
      OutsideFocus(k, if i < |Before(k)| then i else i - |Before(k)|, t.gone);
    }
  }

  // ---------- the sequence an insertion leaves

  function Inserted<T>(s: seq<T>, pos: nat, x: T): seq<T>
    requires pos <= |s|
  {
    s[..pos] + [x] + s[pos..]
  }

  // Position `pos` is just after the last key that is not greater than that of `e`
  ghost predicate Slot(s: seq<Entity>, pos: nat, e: Entity)
    reads s`vruntime, e`vruntime
  {
    && pos <= |s|
    && (forall i :: 0 <= i < pos ==> s[i].vruntime <= e.vruntime)
    && (forall i :: pos <= i < |s| ==> e.vruntime < s[i].vruntime)
  }

  lemma SortedInserted(s: seq<Entity>, pos: nat, e: Entity)
    requires Sorted(s) && Slot(s, pos, e)
    ensures Sorted(Inserted(s, pos, e))
  {
  }

  lemma InsertedItems(was: seq<Item>, b: seq<Item>, x: Item, a: seq<Item>)
    requires was == b + [] + a
    ensures Ents(b + [x] + a) == Inserted(Ents(was), |b|, x.se)
    ensures NodesOf(b + [x] + a) == NodesOf(was) + {x.node}
  {
    var s := b + [x] + a;
    assert was == b + a;
    NodesInserted(was, s, |b|);
  }

  lemma SlotItems(was: seq<Item>, b: seq<Item>, e: Entity, a: seq<Item>)
    requires was == b + [] + a
    requires AtMost(b, e.vruntime) && AtLeast(a, e.vruntime + 1)
    ensures Slot(Ents(was), |b|, e)
  {
  }

  lemma NodesInserted(was: seq<Item>, s: seq<Item>, n: nat)
    requires n <= |was| && |s| == |was| + 1
    requires forall i :: 0 <= i < n ==> was[i] == s[i]
    requires forall i :: n <= i < |was| ==> was[i] == s[i + 1]
    ensures NodesOf(s) == NodesOf(was) + {s[n].node}
  {
    forall x | x in NodesOf(was) ensures x in NodesOf(s) {
      var i :| 0 <= i < |was| && was[i].node == x;
      assert s[if i < n then i else i + 1].node == x;
    }
    forall x | x in NodesOf(s) ensures x in NodesOf(was) + {s[n].node} {
      var i :| 0 <= i < |s| && s[i].node == x;
      if i != n { assert was[if i < n then i else i - 1].node == x; }
    }
  }

  lemma DepthLogarithmic(depth: nat, t: Tree, h: nat)
    requires Ok(t, h) && depth <= Height(t)
    ensures Logarithmic(depth, |Order(t)|)
  {
    HeightBound(t, h);
    Pow2Mono((depth + 1) / 2, (Height(t) + 1) / 2);
  }

  // ---------- removal fix-up (rb_tree.c:103-160)

  // Case 3, red sibling: it comes up black, the parent goes down red
  function RaisedSib(k: Ctx): Ctx
    requires k.In? && k.sib.Node?
  {
    var d, s := k.dir, k.sib;
    In(d, k.node, Red, k.se, s.Kid(d), In(d, s.node, Black, s.se, s.Kid(Other(d)), k.up))
  }

  // Case 5, red near nephew: it becomes the sibling, with the old one red below it
  function NearNephew(k: Ctx): Ctx
    requires k.In? && k.sib.Node? && k.sib.Kid(k.dir).Node?
  {
    var d, o, s := k.dir, Other(k.dir), k.sib;
    var c := s.Kid(d);
    k.(sib := Mk(o, Mk(o, s.Kid(o), s.node, Red, s.se, c.Kid(o)), c.node, Black, c.se, c.Kid(d)))
  }

  // Case 6, red far nephew: the sibling comes up in the parent's colour
  function FarNephew(k: Ctx): Ctx
    requires k.In? && k.sib.Node? && k.sib.Kid(Other(k.dir)).Node?
  {
    var d, s := k.dir, k.sib;
    In(d, k.node, Black, k.se, s.Kid(d), In(d, s.node, k.color, s.se, s.Kid(Other(d)).(color := Black), k.up))
  }

  // Cases 2 and 4: the sibling turns red, the parent black
  function ReddenedSib(k: Ctx): Ctx
    requires k.In? && k.sib.Node?
  {
    k.(sib := k.sib.(color := Red), color := Black)
  }

  // A hole that lacks one black node has a sibling
  lemma SiblingExists(k: Ctx, h: nat)
    requires k.In? && CtxOk(k, h + 1)
    ensures k.sib.Node?
    ensures k.sib.color == Red ==> k.color == Black && k.sib.Kid(k.dir).Node?
  {
    assert Ok(k.sib, h + 1);
    assert k.sib.IsRed() ==> Ok(k.sib.Kid(k.dir), h + 1);
  }

  lemma RaisedSibOk(k: Ctx, h: nat)
    requires k.In? && k.sib.IsRed() && CtxOk(k, h + 1)
    ensures CtxOk(RaisedSib(k), h + 1) && RaisedSib(k).sib.Node? && RaisedSib(k).sib.color == Black
  {
  }

  lemma NearNephewOk(k: Ctx, h: nat)
    requires k.In? && k.sib.Node? && k.sib.color == Black && CtxOk(k, h + 1)
    requires k.sib.Kid(k.dir).IsRed() && !k.sib.Kid(Other(k.dir)).IsRed()
    ensures CtxOk(NearNephew(k), h + 1)
    ensures NearNephew(k).sib.color == Black && NearNephew(k).sib.Kid(Other(k.dir)).IsRed()
  {
    var o, s := Other(k.dir), k.sib;
    var c := s.Kid(k.dir);
    assert Ok(s, h + 1);
    assert Ok(c, h) && Ok(s.Kid(o), h);
    assert Ok(Mk(o, s.Kid(o), s.node, Red, s.se, c.Kid(o)), h);
  }

  lemma FarNephewOk(k: Ctx, h: nat)
    requires k.In? && k.sib.Node? && k.sib.color == Black && CtxOk(k, h + 1)
    requires k.sib.Kid(Other(k.dir)).IsRed()
    ensures CtxOk(FarNephew(k), h)
  {
    assert Ok(k.sib, h + 1);
    assert Ok(k.sib.Kid(Other(k.dir)), h);
    assert CtxOk(FarNephew(k).up, h + 1);
  }

  lemma ReddenedSibOk(k: Ctx, t: Tree, h: nat)
    requires k.In? && k.sib.Node? && k.sib.color == Black && CtxOk(k, h + 1) && Ok(t, h)
    requires !k.sib.left.IsRed() && !k.sib.right.IsRed()
    ensures Ok(ReddenedSib(k).Close(t), h + 1)
    ensures k.color == Red ==> CtxOk(ReddenedSib(k), h)
    ensures k.color == Black ==> CtxOk(k.up, h + 2)
  {
  }

  // ---------- contexts inside contexts

  // `j` filled into the hole of `k`
  function Append(j: Ctx, k: Ctx): Ctx {
    if j.Top? then k else j.(up := Append(j.up, k))
  }

  lemma {:induction false} AppendPlug(j: Ctx, k: Ctx, t: Tree)
    ensures Plug(Append(j, k), t) == Plug(k, Plug(j, t))
    decreases j
  {
    if j.In? { AppendPlug(j.up, k, j.Close(t)); }
  }

  // The frame of `k`, closed at the top
  function Frame(k: Ctx): Ctx
    requires k.In?
  {
    k.(up := Top)
  }

  lemma DoomedBase(k: Ctx, n: RbNode)
    ensures Ok(Doomed(n), 0) && Plug(Top, Doomed(n)) == Doomed(n) && Append(Top, k) == k
  {
  }

  // One frame moves from the outer to the inner context
  lemma AppendFrame(j: Ctx, k: Ctx, t: Tree)
    requires k.In?
    ensures Plug(Append(j, Frame(k)), t) == k.Close(Plug(j, t))
    ensures Append(Append(j, Frame(k)), k.up) == Append(j, k)
  {
  }

  // The hole of `j` in `k` is on the side that `j` says, if it says one
  lemma AppendSide(j: Ctx, k: Ctx, k': Ctx)
    requires k.In? && k'.In? && k.dir == k'.dir
    ensures Append(j, k).In? && Append(j, k').In? && Append(j, k).dir == Append(j, k').dir
  {
  }

  // Replacing a subtree by one that is no redder and fits wherever it did
  lemma {:induction false} OkSwap(k: Ctx, t: Tree, t': Tree, h: nat)
    requires Ok(Plug(k, t), h)
    requires t'.IsRed() ==> t.IsRed()
    requires forall g: nat :: Ok(t, g) ==> Ok(t', g)
    ensures Ok(Plug(k, t'), h)
    decreases k
  {
    if k.In? { OkSwap(k.up, k.Close(t), k.Close(t'), h); }
  }

  // ---------- the rightmost node (rb_tree.c:167-170)

  function RmTree(t: Tree): (r: Tree)
    requires t.Node?
    ensures r.Node? && !r.right.Node?
  {
    if t.right.Node? then RmTree(t.right) else t
  }

  function RmCtx(k: Ctx, t: Tree): Ctx
    requires t.Node?
    decreases t
  {
    if t.right.Node? then RmCtx(In(Right, t.node, t.color, t.se, t.left, k), t.right) else k
  }

  lemma {:induction false} RmDepth(k: Ctx, t: Tree)
    requires t.Node?
    ensures Depth(RmCtx(k, t)) < Depth(k) + Height(t)
    decreases t
  {
    if t.right.Node? { RmDepth(In(Right, t.node, t.color, t.se, t.left, k), t.right); }
  }

  // It carries the last item of the subtree
  lemma {:induction false} RmOrder(k: Ctx, t: Tree)
    requires t.Node?
    ensures Before(RmCtx(k, t)) + Order(RmTree(t)) == Before(k) + Order(t)
    ensures After(RmCtx(k, t)) == After(k)
    decreases t
  {
    if t.right.Node? {
      RmOrder(In(Right, t.node, t.color, t.se, t.left, k), t.right);
      var x := [Item(t.node, t.se)];
      assert Before(k) + Order(t.left) + x + Order(t.right) == Before(k) + (Order(t.left) + x + Order(t.right));
    }
  }

  lemma {:induction false} RmOk(k: Ctx, t: Tree, h: nat) returns (g: nat)
    requires t.Node? && Ok(t, h) && CtxOk(k, h) && (t.IsRed() ==> !k.RedAbove())
    ensures Ok(RmTree(t), g) && CtxOk(RmCtx(k, t), g) && (RmTree(t).IsRed() ==> !RmCtx(k, t).RedAbove())
    decreases t
  {
    g := h;
    if t.right.Node? {
      OkDown(k, t, h, Right);
      g := RmOk(In(Right, t.node, t.color, t.se, t.left, k), t.right, KidHeight(t, h));
    }
  }

  // ---------- the sequence a removal leaves

  function Removed<T>(s: seq<T>, pos: nat): seq<T>
    requires pos < |s|
  {
    s[..pos] + s[pos + 1..]
  }

  lemma SortedRemoved(s: seq<Entity>, pos: nat)
    requires Sorted(s) && pos < |s|
    ensures Sorted(Removed(s, pos))
  {
  }

  // A node with one child is black and the child is a red leaf
  lemma OneChild(t: Tree, h: nat, d: Dir)
    requires t.Node? && Ok(t, h) && t.Kid(d).Node? && t.Kid(Other(d)).Leaf?
    requires !t.Kid(d).left.Doomed? && !t.Kid(d).right.Doomed?
    ensures t.color == Black && t.Kid(d).color == Red && t.Kid(d).left.Leaf? && t.Kid(d).right.Leaf?
  {
    var c := t.Kid(d);
    assert Ok(c, KidHeight(t, h));
    assert Ok(c.left, 0) && Ok(c.right, 0);
  }

  // With nothing before the hole, its parent comes first
  lemma FirstAfter(k: Ctx)
    requires Before(k) == []
    ensures First(After(k)) == k.Parent()
  {
  }

  // ---------- what the search of rb_remove meets (rb_tree.c:176-182)

  function EntsOf(t: Tree): set<Entity> {
    if t.Node? then EntsOf(t.left) + {t.se} + EntsOf(t.right) else {}
  }

  ghost predicate Finds(t: Tree, e: Entity)
    reads EntsOf(t)`vruntime, e`vruntime
  {
    t.Node? && (t.se == e || Finds(if e.vruntime < t.se.vruntime then t.left else t.right, e))
  }

  lemma Single(n: RbNode, c: Color, e: Entity)
    ensures Order(Node(Leaf, n, c, e, Leaf)) == [Item(n, e)] && Foot(Node(Leaf, n, c, e, Leaf)) == {n}
    ensures Foot(Leaf) == {}
  {
  }

  lemma NodesOutside(k: Ctx, n: RbNode)
    requires n !in CtxFoot(k)
    ensures n !in NodesOf(Before(k) + After(k))
  {
    var s := Before(k) + After(k);
    forall i | 0 <= i < |s| ensures s[i].node != n {
      OutsideFocus(k, if i < |Before(k)| then i else i - |Before(k)|, n);
    }
  }

  // A childless node leaves: the node set, and the first node
  lemma LeafGone(k: Ctx, n: RbNode, e: Entity)
    requires n !in CtxFoot(k)
    ensures var items, left := Before(k) + [Item(n, e)] + After(k), Before(k) + After(k);
      && NodesOf(left) == NodesOf(items) - {n}
      && First(left) == (if First(items) == n then k.Parent() else First(items))
  {
    var items, left := Before(k) + [Item(n, e)] + After(k), Before(k) + After(k);
    NodesOutside(k, n);
    NodesInserted(left, items, |Before(k)|);
    if Before(k) == [] {
      FirstAfter(k);
    } else {
      assert First(items) == First(left) == Before(k)[0].node;
      OutsideFocus(k, 0, n);
    }
  }

  // A node takes over its only child's entity and the child leaves
  // A child's entity moves up into node `n`, and the child's node `c` goes
  function PairOf(n: RbNode, e: Entity, c: RbNode, f: Entity, d: Dir): seq<Item> {
    if d == Left then [Item(c, f), Item(n, e)] else [Item(n, e), Item(c, f)]
  }

  lemma ChildNodes(k: Ctx, n: RbNode, e: Entity, c: RbNode, f: Entity, d: Dir)
    requires c !in CtxFoot(k) && n != c
    ensures NodesOf(Before(k) + [Item(n, f)] + After(k)) ==
            NodesOf(Before(k) + PairOf(n, e, c, f, d) + After(k)) - {c}
  {
    hide CtxFoot, Before, After;
    var out, at := Before(k) + After(k), |Before(k)|;
    var items, left := Before(k) + PairOf(n, e, c, f, d) + After(k), Before(k) + [Item(n, f)] + After(k);
    var mid := Before(k) + [Item(n, e)] + After(k);
    NodesOutside(k, c);
    NodesInserted(out, left, at);
    NodesInserted(out, mid, at);
    NodesInserted(mid, items, if d == Left then at else at + 1);
  }

  lemma ChildGone(k: Ctx, n: RbNode, e: Entity, c: RbNode, f: Entity, d: Dir)
    requires n !in CtxFoot(k) && c !in CtxFoot(k) && n != c
    ensures var items, left := Before(k) + PairOf(n, e, c, f, d) + After(k), Before(k) + [Item(n, f)] + After(k);
      && NodesOf(left) == NodesOf(items) - {c}
      && First(left) == (if First(items) == c then n else First(items))
  {
    hide NodesOf, After;
    ChildNodes(k, n, e, c, f, d);
    if Before(k) != [] { OutsideFocus(k, 0, c); }
  }

  lemma EntsSplit(a: seq<Item>, b: seq<Item>)
    ensures Ents(a + b) == Ents(a) + Ents(b)
  {
  }

  // The entities once the one at the root of `t` is gone
  function Without(k: Ctx, t: Tree): seq<Entity>
    requires t.Node?
  {
    Ents(Before(k)) + Ents(Order(t.left)) + Ents(Order(t.right)) + Ents(After(k))
  }

  // Its position
  function Rank(k: Ctx, t: Tree): nat
    requires t.Node?
  {
    |Before(k)| + |Order(t.left)|
  }

  lemma WithoutRemoved(k: Ctx, t: Tree)
    requires t.Node?
    ensures Rank(k, t) < |ZOrder(k, t)| && Ents(ZOrder(k, t))[Rank(k, t)] == t.se
    ensures Without(k, t) == Removed(Ents(ZOrder(k, t)), Rank(k, t))
  {
    CutEnts(Before(k), Order(t.left), Item(t.node, t.se), Order(t.right), After(k));
  }

  lemma CutEnts(b: seq<Item>, l: seq<Item>, x: Item, r: seq<Item>, a: seq<Item>)
    ensures var s := b + (l + [x] + r) + a; var n := |b| + |l|;
      Ents(s)[n] == x.se && Removed(Ents(s), n) == Ents(b) + Ents(l) + Ents(r) + Ents(a)
  {
  }

  lemma Reassociate<T>(b: seq<T>, l: seq<T>, x: T, r: seq<T>, a: seq<T>)
    ensures b + (l + [x] + r) + a == (b + l) + [x] + (r + a)
  {
  }

  lemma EntsOne(b: seq<Item>, x: Item, a: seq<Item>)
    ensures Ents(b + [x] + a) == Ents(b) + [x.se] + Ents(a)
  {
  }

  // Predecessor swap: the entity of the rightmost node below goes up, its place is emptied
  lemma SwapWithout(k: Ctx, t: Tree)
    requires t.Node? && t.left.Node? && RmTree(t.left).right.Leaf?
    ensures var t1 := t.(se := RmTree(t.left).se);
      Without(RmCtx(In(Left, t1.node, t1.color, t1.se, t1.right, k), t.left), RmTree(t.left)) == Without(k, t)
  {
    var r := RmTree(t.left);
    var kl := In(Left, t.node, t.color, r.se, t.right, k);
    RmOrder(kl, t.left);
    var b := Before(RmCtx(kl, t.left));
    assert b + Order(r.left) + [Item(r.node, r.se)] == b + Order(r);
    SwapEnts(b, Order(r.left), Item(r.node, r.se), Before(k), Order(t.left), t.node, Order(t.right), After(k));
  }

  lemma ReseatedNodes(k: Ctx, t: Tree, e: Entity)
    requires t.Node?
    ensures NodesOf(ZOrder(k, t.(se := e))) == NodesOf(ZOrder(k, t))
    ensures First(ZOrder(k, t.(se := e))) == First(ZOrder(k, t))
  {
    Reassociate(Before(k), Order(t.left), Item(t.node, t.se), Order(t.right), After(k));
    Reassociate(Before(k), Order(t.left), Item(t.node, e), Order(t.right), After(k));
    SameNodes(ZOrder(k, t), ZOrder(k, t.(se := e)));
  }

  lemma SwapEnts(b1: seq<Item>, l1: seq<Item>, x: Item, b: seq<Item>, l: seq<Item>,
                 n: RbNode, r: seq<Item>, a: seq<Item>)
    requires b1 + l1 + [x] == b + l
    ensures Ents(b1) + Ents(l1) + Ents([]) + Ents([Item(n, x.se)] + r + a) == Ents(b) + Ents(l) + Ents(r) + Ents(a)
  {
    EntsSplit(b1 + l1, [x]);
    EntsSplit(b1, l1);
    EntsSplit(b, l);
    EntsSplit([Item(n, x.se)], r);
    EntsSplit([Item(n, x.se)] + r, a);
    assert Ents([x]) == [x.se] == Ents([Item(n, x.se)]);
  }

  lemma SameNodes(s: seq<Item>, s': seq<Item>)
    requires |s| == |s'| && forall i :: 0 <= i < |s| ==> s[i].node == s'[i].node
    ensures NodesOf(s) == NodesOf(s') && First(s) == First(s')
  {
  }
}
