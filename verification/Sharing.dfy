/**
 Address spaces that share the kernel's tables: root slots copied by
 map_higher_half (kernel/arch/x86-64/memory/vm.c:214-219) and what later changes
 through either root do to them.
 */
module Sharing {
  import opened PageTables
  import opened Paging

  // Root slot `i` of `root` links the kernel's table as the kernel does, or nothing if the kernel has none
  predicate Shares(m: Mem, root: nat, tree: Tree, i: nat) {
    IsTable(m, root) && i < ENTRIES &&
    if P2(i) in tree then Some(m[root][i]) == LinkOf(m, tree, P2(i)) else !m[root][i].present
  }

  // Every slot of `shared` is shared
  predicate AllShared(m: Mem, root: nat, tree: Tree, shared: set<nat>) {
    IsTable(m, root) && forall i :: i in shared ==> Shares(m, root, tree, i)
  }

  /** Under a shared slot both roots translate every page alike, with the same rights. */
  lemma SharedTranslates(m: Mem, slots: set<nat>, tree: Tree, root: nat, v: nat)
    requires Shape(m, slots, tree) && Index(v, 3) in slots && Shares(m, root, tree, Index(v, 3))
    ensures Translate(m, root, v) == Translate(m, tree[P3], v)
  {
    var i := Index(v, 3);
    if P2(i) in tree { assert Hangs(m, slots, tree, P2(i)); }
  }

  // Copying the kernel's entries shares its slots
  lemma CopyShares(m: Mem, slots: set<nat>, tree: Tree, root: nat, i: nat)
    requires Shape(m, slots, tree) && i in slots && i < ENTRIES && IsTable(m, root) && m[root][i] == m[tree[P3]][i]
    ensures Shares(m, root, tree, i)
  {
    assert P2(i) in tree ==> Hangs(m, slots, tree, P2(i));
  }

  /** A slot that the kernel fills after the copy: what it maps there, the copied root does not. */
  lemma LateSlotDiffers(m: Mem, slots: set<nat>, tree: Tree, root: nat, v: nat)
    requires Shape(m, slots, tree) && Index(v, 3) in slots && Leaf(m, tree, v).Some?
    requires IsTable(m, root) && !m[root][Index(v, 3)].present
    ensures Translate(m, root, v).None? && Translate(m, tree[P3], v).Some?
  {
    TranslateIsLeaf(m, slots, tree, v);
    SomeThrough(m, tree, v, Leaf(m, tree, v));
  }

  lemma SomeThrough(m: Mem, tree: Tree, v: nat, d: Option<Entry>)
    ensures Through(m, tree, v, d).Some? <==> d.Some?
  {
  }

  // ---------- changes through the copied root

  // The kernel's tables `tree` below `slots`, and a root that shares the slots `shared` with it
  datatype Copy = Copy(mem: Mem, slots: set<nat>, tree: Tree, root: nat, shared: set<nat>)
  {
    ghost predicate Ok() {
      Shape(mem, slots, tree) && shared <= slots && root !in tree.Values && AllShared(mem, root, tree, shared)
    }

    // The kernel's tables below the shared slots, seen from `root`
    function Via(): (via: Tree)
      ensures P3 in via && via[P3] == root
    {
      (map p | p in tree && !p.P3? && p.Top() in shared :: tree[p])[P3 := root]
    }

    // The kernel's tree once `Via()` has become `via`
    function Merged(via: Tree): Tree {
      map p | p in tree.Keys + via.Keys :: if p in tree then tree[p] else via[p]
    }

    // The memory is now `m` and `Via()` is now `via`, no root slot having been filled
    ghost predicate Change(m: Mem, via: Tree) {
      && Ok() && Shape(m, shared, via)
      && Extends(Via(), via) && RootSame(mem, m, Via(), via) && Agrees(mem, m, via.Values)
      && SameLinks(mem, Via(), m, via)
      && (forall p :: p in via && p !in Via() ==> via[p] !in tree.Values)
      && (forall i :: P2(i) in via ==> P2(i) in Via())
    }
  }

  lemma ViaHas(c: Copy, v: nat)
    requires Index(v, 3) in c.shared
    ensures LeafPos(v) in c.Via() <==> LeafPos(v) in c.tree
  {
  }

  lemma ViaValues(c: Copy)
    ensures c.Via().Values <= c.tree.Values + {c.root}
  {
  }

  // Through the copied root the shared tables are again a tree, so that walk, mappages,
  // updatepages and unmappages work on them as on any other
  lemma ViaShape(c: Copy)
    requires c.Ok()
    ensures Shape(c.mem, c.shared, c.Via())
  {
    var via := c.Via();
    forall p | p in via && !p.P3? ensures Hangs(c.mem, c.shared, via, p) {
      assert Hangs(c.mem, c.slots, c.tree, p);
      assert p.P2? ==> Shares(c.mem, c.root, c.tree, p.a);
    }
    forall p, i | p in via && !p.P0? && 0 <= i < ENTRIES && (p.P3? ==> i in c.shared) && c.mem[via[p]][i].present
      ensures p.Child(i) in via
    {
      assert p.P3? ==> Shares(c.mem, c.root, c.tree, i);
      assert !p.P3? ==> c.mem[c.tree[p]][i].present;
    }
    forall p | p in c.tree ensures c.tree[p] != c.root { assert c.tree[p] in c.tree.Values; }
  }

  // The kernel's other tables keep their contents
  lemma Untouched(c: Copy, m: Mem, via: Tree, p: Pos)
    requires c.Change(m, via) && p in c.tree && (p.P3? || p.Top() !in c.shared)
    ensures c.tree[p] in m && m[c.tree[p]] == c.mem[c.tree[p]]
    ensures c.tree[p] !in via.Values
  {
    assert c.tree[p] in c.tree.Values;
    forall q | q in via ensures via[q] != c.tree[p] {
      if q in c.Via() && !q.P3? { assert q in c.tree; }
    }
  }

  // Below the shared slots the merged tree is the changed one
  lemma MergedShared(c: Copy, m: Mem, via: Tree, p: Pos)
    requires c.Change(m, via) && p in c.Merged(via) && !p.P3?
    ensures p in via <==> p.Top() in c.shared
    ensures p in via ==> c.Merged(via)[p] == via[p]
    ensures p !in via ==> p in c.tree
  {
    if p in via { assert Hangs(m, c.shared, via, p); }
    if p in c.tree && p.Top() in c.shared { assert p in c.Via(); }
    if p in c.tree && p in via { assert p in c.Via(); }
  }

  // A table of the merged tree is one of the changed ones, or as it was
  lemma MergedTable(c: Copy, m: Mem, via: Tree, p: Pos)
    requires c.Change(m, via) && p in c.Merged(via)
    ensures IsTable(m, c.Merged(via)[p])
    ensures if !p.P3? && p.Top() in c.shared then p in via && c.Merged(via)[p] == via[p]
            else p in c.tree && c.Merged(via)[p] == c.tree[p] && m[c.tree[p]] == c.mem[c.tree[p]]
  {
    if !p.P3? { MergedShared(c, m, via, p); }
    if p.P3? || p.Top() !in c.shared { Untouched(c, m, via, p); }
  }

  lemma MergedHangs(c: Copy, m: Mem, via: Tree, p: Pos)
    requires c.Change(m, via) && p in c.Merged(via) && !p.P3?
    ensures Hangs(m, c.slots, c.Merged(via), p)
  {
    MergedTable(c, m, via, p);
    if p in via { assert Hangs(m, c.shared, via, p); }
    if p.P2? {
      assert p in via ==> p in c.Via();
      assert Hangs(c.mem, c.slots, c.tree, p);
      MergedTable(c, m, via, P3);
    } else {
      assert p !in via ==> Hangs(c.mem, c.slots, c.tree, p);
      MergedTable(c, m, via, p.Up());
    }
  }

  lemma MergedDistinct(c: Copy, m: Mem, via: Tree, p: Pos, q: Pos)
    requires c.Change(m, via) && p in c.Merged(via) && q in c.Merged(via) && c.Merged(via)[p] == c.Merged(via)[q]
    ensures p == q
  {
    MergedTable(c, m, via, p);
    MergedTable(c, m, via, q);
    if p.P3? || p.Top() !in c.shared { Untouched(c, m, via, p); }
    if q.P3? || q.Top() !in c.shared { Untouched(c, m, via, q); }
    assert p in via ==> via[p] in via.Values;
    assert q in via ==> via[q] in via.Values;
  }

  lemma MergedShape(c: Copy, m: Mem, via: Tree)
    requires c.Change(m, via)
    ensures Shape(m, c.slots, c.Merged(via)) && P3 in c.Merged(via) && c.Merged(via)[P3] == c.tree[P3]
  {
    var tree := c.Merged(via);
    forall p | p in tree ensures IsTable(m, tree[p]) {
      MergedTable(c, m, via, p);
    }
    forall p | p in tree && !p.P3? ensures Hangs(m, c.slots, tree, p) {
      MergedHangs(c, m, via, p);
    }
    forall p, i | p in tree && !p.P0? && 0 <= i < ENTRIES && (p.P3? ==> i in c.slots) && m[tree[p]][i].present
      ensures p.Child(i) in tree
    {
      MergedTable(c, m, via, p);
    }
    forall p, q | p in tree && q in tree && tree[p] == tree[q] ensures p == q {
      MergedDistinct(c, m, via, p, q);
    }
  }

  // The copied root itself is as before
  lemma RootUntouched(c: Copy, m: Mem, via: Tree)
    requires c.Change(m, via)
    ensures c.root in c.mem && c.root in m && m[c.root] == c.mem[c.root]
  {
    assert forall i :: 0 <= i < ENTRIES ==> m[c.root][i] == c.mem[c.root][i];
  }

  lemma StillShares(c: Copy, m: Mem, via: Tree, i: nat)
    requires c.Change(m, via) && i in c.shared
    ensures Shares(m, c.root, c.Merged(via), i)
  {
    assert Shares(c.mem, c.root, c.tree, i);
    RootUntouched(c, m, via);
    if P2(i) in c.Merged(via) {
      MergedShared(c, m, via, P2(i));
      assert P2(i) in c.Via();
    }
  }

  /** A change through the copied root that fills no empty root slot is seen alike through the
      kernel's root: its tables are still a tree, still shared, and translate every page the same. */
  lemma UserChange(c: Copy, m: Mem, via: Tree)
    requires c.Change(m, via)
    ensures Copy(m, c.slots, c.Merged(via), c.root, c.shared).Ok() && c.Merged(via)[P3] == c.tree[P3]
    ensures forall v :: Index(v, 3) in c.shared ==> Translate(m, c.root, v) == Translate(m, c.tree[P3], v)
  {
    hide Index, Translate;
    var tree := c.Merged(via);
    MergedShape(c, m, via);
    forall i | i in c.shared ensures Shares(m, c.root, tree, i) {
      StillShares(c, m, via, i);
    }
    assert c.root in via.Values by { assert via[P3] == c.root; }
    forall f | f in tree.Values ensures f != c.root {
      var p :| p in tree && tree[p] == f;
      MergedTable(c, m, via, p);
      if p.P3? || p.Top() !in c.shared { Untouched(c, m, via, p); }
    }
    forall v | Index(v, 3) in c.shared ensures Translate(m, c.root, v) == Translate(m, c.tree[P3], v) {
      SharedTranslates(m, c.slots, tree, c.root, v);
    }
  }

  // The links of the merged tree
  lemma MergedLink(c: Copy, m: Mem, via: Tree, p: Pos)
    requires c.Change(m, via) && p in c.Merged(via) && !p.P3?
    ensures if p in c.tree then LinkOf(m, c.Merged(via), p) == LinkOf(c.mem, c.tree, p)
            else LinkOf(m, c.Merged(via), p).Some? && Open(LinkOf(m, c.Merged(via), p).value)
  {
    MergedShared(c, m, via, p);
    MergedHangs(c, m, via, p);
    MergedTable(c, m, via, p.Up());
    if p in c.tree { assert Hangs(c.mem, c.slots, c.tree, p); }
    if p in via && !p.P2? {
      assert LinkOf(m, c.Merged(via), p) == LinkOf(m, via, p);
      assert p in c.tree ==> p in c.Via() && LinkOf(c.mem, c.tree, p) == LinkOf(c.mem, c.Via(), p);
    }
  }

  // For the kernel's own tree that change is a change of its tables and of nothing else
  lemma MergedFrame(c: Copy, m: Mem, via: Tree)
    requires c.Change(m, via)
    ensures Extends(c.tree, c.Merged(via)) && RootSame(c.mem, m, c.tree, c.Merged(via))
    ensures Agrees(c.mem, m, c.Merged(via).Values) && SameLinks(c.mem, c.tree, m, c.Merged(via))
  {
    var tree := c.Merged(via);
    forall p | p in tree && !p.P3?
      ensures if p in c.tree then LinkOf(m, tree, p) == LinkOf(c.mem, c.tree, p)
              else LinkOf(m, tree, p).Some? && Open(LinkOf(m, tree, p).value)
    {
      MergedLink(c, m, via, p);
    }
    MergedTable(c, m, via, P3);
    RootUntouched(c, m, via);
    forall p | p in via && !p.P3? ensures via[p] in tree.Values {
      MergedShared(c, m, via, p);
      assert tree[p] in tree.Values;
    }
    forall f | f in via.Values && f !in tree.Values ensures f == c.root {
      var p :| p in via && via[p] == f;
    }
  }

  // The descriptors of the merged tree
  lemma MergedDesc(c: Copy, m: Mem, via: Tree, v: nat)
    requires c.Change(m, via)
    ensures if Index(v, 3) in c.shared
            then Desc(m, c.Merged(via), v) == Desc(m, via, v) && Desc(c.mem, c.tree, v) == Desc(c.mem, c.Via(), v)
            else Desc(m, c.Merged(via), v) == Desc(c.mem, c.tree, v)
  {
    hide Shape, Index;
    var p := LeafPos(v);
    if p in c.Merged(via) {
      MergedTable(c, m, via, p);
      MergedShared(c, m, via, p);
    }
    if p in c.tree { AllTables(c.mem, c.slots, c.tree, p); }
  }

  // ---------- the operations through the copied root are such changes

  // mappages, below slots that are filled
  lemma GrownIsChange(c: Copy, free: set<nat>, b: View, tops: set<nat>)
    requires c.Ok() && Shape(b.mem, c.shared, b.tree) && Grew(View(c.mem, c.Via(), free), b, tops)
    requires (c.tree.Values + {c.root}) !! free && forall i :: i in tops && i in c.shared ==> P2(i) in c.tree
    ensures c.Change(b.mem, b.tree)
    ensures c.Merged(b.tree).Values == c.tree.Values + (free - b.free)
  {
    var via, gone := c.Via(), free - b.free;
    ViaValues(c);
    NewFrames(via, b.tree, gone);
    forall i | P2(i) in b.tree ensures P2(i) in via {
      assert Hangs(b.mem, c.shared, b.tree, P2(i));
    }
    MergedValues(c, b.tree, gone);
  }

  // The frames of new positions are the new frames
  lemma NewFrames(t: Tree, t': Tree, gone: set<nat>)
    requires Extends(t, t') && t'.Values == t.Values + gone && gone !! t.Values
    requires forall p, q :: p in t' && q in t' && t'[p] == t'[q] ==> p == q
    ensures forall p :: p in t' && p !in t ==> t'[p] in gone
    ensures forall f :: f in gone ==> exists p :: p in t' && p !in t && t'[p] == f
  {
    forall p | p in t' && p !in t ensures t'[p] in gone {
      assert t'[p] in t'.Values;
      forall q | q in t ensures t[q] != t'[p] { assert t'[q] == t[q]; }
    }
    forall p | p in t ensures t'[p] !in gone { assert t[p] in t.Values; }
    forall f | f in gone ensures exists p :: p in t' && p !in t && t'[p] == f {
      var p :| p in t' && t'[p] == f;
    }
  }

  lemma MergedValues(c: Copy, via: Tree, gone: set<nat>)
    requires P3 in c.tree && Extends(c.Via(), via)
    requires forall p :: p in via && p !in c.Via() ==> via[p] in gone && !p.P3? && p.Top() in c.shared
    requires forall f :: f in gone ==> exists p :: p in via && p !in c.Via() && via[p] == f
    ensures c.Merged(via).Values == c.tree.Values + gone
  {
    var r := c.Merged(via);
    forall f | f in r.Values ensures f in c.tree.Values + gone {
      var p :| p in r && r[p] == f;
      assert p in c.Via() ==> p in c.tree;
    }
    forall f | f in c.tree.Values ensures f in r.Values {
      var p :| p in c.tree && c.tree[p] == f;
      assert r[p] == f;
    }
    forall f | f in gone ensures f in r.Values {
      var p :| p in via && p !in c.Via() && via[p] == f;
      assert p !in c.tree && r[p] == f;
    }
  }

  // unmappages and updatepages
  lemma StoredIsChange(c: Copy, m: Mem)
    requires c.Ok() && Shape(m, c.shared, c.Via()) && TablesOnly(c.mem, m, c.Via())
    ensures c.Change(m, c.Via()) && c.Merged(c.Via()) == c.tree
  {
  }
}
