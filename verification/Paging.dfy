/**
 walk, mappages, updatepages, unmappages and map_higher_half of
 kernel/arch/x86-64/memory/vm.c, on memory that the page allocator hands out.
 */
module Paging {
  import opened Words
  import opened PageTables
  import opened PhysAlloc

  // The table at `level` on the way to page `v`
  function PosAt(v: nat, level: nat): Pos
    requires level <= 3
  {
    if level == 3 then P3
    else if level == 2 then P2(Index(v, 3))
    else if level == 1 then P1(Index(v, 3), Index(v, 2))
    else LeafPos(v)
  }

  lemma ValuesAdd(t: Tree, p: Pos, f: nat)
    requires p !in t
    ensures t[p := f].Values == t.Values + {f}
  {
    forall x | x in t.Values ensures x in t[p := f].Values {
      var q :| q in t && t[q] == x;
      assert t[p := f][q] == x;
    }
    assert t[p := f][p] == f;
  }

  // ---------- ranges of pages

  // The last page that [va, va + sz) touches, in 64-bit arithmetic
  function LastPage(va: u64, sz: u64): nat { Wrap(va + sz - 1) / PAGE_SIZE }

  predicate InRange(v: nat, va: u64, sz: u64) { va / PAGE_SIZE <= v <= LastPage(va, sz) }

  // The range is canonical, lies below `slots`, and stops short of the last page of
  // the address space, where the loop variable would wrap to 0 and the loop never end (LoopEnds)
  ghost predicate Inside(slots: set<nat>, va: u64, sz: u64) {
    && LastPage(va, sz) + 1 < ALL
    && forall v: nat :: InRange(v, va, sz) ==> Canonical(v) && Index(v, 3) in slots
  }

  /** A range that does not wrap around consists of the pages in which it has a byte, and an empty one
      at the start of a page of none. */
  lemma RangeTouched(va: u64, sz: u64, v: nat)
    requires va + sz <= TWO_64 && (sz > 0 || (va % PAGE_SIZE == 0 && va > 0))
    ensures InRange(v, va, sz) <==> exists a: nat :: va <= a < va + sz && a / PAGE_SIZE == v
  {
    if sz > 0 {
      var last := va + sz - 1;
      assert Wrap(last) == last;
      if InRange(v, va, sz) {
        var a := if v == va / PAGE_SIZE then va else v * PAGE_SIZE;
        assert va <= a <= last && a / PAGE_SIZE == v;
      }
      forall a: nat | va <= a < va + sz ensures va / PAGE_SIZE <= a / PAGE_SIZE <= last / PAGE_SIZE {}
    } else {
      assert Wrap(va - 1) == va - 1;
    }
  }

  // A roll-back from page `v` covers exactly the pages before it
  lemma RollBackRange(va: u64, v: nat)
    requires 0 < v && v * PAGE_SIZE < TWO_64
    ensures LastPage(va, Wrap(v * PAGE_SIZE - va)) == v - 1
  {
  }

  // vmflag_to_x86flag (vm.c:89-96)
  datatype Flags = Flags(write: bool, user: bool, exec: bool)

  function Descriptor(frame: nat, f: Flags, nx: bool): Entry {
    Entry(true, f.write, f.user, false, nx && !f.exec, frame)
  }

  // The frames that the descriptors of [lo, hi) name, present or not
  ghost function Named(m: Mem, tree: Tree, lo: nat, hi: nat): set<nat> {
    set v | lo <= v < hi && Desc(m, tree, v).Some? :: Desc(m, tree, v).value.frame
  }

  lemma NamedNone(m: Mem, tree: Tree, lo: nat)
    ensures forall hi: nat :: hi <= lo ==> Named(m, tree, lo, hi) == {}
  {
  }

  lemma NamedNext(m: Mem, tree: Tree, lo: nat, v: nat)
    requires lo <= v
    ensures Named(m, tree, lo, v + 1) ==
      Named(m, tree, lo, v) + if Desc(m, tree, v).Some? then {Desc(m, tree, v).value.frame} else {}
  {
  }

  // A descriptor with its present bit cleared
  function Off(d: Option<Entry>): Option<Entry> {
    if d.None? then None else Some(d.value.(present := false))
  }

  // The tables of page `v` that walk would have to create
  function Missing(tree: Tree, v: nat): nat {
    (if PosAt(v, 2) in tree then 0 else 1) + (if PosAt(v, 1) in tree then 0 else 1)
    + (if PosAt(v, 0) in tree then 0 else 1)
  }

  // New tables hang below the root slots `tops` only
  predicate NewBelow(t: Tree, t': Tree, tops: set<nat>) {
    forall p :: p in t' && p !in t ==> !p.P3? && p.Top() in tops
  }

  // The root slots of a range
  ghost function Tops(lo: nat, hi: nat): set<nat> {
    set v | lo <= v < hi :: Index(v, 3)
  }

  lemma TopsNext(lo: nat, v: nat)
    requires lo <= v
    ensures Tops(lo, v + 1) == Tops(lo, v) + {Index(v, 3)}
  {
  }

  // An entry of the root changes only where a new table is linked
  predicate RootSame(m: Mem, m': Mem, t: Tree, t': Tree) {
    && P3 in t && P3 in t' && t'[P3] == t[P3] && IsTable(m, t[P3]) && IsTable(m', t[P3])
    && forall i :: 0 <= i < ENTRIES && !(P2(i) in t' && P2(i) !in t) ==> m'[t[P3]][i] == m[t[P3]][i]
  }

  // Memory, the tree of tables in it, and the free pages
  datatype View = View(mem: Mem, tree: Tree, free: set<nat>)

  // New tables below `tops` came off the free list, and nothing outside the tables changed
  ghost predicate Grew(a: View, b: View, tops: set<nat>) {
    && Extends(a.tree, b.tree) && NewBelow(a.tree, b.tree, tops) && RootSame(a.mem, b.mem, a.tree, b.tree)
    && b.free <= a.free && b.tree.Values == a.tree.Values + (a.free - b.free)
    && Agrees(a.mem, b.mem, b.tree.Values) && SameLinks(a.mem, a.tree, b.mem, b.tree)
  }

  lemma GrewNot(a: View)
    requires P3 in a.tree && IsTable(a.mem, a.tree[P3])
    ensures forall tops :: Grew(a, a, tops)
    ensures forall v :: Kept(a.mem, a.tree, a.mem, a.tree, v)
  {
  }

  lemma GrewTwice(a: View, b: View, c: View, tops: set<nat>, more: set<nat>)
    requires Grew(a, b, tops) && Grew(b, c, more)
    ensures Grew(a, c, tops + more)
  {
    SameLinksTwice(a.mem, a.tree, b.mem, b.tree, c.mem, c.tree);
    forall i | 0 <= i < ENTRIES && !(P2(i) in c.tree && P2(i) !in a.tree)
      ensures c.mem[a.tree[P3]][i] == a.mem[a.tree[P3]][i]
    {
      assert P2(i) in b.tree ==> P2(i) in c.tree;
    }
  }

  lemma KeptOn(a: View, b: View, c: View)
    requires Extends(a.tree, b.tree) && Extends(b.tree, c.tree)
    requires forall v :: Kept(a.mem, a.tree, b.mem, b.tree, v)
    requires forall v :: Kept(b.mem, b.tree, c.mem, c.tree, v)
    ensures forall v :: Kept(a.mem, a.tree, c.mem, c.tree, v)
  {
    forall v ensures Kept(a.mem, a.tree, c.mem, c.tree, v) {
      KeptTwice(a.mem, a.tree, b.mem, b.tree, c.mem, c.tree, v);
    }
  }

  // Linking a new table is growth
  lemma LinkGrew(m: Mem, slots: set<nat>, tree: Tree, p: Pos, i: nat, f: nat, free: set<nat>, free': set<nat>)
    requires Shape(m, slots, tree) && p in tree && !p.P0? && i < ENTRIES
    requires (if p.P3? then i else p.Top()) in slots && !m[tree[p]][i].present
    requires f in free && free' == free - {f} && tree.Values !! free && p.Child(i) !in tree
    ensures Grew(View(m, tree, free), View(Linked(m, tree, p, i, f), tree[p.Child(i) := f], free'),
                 {if p.P3? then i else p.Top()})
  {
    var m', tree' := Linked(m, tree, p, i, f), tree[p.Child(i) := f];
    LinkKeeps(m, slots, tree, p, i, f);
    ValuesAdd(tree, p.Child(i), f);
    assert tree[P3] in tree.Values && tree[p] in tree.Values;
  }

  // Growth, then writes to descriptors
  lemma GrewStored(a: View, b: View, m: Mem, tops: set<nat>)
    requires Grew(a, b, tops) && TablesOnly(b.mem, m, b.tree)
    ensures Grew(a, b.(mem := m), tops)
  {
    SameLinksTwice(a.mem, a.tree, b.mem, b.tree, m, b.tree);
  }

  // The first page asked for is mapped already or there is no memory for its tables
  ghost predicate FailsFirst(a: View, va: u64, sz: u64) {
    var v := va / PAGE_SIZE;
    v <= LastPage(va, sz) && (Leaf(a.mem, a.tree, v).Some? || Missing(a.tree, v) > |a.free|)
  }

  // ---------- what the hardware sees

  // Below `slots`, or away from the tables and pages in `used`
  predicate Covered(m: Mem, slots: set<nat>, root: nat, v: nat, used: set<nat>) {
    Index(v, 3) in slots || Elsewhere(m, root, v, used)
  }

  /** A change that keeps a page's leaf, or does not concern its tables, keeps its translation and rights. */
  lemma SeenSame(m: Mem, m': Mem, slots: set<nat>, tree: Tree, tree': Tree, used: set<nat>, v: nat)
    requires Shape(m, slots, tree) && Shape(m', slots, tree') && RootSame(m, m', tree, tree')
    requires Agrees(m, m', used) && Covered(m, slots, tree[P3], v, used)
    requires SameLinks(m, tree, m', tree') && Extends(tree, tree')
    requires Index(v, 3) in slots ==> Leaf(m', tree', v) == Leaf(m, tree, v)
    ensures Translate(m', tree[P3], v) == Translate(m, tree[P3], v)
  {
    if Index(v, 3) in slots {
      TranslateIsLeaf(m, slots, tree, v);
      TranslateIsLeaf(m', slots, tree', v);
      ThroughKept(m, tree, m', tree', v, Leaf(m, tree, v));
    } else {
      assert P2(Index(v, 3)) in tree' ==> Hangs(m', slots, tree', P2(Index(v, 3)));
      ElsewhereSame(m, m', tree[P3], v, used);
    }
  }

  class Pager {
    const phys: Allocator
    const nx: bool               // kernel_status.nx_flag_enabled
    var mem: Mem

    constructor (a: Allocator, n: bool, m: Mem)
      ensures phys == a && nx == n && mem == m
    {
      phys, nx, mem := a, n, m;
    }

    // The tables below `slots` form `tree`
    ghost predicate Tables(slots: set<nat>, tree: Tree)
      reads this, phys.bits, phys.list
    {
      phys.Valid() && Shape(mem, slots, tree) && P3 in tree
    }

    // ... and none of them is free
    ghost predicate Owns(slots: set<nat>, tree: Tree)
      reads this, phys.bits, phys.list
    {
      Tables(slots, tree) && tree.Values !! phys.Free()
    }

    ghost function Seen(tree: Tree): View
      reads this, phys.list
    {
      View(mem, tree, phys.Free())
    }

    // A new table below entry `i` of table `p` (vm.c:117-123)
    method NewTable(cur: nat, i: nat, ghost p: Pos, ghost slots: set<nat>, ghost tree: Tree)
      returns (f: nat, ghost tree': Tree)
      requires Owns(slots, tree) && p in tree && !p.P0? && i < ENTRIES && cur == tree[p]
      requires (if p.P3? then i else p.Top()) in slots && !mem[cur][i].present
      modifies `mem, phys.bits, phys.list
      ensures Owns(slots, tree') && Grew(old(Seen(tree)), Seen(tree'), {if p.P3? then i else p.Top()})
      ensures f == 0 <==> old(phys.Free()) == {}
      ensures f == 0 ==> tree' == tree && mem == old(mem) && phys.Free() == {}
      ensures f != 0 ==> p.Child(i) !in tree && tree' == tree[p.Child(i) := f]
      ensures f != 0 ==> LinkOf(mem, tree', p.Child(i)) == Some(Entry(true, true, true, false, false, f))
      ensures f != 0 ==>
        IsTable(mem, f) && forall k :: 0 <= k < ENTRIES ==> mem[f][k] == Entry(false, false, false, false, false, 0)
      ensures |phys.Free()| == |old(phys.Free())| - if f == 0 then 0 else 1
      ensures forall v :: Kept(old(mem), tree, mem, tree', v)
    {
      hide Shape, Desc, Allocator.Valid;
      tree' := tree;
      AllTables(mem, slots, tree, P3);
      GrewNot(Seen(tree));
      f := phys.Alloc();
      if f == 0 { return; }
      tree' := tree[p.Child(i) := f];
      LinkKeeps(mem, slots, tree, p, i, f);
      FreshChild(mem, slots, tree, p, i);
      ValuesAdd(tree, p.Child(i), f);
      mem := mem[cur := mem[cur][i := Link(f)]];
      mem := mem[f := Cleared()];
      LinkGrew(old(mem), slots, tree, p, i, f, old(phys.Free()), phys.Free());
    }

    // walk (vm.c:101-127); large pages do not occur below `slots`
    method Walk(root: nat, v: nat, alloc: bool, ghost slots: set<nat>, ghost tree0: Tree)
      returns (found: bool, table: nat, index: nat, ghost tree: Tree)
      requires Tables(slots, tree0) && tree0[P3] == root && Index(v, 3) in slots
      requires alloc ==> Owns(slots, tree0)
      modifies `mem, phys.bits, phys.list
      ensures Tables(slots, tree) && (alloc ==> Owns(slots, tree)) && tree[P3] == root
      ensures Grew(old(Seen(tree0)), Seen(tree), {Index(v, 3)})
      ensures forall w :: Kept(old(mem), tree0, mem, tree, w)
      ensures forall w: nat :: Covered(old(mem), slots, root, w, tree0.Values + old(phys.Free())) ==>
        Translate(mem, root, w) == Translate(old(mem), root, w)
      ensures found ==> LeafPos(v) in tree && table == tree[LeafPos(v)] && index == Index(v, 0) && IsTable(mem, table)
      ensures alloc ==> (found <==> Missing(tree0, v) <= |old(phys.Free())|)
      ensures !found && alloc ==> phys.Free() == {}
      ensures !alloc ==> mem == old(mem) && tree == tree0 && phys.Free() == old(phys.Free())
      ensures !alloc ==> (found <==> LeafPos(v) in tree0)
    {
      hide Shape, Desc, Kept, Allocator.Valid, Index, Agrees, RootSame, NewBelow, Covered, Translate, SameLinks, LinkOf,
        Extends;
      tree, table, index := tree0, 0, 0;
      var cur := root;
      var level := 3;
      AllTables(mem, slots, tree, P3);
      GrewNot(Seen(tree));
      while level > 0
        invariant 0 <= level <= 3 && PosAt(v, level) in tree && cur == tree[PosAt(v, level)]
        invariant forall l :: level <= l <= 3 ==> PosAt(v, l) in tree
        invariant Tables(slots, tree) && (alloc ==> Owns(slots, tree)) && tree[P3] == root
        invariant Grew(old(Seen(tree0)), Seen(tree), {Index(v, 3)})
        invariant forall w :: Kept(old(mem), tree0, mem, tree, w)
        invariant |phys.Free()| - Missing(tree, v) == |old(phys.Free())| - Missing(tree0, v)
        invariant !alloc ==> mem == old(mem) && tree == tree0 && phys.Free() == old(phys.Free())
      {
        Descend(mem, slots, tree, v, level);
        var i := Index(v, level);
        var e := mem[cur][i];
        if e.present {
          cur := e.frame;
        } else {
          if !alloc {
            MissingTable(mem, slots, tree, v, level - 1);
            found := false;
            return;
          }
          ghost var p, before := PosAt(v, level), Seen(tree);
          ghost var tree';
          cur, tree' := NewTable(cur, i, p, slots, tree);
          tree := tree';
          GrewTwice(old(Seen(tree0)), before, Seen(tree), {Index(v, 3)}, {Index(v, 3)});
          assert {Index(v, 3)} + {Index(v, 3)} == {Index(v, 3)};
          KeptOn(old(Seen(tree0)), before, Seen(tree));
          if cur == 0 {
            found := false;
            WalkSeen(old(Seen(tree0)), Seen(tree), slots, {Index(v, 3)});
            return;
          }
        }
        level := level - 1;
      }
      found, table, index := true, cur, Index(v, 0);
      WalkSeen(old(Seen(tree0)), Seen(tree), slots, {Index(v, 3)});
      AllTables(mem, slots, tree, LeafPos(v));
    }

    // One descriptor changes, and with it the translation of page `v` alone
    method Store(table: nat, index: nat, e: Entry, ghost v: nat, ghost slots: set<nat>, ghost tree: Tree)
      requires Tables(slots, tree) && Canonical(v)
      requires LeafPos(v) in tree && table == tree[LeafPos(v)] && index == Index(v, 0)
      modifies `mem
      ensures Tables(slots, tree) && Desc(mem, tree, v) == Some(e)
      ensures forall w: nat :: Canonical(w) && w != v ==> Desc(mem, tree, w) == Desc(old(mem), tree, w)
      ensures TablesOnly(old(mem), mem, tree)
    {
      DescriptorWrite(mem, slots, tree, v, e);
      assert tree[LeafPos(v)] in tree.Values;
      mem := mem[table := mem[table][index := e]];
      forall w: nat | Canonical(w) && w != v ensures Desc(mem, tree, w) == Desc(old(mem), tree, w) {
        assert Kept(old(mem), tree, mem, tree, w);
      }
    }

    // One round of unmappages (vm.c:201-208); `ok` is false when kfree is given a page that it does not manage
    method UnmapPage(root: nat, v: nat, release: bool, ghost slots: set<nat>, ghost tree: Tree) returns (ok: bool)
      requires Tables(slots, tree) && tree[P3] == root && Canonical(v) && Index(v, 3) in slots
      modifies `mem, phys.bits, phys.list
      ensures Tables(slots, tree) && TablesOnly(old(mem), mem, tree)
      ensures var d := Desc(old(mem), tree, v); ok <==> (release && d.Some? ==> phys.Managed(d.value.frame))
      ensures ok ==> Desc(mem, tree, v) == Off(Desc(old(mem), tree, v))
      ensures forall w: nat :: Canonical(w) && w != v ==> Desc(mem, tree, w) == Desc(old(mem), tree, w)
      ensures var d := Desc(old(mem), tree, v);
        phys.Free() == old(phys.Free()) + if ok && release && d.Some? then {d.value.frame} else {}
    {
      hide Shape, Allocator.Valid, Index, Canonical;
      var found, table, index;
      ghost var same;
      found, table, index, same := Walk(root, v, false, slots, tree);
      if found {
        if release {
          if !phys.Managed(mem[table][index].frame) { return false; }
          phys.Release(mem[table][index].frame * PAGE_SIZE);
        }
        Store(table, index, mem[table][index].(present := false), v, slots, tree);
      }
      ok := true;
    }

    // unmappages (vm.c:196-212).  With `release` every descriptor of the range is freed, present or not
    method UnmapPages(root: nat, va: u64, sz: u64, release: bool, ghost slots: set<nat>, ghost tree: Tree)
      returns (ok: bool)
      requires Tables(slots, tree) && tree[P3] == root && Inside(slots, va, sz)
      modifies `mem, phys.bits, phys.list
      ensures Tables(slots, tree) && TablesOnly(old(mem), mem, tree)
      ensures var named := Named(old(mem), tree, va / PAGE_SIZE, LastPage(va, sz) + 1);
        && (ok <==> (release ==> forall f :: f in named ==> phys.Managed(f)))
        && (ok ==> phys.Free() == old(phys.Free()) + if release then named else {})
      ensures ok ==> forall w: nat :: Canonical(w) ==>
        Desc(mem, tree, w) == if InRange(w, va, sz) then Off(Desc(old(mem), tree, w)) else Desc(old(mem), tree, w)
      ensures ok ==> forall w: nat :: InRange(w, va, sz) && Desc(old(mem), tree, w).Some? ==>
        var e := Desc(old(mem), tree, w).value;
        Desc(mem, tree, w) == Some(Entry(false, e.writable, e.user, e.large, e.noExec, e.frame))
      ensures ok ==> forall w: nat :: Canonical(w) && Covered(old(mem), slots, root, w, tree.Values) ==>
        Translate(mem, root, w) == if InRange(w, va, sz) then None else Translate(old(mem), root, w)
    {
      hide Shape, Desc, Named, Allocator.Valid, Index, Canonical, LastPage, TablesOnly, Off, Elsewhere, Translate;
      ghost var first := va / PAGE_SIZE;
      var last := LastPage(va, sz);
      var v := va / PAGE_SIZE;
      NamedNone(mem, tree, first);
      OnlySame(mem, slots, tree);
      while v <= last
        invariant first <= v && (v <= last + 1 || v == first)
        invariant Tables(slots, tree) && TablesOnly(old(mem), mem, tree)
        invariant forall w: nat :: Canonical(w) ==>
          Desc(mem, tree, w) == if first <= w < v then Off(Desc(old(mem), tree, w)) else Desc(old(mem), tree, w)
        invariant release ==> forall f :: f in Named(old(mem), tree, first, v) ==> phys.Managed(f)
        invariant phys.Free() == old(phys.Free()) + if release then Named(old(mem), tree, first, v) else {}
        decreases last + 1 - v
      {
        assert InRange(v, va, sz);
        ghost var m1 := mem;
        NamedNext(old(mem), tree, first, v);
        ok := UnmapPage(root, v, release, slots, tree);
        OnlyTwice(old(mem), m1, mem, tree);
        if !ok {
          NamedIn(old(mem), tree, first, last + 1, v);
          return;
        }
        v := v + 1;
      }
      ok := true;
      AllOff(old(mem), mem, tree, va, sz);
      UnmappedSeen(old(mem), mem, slots, tree, va, sz);
    }

    // One round of mappages up to the roll-back (vm.c:161-169)
    method MapPage(root: nat, v: nat, frame: nat, flags: Flags, ghost slots: set<nat>, ghost tree0: Tree)
      returns (ok: bool, ghost tree: Tree)
      requires Owns(slots, tree0) && tree0[P3] == root && Canonical(v) && Index(v, 3) in slots
      modifies `mem, phys.bits, phys.list
      ensures Owns(slots, tree) && tree[P3] == root && Grew(old(Seen(tree0)), Seen(tree), {Index(v, 3)})
      ensures ok ==> Desc(mem, tree, v) == Some(Descriptor(frame, flags, nx))
      ensures forall w: nat :: Canonical(w) && (w != v || !ok) ==> Kept(old(mem), tree0, mem, tree, w)
      ensures ok <==> Leaf(old(mem), tree0, v).None? && Missing(tree0, v) <= |old(phys.Free())|
      ensures !ok ==> phys.Free() == {} || Leaf(old(mem), tree0, v).Some?
    {
      hide Shape, Allocator.Valid, Index, Canonical, Missing, Extends, NewBelow, RootSame, Agrees;
      var found, table, index;
      found, table, index, tree := Walk(root, v, true, slots, tree0);
      assert Kept(old(mem), tree0, mem, tree, v);
      if !found || mem[table][index].present {
        return false, tree;
      }
      ghost var before := Seen(tree);
      Store(table, index, Descriptor(frame, flags, nx), v, slots, tree);
      GrewStored(old(Seen(tree0)), before, mem, {Index(v, 3)});
      forall w: nat | Canonical(w) && w != v ensures Kept(old(mem), tree0, mem, tree, w) {
        assert Kept(old(mem), tree0, before.mem, tree, w);
      }
      ok := true;
    }

    // The roll-back of mappages (vm.c:163) at page `v`, from the view `a` at its start
    method RollBack(root: nat, va: u64, v: nat, ghost slots: set<nat>, ghost tree: Tree,
                    ghost a: View, ghost tops: set<nat>)
      requires Owns(slots, tree) && tree[P3] == root && Shape(a.mem, slots, a.tree) && Grew(a, Seen(tree), tops)
      requires va / PAGE_SIZE <= v && 0 < v < ALL && forall w: nat :: va / PAGE_SIZE <= w < v ==>
        Canonical(w) && Index(w, 3) in slots && Leaf(a.mem, a.tree, w).None?
      requires forall w: nat :: Canonical(w) && !(va / PAGE_SIZE <= w < v) ==> Kept(a.mem, a.tree, mem, tree, w)
      modifies `mem, phys.bits, phys.list
      ensures Owns(slots, tree) && Grew(a, Seen(tree), tops) && phys.Free() == old(phys.Free())
      ensures forall w: nat :: Canonical(w) ==> Leaf(mem, tree, w) == Leaf(a.mem, a.tree, w)
      ensures forall w: nat :: Canonical(w) && !(va / PAGE_SIZE <= w < v) ==> Kept(a.mem, a.tree, mem, tree, w)
      ensures forall w: nat :: Canonical(w) && Covered(a.mem, slots, root, w, a.tree.Values + a.free) ==>
        Translate(mem, root, w) == Translate(a.mem, root, w)
    {
      hide Shape, Desc, Leaf, Kept, Allocator.Valid, Index, Canonical, LastPage, Covered, Translate;
      ghost var b := Seen(tree);
      RollBackRange(va, v);
      var ok := UnmapPages(root, va, Wrap(v * PAGE_SIZE - va), false, slots, tree);
      GrewStored(a, b, mem, tops);
      RolledBack(a, b.mem, Seen(tree), va / PAGE_SIZE, v);
      LeavesSeen(a, Seen(tree), slots, tops);
    }

    // The rounds of mappages (vm.c:160-172) up to the end or to the first page `v` that cannot be mapped
    method MapRounds(root: nat, va: u64, sz: u64, pa: nat, flags: Flags, ghost slots: set<nat>, ghost tree0: Tree)
      returns (ok: bool, v: nat, ghost tree: Tree)
      requires Owns(slots, tree0) && tree0[P3] == root && Inside(slots, va, sz)
      modifies `mem, phys.bits, phys.list
      ensures Owns(slots, tree) && tree[P3] == root
      ensures Grew(old(Seen(tree0)), Seen(tree), Tops(va / PAGE_SIZE, LastPage(va, sz) + 1))
      ensures va / PAGE_SIZE <= v && (if ok then v > LastPage(va, sz) else InRange(v, va, sz))
      ensures forall w: nat :: va / PAGE_SIZE <= w < v ==>
        && InRange(w, va, sz) && Leaf(old(mem), tree0, w).None?
        && Desc(mem, tree, w) == Some(Descriptor(pa / PAGE_SIZE + (w - va / PAGE_SIZE), flags, nx))
      ensures forall w: nat :: Canonical(w) && !(va / PAGE_SIZE <= w < v) ==> Kept(old(mem), tree0, mem, tree, w)
      ensures !ok ==> phys.Free() == {} || Leaf(old(mem), tree0, v).Some?
      ensures !ok && v == va / PAGE_SIZE <==> FailsFirst(old(Seen(tree0)), va, sz)
    {
      hide Shape, Desc, Leaf, Kept, Allocator.Valid, Index, Canonical, LastPage, Descriptor, Missing, Tops, Grew;
      tree := tree0;
      ghost var a := Seen(tree0);
      var first, last := va / PAGE_SIZE, LastPage(va, sz);
      var frame := pa / PAGE_SIZE;
      v := first;
      AllTables(mem, slots, tree, P3);
      GrewNot(a);
      while v <= last
        invariant first <= v && (v <= last + 1 || v == first) && frame == pa / PAGE_SIZE + (v - first)
        invariant Owns(slots, tree) && tree[P3] == root && Grew(a, Seen(tree), Tops(first, v))
        invariant forall w: nat :: first <= w < v ==> Leaf(a.mem, tree0, w).None?
        invariant forall w: nat :: first <= w < v ==>
          Desc(mem, tree, w) == Some(Descriptor(pa / PAGE_SIZE + (w - first), flags, nx))
        invariant forall w: nat :: Canonical(w) && !(first <= w < v) ==> Kept(a.mem, tree0, mem, tree, w)
        invariant first < v ==> Missing(tree0, first) <= |a.free|
        invariant v == first ==> tree == tree0 && mem == a.mem && phys.Free() == a.free
        decreases last + 1 - v
      {
        assert InRange(v, va, sz);
        ghost var before := Seen(tree);
        ghost var tree';
        ok, tree' := MapPage(root, v, frame, flags, slots, tree);
        tree := tree';
        MapRound(a, before, Seen(tree), first, v, ok);
        if !ok {
          TopsMore(a, Seen(tree), first, v + 1, last + 1);
          return;
        }
        v, frame := v + 1, frame + 1;
      }
      ok := true;
      TopsMore(a, Seen(tree), first, v, last + 1);
    }

    // mappages (vm.c:153-175): all or nothing.  `stuck` is when it fails at page 0: the roll-back then
    // ranges over the whole address space and never ends (RollBackZero)
    method MapPages(root: nat, va: u64, sz: u64, pa: nat, flags: Flags, ghost slots: set<nat>, ghost tree0: Tree)
      returns (ok: bool, stuck: bool, ghost tree: Tree)
      requires Owns(slots, tree0) && tree0[P3] == root && Inside(slots, va, sz)
      modifies `mem, phys.bits, phys.list
      ensures Owns(slots, tree) && tree[P3] == root
      ensures Grew(old(Seen(tree0)), Seen(tree), Tops(va / PAGE_SIZE, LastPage(va, sz) + 1))
      ensures ok ==> !stuck && forall w: nat :: InRange(w, va, sz) ==>
        && Leaf(old(mem), tree0, w).None?
        && Desc(mem, tree, w) == Some(Descriptor(pa / PAGE_SIZE + (w - va / PAGE_SIZE), flags, nx))
      ensures !stuck ==> forall w: nat :: Canonical(w) && !InRange(w, va, sz) ==>
        Kept(old(mem), tree0, mem, tree, w)
      ensures !ok && !stuck ==> forall w: nat :: Canonical(w) ==> Leaf(mem, tree, w) == Leaf(old(mem), tree0, w)
      ensures !ok ==> phys.Free() == {} || exists w: nat :: InRange(w, va, sz) && Leaf(old(mem), tree0, w).Some?
      ensures stuck <==> va < PAGE_SIZE && FailsFirst(old(Seen(tree0)), va, sz)
      ensures FailsFirst(old(Seen(tree0)), va, sz) ==> !ok
      ensures !FailsFirst(old(Seen(tree0)), va, sz) && va / PAGE_SIZE == LastPage(va, sz) ==> ok
      ensures var used := tree0.Values + old(phys.Free());
        !stuck ==> forall w: nat :: Canonical(w) && Covered(old(mem), slots, root, w, used) ==>
          Translate(mem, root, w) ==
            if ok && InRange(w, va, sz)
            then Through(old(mem), tree0, w, Some(Descriptor(pa / PAGE_SIZE + (w - va / PAGE_SIZE), flags, nx)))
            else Translate(old(mem), root, w)
      // below links that take no right away, as walk makes them, the page has exactly the rights asked for
      ensures ok ==> forall w: nat :: InRange(w, va, sz) && OpenWay(old(mem), tree0, w) ==>
        Translate(mem, root, w) ==
          Some(Entry(true, flags.write, flags.user, false, nx && !flags.exec, pa / PAGE_SIZE + (w - va / PAGE_SIZE)))
    {
      hide Shape, Desc, Leaf, Kept, Allocator.Valid, Index, Canonical, LastPage, Descriptor, Missing, Tops, Grew,
        Covered, Translate, Through, OpenWay;
      ghost var a := Seen(tree0);
      var v;
      ok, v, tree := MapRounds(root, va, sz, pa, flags, slots, tree0);
      stuck := !ok && v == 0;
      if ok {
        MappedSeen(a, Seen(tree), slots, va, sz, pa / PAGE_SIZE, flags, nx);
      } else if v > 0 {
        RollBack(root, va, v, slots, tree, a, Tops(va / PAGE_SIZE, LastPage(va, sz) + 1));
      }
    }

    // One round of updatepages (vm.c:183-187)
    method UpdatePage(root: nat, v: nat, flags: Flags, ghost slots: set<nat>, ghost tree: Tree) returns (ok: bool)
      requires Tables(slots, tree) && tree[P3] == root && Canonical(v) && Index(v, 3) in slots
      modifies `mem, phys.bits, phys.list
      ensures Tables(slots, tree) && TablesOnly(old(mem), mem, tree) && phys.Free() == old(phys.Free())
      ensures ok <==> LeafPos(v) in tree
      ensures !ok ==> mem == old(mem)
      ensures ok ==> Desc(mem, tree, v) == Reflagged(Desc(old(mem), tree, v), flags, nx)
      ensures ok ==>
        Refitted(Desc(old(mem), tree, v), Desc(mem, tree, v), flags.write, flags.user, nx && !flags.exec)
      ensures forall w: nat :: Canonical(w) && w != v ==> Desc(mem, tree, w) == Desc(old(mem), tree, w)
    {
      hide Shape, Desc, Allocator.Valid, Index, Canonical, TablesOnly;
      var found, table, index;
      ghost var same;
      found, table, index, same := Walk(root, v, false, slots, tree);
      OnlySame(mem, slots, tree);
      if found {
        DescAt(mem, tree, v);
        var e := mem[table][index];
        e := e.(writable := flags.write, user := flags.user, noExec := nx && !flags.exec);
        Store(table, index, e, v, slots, tree);
      }
      ok := found;
    }

    // updatepages (vm.c:177-191): stops at the first page without a table
    method UpdatePages(root: nat, va: u64, sz: u64, flags: Flags, ghost slots: set<nat>, ghost tree: Tree)
      returns (ok: bool, ghost upto: nat)
      requires Tables(slots, tree) && tree[P3] == root && Inside(slots, va, sz)
      modifies `mem, phys.bits, phys.list
      ensures Tables(slots, tree) && TablesOnly(old(mem), mem, tree) && phys.Free() == old(phys.Free())
      ensures forall w: nat :: Canonical(w) ==>
        Desc(mem, tree, w) == if va / PAGE_SIZE <= w < upto then Reflagged(Desc(old(mem), tree, w), flags, nx)
                              else Desc(old(mem), tree, w)
      ensures ok ==> forall w: nat :: va / PAGE_SIZE <= w < upto <==> InRange(w, va, sz)
      ensures !ok ==> InRange(upto, va, sz) && LeafPos(upto) !in tree
      ensures forall w: nat :: Canonical(w) && Covered(old(mem), slots, root, w, tree.Values) ==>
        Translate(mem, root, w) ==
          if va / PAGE_SIZE <= w < upto then Through(old(mem), tree, w, Reflagged(Leaf(old(mem), tree, w), flags, nx))
          else Translate(old(mem), root, w)
      // every descriptor up to there has the new rights and is otherwise as before
      ensures forall w: nat :: va / PAGE_SIZE <= w < upto ==>
        Refitted(Desc(old(mem), tree, w), Desc(mem, tree, w), flags.write, flags.user, nx && !flags.exec)
      // ... and so has the page, below links that take no right away
      ensures forall w: nat ::
        va / PAGE_SIZE <= w < upto && OpenWay(old(mem), tree, w) && Leaf(old(mem), tree, w).Some? ==>
        Refitted(Leaf(old(mem), tree, w), Translate(mem, root, w), flags.write, flags.user, nx && !flags.exec)
    {
      hide Shape, Desc, Allocator.Valid, Index, Canonical, LastPage, TablesOnly, Covered, Translate, Through, OpenWay,
        Reflagged, Refitted, Leaf;
      var first, last := va / PAGE_SIZE, LastPage(va, sz);
      var v := first;
      OnlySame(mem, slots, tree);
      while v <= last
        invariant first <= v && (v <= last + 1 || v == first)
        invariant Tables(slots, tree) && TablesOnly(old(mem), mem, tree) && phys.Free() == old(phys.Free())
        invariant forall w: nat :: Canonical(w) ==>
          Desc(mem, tree, w) == if first <= w < v then Reflagged(Desc(old(mem), tree, w), flags, nx)
                                else Desc(old(mem), tree, w)
        invariant forall w: nat :: first <= w < v ==>
          Refitted(Desc(old(mem), tree, w), Desc(mem, tree, w), flags.write, flags.user, nx && !flags.exec)
        decreases last + 1 - v
      {
        assert InRange(v, va, sz);
        ghost var m1 := mem;
        ok := UpdatePage(root, v, flags, slots, tree);
        OnlyTwice(old(mem), m1, mem, tree);
        if !ok {
          upto := v;
          UpdatedSeen(old(mem), mem, slots, tree, first, upto, flags, nx);
          return;
        }
        v := v + 1;
      }
      ok, upto := true, v;
      UpdatedSeen(old(mem), mem, slots, tree, first, upto, flags, nx);
    }

    // map_higher_half (vm.c:214-219)
    method MapHigherHalf(root: nat, kernel: nat)
      requires IsTable(mem, root) && IsTable(mem, kernel) && root != kernel
      modifies `mem
      ensures IsTable(mem, root) && mem == old(mem)[root := mem[root]]
      ensures forall i :: 0 <= i < ENTRIES ==> mem[root][i] == if i < 256 then old(mem)[root][i] else mem[kernel][i]
    {
      var i := 256;
      while i < ENTRIES
        invariant 256 <= i <= ENTRIES
        invariant IsTable(mem, root) && mem == old(mem)[root := mem[root]]
        invariant forall j :: 0 <= j < ENTRIES ==>
          mem[root][j] == if j < 256 || j >= i then old(mem)[root][j] else mem[kernel][j]
      {
        mem := mem[root := mem[root][i := mem[kernel][i]]];
        i := i + 1;
      }
    }
  }

  // Only the tables of `tree` changed, and the root not at all
  ghost predicate TablesOnly(m: Mem, m': Mem, tree: Tree) {
    Agrees(m, m', tree.Values) && RootSame(m, m', tree, tree) && SameLinks(m, tree, m', tree)
  }

  lemma OnlySame(m: Mem, slots: set<nat>, tree: Tree)
    requires Shape(m, slots, tree)
    ensures TablesOnly(m, m, tree)
  {
  }

  lemma OnlyTwice(m: Mem, m1: Mem, m2: Mem, tree: Tree)
    requires TablesOnly(m, m1, tree) && TablesOnly(m1, m2, tree)
    ensures TablesOnly(m, m2, tree)
  {
  }

  lemma NamedIn(m: Mem, tree: Tree, lo: nat, hi: nat, v: nat)
    requires lo <= v < hi && Desc(m, tree, v).Some?
    ensures Desc(m, tree, v).value.frame in Named(m, tree, lo, hi)
  {
  }

  lemma DescAt(m: Mem, tree: Tree, v: nat)
    requires LeafPos(v) in tree && IsTable(m, tree[LeafPos(v)])
    ensures Desc(m, tree, v) == Some(m[tree[LeafPos(v)]][Index(v, 0)])
  {
  }

  // ---------- steps of mappages

  // What a round adds to the rounds before it
  lemma MapRound(a: View, b: View, c: View, first: nat, v: nat, mapped: bool)
    requires Grew(a, b, Tops(first, v)) && Grew(b, c, {Index(v, 3)}) && first <= v
    requires forall w: nat :: first <= w < v ==> Canonical(w) && Desc(b.mem, b.tree, w).Some?
    requires forall w: nat :: Canonical(w) && !(first <= w < v) ==> Kept(a.mem, a.tree, b.mem, b.tree, w)
    requires forall w: nat :: Canonical(w) && (w != v || !mapped) ==> Kept(b.mem, b.tree, c.mem, c.tree, w)
    ensures Grew(a, c, Tops(first, v + 1))
    ensures forall w: nat :: first <= w < v ==> Desc(c.mem, c.tree, w) == Desc(b.mem, b.tree, w)
    ensures forall w: nat :: Canonical(w) && !(first <= w < v) && (w != v || !mapped) ==>
      Kept(a.mem, a.tree, c.mem, c.tree, w)
    ensures Canonical(v) ==> Leaf(b.mem, b.tree, v) == Leaf(a.mem, a.tree, v)
  {
    hide Index, Canonical, Tops;
    GrewTwice(a, b, c, Tops(first, v), {Index(v, 3)});
    TopsNext(first, v);
    forall w: nat | Canonical(w) && !(first <= w < v) && (w != v || !mapped)
      ensures Kept(a.mem, a.tree, c.mem, c.tree, w)
    {
      KeptTwice(a.mem, a.tree, b.mem, b.tree, c.mem, c.tree, w);
    }
    forall w: nat | first <= w < v ensures Desc(c.mem, c.tree, w) == Desc(b.mem, b.tree, w) {
      assert Desc(b.mem, b.tree, w).Some? && Kept(b.mem, b.tree, c.mem, c.tree, w);
    }
    if Canonical(v) { KeptLeaf(a.mem, a.tree, b.mem, b.tree, v); }
  }

  lemma TopsMore(a: View, b: View, first: nat, v: nat, last: nat)
    requires Grew(a, b, Tops(first, v)) && (v <= last || v == first)
    ensures Grew(a, b, Tops(first, last))
  {
    assert Tops(first, v) <= Tops(first, last);
  }

  // After the roll-back every page is translated as at the start
  lemma RolledBack(a: View, m: Mem, c: View, first: nat, v: nat)
    requires forall w: nat :: first <= w < v ==> Leaf(a.mem, a.tree, w).None?
    requires forall w: nat :: Canonical(w) && !(first <= w < v) ==> Kept(a.mem, a.tree, m, c.tree, w)
    requires forall w: nat :: Canonical(w) ==>
      Desc(c.mem, c.tree, w) == if first <= w < v then Off(Desc(m, c.tree, w)) else Desc(m, c.tree, w)
    ensures forall w: nat :: Canonical(w) ==> Leaf(c.mem, c.tree, w) == Leaf(a.mem, a.tree, w)
    ensures forall w: nat :: Canonical(w) && !(first <= w < v) ==> Kept(a.mem, a.tree, c.mem, c.tree, w)
  {
    hide Desc, Canonical;
    forall w: nat | Canonical(w) ensures Leaf(c.mem, c.tree, w) == Leaf(a.mem, a.tree, w) {
      if !(first <= w < v) {
        assert Kept(a.mem, a.tree, c.mem, c.tree, w);
        KeptLeaf(a.mem, a.tree, c.mem, c.tree, w);
      }
    }
  }

  // Growth that keeps the leaf of a page keeps what the hardware sees of it
  lemma LeafSeen(a: View, c: View, slots: set<nat>, tops: set<nat>, w: nat)
    requires Shape(a.mem, slots, a.tree) && Shape(c.mem, slots, c.tree) && Grew(a, c, tops)
    requires Leaf(c.mem, c.tree, w) == Leaf(a.mem, a.tree, w)
    requires Covered(a.mem, slots, a.tree[P3], w, a.tree.Values + a.free)
    ensures Translate(c.mem, a.tree[P3], w) == Translate(a.mem, a.tree[P3], w)
  {
    hide Shape, Leaf, Elsewhere, Translate;
    SeenSame(a.mem, c.mem, slots, a.tree, c.tree, a.tree.Values + a.free, w);
  }

  lemma WalkSeen(a: View, c: View, slots: set<nat>, tops: set<nat>)
    requires Shape(a.mem, slots, a.tree) && Shape(c.mem, slots, c.tree) && Grew(a, c, tops)
    requires forall w :: Kept(a.mem, a.tree, c.mem, c.tree, w)
    ensures forall w: nat :: Covered(a.mem, slots, a.tree[P3], w, a.tree.Values + a.free) ==>
      Translate(c.mem, a.tree[P3], w) == Translate(a.mem, a.tree[P3], w)
  {
    hide Shape, Covered, Translate, Agrees, NewBelow, Desc;
    forall w: nat | Covered(a.mem, slots, a.tree[P3], w, a.tree.Values + a.free)
      ensures Translate(c.mem, a.tree[P3], w) == Translate(a.mem, a.tree[P3], w)
    {
      KeptLeaf(a.mem, a.tree, c.mem, c.tree, w);
      LeafSeen(a, c, slots, tops, w);
    }
  }

  lemma LeavesSeen(a: View, c: View, slots: set<nat>, tops: set<nat>)
    requires Shape(a.mem, slots, a.tree) && Shape(c.mem, slots, c.tree) && Grew(a, c, tops)
    requires forall w: nat :: Canonical(w) ==> Leaf(c.mem, c.tree, w) == Leaf(a.mem, a.tree, w)
    ensures forall w: nat :: Canonical(w) && Covered(a.mem, slots, a.tree[P3], w, a.tree.Values + a.free) ==>
      Translate(c.mem, a.tree[P3], w) == Translate(a.mem, a.tree[P3], w)
  {
    hide Shape, Leaf, Covered, Translate, Agrees, NewBelow, Canonical;
    forall w: nat | Canonical(w) && Covered(a.mem, slots, a.tree[P3], w, a.tree.Values + a.free)
      ensures Translate(c.mem, a.tree[P3], w) == Translate(a.mem, a.tree[P3], w)
    {
      LeafSeen(a, c, slots, tops, w);
    }
  }

  lemma MappedSeen(a: View, c: View, slots: set<nat>, va: u64, sz: u64, pf: nat, flags: Flags, nx: bool)
    requires Shape(a.mem, slots, a.tree) && Shape(c.mem, slots, c.tree) && Inside(slots, va, sz)
    requires Grew(a, c, Tops(va / PAGE_SIZE, LastPage(va, sz) + 1))
    requires forall w: nat :: InRange(w, va, sz) ==>
      Desc(c.mem, c.tree, w) == Some(Descriptor(pf + (w - va / PAGE_SIZE), flags, nx))
    requires forall w: nat :: Canonical(w) && !InRange(w, va, sz) ==> Kept(a.mem, a.tree, c.mem, c.tree, w)
    ensures forall w: nat :: Canonical(w) && Covered(a.mem, slots, a.tree[P3], w, a.tree.Values + a.free) ==>
      Translate(c.mem, a.tree[P3], w) ==
        if InRange(w, va, sz) then Through(a.mem, a.tree, w, Some(Descriptor(pf + (w - va / PAGE_SIZE), flags, nx)))
        else Translate(a.mem, a.tree[P3], w)
    ensures forall w: nat :: InRange(w, va, sz) && OpenWay(a.mem, a.tree, w) ==>
      Translate(c.mem, a.tree[P3], w) ==
        Some(Entry(true, flags.write, flags.user, false, nx && !flags.exec, pf + (w - va / PAGE_SIZE)))
  {
    hide Shape, Covered, Translate, Canonical, LastPage, Desc, Kept, Index, Tops, Through, SameLinks, OpenWay;
    forall w: nat | InRange(w, va, sz)
      ensures Translate(c.mem, a.tree[P3], w) ==
        Through(a.mem, a.tree, w, Some(Descriptor(pf + (w - va / PAGE_SIZE), flags, nx)))
      ensures OpenWay(a.mem, a.tree, w) ==>
        Translate(c.mem, a.tree[P3], w) ==
          Some(Entry(true, flags.write, flags.user, false, nx && !flags.exec, pf + (w - va / PAGE_SIZE)))
    {
      var d := Some(Descriptor(pf + (w - va / PAGE_SIZE), flags, nx));
      TranslateIsLeaf(c.mem, slots, c.tree, w);
      ThroughKept(a.mem, a.tree, c.mem, c.tree, w, d);
      if OpenWay(a.mem, a.tree, w) { OpenThrough(a.mem, a.tree, w, d); }
    }
    forall w: nat | Canonical(w) && Covered(a.mem, slots, a.tree[P3], w, a.tree.Values + a.free)
      ensures Translate(c.mem, a.tree[P3], w) ==
        if InRange(w, va, sz) then Through(a.mem, a.tree, w, Some(Descriptor(pf + (w - va / PAGE_SIZE), flags, nx)))
        else Translate(a.mem, a.tree[P3], w)
    {
      if !InRange(w, va, sz) {
        KeptLeaf(a.mem, a.tree, c.mem, c.tree, w);
        LeafSeen(a, c, slots, Tops(va / PAGE_SIZE, LastPage(va, sz) + 1), w);
      }
    }
  }

  // What the hardware sees after updatepages
  lemma UpdatedSeen(m: Mem, m': Mem, slots: set<nat>, tree: Tree, first: nat, upto: nat, flags: Flags, nx: bool)
    requires Shape(m, slots, tree) && Shape(m', slots, tree) && TablesOnly(m, m', tree)
    requires forall w: nat :: first <= w < upto ==> Canonical(w) && Index(w, 3) in slots
    requires forall w: nat :: Canonical(w) ==>
      Desc(m', tree, w) == if first <= w < upto then Reflagged(Desc(m, tree, w), flags, nx) else Desc(m, tree, w)
    ensures forall w: nat :: Canonical(w) && Covered(m, slots, tree[P3], w, tree.Values) ==>
      Translate(m', tree[P3], w) ==
        if first <= w < upto then Through(m, tree, w, Reflagged(Leaf(m, tree, w), flags, nx))
        else Translate(m, tree[P3], w)
    ensures forall w: nat :: first <= w < upto && OpenWay(m, tree, w) && Leaf(m, tree, w).Some? ==>
      Refitted(Leaf(m, tree, w), Translate(m', tree[P3], w), flags.write, flags.user, nx && !flags.exec)
  {
    hide Shape, Desc, Index, Canonical, Elsewhere, Translate, Through, SameLinks, OpenWay;
    forall w: nat | first <= w < upto
      ensures Translate(m', tree[P3], w) == Through(m, tree, w, Reflagged(Leaf(m, tree, w), flags, nx))
      ensures OpenWay(m, tree, w) && Leaf(m, tree, w).Some? ==>
        Refitted(Leaf(m, tree, w), Translate(m', tree[P3], w), flags.write, flags.user, nx && !flags.exec)
    {
      var d := Reflagged(Leaf(m, tree, w), flags, nx);
      TranslateIsLeaf(m', slots, tree, w);
      ThroughKept(m, tree, m', tree, w, d);
      if OpenWay(m, tree, w) { OpenThrough(m, tree, w, d); }
    }
    forall w: nat | Canonical(w) && Covered(m, slots, tree[P3], w, tree.Values)
      ensures Translate(m', tree[P3], w) ==
        if first <= w < upto then Through(m, tree, w, Reflagged(Leaf(m, tree, w), flags, nx))
        else Translate(m, tree[P3], w)
    {
      if !(first <= w < upto) { SeenSame(m, m', slots, tree, tree, tree.Values, w); }
    }
  }

  // Exactly the present bit is cleared
  lemma AllOff(m: Mem, m': Mem, tree: Tree, va: u64, sz: u64)
    requires forall w: nat :: InRange(w, va, sz) ==> Desc(m', tree, w) == Off(Desc(m, tree, w))
    ensures forall w: nat :: InRange(w, va, sz) && Desc(m, tree, w).Some? ==>
      var e := Desc(m, tree, w).value;
      Desc(m', tree, w) == Some(Entry(false, e.writable, e.user, e.large, e.noExec, e.frame))
  {
  }

  // What the hardware sees after unmappages
  lemma UnmappedSeen(m: Mem, m': Mem, slots: set<nat>, tree: Tree, va: u64, sz: u64)
    requires Shape(m, slots, tree) && Shape(m', slots, tree) && TablesOnly(m, m', tree) && Inside(slots, va, sz)
    requires forall w: nat :: Canonical(w) ==>
      Desc(m', tree, w) == if InRange(w, va, sz) then Off(Desc(m, tree, w)) else Desc(m, tree, w)
    ensures forall w: nat :: Canonical(w) && Covered(m, slots, tree[P3], w, tree.Values) ==>
      Translate(m', tree[P3], w) == if InRange(w, va, sz) then None else Translate(m, tree[P3], w)
  {
    hide Shape, Desc, Index, Canonical, LastPage, Elsewhere, Translate;
    forall w: nat | Canonical(w) && Covered(m, slots, tree[P3], w, tree.Values)
      ensures Translate(m', tree[P3], w) == if InRange(w, va, sz) then None else Translate(m, tree[P3], w)
    {
      if InRange(w, va, sz) {
        TranslateIsLeaf(m', slots, tree, w);
      } else {
        SeenSame(m, m', slots, tree, tree, tree.Values, w);
      }
    }
  }

  // Both are entries, the new one with the rights given, and alike in all else
  predicate Refitted(d: Option<Entry>, e: Option<Entry>, write: bool, user: bool, noExec: bool) {
    && d.Some? && e.Some? && e.value.writable == write && e.value.user == user && e.value.noExec == noExec
    && e.value.present == d.value.present && e.value.large == d.value.large && e.value.frame == d.value.frame
  }

  // The new write, user and no-execute bits; frame and presence stay
  function Reflagged(e: Option<Entry>, f: Flags, nx: bool): Option<Entry> {
    if e.None? then None else Some(e.value.(writable := f.write, user := f.user, noExec := nx && !f.exec))
  }

  // A present entry leads to the table the tree names
  lemma Descend(m: Mem, slots: set<nat>, tree: Tree, v: nat, level: nat)
    requires Shape(m, slots, tree) && 0 < level <= 3 && PosAt(v, level) in tree && Index(v, 3) in slots
    ensures var p, i := PosAt(v, level), Index(v, level);
      && IsTable(m, tree[p]) && PosAt(v, level - 1) == p.Child(i) && !p.P0? && (if p.P3? then i else p.Top()) in slots
      && (m[tree[p]][i].present <==> p.Child(i) in tree)
      && (m[tree[p]][i].present ==> !m[tree[p]][i].large && m[tree[p]][i].frame == tree[p.Child(i)])
  {
  }

  // A missing table on the way means a missing last table
  lemma MissingTable(m: Mem, slots: set<nat>, tree: Tree, v: nat, level: nat)
    requires Shape(m, slots, tree) && level < 3 && PosAt(v, level) !in tree
    ensures LeafPos(v) !in tree
  {
  }

  lemma FreshChild(m: Mem, slots: set<nat>, tree: Tree, p: Pos, i: nat)
    requires Shape(m, slots, tree) && p in tree && !p.P0? && i < ENTRIES && !m[tree[p]][i].present
    ensures p.Child(i) !in tree && IsTable(m, tree[p])
  {
  }

  // ---------- when the loops over a range end

  // The guard of the loops (vm.c:160, 182, 200) holds before round `n`
  predicate Guard(va: u64, sz: u64, n: nat) {
    Wrap(PageStart(va) + n * PAGE_SIZE) < PageEnd(Wrap(va + sz - 1))
  }

  /** The loops end exactly when the range stops short of the last page of the address space. */
  lemma LoopEnds(va: u64, sz: u64)
    ensures (exists n: nat :: !Guard(va, sz, n)) <==> LastPage(va, sz) + 1 < ALL
  {
    var last := Wrap(va + sz - 1);
    Pages(va);
    Pages(last);
    if last / PAGE_SIZE + 1 < ALL {
      var n := if va / PAGE_SIZE > last / PAGE_SIZE then 0 else last / PAGE_SIZE + 1 - va / PAGE_SIZE;
      var at := va / PAGE_SIZE + n;
      assert PageStart(va) + n * PAGE_SIZE == at * PAGE_SIZE;
      Unwrapped(at);
      assert !Guard(va, sz, n);
    } else {
      forall n: nat ensures Guard(va, sz, n) {
        PageWrap(va / PAGE_SIZE + n);
        assert PageStart(va) + n * PAGE_SIZE == (va / PAGE_SIZE + n) * PAGE_SIZE;
      }
    }
  }

  lemma Pages(a: u64)
    ensures PageStart(a) == a / PAGE_SIZE * PAGE_SIZE && PageEnd(a) == a / PAGE_SIZE * PAGE_SIZE + PAGE_SIZE - 1
    ensures a / PAGE_SIZE < ALL
  {
  }

  lemma Unwrapped(p: nat)
    requires p < ALL
    ensures Wrap(p * PAGE_SIZE) == p * PAGE_SIZE
  {
  }

  // A multiple of the page size stays one
  lemma PageWrap(p: nat)
    ensures Wrap(p * PAGE_SIZE) <= TWO_64 - PAGE_SIZE
  {
    var r := Wrap(p * PAGE_SIZE);
    assert r == PAGE_SIZE * (p - ALL * (p * PAGE_SIZE / TWO_64));
  }

  /** A roll-back from page 0 covers every page of the address space, and the guard of its loop holds in
      every round. */
  lemma RollBackZero(va: u64)
    requires va < PAGE_SIZE
    ensures var sz := Wrap(0 - va); LastPage(va, sz) + 1 == ALL && forall n: nat :: Guard(va, sz, n)
  {
    assert Wrap(va + Wrap(0 - va) - 1) == TWO_64 - 1;
    LoopEnds(va, Wrap(0 - va));
  }
}
