/**
 Who owns a page frame: several address spaces over one allocator, with the
 operations of kernel/memory/vmm.c and kernel/arch/x86-64/memory/vm.c that map,
 release and take pages, and the kernel tables that address spaces share.
 */
module Ownership {
  import opened Words
  import opened PageTables
  import opened PhysAlloc
  import opened Paging
  import opened Sharing

  // An address space: the root slots it manages and its tables
  datatype Space = Space(slots: set<nat>, tree: Tree)

  // Page `v` of space `s` is mapped to frame `f`
  predicate Maps(m: Mem, s: Space, v: nat, f: nat) {
    Canonical(v) && Leaf(m, s.tree, v).Some? && Leaf(m, s.tree, v).value.frame == f
  }

  // The memory, the free pages, the address spaces, the pages of vmm_container_t, and
  // the page frames [lo, hi) that the allocator manages
  datatype State = State(mem: Mem, free: set<nat>, spaces: map<nat, Space>, containers: set<nat>, lo: nat, hi: nat)
  {
    predicate Managed(f: nat) { lo <= f < hi }

    predicate Mapped(i: nat, v: nat, f: nat) { i in spaces && Maps(mem, spaces[i], v, f) }

    // No free page, no container and no table
    predicate Loose(f: nat) {
      f !in free && f !in containers && forall i :: i in spaces ==> f !in spaces[i].tree.Values
    }

    // A frame that can be mapped: nobody uses it, or the allocator does not manage it
    ghost predicate Fresh(f: nat) {
      Managed(f) ==> Loose(f) && forall j, w :: !Mapped(j, w, f)
    }

    // The root of space `j` shares the slots `shared` of space `k`
    ghost predicate Shared(j: nat, k: nat, shared: set<nat>) {
      && j in spaces && k in spaces && j != k && shared <= spaces[k].slots && shared !! spaces[j].slots
      && P3 in spaces[j].tree && AllShared(mem, spaces[j].tree[P3], spaces[k].tree, shared)
    }

    // Space `k`, and the root of space `j` that shares slots with it
    function Pair(j: nat, k: nat, shared: set<nat>): Copy
      requires j in spaces && k in spaces && P3 in spaces[j].tree
    {
      Copy(mem, spaces[k].slots, spaces[k].tree, spaces[j].tree[P3], shared)
    }
  }

  // Tables, containers and free pages are disjoint
  ghost predicate Disjoint(s: State) {
    && s.containers !! s.free
    && (forall i :: i in s.spaces ==> Shape(s.mem, s.spaces[i].slots, s.spaces[i].tree))
    && (forall i :: i in s.spaces ==> s.spaces[i].tree.Values !! s.free && s.spaces[i].tree.Values !! s.containers)
    && (forall i, j :: i in s.spaces && j in s.spaces && i != j ==>
          s.spaces[i].tree.Values !! s.spaces[j].tree.Values)
  }

  // A managed frame that some page maps is loose, and no other page maps it
  ghost predicate Exclusive(s: State) {
    && (forall i, v, f :: s.Mapped(i, v, f) && s.Managed(f) ==> s.Loose(f))
    && (forall i, v, j, w, f :: s.Mapped(i, v, f) && s.Mapped(j, w, f) && s.Managed(f) ==> i == j && v == w)
  }

  /** Every managed frame has at most one user: it is free, or a table of one
      space, or a container, or mapped by one page of one space. */
  ghost predicate Owned(s: State) {
    Disjoint(s) && Exclusive(s)
  }

  // `s'` differs from `s` by what an operation on space `i` may do: its tables grow by free pages
  // and change, its root only where a new table is linked
  ghost predicate Step(s: State, s': State, i: nat) {
    && i in s.spaces && s'.spaces.Keys == s.spaces.Keys && s'.spaces == s.spaces[i := s'.spaces[i]]
    && s'.spaces[i].slots == s.spaces[i].slots && s'.containers == s.containers && s'.lo == s.lo && s'.hi == s.hi
    && Shape(s'.mem, s.spaces[i].slots, s'.spaces[i].tree) && Agrees(s.mem, s'.mem, s'.spaces[i].tree.Values)
    && Extends(s.spaces[i].tree, s'.spaces[i].tree)
    && RootSame(s.mem, s'.mem, s.spaces[i].tree, s'.spaces[i].tree)
    && SameLinks(s.mem, s.spaces[i].tree, s'.mem, s'.spaces[i].tree)
    && s'.spaces[i].tree.Values <= s.spaces[i].tree.Values + s.free
  }

  /** No link in the tables of any space takes a right away, so that a page has the rights of its descriptor. */
  ghost predicate Opened(s: State) {
    forall i :: i in s.spaces ==> AllOpen(s.mem, s.spaces[i].tree)
  }

  lemma ShapeFrame(m: Mem, m': Mem, slots: set<nat>, tree: Tree, used: set<nat>)
    requires Shape(m, slots, tree) && Agrees(m, m', used) && tree.Values !! used
    ensures Shape(m', slots, tree)
    ensures forall v :: Leaf(m', tree, v) == Leaf(m, tree, v)
    ensures AllOpen(m, tree) ==> AllOpen(m', tree)
  {
    forall p | p in tree ensures tree[p] in m' && m'[tree[p]] == m[tree[p]] {
      assert tree[p] in tree.Values;
    }
    forall p | p in tree && !p.P3? ensures Hangs(m', slots, tree, p) {
      assert Hangs(m, slots, tree, p);
    }
  }

  // The other spaces do not notice
  lemma OthersKeep(s: State, s': State, i: nat, j: nat)
    requires Disjoint(s) && Step(s, s', i) && j in s.spaces && j != i
    ensures Shape(s'.mem, s.spaces[j].slots, s.spaces[j].tree)
    ensures forall v, f :: s'.Mapped(j, v, f) <==> s.Mapped(j, v, f)
  {
    hide Shape;
    ShapeFrame(s.mem, s'.mem, s.spaces[j].slots, s.spaces[j].tree, s'.spaces[i].tree.Values);
  }

  /** Every operation on a space keeps the links of all spaces open. */
  lemma StepOpened(s: State, s': State, i: nat)
    requires Disjoint(s) && Step(s, s', i) && Opened(s)
    ensures Opened(s')
  {
    hide Shape, AllOpen, SameLinks;
    forall j | j in s'.spaces ensures AllOpen(s'.mem, s'.spaces[j].tree) {
      if j == i {
        AllOpenKept(s.mem, s.spaces[i].tree, s'.mem, s'.spaces[i].tree);
      } else {
        ShapeFrame(s.mem, s'.mem, s.spaces[j].slots, s.spaces[j].tree, s'.spaces[i].tree.Values);
      }
    }
  }

  // A page of an open space is translated to its descriptor
  lemma OpenTranslates(s: State, i: nat, v: nat)
    requires Disjoint(s) && Opened(s) && i in s.spaces && Index(v, 3) in s.spaces[i].slots
    ensures P3 in s.spaces[i].tree
    ensures Translate(s.mem, s.spaces[i].tree[P3], v) == Leaf(s.mem, s.spaces[i].tree, v)
  {
    hide Shape, AllOpen, Index, Leaf, Translate, Through, OpenWay;
    var tree := s.spaces[i].tree;
    AllTables(s.mem, s.spaces[i].slots, tree, P3);
    TranslateIsLeaf(s.mem, s.spaces[i].slots, tree, v);
    AllOpenWay(s.mem, tree, v);
    OpenThrough(s.mem, tree, v, Leaf(s.mem, tree, v));
  }

  lemma OpenWays(s: State, i: nat)
    requires Opened(s) && i in s.spaces
    ensures forall v: nat :: OpenWay(s.mem, s.spaces[i].tree, v)
  {
    hide AllOpen, OpenWay;
    forall v: nat ensures OpenWay(s.mem, s.spaces[i].tree, v) {
      AllOpenWay(s.mem, s.spaces[i].tree, v);
    }
  }

  // ---------- mapping

  // The pages of the range now map consecutive frames, if `ok`; all others are as before
  ghost predicate MapEffect(s: State, s': State, i: nat, va: u64, sz: u64, pf: nat, ok: bool) {
    forall w: nat, f :: s'.Mapped(i, w, f) <==>
      if ok && InRange(w, va, sz) then Canonical(w) && f == pf + (w - va / PAGE_SIZE) else s.Mapped(i, w, f)
  }

  /** Mapping frames that nobody uses, with tables off the free list, keeps single ownership. */
  lemma MapKeeps(s: State, s': State, i: nat, va: u64, sz: u64, pf: nat, ok: bool)
    requires Owned(s) && Step(s, s', i) && s'.free <= s.free && MapEffect(s, s', i, va, sz, pf, ok)
    requires s'.spaces[i].tree.Values == s.spaces[i].tree.Values + (s.free - s'.free)
    requires ok ==> forall w: nat :: InRange(w, va, sz) ==> s.Fresh(pf + (w - va / PAGE_SIZE))
    ensures Owned(s')
  {
    hide Shape, LastPage, Maps, SameLinks, RootSame, Agrees, Extends, Disjoint, State.Mapped;
    MapDisjoint(s, s', i);
    forall j, w, f | s'.Mapped(j, w, f) && s'.Managed(f)
      ensures s.Mapped(j, w, f) || (j == i && NewHere(s, va, sz, pf, ok, w, f))
    {
      MapSource(s, s', i, va, sz, pf, ok, j, w, f);
    }
  }

  // What is mapped afterwards was mapped before or is new
  lemma MapSource(s: State, s': State, i: nat, va: u64, sz: u64, pf: nat, ok: bool, j: nat, w: nat, f: nat)
    requires Owned(s) && Step(s, s', i) && MapEffect(s, s', i, va, sz, pf, ok)
    requires ok ==> forall w: nat :: InRange(w, va, sz) ==> s.Fresh(pf + (w - va / PAGE_SIZE))
    requires s'.Mapped(j, w, f) && s'.Managed(f)
    ensures s.Mapped(j, w, f) || (j == i && NewHere(s, va, sz, pf, ok, w, f))
  {
    hide Shape, LastPage, Maps, SameLinks, RootSame, Agrees, Extends, Exclusive;
    if j != i { OthersKeep(s, s', i, j); }
  }

  // Page `w` of the range maps `f`, which nobody used
  ghost predicate NewHere(s: State, va: u64, sz: u64, pf: nat, ok: bool, w: nat, f: nat) {
    ok && InRange(w, va, sz) && f == pf + (w - va / PAGE_SIZE) && s.Loose(f) && forall j, v :: !s.Mapped(j, v, f)
  }

  lemma MapDisjoint(s: State, s': State, i: nat)
    requires Disjoint(s) && Step(s, s', i) && s'.free <= s.free
    requires s'.spaces[i].tree.Values == s.spaces[i].tree.Values + (s.free - s'.free)
    ensures Disjoint(s')
    ensures forall f :: s.Loose(f) ==> s'.Loose(f)
  {
    hide Shape, State.Mapped, SameLinks, RootSame, AllOpen;
    forall j | j in s.spaces && j != i
      ensures Shape(s'.mem, s'.spaces[j].slots, s'.spaces[j].tree)
      ensures s'.spaces[j].tree.Values !! s'.spaces[i].tree.Values
    {
      OthersKeep(s, s', i, j);
    }
  }

  // ---------- unmapping

  // The pages of the range are unmapped; all others are as before
  ghost predicate UnmapEffect(s: State, s': State, i: nat, va: u64, sz: u64) {
    forall w: nat, f :: s'.Mapped(i, w, f) <==> !InRange(w, va, sz) && s.Mapped(i, w, f)
  }

  // An operation that unmaps pages of space `i` and frees `gone`, which nobody uses any more
  lemma UnmapKeeps(s: State, s': State, i: nat, va: u64, sz: u64, gone: set<nat>)
    requires Owned(s) && Step(s, s', i) && s'.free == s.free + gone && s'.spaces == s.spaces
    requires UnmapEffect(s, s', i, va, sz)
    requires forall f :: f in gone ==> f in s.free || (s.Loose(f) && forall j, w :: !s'.Mapped(j, w, f))
    ensures Owned(s')
  {
    hide Shape, Maps, LastPage;
    forall j, w, f | s'.Mapped(j, w, f) ensures s.Mapped(j, w, f) {
      if j != i { OthersKeep(s, s', i, j); }
    }
    forall j | j in s.spaces && j != i ensures Shape(s'.mem, s'.spaces[j].slots, s'.spaces[j].tree) {
      OthersKeep(s, s', i, j);
    }
  }

  // Every descriptor of the range that is not present names a free page, or a frame
  // that no table or container is and that no page outside the range maps
  ghost predicate StaleHarmless(s: State, i: nat, va: u64, sz: u64)
    requires i in s.spaces
  {
    forall v: nat :: InRange(v, va, sz) ==>
      var d := Desc(s.mem, s.spaces[i].tree, v);
      d.Some? && !d.value.present ==> d.value.frame in s.free || UnusedBut(s, i, va, sz, d.value.frame)
  }

  ghost predicate UnusedBut(s: State, i: nat, va: u64, sz: u64, f: nat) {
    s.Loose(f) && forall j, w: nat :: s.Mapped(j, w, f) ==> j == i && InRange(w, va, sz)
  }

  /** unmappages frees the frame of every descriptor in the range, present or not.  That keeps
      single ownership exactly when the descriptors that are not present are harmless. */
  lemma UnmapExact(s: State, s': State, i: nat, va: u64, sz: u64)
    requires Owned(s) && Step(s, s', i) && s'.spaces == s.spaces && UnmapEffect(s, s', i, va, sz)
    requires var named := Named(s.mem, s.spaces[i].tree, va / PAGE_SIZE, LastPage(va, sz) + 1);
      s'.free == s.free + named && forall f :: f in named ==> s.Managed(f)
    requires forall w: nat :: InRange(w, va, sz) ==> Canonical(w)
    ensures Owned(s') <==> StaleHarmless(s, i, va, sz)
  {
    hide Shape, LastPage, Maps;
    if StaleHarmless(s, i, va, sz) {
      var named := Named(s.mem, s.spaces[i].tree, va / PAGE_SIZE, LastPage(va, sz) + 1);
      forall f | f in named ensures f in s.free || (s.Loose(f) && forall j, w :: !s'.Mapped(j, w, f)) {
        FreedUnused(s, s', i, va, sz, f);
      }
      UnmapKeeps(s, s', i, va, sz, named);
    }
    if Owned(s') {
      forall v: nat | InRange(v, va, sz) && Desc(s.mem, s.spaces[i].tree, v).Some?
        ensures var f := Desc(s.mem, s.spaces[i].tree, v).value.frame; f in s.free || UnusedBut(s, i, va, sz, f)
      {
        StaleUnused(s, s', i, va, sz, v);
      }
    }
  }

  // A frame that was named in the range is used by nobody afterwards
  lemma FreedUnused(s: State, s': State, i: nat, va: u64, sz: u64, f: nat)
    requires Owned(s) && Step(s, s', i) && s'.spaces == s.spaces && UnmapEffect(s, s', i, va, sz)
    requires StaleHarmless(s, i, va, sz) && s.Managed(f) && forall w: nat :: InRange(w, va, sz) ==> Canonical(w)
    requires f in Named(s.mem, s.spaces[i].tree, va / PAGE_SIZE, LastPage(va, sz) + 1)
    ensures f in s.free || (s.Loose(f) && forall j, w :: !s'.Mapped(j, w, f))
  {
    hide Shape, LastPage, Desc;
    var v :| va / PAGE_SIZE <= v < LastPage(va, sz) + 1 && Desc(s.mem, s.spaces[i].tree, v).Some?
      && Desc(s.mem, s.spaces[i].tree, v).value.frame == f;
    assert InRange(v, va, sz);
    assert Desc(s.mem, s.spaces[i].tree, v).value.present ==> s.Mapped(i, v, f);
    forall j, w | f !in s.free ensures !s'.Mapped(j, w, f) {
      if j in s.spaces && j != i { OthersKeep(s, s', i, j); }
      assert UnusedBut(s, i, va, sz, f) || s.Mapped(i, v, f);
    }
  }

  lemma StaleUnused(s: State, s': State, i: nat, va: u64, sz: u64, v: nat)
    requires Owned(s) && Owned(s') && Step(s, s', i) && s'.spaces == s.spaces && UnmapEffect(s, s', i, va, sz)
    requires InRange(v, va, sz) && Desc(s.mem, s.spaces[i].tree, v).Some?
    requires var f := Desc(s.mem, s.spaces[i].tree, v).value.frame; f in s'.free && s.Managed(f)
    ensures var d := Desc(s.mem, s.spaces[i].tree, v).value;
      d.frame in s.free || UnusedBut(s, i, va, sz, d.frame)
  {
    hide Shape, LastPage, Desc, Maps;
    var f := Desc(s.mem, s.spaces[i].tree, v).value.frame;
    forall j, w: nat | s.Mapped(j, w, f) ensures j == i && InRange(w, va, sz) {
      if j != i { OthersKeep(s, s', i, j); }
      assert !s'.Mapped(j, w, f);
    }
  }

  // ---------- taking pages

  // kalloc alone
  lemma TakeKeeps(s: State, page: nat)
    requires Owned(s) && page in s.free && s.Managed(page)
    ensures var s' := s.(free := s.free - {page});
      Owned(s') && s'.Loose(page) && forall j, w :: !s'.Mapped(j, w, page)
  {
    hide Shape, Maps;
    var s' := s.(free := s.free - {page});
    forall f | s.Loose(f) ensures s'.Loose(f) {}
    forall j, w, f | s'.Mapped(j, w, f) ensures s.Mapped(j, w, f) {}
    forall j, w ensures !s'.Mapped(j, w, page) {
      assert s.Mapped(j, w, page) ==> s.Loose(page);
    }
  }

  lemma ContainerKeeps(s: State, page: nat)
    requires Owned(s) && s.Loose(page) && forall j, w :: !s.Mapped(j, w, page)
    ensures Owned(s.(containers := s.containers + {page}))
  {
    hide Shape, Maps;
    var s' := s.(containers := s.containers + {page});
    forall j, w, f | s'.Mapped(j, w, f) ensures s.Mapped(j, w, f) && f != page {}
  }

  // Whether a page can serve as the root of an empty address space
  predicate Blank(m: Mem, slots: set<nat>, page: nat) {
    IsTable(m, page) && forall i :: 0 <= i < ENTRIES && i in slots ==> !m[page][i].present
  }

  /** A single page is a tree of tables exactly when its entries in use are not present. */
  lemma RootAlone(m: Mem, slots: set<nat>, page: nat)
    ensures Shape(m, slots, map[P3 := page]) <==> Blank(m, slots, page)
    ensures Blank(m, slots, page) ==> forall v :: Index(v, 3) in slots ==> Translate(m, page, v).None?
  {
  }

  lemma RootValues(page: nat)
    ensures map[P3 := page].Values == {page}
  {
    var t: Tree := map[P3 := page];
    assert t[P3] in t.Values;
  }

  lemma SpaceKeeps(s: State, i: nat, slots: set<nat>, page: nat)
    requires Owned(s) && i !in s.spaces && s.Loose(page) && s.Fresh(page) && Blank(s.mem, slots, page)
    ensures Owned(s.(spaces := s.spaces[i := Space(slots, map[P3 := page])]))
  {
    hide Shape;
    var s' := s.(spaces := s.spaces[i := Space(slots, map[P3 := page])]);
    RootAlone(s.mem, slots, page);
    RootValues(page);
    forall w ensures Leaf(s.mem, s'.spaces[i].tree, w).None? {
      assert LeafPos(w) !in s'.spaces[i].tree;
    }
    forall j, w, f | s'.Mapped(j, w, f) ensures s.Mapped(j, w, f) && (s.Managed(f) ==> f != page) {}
    forall f | s.Loose(f) && f != page ensures s'.Loose(f) {}
  }

  // ---------- shared slots

  // Every sharing lasts, unless the operation on space `i` fills a slot below `tops` that
  // another space shares and that was empty
  ghost predicate KeepsSharing(s: State, s': State, i: nat, tops: set<nat>) {
    forall j, k, shared :: s.Shared(j, k, shared) && Filled(s, i, k, tops * shared) ==> s'.Shared(j, k, shared)
  }

  // If space `i` is `k`, the slots `tops` of `k` are filled
  ghost predicate Filled(s: State, i: nat, k: nat, tops: set<nat>) {
    i == k && k in s.spaces ==> forall t :: t in tops ==> P2(t) in s.spaces[k].tree
  }

  // New tables right below the root are in the slots `tops`
  ghost predicate NewTops(t: Tree, t': Tree, tops: set<nat>) {
    forall i :: P2(i) in t' && P2(i) !in t ==> i in tops
  }

  lemma BelowTops(t: Tree, t': Tree, tops: set<nat>)
    requires NewBelow(t, t', tops)
    ensures NewTops(t, t', tops)
  {
  }

  lemma InSlots(m: Mem, slots: set<nat>, tree: Tree)
    requires Shape(m, slots, tree)
    ensures forall t :: P2(t) in tree ==> t in slots
  {
    forall t | P2(t) in tree ensures t in slots {
      assert Hangs(m, slots, tree, P2(t));
    }
  }

  lemma SharedKept(s: State, s': State, i: nat, tops: set<nat>, j: nat, k: nat, shared: set<nat>)
    requires Disjoint(s) && Step(s, s', i) && NewTops(s.spaces[i].tree, s'.spaces[i].tree, tops)
    requires s.Shared(j, k, shared) && Filled(s, i, k, tops * shared)
    ensures s'.Shared(j, k, shared)
  {
    hide Shape, Links;
    InSlots(s'.mem, s.spaces[i].slots, s'.spaces[i].tree);
    var root := s.spaces[j].tree[P3];
    assert root in s.spaces[j].tree.Values;
    assert i != j ==> root !in s'.spaces[i].tree.Values;
    assert forall t :: t in shared ==> (P2(t) in s'.spaces[k].tree <==> P2(t) in s.spaces[k].tree);
    assert forall t :: t in shared ==> Shares(s.mem, root, s.spaces[k].tree, t);
    assert forall t :: t in shared ==> s'.mem[root][t] == s.mem[root][t];
    forall t | t in shared ensures Shares(s'.mem, root, s'.spaces[k].tree, t) {
      assert Shares(s.mem, root, s.spaces[k].tree, t);
    }
  }

  /** An operation through the root of space `i` keeps every sharing, but for slots it fills. */
  lemma StepKeepsSharing(s: State, s': State, i: nat, tops: set<nat>)
    requires Disjoint(s) && Step(s, s', i) && NewTops(s.spaces[i].tree, s'.spaces[i].tree, tops)
    ensures KeepsSharing(s, s', i, tops)
  {
    hide Shape, AllShared;
    forall j, k, shared | s.Shared(j, k, shared) && Filled(s, i, k, tops * shared) ensures s'.Shared(j, k, shared) {
      SharedKept(s, s', i, tops, j, k, shared);
    }
  }

  // Every sharing lasts exactly if the slots below `tops` that it covers were filled, for the space operated on
  ghost predicate SharingExact(s: State, s': State, i: nat, tops: set<nat>) {
    forall j, k, shared :: s.Shared(j, k, shared) ==> (s'.Shared(j, k, shared) <==> Filled(s, i, k, tops * shared))
  }

  /** When the slots `tops` have tables after an operation, exactly the sharings of slots among them that were
      empty are lost. */
  lemma StepSharingExact(s: State, s': State, i: nat, tops: set<nat>)
    requires Disjoint(s) && Step(s, s', i) && NewTops(s.spaces[i].tree, s'.spaces[i].tree, tops)
    requires forall t :: t in tops ==> P2(t) in s'.spaces[i].tree
    ensures SharingExact(s, s', i, tops)
  {
    hide Shape, AllShared;
    forall j, k, shared | s.Shared(j, k, shared)
      ensures s'.Shared(j, k, shared) <==> Filled(s, i, k, tops * shared)
    {
      if Filled(s, i, k, tops * shared) {
        SharedKept(s, s', i, tops, j, k, shared);
      } else {
        var t :| t in tops * shared && P2(t) !in s.spaces[k].tree;
        SharedLost(s, s', j, k, shared, t);
      }
    }
  }

  // A slot that was empty when copied and is filled is not shared any more
  lemma SharedLost(s: State, s': State, j: nat, k: nat, shared: set<nat>, t: nat)
    requires Disjoint(s) && Step(s, s', k) && s.Shared(j, k, shared) && t in shared
    requires P2(t) !in s.spaces[k].tree && P2(t) in s'.spaces[k].tree
    ensures !s'.Shared(j, k, shared)
  {
    hide SameLinks;
    var root := s.spaces[j].tree[P3];
    assert root in s.spaces[j].tree.Values && root !in s'.spaces[k].tree.Values;
    assert Shares(s.mem, root, s.spaces[k].tree, t);
    assert Hangs(s'.mem, s.spaces[k].slots, s'.spaces[k].tree, P2(t));
    assert s'.mem[root][t] == s.mem[root][t] && !Shares(s'.mem, root, s'.spaces[k].tree, t);
  }

  // The slots of pages that have descriptors are filled
  lemma TopsFilled(m: Mem, slots: set<nat>, tree: Tree, lo: nat, hi: nat)
    requires Shape(m, slots, tree) && forall w: nat :: lo <= w < hi ==> Desc(m, tree, w).Some?
    ensures forall t :: t in Tops(lo, hi) ==> P2(t) in tree
  {
    hide Shape, Index;
    forall t | t in Tops(lo, hi) ensures P2(t) in tree {
      var w: nat :| lo <= w < hi && Index(w, 3) == t;
      assert Desc(m, tree, w).Some?;
      NotBelow(m, slots, tree, w);
    }
  }

  // Below a shared slot both roots see the descriptors of the space
  lemma SharedSeen(s: State, j: nat, k: nat, shared: set<nat>)
    requires Disjoint(s) && Opened(s) && s.Shared(j, k, shared)
    ensures P3 in s.spaces[j].tree && P3 in s.spaces[k].tree
    ensures forall v: nat :: Index(v, 3) in shared ==>
      && Translate(s.mem, s.spaces[j].tree[P3], v) == Leaf(s.mem, s.spaces[k].tree, v)
      && Translate(s.mem, s.spaces[k].tree[P3], v) == Leaf(s.mem, s.spaces[k].tree, v)
  {
    hide Shape, Opened, Index, Leaf, Translate, AllShared;
    Roots(s, j, k);
    forall v: nat | Index(v, 3) in shared
      ensures Translate(s.mem, s.spaces[j].tree[P3], v) == Leaf(s.mem, s.spaces[k].tree, v)
      ensures Translate(s.mem, s.spaces[k].tree[P3], v) == Leaf(s.mem, s.spaces[k].tree, v)
    {
      OpenTranslates(s, k, v);
      SharedAlike(s, j, k, shared, v);
    }
  }

  /** Spaces that share a slot translate every page below it alike. */
  lemma SharedAlike(s: State, j: nat, k: nat, shared: set<nat>, v: nat)
    requires Disjoint(s) && s.Shared(j, k, shared) && Index(v, 3) in shared
    ensures Translate(s.mem, s.spaces[j].tree[P3], v) == Translate(s.mem, s.spaces[k].tree[P3], v)
  {
    SharedTranslates(s.mem, s.spaces[k].slots, s.spaces[k].tree, s.spaces[j].tree[P3], v);
  }

  lemma PairOk(s: State, j: nat, k: nat, shared: set<nat>)
    requires Disjoint(s) && s.Shared(j, k, shared)
    ensures s.Pair(j, k, shared).Ok() && s.Pair(j, k, shared).Via().Values !! s.free
    ensures (s.spaces[k].tree.Values + {s.spaces[j].tree[P3]}) !! s.free
  {
    assert s.spaces[j].tree[P3] in s.spaces[j].tree.Values;
    ViaValues(s.Pair(j, k, shared));
  }

  // A change through the root of space `j` below slots shared with space `k` is a step of space `k`
  lemma ViaStep(s: State, s': State, j: nat, k: nat, shared: set<nat>, via: Tree)
    requires Disjoint(s) && s.Shared(j, k, shared) && s.Pair(j, k, shared).Change(s'.mem, via)
    requires s' == s.(mem := s'.mem, free := s'.free,
                      spaces := s.spaces[k := Space(s.spaces[k].slots, s.Pair(j, k, shared).Merged(via))])
    requires s.Pair(j, k, shared).Merged(via).Values <= s.spaces[k].tree.Values + s.free
    ensures Step(s, s', k) && s'.Shared(j, k, shared)
    ensures NewTops(s.spaces[k].tree, s'.spaces[k].tree, {})
  {
    hide Shape, RootSame, Agrees, Extends, Copy.Merged, Copy.Via, Copy.Change, Copy.Ok, Links;
    var c := s.Pair(j, k, shared);
    MergedFrame(c, s'.mem, via);
    MergedNew(c, s'.mem, via);
  }

  lemma MergedNew(c: Copy, m: Mem, via: Tree)
    requires c.Change(m, via)
    ensures Shape(m, c.slots, c.Merged(via)) && AllShared(m, c.root, c.Merged(via), c.shared)
    ensures NewTops(c.tree, c.Merged(via), {})
  {
    UserChange(c, m, via);
    forall i | P2(i) in c.Merged(via) ensures P2(i) in c.tree {
      assert P2(i) in via ==> P2(i) in c.Via();
    }
  }

  lemma FilledTops(tree: Tree, lo: nat, hi: nat)
    requires forall w: nat :: lo <= w < hi ==> P2(Index(w, 3)) in tree
    ensures forall t :: t in Tops(lo, hi) ==> P2(t) in tree
  {
  }

  // What mappages through the copied root does to the pages of the space itself
  lemma ViaMapped(c: Copy, b: View, va: u64, sz: u64, d: nat -> Entry, ok: bool)
    requires c.Change(b.mem, b.tree) && Inside(c.shared, va, sz)
    requires ok ==> forall w: nat :: InRange(w, va, sz) ==> Desc(b.mem, b.tree, w) == Some(d(w))
    requires forall w: nat :: Canonical(w) && !InRange(w, va, sz) ==> Kept(c.mem, c.Via(), b.mem, b.tree, w)
    requires !ok ==> forall w: nat :: Canonical(w) ==> Leaf(b.mem, b.tree, w) == Leaf(c.mem, c.Via(), w)
    ensures ok ==> forall w: nat :: InRange(w, va, sz) ==> Desc(b.mem, c.Merged(b.tree), w) == Some(d(w))
    ensures forall w: nat :: Canonical(w) && !(ok && InRange(w, va, sz)) ==>
      Leaf(b.mem, c.Merged(b.tree), w) == Leaf(c.mem, c.tree, w)
  {
    hide Desc, Index, Canonical, LastPage, Copy.Change, Copy.Merged, Copy.Via;
    forall w: nat | ok && InRange(w, va, sz) ensures Desc(b.mem, c.Merged(b.tree), w) == Some(d(w)) {
      MergedDesc(c, b.mem, b.tree, w);
    }
    forall w: nat | Canonical(w) && !(ok && InRange(w, va, sz))
      ensures Leaf(b.mem, c.Merged(b.tree), w) == Leaf(c.mem, c.tree, w)
    {
      MergedDesc(c, b.mem, b.tree, w);
      if ok { KeptLeaf(c.mem, c.Via(), b.mem, b.tree, w); }
    }
  }

  // mappages through the copied root is a step of the space itself
  lemma ViaGrew(s: State, s': State, j: nat, k: nat, shared: set<nat>, via: Tree, va: u64, sz: u64)
    requires Disjoint(s) && s.Shared(j, k, shared) && Shape(s'.mem, shared, via)
    requires Grew(View(s.mem, s.Pair(j, k, shared).Via(), s.free), View(s'.mem, via, s'.free),
                  Tops(va / PAGE_SIZE, LastPage(va, sz) + 1))
    requires forall w: nat :: InRange(w, va, sz) ==> P2(Index(w, 3)) in s.spaces[k].tree
    requires s' == s.(mem := s'.mem, free := s'.free,
                      spaces := s.spaces[k := Space(s.spaces[k].slots, s.Pair(j, k, shared).Merged(via))])
    ensures s.Pair(j, k, shared).Change(s'.mem, via) && Step(s, s', k) && KeepsSharing(s, s', k, {})
    ensures s'.free <= s.free && s'.spaces[k].tree.Values == s.spaces[k].tree.Values + (s.free - s'.free)
  {
    hide Shape, LastPage, AllShared, Extends, RootSame, Agrees, NewBelow, NewTops, Index, Tops,
      Copy.Via, Copy.Merged, Copy.Change, Copy.Ok, Step;
    PairOk(s, j, k, shared);
    FilledTops(s.spaces[k].tree, va / PAGE_SIZE, LastPage(va, sz) + 1);
    GrownIsChange(s.Pair(j, k, shared), s.free, View(s'.mem, via, s'.free), Tops(va / PAGE_SIZE, LastPage(va, sz) + 1));
    ViaStep(s, s', j, k, shared, via);
    StepKeepsSharing(s, s', k, {});
  }

  lemma ViaMapKeeps(s: State, s': State, j: nat, k: nat, shared: set<nat>, via: Tree,
                    va: u64, sz: u64, pf: nat, flags: Flags, nx: bool, ok: bool)
    requires Owned(s) && s.Shared(j, k, shared) && Inside(shared, va, sz)
    requires s' == s.(mem := s'.mem, free := s'.free,
                      spaces := s.spaces[k := Space(s.spaces[k].slots, s.Pair(j, k, shared).Merged(via))])
    requires s.Pair(j, k, shared).Change(s'.mem, via) && Step(s, s', k)
    requires s'.free <= s.free && s'.spaces[k].tree.Values == s.spaces[k].tree.Values + (s.free - s'.free)
    requires forall w: nat :: InRange(w, va, sz) ==> s.Fresh(pf + (w - va / PAGE_SIZE))
    requires ok ==> forall w: nat :: InRange(w, va, sz) ==>
      Desc(s'.mem, via, w) == Some(Descriptor(pf + (w - va / PAGE_SIZE), flags, nx))
    requires forall w: nat :: Canonical(w) && !InRange(w, va, sz) ==>
      Kept(s.mem, s.Pair(j, k, shared).Via(), s'.mem, via, w)
    requires !ok ==> forall w: nat :: Canonical(w) ==>
      Leaf(s'.mem, via, w) == Leaf(s.mem, s.Pair(j, k, shared).Via(), w)
    ensures Owned(s') && MapEffect(s, s', k, va, sz, pf, ok)
    ensures ok ==> forall w: nat :: InRange(w, va, sz) ==>
      Desc(s'.mem, s'.spaces[k].tree, w) == Some(Descriptor(pf + (w - va / PAGE_SIZE), flags, nx))
    ensures forall w: nat :: Canonical(w) && !(ok && InRange(w, va, sz)) ==>
      Leaf(s'.mem, s'.spaces[k].tree, w) == Leaf(s.mem, s.spaces[k].tree, w)
  {
    hide Shape, Desc, Leaf, Kept, Index, Canonical, LastPage, Descriptor, Disjoint, Exclusive, AllShared,
      Copy.Via, Copy.Merged, Copy.Change, Step, MapEffect;
    var d := (w: nat) => Descriptor(if w < va / PAGE_SIZE then 0 else pf + (w - va / PAGE_SIZE), flags, nx);
    ViaMapped(s.Pair(j, k, shared), View(s'.mem, via, s'.free), va, sz, d, ok);
    MapEffectOf(s, s', k, va, sz, pf, flags, nx, ok);
    MapKeeps(s, s', k, va, sz, pf, ok);
  }

  // What both roots see of the pages mapped through one of them
  lemma MapSeen(s: State, s': State, j: nat, k: nat, shared: set<nat>,
                va: u64, sz: u64, pf: nat, flags: Flags, nx: bool, ok: bool)
    requires Disjoint(s) && Opened(s) && s.Shared(j, k, shared) && Disjoint(s') && Opened(s') && s'.Shared(j, k, shared)
    requires Inside(shared, va, sz) && s'.spaces[j] == s.spaces[j]
    requires ok ==> forall w: nat :: InRange(w, va, sz) ==>
      Desc(s'.mem, s'.spaces[k].tree, w) == Some(Descriptor(pf + (w - va / PAGE_SIZE), flags, nx))
    requires forall w: nat :: Canonical(w) && !(ok && InRange(w, va, sz)) ==>
      Leaf(s'.mem, s'.spaces[k].tree, w) == Leaf(s.mem, s.spaces[k].tree, w)
    ensures P3 in s.spaces[j].tree && P3 in s'.spaces[k].tree
    ensures ok ==> forall w: nat :: InRange(w, va, sz) ==>
      var f := pf + (w - va / PAGE_SIZE);
      var e := Some(Entry(true, flags.write, flags.user, false, nx && !flags.exec, f));
      Translate(s'.mem, s.spaces[j].tree[P3], w) == e && Translate(s'.mem, s'.spaces[k].tree[P3], w) == e
    ensures forall w: nat :: Canonical(w) && Index(w, 3) in shared && !(ok && InRange(w, va, sz)) ==>
      Translate(s'.mem, s.spaces[j].tree[P3], w) == Translate(s.mem, s.spaces[j].tree[P3], w)
  {
    hide Shape, Desc, Index, Canonical, LastPage, Disjoint, Opened, Translate, AllShared;
    SharedSeen(s, j, k, shared);
    SharedSeen(s', j, k, shared);
  }

  // Writes through the copied root are writes to the pages of the space itself
  lemma ViaStored(c: Copy, m: Mem)
    requires c.Change(m, c.Via()) && c.Merged(c.Via()) == c.tree
    ensures forall v: nat :: Index(v, 3) in c.shared ==>
      Desc(m, c.tree, v) == Desc(m, c.Via(), v) && Desc(c.mem, c.tree, v) == Desc(c.mem, c.Via(), v)
    ensures forall v: nat :: Index(v, 3) !in c.shared ==> Desc(m, c.tree, v) == Desc(c.mem, c.tree, v)
  {
    hide Desc, Index, Copy.Change, Copy.Merged, Copy.Via;
    forall v: nat ensures
      if Index(v, 3) in c.shared
      then Desc(m, c.tree, v) == Desc(m, c.Via(), v) && Desc(c.mem, c.tree, v) == Desc(c.mem, c.Via(), v)
      else Desc(m, c.tree, v) == Desc(c.mem, c.tree, v)
    {
      MergedDesc(c, m, c.Via(), v);
    }
  }

  lemma SameNamed(m: Mem, t: Tree, t': Tree, lo: nat, hi: nat)
    requires forall v: nat :: lo <= v < hi ==> Desc(m, t, v) == Desc(m, t', v)
    ensures Named(m, t, lo, hi) == Named(m, t', lo, hi)
  {
  }

  // Rewriting entries of a root outside its own slots
  lemma RootRewritten(m: Mem, m': Mem, slots: set<nat>, tree: Tree)
    requires Shape(m, slots, tree) && IsTable(m', tree[P3]) && m' == m[tree[P3] := m'[tree[P3]]]
    requires forall i :: 0 <= i < ENTRIES && i in slots ==> m'[tree[P3]][i] == m[tree[P3]][i]
    ensures Shape(m', slots, tree) && forall v :: Leaf(m', tree, v) == Leaf(m, tree, v)
    ensures AllOpen(m, tree) ==> AllOpen(m', tree)
  {
    forall p | p in tree && !p.P3? ensures Hangs(m', slots, tree, p) && LinkOf(m', tree, p) == LinkOf(m, tree, p) {
      assert Hangs(m, slots, tree, p);
    }
  }

  // ---------- from the descriptors to what is mapped

  lemma MapEffectOf(s: State, s': State, i: nat, va: u64, sz: u64, pf: nat, flags: Flags, nx: bool, ok: bool)
    requires i in s.spaces && i in s'.spaces && forall w: nat :: InRange(w, va, sz) ==> Canonical(w)
    requires ok ==> forall w: nat :: InRange(w, va, sz) ==>
      Desc(s'.mem, s'.spaces[i].tree, w) == Some(Descriptor(pf + (w - va / PAGE_SIZE), flags, nx))
    requires forall w: nat :: Canonical(w) && !(ok && InRange(w, va, sz)) ==>
      Leaf(s'.mem, s'.spaces[i].tree, w) == Leaf(s.mem, s.spaces[i].tree, w)
    ensures MapEffect(s, s', i, va, sz, pf, ok)
  {
    hide Desc, Canonical, LastPage;
  }

  lemma UnmapEffectOf(s: State, s': State, i: nat, va: u64, sz: u64)
    requires i in s.spaces && s'.spaces == s.spaces
    requires forall w: nat :: Canonical(w) ==>
      Desc(s'.mem, s.spaces[i].tree, w) == OffIf(Desc(s.mem, s.spaces[i].tree, w), InRange(w, va, sz))
    ensures UnmapEffect(s, s', i, va, sz)
  {
    hide Desc, Canonical, LastPage;
  }

  lemma OnePage(v: nat)
    requires v + 1 < ALL
    ensures v * PAGE_SIZE < TWO_64 && LastPage(v * PAGE_SIZE, PAGE_SIZE) == v == v * PAGE_SIZE / PAGE_SIZE
  {
  }

  lemma PageRange(slots: set<nat>, v: nat, a: View)
    requires Canonical(v) && Index(v, 3) in slots && v + 1 < ALL
    ensures v * PAGE_SIZE < TWO_64 && Inside(slots, v * PAGE_SIZE, PAGE_SIZE)
    ensures LastPage(v * PAGE_SIZE, PAGE_SIZE) == v == v * PAGE_SIZE / PAGE_SIZE
    ensures FailsFirst(a, v * PAGE_SIZE, PAGE_SIZE) <==> Leaf(a.mem, a.tree, v).Some? || Missing(a.tree, v) > |a.free|
  {
    OnePage(v);
  }

  function OffIf(d: Option<Entry>, off: bool): Option<Entry> {
    if off then Off(d) else d
  }

  // What kalloc can return: a free page, or 0 when there is none
  predicate FromFree(page: nat, free: set<nat>) {
    if free == {} then page == 0 else page in free
  }

  class Vm {
    const pager: Pager
    ghost var spaces: map<nat, Space>
    ghost var containers: set<nat>

    constructor (p: Pager)
      requires p.phys.Valid()
      ensures Valid() && pager == p && spaces == map[] && containers == {}
    {
      pager, spaces, containers := p, map[], {};
    }

    ghost function Now(): State
      reads this, pager, pager.phys.list
    {
      var a := pager.phys;
      State(pager.mem, a.Free(), spaces, containers, a.base + a.first, a.base + a.pages)
    }

    ghost predicate Valid()
      reads this, pager, pager.phys.bits, pager.phys.list
    {
      pager.phys.Valid() && Owned(Now()) && Opened(Now())
    }

    lemma SpaceOwned(i: nat)
      requires Valid() && i in spaces
      ensures pager.Owns(spaces[i].slots, spaces[i].tree) && !Now().Managed(0)
    {
    }

    // ---------- through a space's own root

    // mappages (vm.c:153-175) on frames that nobody uses
    method Map(i: nat, root: nat, va: u64, sz: u64, pa: nat, flags: Flags) returns (ok: bool, stuck: bool)
      requires Valid() && i in spaces && root == spaces[i].tree[P3] && Inside(spaces[i].slots, va, sz)
      requires forall w: nat :: InRange(w, va, sz) ==> Now().Fresh(pa / PAGE_SIZE + (w - va / PAGE_SIZE))
      modifies this`spaces, pager`mem, pager.phys.bits, pager.phys.list
      ensures stuck <==> va < PAGE_SIZE && FailsFirst(old(pager.Seen(spaces[i].tree)), va, sz)
      ensures FailsFirst(old(pager.Seen(spaces[i].tree)), va, sz) ==> !ok
      ensures !FailsFirst(old(pager.Seen(spaces[i].tree)), va, sz) && va / PAGE_SIZE == LastPage(va, sz) ==> ok
      ensures Step(old(Now()), Now(), i) && pager.phys.Free() <= old(pager.phys.Free())
      ensures spaces[i].tree.Values == old(spaces)[i].tree.Values + (old(pager.phys.Free()) - pager.phys.Free())
      ensures !stuck ==> Valid() && MapEffect(old(Now()), Now(), i, va, sz, pa / PAGE_SIZE, ok)
      ensures !stuck ==> forall w: nat :: Canonical(w) && !InRange(w, va, sz) ==>
        Kept(old(pager.mem), old(spaces)[i].tree, pager.mem, spaces[i].tree, w)
      ensures ok ==> forall w: nat :: InRange(w, va, sz) ==>
        Desc(pager.mem, spaces[i].tree, w) == Some(Descriptor(pa / PAGE_SIZE + (w - va / PAGE_SIZE), flags, pager.nx))
      // the pages of the range have the rights asked for, and no other page of the space loses or gains any
      ensures ok ==> forall w: nat :: InRange(w, va, sz) ==>
        var f := pa / PAGE_SIZE + (w - va / PAGE_SIZE);
        Translate(pager.mem, root, w) == Some(Entry(true, flags.write, flags.user, false, pager.nx && !flags.exec, f))
      ensures !stuck ==> forall w: nat ::
        Canonical(w) && Index(w, 3) in spaces[i].slots && !(ok && InRange(w, va, sz)) ==>
          Translate(pager.mem, root, w) == Translate(old(pager.mem), root, w)
      ensures KeepsSharing(old(Now()), Now(), i, Tops(va / PAGE_SIZE, LastPage(va, sz) + 1))
      ensures ok ==> SharingExact(old(Now()), Now(), i, Tops(va / PAGE_SIZE, LastPage(va, sz) + 1))
    {
      hide Shape, Desc, Leaf, Kept, Index, Canonical, Allocator.Valid, Disjoint, Exclusive, LastPage, Descriptor, Tops,
        Extends, RootSame, Agrees, NewBelow, NewTops, Missing, Translate, Elsewhere, KeepsSharing, SharingExact,
        MapEffect, State.Fresh, FailsFirst, SameLinks, Through, OpenWay, Opened;
      ghost var s, slots, tree := Now(), spaces[i].slots, spaces[i].tree;
      SpaceOwned(i);
      OpenWays(s, i);
      ghost var tree';
      ok, stuck, tree' := pager.MapPages(root, va, sz, pa, flags, slots, tree);
      spaces := spaces[i := Space(slots, tree')];
      assert Step(s, Now(), i);
      StepOpened(s, Now(), i);
      BelowTops(tree, tree', Tops(va / PAGE_SIZE, LastPage(va, sz) + 1));
      StepKeepsSharing(s, Now(), i, Tops(va / PAGE_SIZE, LastPage(va, sz) + 1));
      if !stuck {
        forall w: nat | Canonical(w) && !(ok && InRange(w, va, sz))
          ensures Leaf(pager.mem, tree', w) == Leaf(s.mem, tree, w)
        {
          if ok { KeptLeaf(s.mem, tree, pager.mem, tree', w); }
        }
        MapEffectOf(s, Now(), i, va, sz, pa / PAGE_SIZE, flags, pager.nx, ok);
        MapKeeps(s, Now(), i, va, sz, pa / PAGE_SIZE, ok);
      }
      if ok {
        TopsFilled(pager.mem, slots, tree', va / PAGE_SIZE, LastPage(va, sz) + 1);
        StepSharingExact(s, Now(), i, Tops(va / PAGE_SIZE, LastPage(va, sz) + 1));
      }
    }

    // unmappages (vm.c:196-212): `ok` is false when kfree is given a page that it does not manage
    method Unmap(i: nat, root: nat, va: u64, sz: u64, release: bool) returns (ok: bool)
      requires Valid() && i in spaces && root == spaces[i].tree[P3] && Inside(spaces[i].slots, va, sz)
      modifies pager`mem, pager.phys.bits, pager.phys.list
      ensures var named := Named(old(pager.mem), spaces[i].tree, va / PAGE_SIZE, LastPage(va, sz) + 1);
        && (ok <==> (release ==> forall f :: f in named ==> Now().Managed(f)))
        && (ok ==> pager.phys.Free() == old(pager.phys.Free()) + if release then named else {})
      ensures pager.phys.Valid() && (ok ==> (Owned(Now()) <==> (release ==> StaleHarmless(old(Now()), i, va, sz))))
      ensures Opened(Now())
      ensures ok ==> UnmapEffect(old(Now()), Now(), i, va, sz)
      ensures ok ==> forall w: nat :: Canonical(w) ==>
        Desc(pager.mem, spaces[i].tree, w) == OffIf(Desc(old(pager.mem), spaces[i].tree, w), InRange(w, va, sz))
      ensures KeepsSharing(old(Now()), Now(), i, {})
    {
      hide Shape, Desc, Index, Canonical, Allocator.Valid, Disjoint, Exclusive, LastPage, Named, StaleHarmless,
        Extends, RootSame, Agrees, NewBelow, Translate, Covered, SameLinks, AllOpen;
      ghost var s, slots, tree := Now(), spaces[i].slots, spaces[i].tree;
      SpaceOwned(i);
      ok := pager.UnmapPages(root, va, sz, release, slots, tree);
      StoredStep(s, Now(), i);
      StepOpened(s, Now(), i);
      StepKeepsSharing(s, Now(), i, {});
      if ok {
        UnmapEffectOf(s, Now(), i, va, sz);
        if release { UnmapExact(s, Now(), i, va, sz); } else { UnmapKeeps(s, Now(), i, va, sz, {}); }
      }
    }

    // updatepages (vm.c:177-191)
    method Update(i: nat, root: nat, va: u64, sz: u64, flags: Flags) returns (ok: bool, ghost upto: nat)
      requires Valid() && i in spaces && root == spaces[i].tree[P3] && Inside(spaces[i].slots, va, sz)
      modifies pager`mem, pager.phys.bits, pager.phys.list
      ensures Valid() && pager.phys.Free() == old(pager.phys.Free())
      ensures forall w: nat, f :: Now().Mapped(i, w, f) <==> old(Now()).Mapped(i, w, f)
      ensures forall w: nat :: Canonical(w) && !(va / PAGE_SIZE <= w < upto) ==>
        Leaf(pager.mem, spaces[i].tree, w) == Leaf(old(pager.mem), spaces[i].tree, w)
      ensures forall w: nat :: Canonical(w) && Index(w, 3) in spaces[i].slots && !(va / PAGE_SIZE <= w < upto) ==>
        Translate(pager.mem, root, w) == Translate(old(pager.mem), root, w)
      ensures forall w: nat :: va / PAGE_SIZE <= w < upto && Leaf(old(pager.mem), spaces[i].tree, w).Some? ==>
        Refitted(Leaf(old(pager.mem), spaces[i].tree, w), Translate(pager.mem, root, w),
                 flags.write, flags.user, pager.nx && !flags.exec)
      ensures ok ==> forall w: nat :: va / PAGE_SIZE <= w < upto <==> InRange(w, va, sz)
      ensures !ok ==> InRange(upto, va, sz) && LeafPos(upto) !in spaces[i].tree
      ensures KeepsSharing(old(Now()), Now(), i, {})
    {
      hide Shape, Desc, Index, Canonical, Allocator.Valid, Disjoint, Exclusive, LastPage,
        Extends, RootSame, Agrees, NewBelow, Translate, Elsewhere, SameLinks, Through, OpenWay, Opened;
      ghost var s, slots, tree := Now(), spaces[i].slots, spaces[i].tree;
      SpaceOwned(i);
      OpenWays(s, i);
      ok, upto := pager.UpdatePages(root, va, sz, flags, slots, tree);
      StoredStep(s, Now(), i);
      StepOpened(s, Now(), i);
      StepKeepsSharing(s, Now(), i, {});
      SameMapped(s, Now(), i);
    }

    // ---------- through a root that shares slots with the space

    // mappages of pages of space `k` through the root of space `j`, below slots that were filled when copied
    method MapVia(j: nat, k: nat, ghost shared: set<nat>, root: nat, va: u64, sz: u64, pa: nat, flags: Flags)
      returns (ok: bool, stuck: bool)
      requires Valid() && Now().Shared(j, k, shared) && root == spaces[j].tree[P3] && Inside(shared, va, sz)
      requires forall w: nat :: InRange(w, va, sz) ==> P2(Index(w, 3)) in spaces[k].tree
      requires forall w: nat :: InRange(w, va, sz) ==> Now().Fresh(pa / PAGE_SIZE + (w - va / PAGE_SIZE))
      modifies this`spaces, pager`mem, pager.phys.bits, pager.phys.list
      ensures Step(old(Now()), Now(), k) && KeepsSharing(old(Now()), Now(), k, {})
      ensures stuck ==> va < PAGE_SIZE
      ensures !stuck ==> Valid() && MapEffect(old(Now()), Now(), k, va, sz, pa / PAGE_SIZE, ok)
      // through both roots the pages of the range have the rights asked for
      ensures ok ==> forall w: nat :: InRange(w, va, sz) ==>
        var f := pa / PAGE_SIZE + (w - va / PAGE_SIZE);
        var e := Some(Entry(true, flags.write, flags.user, false, pager.nx && !flags.exec, f));
        Translate(pager.mem, root, w) == e && Translate(pager.mem, spaces[k].tree[P3], w) == e
      ensures !stuck ==> forall w: nat :: Canonical(w) && Index(w, 3) in shared && !(ok && InRange(w, va, sz)) ==>
        Translate(pager.mem, root, w) == Translate(old(pager.mem), root, w)
    {
      hide Shape, Desc, Leaf, Kept, Index, Canonical, Allocator.Valid, Disjoint, Exclusive, LastPage, Descriptor, Tops,
        Extends, RootSame, Agrees, NewBelow, Missing, Translate, Covered, AllShared,
        Copy.Via, Copy.Merged, Copy.Change, Copy.Ok, Step, NewTops, MapEffect, State.Fresh, Inside, InRange, FailsFirst,
        Through, OpenWay, Opened, SameLinks;
      ghost var s, c := Now(), Now().Pair(j, k, shared);
      SpaceOwned(j);
      PairOk(s, j, k, shared);
      ViaShape(c);
      ghost var via;
      ok, stuck, via := pager.MapPages(root, va, sz, pa, flags, shared, c.Via());
      spaces := spaces[k := Space(spaces[k].slots, c.Merged(via))];
      ViaGrew(s, Now(), j, k, shared, via, va, sz);
      StepOpened(s, Now(), k);
      if !stuck {
        ViaMapKeeps(s, Now(), j, k, shared, via, va, sz, pa / PAGE_SIZE, flags, pager.nx, ok);
        MapSeen(s, Now(), j, k, shared, va, sz, pa / PAGE_SIZE, flags, pager.nx, ok);
      }
    }

    // unmappages of pages of space `k` through the root of space `j`
    method UnmapVia(j: nat, k: nat, ghost shared: set<nat>, root: nat, va: u64, sz: u64, release: bool)
      returns (ok: bool)
      requires Valid() && Now().Shared(j, k, shared) && root == spaces[j].tree[P3] && Inside(shared, va, sz)
      modifies pager`mem, pager.phys.bits, pager.phys.list
      ensures var named := Named(old(pager.mem), spaces[k].tree, va / PAGE_SIZE, LastPage(va, sz) + 1);
        && (ok <==> (release ==> forall f :: f in named ==> Now().Managed(f)))
        && (ok ==> pager.phys.Free() == old(pager.phys.Free()) + if release then named else {})
      ensures pager.phys.Valid() && (ok ==> (Owned(Now()) <==> (release ==> StaleHarmless(old(Now()), k, va, sz))))
      ensures ok ==> UnmapEffect(old(Now()), Now(), k, va, sz)
      ensures KeepsSharing(old(Now()), Now(), k, {})
    {
      hide Shape, Desc, Index, Canonical, Allocator.Valid, Disjoint, Exclusive, LastPage, Named, StaleHarmless,
        Extends, RootSame, Agrees, NewTops, Translate, Covered, AllShared,
        Copy.Via, Copy.Merged, Copy.Change, Copy.Ok, Step, TablesOnly;
      ghost var s, c := Now(), Now().Pair(j, k, shared);
      SpaceOwned(j);
      PairOk(s, j, k, shared);
      ViaShape(c);
      ok := pager.UnmapPages(root, va, sz, release, shared, c.Via());
      StoredIsChange(c, pager.mem);
      ViaStep(s, Now(), j, k, shared, c.Via());
      StepOpened(s, Now(), k);
      StepKeepsSharing(s, Now(), k, {});
      ViaStored(c, pager.mem);
      SameNamed(c.mem, c.tree, c.Via(), va / PAGE_SIZE, LastPage(va, sz) + 1);
      if ok {
        UnmapEffectOf(s, Now(), k, va, sz);
        if release { UnmapExact(s, Now(), k, va, sz); } else { UnmapKeeps(s, Now(), k, va, sz, {}); }
      }
    }

    // updatepages of pages of space `k` through the root of space `j`
    method UpdateVia(j: nat, k: nat, ghost shared: set<nat>, root: nat, va: u64, sz: u64, flags: Flags)
      returns (ok: bool, ghost upto: nat)
      requires Valid() && Now().Shared(j, k, shared) && root == spaces[j].tree[P3] && Inside(shared, va, sz)
      modifies pager`mem, pager.phys.bits, pager.phys.list
      ensures Valid() && pager.phys.Free() == old(pager.phys.Free())
      ensures forall w: nat :: Canonical(w) && !(va / PAGE_SIZE <= w < upto) ==>
        Leaf(pager.mem, spaces[k].tree, w) == Leaf(old(pager.mem), spaces[k].tree, w)
      // through both roots the pages up to there have the new rights
      ensures forall w: nat :: va / PAGE_SIZE <= w < upto && Leaf(old(pager.mem), spaces[k].tree, w).Some? ==>
        && Refitted(Leaf(old(pager.mem), spaces[k].tree, w), Translate(pager.mem, root, w),
                    flags.write, flags.user, pager.nx && !flags.exec)
        && Translate(pager.mem, spaces[k].tree[P3], w) == Translate(pager.mem, root, w)
      ensures ok ==> forall w: nat :: va / PAGE_SIZE <= w < upto <==> InRange(w, va, sz)
      ensures !ok ==> InRange(upto, va, sz) && LeafPos(upto) !in spaces[k].tree
      ensures KeepsSharing(old(Now()), Now(), k, {})
    {
      hide Shape, Desc, Index, Canonical, Allocator.Valid, Disjoint, Exclusive, LastPage,
        Extends, RootSame, Agrees, NewTops, Translate, Covered, AllShared,
        Copy.Via, Copy.Merged, Copy.Change, Copy.Ok, Step, TablesOnly;
      ghost var s, c := Now(), Now().Pair(j, k, shared);
      SpaceOwned(j);
      PairOk(s, j, k, shared);
      ViaShape(c);
      ok, upto := pager.UpdatePages(root, va, sz, flags, shared, c.Via());
      StoredIsChange(c, pager.mem);
      ViaStep(s, Now(), j, k, shared, c.Via());
      StepOpened(s, Now(), k);
      StepKeepsSharing(s, Now(), k, {});
      ViaStored(c, pager.mem);
      SameMapped(s, Now(), k);
      SharedSeen(Now(), j, k, shared);
      if !ok { ViaHas(c, upto); }
    }

    // map_higher_half (vm.c:214-219): the root of space `j` gets the entries of the root of space `k`
    method HigherHalf(j: nat, k: nat, root: nat, kernel: nat)
      requires Valid() && j in spaces && k in spaces && j != k
      requires root == spaces[j].tree[P3] && kernel == spaces[k].tree[P3]
      requires forall i :: i in spaces[j].slots ==> i < 256
      modifies pager`mem
      ensures Valid()
      ensures forall i, w, f :: Now().Mapped(i, w, f) <==> old(Now()).Mapped(i, w, f)
      ensures forall shared :: shared <= spaces[k].slots && (forall i :: i in shared ==> 256 <= i < ENTRIES) ==>
        Now().Shared(j, k, shared)
      ensures forall a, b, shared :: a != j && old(Now()).Shared(a, b, shared) ==> Now().Shared(a, b, shared)
    {
      hide Shape, Leaf, Canonical, Allocator.Valid;
      ghost var s := Now();
      Roots(s, j, k);
      pager.MapHigherHalf(root, kernel);
      Copied(s, Now(), j, k);
    }

    // A root table that does not come from kalloc, such as the kernel's own (vm.c:85)
    method Adopt(i: nat, ghost slots: set<nat>, root: nat)
      requires Valid() && i !in spaces && Now().Loose(root) && Now().Fresh(root) && Blank(pager.mem, slots, root)
      modifies this`spaces
      ensures Valid() && spaces == old(spaces)[i := Space(slots, map[P3 := root])]
      ensures forall j, k, shared :: old(Now()).Shared(j, k, shared) ==> Now().Shared(j, k, shared)
    {
      hide Shape, Leaf, Index, Canonical, Allocator.Valid, Blank, Disjoint, Exclusive, State.Fresh;
      SpaceKeeps(Now(), i, slots, root);
      spaces := spaces[i := Space(slots, map[P3 := root])];
    }

    // The root table of a new address space (vmm.c:255-257, 263): the page is not cleared, so it
    // becomes an address space exactly if the entries in use happen not to be present
    method NewSpace(i: nat, slots: set<nat>) returns (page: nat, ghost usable: bool)
      requires Valid() && i !in spaces
      modifies this`spaces, pager.phys.bits, pager.phys.list
      ensures Valid() && usable == (page != 0 && Blank(pager.mem, slots, page))
      ensures spaces == if usable then old(spaces)[i := Space(slots, map[P3 := page])] else old(spaces)
      ensures FromFree(page, old(pager.phys.Free())) && pager.phys.Free() == old(pager.phys.Free()) - {page}
      ensures page != 0 ==> old(pager.phys.list.items) == [page] + pager.phys.list.items
      ensures forall j, k, shared :: old(Now()).Shared(j, k, shared) ==> Now().Shared(j, k, shared)
    {
      hide Shape, Leaf, Index, Canonical, Allocator.Valid, Blank, Disjoint, Exclusive;
      ghost var s := Now();
      page := pager.phys.Alloc();
      usable := page != 0 && Blank(pager.mem, slots, page);
      if page != 0 {
        TakeKeeps(s, page);
        ghost var s1 := Now();
        if usable {
          SpaceKeeps(s1, i, slots, page);
          spaces := spaces[i := Space(slots, map[P3 := page])];
        }
      }
    }

    // A new area container (vmm.c:117); kalloc's result is used unchecked
    method NewContainer() returns (page: nat)
      requires Valid()
      modifies this`containers, pager.phys.bits, pager.phys.list
      ensures Valid() && containers == old(containers) + (if page == 0 then {} else {page})
      ensures FromFree(page, old(pager.phys.Free())) && pager.phys.Free() == old(pager.phys.Free()) - {page}
      ensures page !in old(containers) || page == 0
      ensures forall j, k, shared :: old(Now()).Shared(j, k, shared) ==> Now().Shared(j, k, shared)
    {
      hide Shape, Leaf, Index, Canonical, Allocator.Valid;
      ghost var s := Now();
      page := pager.phys.Alloc();
      if page != 0 {
        TakeKeeps(s, page);
        ghost var s1 := Now();
        containers := containers + {page};
        ContainerKeeps(s1, page);
      }
    }

    // on_demand_allocation (vmm.c:242-247): the result of kalloc is mapped unchecked, so without
    // memory the page is backed by frame 0, which nobody owns
    method OnDemand(i: nat, root: nat, v: nat, flags: Flags) returns (ok: bool, ghost page: nat)
      requires Valid() && i in spaces && root == spaces[i].tree[P3]
      requires Canonical(v) && Index(v, 3) in spaces[i].slots && 0 < v && v + 1 < ALL
      modifies this`spaces, pager`mem, pager.phys.bits, pager.phys.list
      ensures Valid() && Step(old(Now()), Now(), i)
      ensures FromFree(page, old(pager.phys.Free())) && pager.phys.Free() <= old(pager.phys.Free()) - {page}
      ensures spaces[i].tree.Values ==
        old(spaces)[i].tree.Values + (old(pager.phys.Free()) - {page} - pager.phys.Free())
      ensures var tree := old(spaces)[i].tree;
        ok <==> Leaf(old(pager.mem), tree, v).None? && Missing(tree, v) <= |old(pager.phys.Free()) - {page}|
      ensures MapEffect(old(Now()), Now(), i, v * PAGE_SIZE, PAGE_SIZE, page, ok)
      ensures ok ==> Desc(pager.mem, spaces[i].tree, v) == Some(Descriptor(page, flags, pager.nx))
      ensures ok ==>
        var noExec := pager.nx && !flags.exec;
        Translate(pager.mem, root, v) == Some(Entry(true, flags.write, flags.user, false, noExec, page))
      ensures forall w: nat :: Canonical(w) && w != v ==>
        Kept(old(pager.mem), old(spaces)[i].tree, pager.mem, spaces[i].tree, w)
      ensures forall w: nat :: Canonical(w) && w != v && Index(w, 3) in spaces[i].slots ==>
        Translate(pager.mem, root, w) == Translate(old(pager.mem), root, w)
      ensures KeepsSharing(old(Now()), Now(), i, {Index(v, 3)})
      ensures ok ==> SharingExact(old(Now()), Now(), i, {Index(v, 3)})
    {
      hide SharingExact, Shape, Leaf, Desc, Descriptor, Index, Canonical, Maps, Allocator.Valid, Disjoint, Exclusive,
        MapEffect, Missing, Tops, Kept,
        Extends, RootSame, Agrees, LastPage, Step, KeepsSharing, FailsFirst, State.Fresh, Inside;
      ghost var s := Now();
      SpaceOwned(i);
      OneTop(v);
      var p := pager.phys.Alloc();
      page := p;
      ghost var s1 := Now();
      if p != 0 { TakeKeeps(s, p); }
      FreshAt(s1, p);
      PageRange(spaces[i].slots, v, pager.Seen(spaces[i].tree));
      var stuck;
      ok, stuck := Map(i, root, v * PAGE_SIZE, PAGE_SIZE, p * PAGE_SIZE, flags);
      FreeIrrelevant(s, s1, Now(), i, v, p, ok);
    }
  }

  lemma FreshAt(s: State, f: nat)
    requires s.Managed(f) ==> s.Loose(f) && forall j, w :: !s.Mapped(j, w, f)
    ensures s.Fresh(f)
  {
  }

  lemma OneTop(v: nat)
    ensures Tops(v, v + 1) == {Index(v, 3)}
  {
  }

  // Pages taken off the free list beforehand make no difference to a step
  lemma FreeIrrelevant(s: State, s1: State, s2: State, i: nat, v: nat, page: nat, ok: bool)
    requires s1 == s.(free := s1.free) && s1.free <= s.free && Step(s1, s2, i) && v + 1 < ALL
    requires MapEffect(s1, s2, i, v * PAGE_SIZE, PAGE_SIZE, page, ok) && KeepsSharing(s1, s2, i, {Index(v, 3)})
    ensures Step(s, s2, i) && MapEffect(s, s2, i, v * PAGE_SIZE, PAGE_SIZE, page, ok)
    ensures KeepsSharing(s, s2, i, {Index(v, 3)})
    ensures SharingExact(s1, s2, i, {Index(v, 3)}) ==> SharingExact(s, s2, i, {Index(v, 3)})
  {
    hide Index, Maps, Shape, LastPage;
    forall j, w, f ensures s.Mapped(j, w, f) <==> s1.Mapped(j, w, f) {}
    forall j, k, shared | s.Shared(j, k, shared) && Filled(s, i, k, {Index(v, 3)} * shared)
      ensures s2.Shared(j, k, shared)
    {
      assert s1.Shared(j, k, shared) && Filled(s1, i, k, {Index(v, 3)} * shared);
    }
    if SharingExact(s1, s2, i, {Index(v, 3)}) {
      forall j, k, shared | s.Shared(j, k, shared)
        ensures s2.Shared(j, k, shared) <==> Filled(s, i, k, {Index(v, 3)} * shared)
      {
        assert s1.Shared(j, k, shared);
      }
    }
  }

  // Writes to the descriptors of space `i` alone are a step
  lemma StoredStep(s: State, s': State, i: nat)
    requires i in s.spaces && P3 in s.spaces[i].tree && TablesOnly(s.mem, s'.mem, s.spaces[i].tree)
    requires s' == s.(mem := s'.mem, free := s'.free) && Shape(s'.mem, s.spaces[i].slots, s.spaces[i].tree)
    ensures Step(s, s', i) && NewTops(s.spaces[i].tree, s'.spaces[i].tree, {})
  {
  }

  // A step that keeps free pages, tables and what is mapped keeps single ownership
  lemma SameMapped(s: State, s': State, i: nat)
    requires Owned(s) && Step(s, s', i) && s'.free == s.free && s'.spaces == s.spaces
    requires forall w: nat :: Canonical(w) ==>
      Alike(Leaf(s.mem, s.spaces[i].tree, w), Leaf(s'.mem, s.spaces[i].tree, w))
    ensures Owned(s') && forall w: nat, f :: s'.Mapped(i, w, f) <==> s.Mapped(i, w, f)
  {
    hide Shape, Leaf, Canonical;
    forall j, w, f ensures s'.Mapped(j, w, f) <==> s.Mapped(j, w, f) {
      if j in s.spaces && j != i { OthersKeep(s, s', i, j); }
    }
    forall j | j in s.spaces && j != i ensures Shape(s'.mem, s'.spaces[j].slots, s'.spaces[j].tree) {
      OthersKeep(s, s', i, j);
    }
  }

  // Both absent, or both present with one frame
  predicate Alike(d: Option<Entry>, e: Option<Entry>) {
    if d.Some? then e.Some? && e.value.frame == d.value.frame else e.None?
  }

  // map_higher_half shares the upper slots and changes nothing else
  lemma Copied(s: State, s': State, j: nat, k: nat)
    requires Owned(s) && j in s.spaces && k in s.spaces && j != k && s' == s.(mem := s'.mem)
    requires P3 in s.spaces[j].tree && P3 in s.spaces[k].tree && s.spaces[j].tree[P3] != s.spaces[k].tree[P3]
    requires var r, q := s.spaces[j].tree[P3], s.spaces[k].tree[P3];
      && IsTable(s.mem, r) && IsTable(s.mem, q) && IsTable(s'.mem, r) && s'.mem == s.mem[r := s'.mem[r]]
      && forall i :: 0 <= i < ENTRIES ==> s'.mem[r][i] == if i < 256 then s.mem[r][i] else s'.mem[q][i]
    requires forall i :: i in s.spaces[j].slots ==> i < 256
    ensures Owned(s') && forall i, w, f :: s'.Mapped(i, w, f) <==> s.Mapped(i, w, f)
    ensures Opened(s) ==> Opened(s')
    ensures forall shared :: shared <= s.spaces[k].slots && (forall i :: i in shared ==> 256 <= i < ENTRIES) ==>
      s'.Shared(j, k, shared)
    ensures forall a, b, shared :: a != j && s.Shared(a, b, shared) ==> s'.Shared(a, b, shared)
  {
    hide Shape, Leaf, Canonical;
    var r := s.spaces[j].tree[P3];
    assert r in s.spaces[j].tree.Values;
    forall i | i in s.spaces
      ensures Shape(s'.mem, s.spaces[i].slots, s.spaces[i].tree)
      ensures forall v :: Leaf(s'.mem, s.spaces[i].tree, v) == Leaf(s.mem, s.spaces[i].tree, v)
      ensures AllOpen(s.mem, s.spaces[i].tree) ==> AllOpen(s'.mem, s.spaces[i].tree)
    {
      if i == j {
        RootRewritten(s.mem, s'.mem, s.spaces[j].slots, s.spaces[j].tree);
      } else {
        ShapeFrame(s.mem, s'.mem, s.spaces[i].slots, s.spaces[i].tree, {r});
      }
    }
    forall i, w, f ensures s'.Mapped(i, w, f) <==> s.Mapped(i, w, f) {}
    forall f ensures s'.Loose(f) <==> s.Loose(f) {}
    SharesUpper(s, s', j, k);
    forall a, b, shared | a != j && s.Shared(a, b, shared) ensures s'.Shared(a, b, shared) {
      assert s.spaces[a].tree[P3] in s.spaces[a].tree.Values;
      forall t | t in shared ensures Shares(s'.mem, s.spaces[a].tree[P3], s.spaces[b].tree, t) {
        assert Shares(s.mem, s.spaces[a].tree[P3], s.spaces[b].tree, t);
      }
    }
  }

  lemma SharesUpper(s: State, s': State, j: nat, k: nat)
    requires j in s.spaces && k in s.spaces && j != k && s'.spaces == s.spaces
    requires Shape(s'.mem, s.spaces[k].slots, s.spaces[k].tree) && P3 in s.spaces[j].tree
    requires forall i :: i in s.spaces[j].slots ==> i < 256
    requires var r, q := s.spaces[j].tree[P3], s.spaces[k].tree[P3];
      IsTable(s'.mem, r) && forall i :: 256 <= i < ENTRIES ==> s'.mem[r][i] == s'.mem[q][i]
    ensures forall shared :: shared <= s.spaces[k].slots && (forall i :: i in shared ==> 256 <= i < ENTRIES) ==>
      s'.Shared(j, k, shared)
  {
    forall shared | shared <= s.spaces[k].slots && (forall i :: i in shared ==> 256 <= i < ENTRIES)
      ensures s'.Shared(j, k, shared)
    {
      forall t | t in shared ensures Shares(s'.mem, s.spaces[j].tree[P3], s.spaces[k].tree, t) {
        CopyShares(s'.mem, s.spaces[k].slots, s.spaces[k].tree, s.spaces[j].tree[P3], t);
      }
    }
  }

  lemma Roots(s: State, j: nat, k: nat)
    requires Disjoint(s) && j in s.spaces && k in s.spaces && j != k
    ensures P3 in s.spaces[j].tree && P3 in s.spaces[k].tree && s.spaces[j].tree[P3] != s.spaces[k].tree[P3]
    ensures IsTable(s.mem, s.spaces[j].tree[P3]) && IsTable(s.mem, s.spaces[k].tree[P3])
  {
    assert s.spaces[j].tree[P3] in s.spaces[j].tree.Values && s.spaces[k].tree[P3] in s.spaces[k].tree.Values;
  }
}
