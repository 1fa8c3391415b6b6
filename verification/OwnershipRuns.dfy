/**
 Runs of the operations in Ownership.dfy, from the start of the allocator, in which
 the code does not do what one would expect of it.
 */
module OwnershipRuns {
  import opened Words
  import opened PageTables
  import opened PhysAlloc
  import opened Paging
  import opened Sharing
  import opened Ownership

  const LO: nat := 0x102     // the page frames that the allocator below manages
  const HI: nat := 0x111
  const SPACE: nat := 7
  const PAGE: nat := 512     // the first page of user areas, at LOWHALF_START
  const VA: u64 := 0x20_0000
  const FLAGS := Flags(true, true, false)

  // The root slots of a user address space
  function Lower(): set<nat> {
    Frames(0, 256)
  }

  // Sixteen pages of memory from address 1 MiB, each of them holding `content`
  method Boot(content: seq<Entry>) returns (vm: Vm)
    requires |content| == ENTRIES
    ensures fresh(vm) && fresh(vm.pager) && fresh(vm.pager.phys.bits) && fresh(vm.pager.phys.list)
    ensures vm.Valid() && vm.spaces == map[] && vm.Now().lo == LO && vm.Now().hi == HI
    ensures vm.pager.phys.Free() == Frames(LO, HI)
    ensures vm.pager.phys.list.items != [] && vm.pager.phys.list.items[0] == LO
    ensures forall f :: f in vm.pager.phys.Free() ==> f in vm.pager.mem && vm.pager.mem[f] == content
  {
    hide Allocator.Valid, Owned;
    var a := new Allocator(0x10_0000, 0x1_0000);
    assert forall p :: p in a.Free() <==> Within(p, LO, HI);
    assert Within(LO, LO, HI) && LO in a.Free();
    var m: Mem := map f | f in Frames(LO, HI) :: content;
    var p := new Pager(a, true, m);
    vm := new Vm(p);
  }

  // The numbers from `lo` to `hi - 1`
  function Frames(lo: nat, hi: nat): set<nat> {
    set f: nat | lo <= f < hi && Within(f, lo, hi)
  }

  predicate Within(f: nat, lo: nat, hi: nat) { lo <= f < hi }

  lemma {:induction false} FramesSize(lo: nat, hi: nat)
    requires lo <= hi
    ensures |Frames(lo, hi)| == hi - lo
  {
    if lo < hi {
      FramesSize(lo, hi - 1);
      assert Frames(lo, hi) == Frames(lo, hi - 1) + {hi - 1};
    } else {
      assert Frames(lo, hi) == {};
    }
  }

  lemma Fewer(a: set<nat>, b: set<nat>, x: nat)
    requires a <= b - {x} && x in b
    ensures |a| < |b|
  {
    Subset(a, b - {x});
  }

  lemma {:induction false} Subset(a: set<nat>, b: set<nat>)
    requires a <= b
    ensures |a| <= |b|
    decreases |a|
  {
    if x :| x in a { Subset(a - {x}, b - {x}); }
  }

  // The pages from 2 MiB to 4 MiB share one table
  lemma UserPages(v: nat)
    requires PAGE <= v < PAGE + 512
    ensures LeafPos(v) == P0(0, 0, 1) && Index(v, 3) == 0 && Index(v, 3) in Lower() && Canonical(v)
    ensures PosAt(v, 2) == P2(0) && PosAt(v, 1) == P1(0, 0) && PosAt(v, 0) == P0(0, 0, 1)
  {
    Digits(v);
  }

  lemma ZeroPage()
    ensures Index(0, 3) in Lower() && Canonical(0)
  {
    Digits(0);
  }

  /** Memory is not cleared at boot and neither is a new root.  Here every entry of memory links the frame
      0x103: the new root translates a user page to that frame, which is on the free list. */
  method UnclearedRoot() returns (vm: Vm, page: nat, ghost usable: bool)
    ensures vm.Valid() && page != 0 && !usable
    ensures Translate(vm.pager.mem, page, PAGE) == Some(Link(0x103)) && 0x103 in vm.pager.phys.Free()
  {
    hide Index;
    vm := Boot(seq(ENTRIES, _ => Link(0x103)));
    FramesSize(LO, HI);
    UserPages(PAGE);
    page, usable := vm.NewSpace(SPACE, Lower());
    assert vm.pager.mem[page][0].present && Within(0, 0, 256) && Within(0x103, LO, HI);
    Rings(vm.pager.mem, page, 0x103, PAGE);
  }

  // A walk through tables all of whose entries link `f`
  lemma Rings(m: Mem, page: nat, f: nat, v: nat)
    requires page in m && m[page] == seq(ENTRIES, _ => Link(f)) && f in m && m[f] == seq(ENTRIES, _ => Link(f))
    ensures Translate(m, page, v) == Some(Link(f))
  {
    assert Walk(m, f, v, 0) == Some(Link(f));
    assert Walk(m, f, v, 1) == Walk(m, f, v, 0) && Walk(m, f, v, 2) == Walk(m, f, v, 1);
  }

  // The tables of a blank address space
  function Bare(root: nat): Tree { map[P3 := root] }

  // A blank address space
  method NewUser() returns (vm: Vm, root: nat)
    ensures fresh(vm) && fresh(vm.pager) && fresh(vm.pager.phys.bits) && fresh(vm.pager.phys.list)
    ensures vm.Valid() && vm.Now().lo == LO && vm.Now().hi == HI && vm.pager.phys.Free() <= Frames(LO, HI)
    ensures SPACE in vm.spaces && vm.spaces[SPACE] == Space(Lower(), Bare(root)) && |vm.pager.phys.Free()| == 14
    ensures Bare(root).Keys == {P3} && Bare(root)[P3] == root
  {
    vm := Boot(seq(ENTRIES, _ => EMPTY));
    FramesSize(LO, HI);
    ghost var usable;
    root, usable := vm.NewSpace(SPACE, Lower());
    assert usable;
  }

  // The first page is demanded
  method FirstPage() returns (vm: Vm, root: nat, ghost page: nat)
    ensures fresh(vm) && fresh(vm.pager) && fresh(vm.pager.phys.bits) && fresh(vm.pager.phys.list)
    ensures vm.Valid() && vm.Now().lo == LO && vm.Now().hi == HI && |vm.pager.phys.Free()| <= 13
    ensures SPACE in vm.spaces && InUse(vm, root) && LO <= page < HI
    ensures Desc(vm.pager.mem, vm.spaces[SPACE].tree, PAGE) == Some(Descriptor(page, FLAGS, vm.pager.nx))
    ensures forall w: nat :: PAGE < w < PAGE + 512 ==> Desc(vm.pager.mem, vm.spaces[SPACE].tree, w) == Some(EMPTY)
  {
    hide Shape, Descriptor, MapEffect, KeepsSharing, Index, Canonical, Owned, RootSame, Agrees, Lower, Frames, FromFree,
      Allocator.Valid, Desc, Leaf, Kept, Missing, Bare;
    vm, root := NewUser();
    UserPages(PAGE);
    ghost var s := vm.Now();
    NoTables(s.mem, root, PAGE);
    var ok;
    ok, page := vm.OnDemand(SPACE, root, PAGE, FLAGS);
    TakenFrame(page, s.free);
    Fewer(vm.pager.phys.Free(), s.free, page);
    FirstTables(s.mem, Bare(root), vm.Now());
  }

  lemma TakenFrame(page: nat, free: set<nat>)
    requires FromFree(page, free) && free <= Frames(LO, HI) && |free| == 14
    ensures LO <= page < HI && page in free && |free - {page}| == 13
  {
  }

  // A space without tables maps nothing and lacks three tables for any page
  lemma NoTables(m: Mem, root: nat, v: nat)
    ensures Leaf(m, Bare(root), v).None? && Missing(Bare(root), v) == 3
  {
  }

  // After the first page is mapped its tables exist and are blank otherwise
  lemma FirstTables(m: Mem, tree: Tree, s: State)
    requires SPACE in s.spaces && Owned(s) && tree.Keys == {P3} && Extends(tree, s.spaces[SPACE].tree)
    requires Desc(s.mem, s.spaces[SPACE].tree, PAGE).Some?
    requires forall w: nat :: Canonical(w) && w != PAGE ==> Kept(m, tree, s.mem, s.spaces[SPACE].tree, w)
    ensures var t := s.spaces[SPACE].tree; P2(0) in t && P1(0, 0) in t && P0(0, 0, 1) in t
    ensures forall w: nat :: PAGE < w < PAGE + 512 ==> Desc(s.mem, s.spaces[SPACE].tree, w) == Some(EMPTY)
  {
    hide Shape, Index, Canonical;
    UserPages(PAGE);
    NotBelow(s.mem, s.spaces[SPACE].slots, s.spaces[SPACE].tree, PAGE);
    forall w: nat | PAGE < w < PAGE + 512 ensures Desc(s.mem, s.spaces[SPACE].tree, w) == Some(EMPTY) {
      UserPages(w);
      assert Kept(m, tree, s.mem, s.spaces[SPACE].tree, w);
    }
  }

  // The space is a user space with root `root`
  ghost predicate InUse(vm: Vm, root: nat)
    requires SPACE in vm.spaces
    reads vm
  {
    var p := vm.spaces[SPACE];
    && p.slots == Lower() && P3 in p.tree && p.tree[P3] == root
    && P2(0) in p.tree && P1(0, 0) in p.tree && P0(0, 0, 1) in p.tree
  }

  /** Freeing an area of two pages of which only the first was ever touched hands page 0 to kfree,
      because the table of the first page makes a blank descriptor of the second. */
  method UntouchedPage() returns (vm: Vm, ok: bool, ghost before: Mem)
    ensures !ok && SPACE in vm.spaces && 0 in Named(before, vm.spaces[SPACE].tree, PAGE, PAGE + 2)
    ensures !vm.Now().Managed(0)
  {
    hide Shape, Descriptor, KeepsSharing, Index, Canonical, Owned, Lower, Allocator.Valid;
    var root;
    ghost var page;
    vm, root, page := FirstPage();
    UserPages(PAGE);
    UserPages(PAGE + 1);
    TwoPages();
    NamedIn(vm.pager.mem, vm.spaces[SPACE].tree, PAGE, PAGE + 2, PAGE + 1);
    before := vm.pager.mem;
    ok := vm.Unmap(SPACE, root, VA, 2 * PAGE_SIZE, true);
  }

  lemma TwoPages()
    ensures VA / PAGE_SIZE == PAGE && LastPage(VA, 2 * PAGE_SIZE) == PAGE + 1 && LastPage(VA, PAGE_SIZE) == PAGE
    ensures LastPage(0, PAGE_SIZE) == 0
  {
  }

  /** A clash at page 0: the roll-back would have no end. */
  method PageZeroClash() returns (vm: Vm, stuck: bool)
    ensures stuck
  {
    hide Shape, KeepsSharing, Index, Canonical, Owned, Lower, Allocator.Valid, MapEffect, RootSame, Agrees;
    var root, ok;
    vm, root := NewUser();
    ZeroPage();
    TwoPages();
    NoTables(vm.pager.mem, root, 0);
    ok, stuck := vm.Map(SPACE, root, 0, PAGE_SIZE, 5 * PAGE_SIZE, FLAGS);
    assert ok;
    ok, stuck := vm.Map(SPACE, root, 0, PAGE_SIZE, 5 * PAGE_SIZE, FLAGS);
  }

  // The first page has a descriptor that is not present and names `page`
  ghost predicate Stale(vm: Vm, page: nat)
    requires SPACE in vm.spaces
    reads vm, vm.pager
  {
    var d := Desc(vm.pager.mem, vm.spaces[SPACE].tree, PAGE);
    d.Some? && !d.value.present && d.value.frame == page
  }

  // The frame is a table of the space, or another page than the first maps it
  ghost predicate Taken(s: State, page: nat) {
    SPACE in s.spaces && (page in s.spaces[SPACE].tree.Values || exists w: nat :: w != PAGE && s.Mapped(SPACE, w, page))
  }

  // Pages are demanded until no memory is left: then `page` is in use again
  method Reuse(vm: Vm, root: nat, ghost page: nat)
    requires vm.Valid() && SPACE in vm.spaces && InUse(vm, root) && Stale(vm, page)
    requires page in vm.pager.phys.Free() && |vm.pager.phys.Free()| <= 14
    requires forall w: nat :: PAGE < w < PAGE + 512 ==> Leaf(vm.pager.mem, vm.spaces[SPACE].tree, w).None?
    modifies vm`spaces, vm.pager`mem, vm.pager.phys.bits, vm.pager.phys.list
    ensures vm.Valid() && SPACE in vm.spaces && InUse(vm, root) && Stale(vm, page)
    ensures page !in vm.pager.phys.Free() && Taken(vm.Now(), page)
  {
    hide Shape, Descriptor, KeepsSharing, Index, Canonical, Owned, Lower, Allocator.Valid, RootSame, Agrees, MapEffect,
      Maps, Kept, Desc, Leaf, Missing, Taken;
    for v := PAGE + 1 to PAGE + 15
      invariant vm.Valid() && SPACE in vm.spaces && InUse(vm, root) && Stale(vm, page)
      invariant |vm.pager.phys.Free()| <= PAGE + 15 - v && (page in vm.pager.phys.Free() || Taken(vm.Now(), page))
      invariant forall w: nat :: v <= w < PAGE + 512 ==> Leaf(vm.pager.mem, vm.spaces[SPACE].tree, w).None?
    {
      ghost var s, tree := vm.Now(), vm.spaces[SPACE].tree;
      var ok;
      ghost var taken;
      UserPages(v);
      HasTables(tree, v);
      ok, taken := vm.OnDemand(SPACE, root, v, FLAGS);
      StillTaken(s, vm.Now(), v, taken, page);
      StillStale(s.mem, tree, vm.pager.mem, vm.spaces[SPACE].tree, v);
      if s.free != {} { Fewer(vm.pager.phys.Free(), s.free, taken); }
    }
  }

  lemma HasTables(tree: Tree, v: nat)
    requires PAGE <= v < PAGE + 512 && P2(0) in tree && P1(0, 0) in tree && P0(0, 0, 1) in tree
    ensures Missing(tree, v) == 0
  {
    UserPages(v);
  }

  // Demanding page `v` takes `taken`, and perhaps tables; a frame in use stays in use
  lemma StillTaken(s: State, s': State, v: nat, taken: nat, page: nat)
    requires Step(s, s', SPACE) && PAGE < v < PAGE + 512 && FromFree(taken, s.free)
    requires MapEffect(s, s', SPACE, v * PAGE_SIZE, PAGE_SIZE, taken, true)
    requires s'.spaces[SPACE].tree.Values == s.spaces[SPACE].tree.Values + (s.free - {taken} - s'.free)
    requires forall w: nat :: v <= w < PAGE + 512 ==> Leaf(s.mem, s.spaces[SPACE].tree, w).None?
    requires page in s.free || Taken(s, page)
    ensures page in s'.free || Taken(s', page)
  {
    hide Shape, Index;
    OnePage(v);
    UserPages(v);
    assert s'.Mapped(SPACE, v, taken);
    if w: nat :| w != PAGE && s.Mapped(SPACE, w, page) {
      assert w != v && s'.Mapped(SPACE, w, page);
    }
  }

  // The other pages keep their descriptors
  lemma StillStale(m: Mem, tree: Tree, m': Mem, tree': Tree, v: nat)
    requires PAGE < v < PAGE + 512 && P0(0, 0, 1) in tree
    requires forall w: nat :: Canonical(w) && w != v ==> Kept(m, tree, m', tree', w)
    ensures Desc(m', tree', PAGE) == Desc(m, tree, PAGE)
    ensures forall w: nat :: v < w < PAGE + 512 ==> Leaf(m', tree', w) == Leaf(m, tree, w)
  {
    hide Index, Canonical, Desc;
    UserPages(PAGE);
    assert Kept(m, tree, m', tree', PAGE);
    forall w: nat | v < w < PAGE + 512 ensures Leaf(m', tree', w) == Leaf(m, tree, w) {
      UserPages(w);
      KeptLeaf(m, tree, m', tree', w);
    }
  }

  /**
   A page is demanded, its area freed, then other pages are demanded until one of them is
   given the same frame or it becomes a table; when the first area comes to be freed once
   more, a frame in use is put on the free list.
   */
  method StaleRun() returns (vm: Vm)
    ensures vm.pager.phys.Valid() && !Owned(vm.Now())
  {
    hide Shape, KeepsSharing, Index, Canonical, Owned, Lower, Allocator.Valid, MapEffect, UnmapEffect, Named, Maps,
      StaleHarmless, Taken;
    var root, ok;
    ghost var page;
    vm, root, page := FirstPage();
    UserPages(PAGE);
    TwoPages();
    NamedOne(vm.pager.mem, vm.spaces[SPACE].tree);
    OnlyPresent(vm.Now());
    FreedOne(vm.pager.phys.Free(), page);
    ok := vm.Unmap(SPACE, root, VA, PAGE_SIZE, true);
    forall w: nat | PAGE < w < PAGE + 512 ensures Leaf(vm.pager.mem, vm.spaces[SPACE].tree, w).None? { UserPages(w); }
    Reuse(vm, root, page);
    NamedOne(vm.pager.mem, vm.spaces[SPACE].tree);
    Harmful(vm.Now(), page);
    ok := vm.Unmap(SPACE, root, VA, PAGE_SIZE, true);
  }

  lemma NamedOne(m: Mem, tree: Tree)
    requires Desc(m, tree, PAGE).Some?
    ensures Named(m, tree, PAGE, PAGE + 1) == {Desc(m, tree, PAGE).value.frame}
  {
    assert Desc(m, tree, PAGE).value.frame in Named(m, tree, PAGE, PAGE + 1);
  }

  lemma FreedOne(free: set<nat>, page: nat)
    ensures |free + {page}| <= |free| + 1
  {
    assert page in free ==> free + {page} == free;
  }

  lemma OnlyPresent(s: State)
    requires SPACE in s.spaces && Desc(s.mem, s.spaces[SPACE].tree, PAGE).Some?
    requires Desc(s.mem, s.spaces[SPACE].tree, PAGE).value.present
    ensures StaleHarmless(s, SPACE, VA, PAGE_SIZE)
  {
    TwoPages();
  }

  lemma Harmful(s: State, page: nat)
    requires SPACE in s.spaces && Taken(s, page) && page !in s.free
    requires var d := Desc(s.mem, s.spaces[SPACE].tree, PAGE); d.Some? && !d.value.present && d.value.frame == page
    ensures !StaleHarmless(s, SPACE, VA, PAGE_SIZE)
  {
    hide Desc, Maps;
    TwoPages();
    assert InRange(PAGE, VA, PAGE_SIZE);
    if w: nat :| w != PAGE && s.Mapped(SPACE, w, page) {
      assert !InRange(w, VA, PAGE_SIZE);
    }
  }

  // ---------- a slot filled after the copy

  const KERNEL: nat := 0
  const KPAGE: nat := ALL - HALF      // the first page of the kernel half

  // The root slots of the kernel's areas
  function Upper(): set<nat> {
    Frames(256, 509)
  }

  lemma KernelPage()
    ensures Index(KPAGE, 3) == 256 && 256 in Upper() && Canonical(KPAGE) && LeafPos(KPAGE).a == 256
  {
    Digits(KPAGE);
    assert Within(256, 256, 509);
  }

  // A kernel and a user address space, the user's root with the kernel's entries
  method TwoSpaces() returns (vm: Vm, kernel: nat, user: nat)
    ensures fresh(vm) && fresh(vm.pager) && fresh(vm.pager.phys.bits) && fresh(vm.pager.phys.list)
    ensures vm.Valid() && KERNEL in vm.spaces && vm.spaces[KERNEL] == Space(Upper(), Bare(kernel))
    ensures SPACE in vm.spaces && vm.spaces[SPACE] == Space(Lower(), Bare(user))
    ensures Bare(kernel)[P3] == kernel && Bare(user)[P3] == user && Bare(kernel).Keys == {P3}
    ensures |vm.pager.phys.Free()| == 13 && vm.Now().Shared(SPACE, KERNEL, Upper())
  {
    hide Owned, Allocator.Valid, State.Shared, State.Mapped;
    vm := Boot(seq(ENTRIES, _ => EMPTY));
    FramesSize(LO, HI);
    ghost var usable;
    kernel, usable := vm.NewSpace(KERNEL, Upper());
    assert usable && |vm.pager.phys.Free()| == 14;
    user, usable := vm.NewSpace(SPACE, Lower());
    assert usable;
    vm.HigherHalf(SPACE, KERNEL, user, kernel);
  }

  /** The kernel demands its first page after the copy: its root translates the page, the user's does not,
      and the slot is shared no more. */
  method LateSlot() returns (vm: Vm, kernel: nat, user: nat)
    ensures vm.Valid() && !vm.Now().Shared(SPACE, KERNEL, Upper())
    ensures Translate(vm.pager.mem, kernel, KPAGE).Some? && Translate(vm.pager.mem, user, KPAGE).None?
  {
    hide Owned, Allocator.Valid, State.Shared, Index, Canonical, Shape, Bare, Upper, Missing, Leaf, KeepsSharing;
    vm, kernel, user := TwoSpaces();
    KernelPage();
    ghost var s := vm.Now();
    NoTables(s.mem, kernel, KPAGE);
    var ok;
    ghost var page;
    ok, page := vm.OnDemand(KERNEL, kernel, KPAGE, FLAGS);
    TakenSize(page, s.free);
    assert ok;
    LateSlotSeen(s, vm.Now(), page, vm.pager.nx);
  }

  lemma TakenSize(page: nat, free: set<nat>)
    requires FromFree(page, free) && |free| == 13
    ensures |free - {page}| == 12
  {
  }

  lemma LateSlotSeen(s: State, s': State, page: nat, nx: bool)
    requires Owned(s) && Owned(s') && Step(s, s', KERNEL) && SharingExact(s, s', KERNEL, {256})
    requires s.Shared(SPACE, KERNEL, Upper()) && s.spaces[KERNEL].tree.Keys == {P3} && s.spaces[KERNEL].slots == Upper()
    requires Desc(s'.mem, s'.spaces[KERNEL].tree, KPAGE) == Some(Descriptor(page, FLAGS, nx))
    ensures !s'.Shared(SPACE, KERNEL, Upper())
    ensures P3 in s'.spaces[KERNEL].tree && Translate(s'.mem, s'.spaces[KERNEL].tree[P3], KPAGE).Some?
    ensures P3 in s.spaces[SPACE].tree && Translate(s'.mem, s.spaces[SPACE].tree[P3], KPAGE).None?
  {
    hide Shape, Index, Canonical;
    KernelPage();
    assert 256 in {256} * Upper() && P2(256) !in s.spaces[KERNEL].tree;
    var user := s.spaces[SPACE].tree[P3];
    assert Shares(s.mem, user, s.spaces[KERNEL].tree, 256);
    assert user in s.spaces[SPACE].tree.Values && s'.mem[user] == s.mem[user];
    LateSlotDiffers(s'.mem, Upper(), s'.spaces[KERNEL].tree, user, KPAGE);
  }
}
