/**
 Four-level page tables as values: the radix tree of table frames, what it
 translates, and how single entry writes change that
 (kernel/arch/x86-64/memory/vm.c, kernel/include/kernel/arch/x86-64/memory_layout.h).
 */
module PageTables {

  // The fields of pte_t and pdpte_t that the code reads or writes; `large` is
  // bit 7, the page-size bit above the last level
  datatype Entry = Entry(present: bool, writable: bool, user: bool, large: bool, noExec: bool, frame: nat)

  const ENTRIES: nat := 512
  const EMPTY: Entry := Entry(false, false, false, false, false, 0)

  // Physical memory seen as tables of 512 entries, by frame number
  type Mem = map<nat, seq<Entry>>

  // The place of a table in the tree: the indices taken from the root to it
  datatype Pos = P3 | P2(a: nat) | P1(a: nat, b: nat) | P0(a: nat, b: nat, c: nat)
  {
    // The table below entry `i`
    function Child(i: nat): Pos
      requires !P0?
    {
      match this
      case P3 => P2(i)
      case P2(a) => P1(a, i)
      case P1(a, b) => P0(a, b, i)
    }

    function Up(): Pos
      requires !P3?
    {
      match this
      case P2(_) => P3
      case P1(a, _) => P2(a)
      case P0(a, b, _) => P1(a, b)
    }

    // The index of this table in the one above
    function Slot(): nat
      requires !P3?
    {
      match this
      case P2(a) => a
      case P1(_, b) => b
      case P0(_, _, c) => c
    }

    // The root slot that leads here
    function Top(): nat
      requires !P3?
    {
      a
    }
  }

  type Tree = map<Pos, nat>

  // An entry that links the table `f`
  predicate Links(e: Entry, f: nat) {
    e.present && !e.large && e.frame == f
  }

  predicate IsTable(m: Mem, f: nat) {
    f in m && |m[f]| == ENTRIES
  }

  /** Below the root slots `slots`, the present entries of the tables form the
      tree `tree`, whose frames are all different. */
  ghost predicate Shape(m: Mem, slots: set<nat>, tree: Tree) {
    && P3 in tree
    && (forall p :: p in tree ==> IsTable(m, tree[p]))
    && (forall p :: p in tree && !p.P3? ==> Hangs(m, slots, tree, p))
    && (forall p, i :: p in tree && !p.P0? && 0 <= i < ENTRIES && (p.P3? ==> i in slots) && m[tree[p]][i].present ==>
          p.Child(i) in tree)
    && (forall p, q :: p in tree && q in tree && tree[p] == tree[q] ==> p == q)
  }

  // Table `p` is linked from the one above it
  predicate Hangs(m: Mem, slots: set<nat>, tree: Tree, p: Pos)
    requires p in tree && !p.P3?
  {
    p.Top() in slots && p.Slot() < ENTRIES && p.Up() in tree && IsTable(m, tree[p.Up()])
    && Links(m[tree[p.Up()]][p.Slot()], tree[p])
  }

  // ---------- virtual pages

  // VA2INDEX of the page with number `v` (memory_layout.h:24)
  function Index(v: nat, level: nat): (i: nat)
    ensures i < ENTRIES
    decreases level
  {
    if level == 0 then v % ENTRIES else Index(v / ENTRIES, level - 1)
  }

  function LeafPos(v: nat): Pos {
    P0(Index(v, 3), Index(v, 2), Index(v, 1))
  }

  const HALF: nat := 0x8_0000_0000      // 2^35 pages in each canonical half
  const ALL: nat := 0x10_0000_0000_0000 // 2^52 pages in 64 bits

  // The page numbers of canonical addresses
  predicate Canonical(v: nat) {
    v < HALF || ALL - HALF <= v < ALL
  }

  // The four indices are the digits of the page number
  lemma Digits(v: nat)
    ensures Index(v, 0) == v % 512 && Index(v, 1) == v / 512 % 512
    ensures Index(v, 2) == v / 512 / 512 % 512 && Index(v, 3) == v / 512 / 512 / 512 % 512
  {
  }

  // What is left above the last three digits tells the halves apart
  lemma HighPart(v: nat)
    requires Canonical(v)
    ensures var c := v / 512 / 512 / 512; c < 256 || 0x1FF_FF00 <= c < 0x200_0000
  {
  }

  lemma SameQuotient(x: nat, y: nat)
    requires x / 512 == y / 512 && x % 512 == y % 512
    ensures x == y
  {
  }

  lemma SameHigh(c: nat, d: nat)
    requires c < 256 || 0x1FF_FF00 <= c < 0x200_0000
    requires d < 256 || 0x1FF_FF00 <= d < 0x200_0000
    requires c % 512 == d % 512
    ensures c == d
  {
  }

  /** Different canonical pages have different descriptor slots. */
  lemma SlotsDiffer(v: nat, w: nat)
    requires Canonical(v) && Canonical(w) && LeafPos(v) == LeafPos(w) && Index(v, 0) == Index(w, 0)
    ensures v == w
  {
    hide Index, Canonical;
    Digits(v);
    Digits(w);
    HighPart(v);
    HighPart(w);
    SameHigh(v / 512 / 512 / 512, w / 512 / 512 / 512);
    SameQuotient(v / 512 / 512, w / 512 / 512);
    SameQuotient(v / 512, w / 512);
    SameQuotient(v, w);
  }

  // ---------- translation

  datatype Option<T> = None | Some(value: T)

  // What is left of the rights in `d` below the link `e`: writes and user accesses must be allowed at
  // every level, and a fetch is forbidden if any level forbids it
  function Under(e: Entry, d: Option<Entry>): Option<Entry> {
    if d.None? then None
    else Some(d.value.(writable := e.writable && d.value.writable, user := e.user && d.value.user,
                       noExec := e.noExec || d.value.noExec))
  }

  // The hardware walk: Intel SDM volume 3, 4-level paging.  The result has the frame and the rights
  // that an access has
  function Walk(m: Mem, f: nat, v: nat, level: nat): Option<Entry>
    decreases level
  {
    if !IsTable(m, f) then None
    else
      var e := m[f][Index(v, level)];
      if !e.present then None
      else if level == 0 || e.large then Some(e)
      else Under(e, Walk(m, e.frame, v, level - 1))
  }

  function Translate(m: Mem, root: nat, v: nat): Option<Entry> {
    Walk(m, root, v, 3)
  }

  // The descriptor of page `v`, present or not, if there is a table for it
  function Desc(m: Mem, tree: Tree, v: nat): Option<Entry> {
    var p := LeafPos(v);
    if p in tree && IsTable(m, tree[p]) then Some(m[tree[p]][Index(v, 0)]) else None
  }

  // What the tree translates `v` to
  function Leaf(m: Mem, tree: Tree, v: nat): Option<Entry> {
    var d := Desc(m, tree, v);
    if d.Some? && d.value.present then d else None
  }

  // ---------- the rights on the way

  // The entry that links table `p`
  function LinkOf(m: Mem, tree: Tree, p: Pos): Option<Entry> {
    if !p.P3? && p in tree && p.Up() in tree && IsTable(m, tree[p.Up()]) && p.Slot() < ENTRIES
    then Some(m[tree[p.Up()]][p.Slot()]) else None
  }

  // ... takes no right away
  predicate Open(e: Entry) {
    e.writable && e.user && !e.noExec
  }

  // What the link of table `p`, if there is one, leaves of the rights in `d`
  function Below(m: Mem, tree: Tree, p: Pos, d: Option<Entry>): Option<Entry> {
    var l := LinkOf(m, tree, p);
    if l.None? then d else Under(l.value, d)
  }

  // What the links on the way to page `v` leave of the rights in `d`
  function Through(m: Mem, tree: Tree, v: nat, d: Option<Entry>): Option<Entry> {
    var a, b, c := Index(v, 3), Index(v, 2), Index(v, 1);
    Below(m, tree, P2(a), Below(m, tree, P1(a, b), Below(m, tree, P0(a, b, c), d)))
  }

  predicate OpenAt(m: Mem, tree: Tree, p: Pos) {
    LinkOf(m, tree, p).Some? ==> Open(LinkOf(m, tree, p).value)
  }

  // The links on the way to page `v` that exist take no right away
  predicate OpenWay(m: Mem, tree: Tree, v: nat) {
    var a, b, c := Index(v, 3), Index(v, 2), Index(v, 1);
    OpenAt(m, tree, P2(a)) && OpenAt(m, tree, P1(a, b)) && OpenAt(m, tree, P0(a, b, c))
  }

  // No link of the tree takes a right away
  ghost predicate AllOpen(m: Mem, tree: Tree) {
    forall p :: p in tree ==> OpenAt(m, tree, p)
  }

  lemma OpenThrough(m: Mem, tree: Tree, v: nat, d: Option<Entry>)
    requires OpenWay(m, tree, v)
    ensures Through(m, tree, v, d) == d
  {
  }

  lemma AllOpenWay(m: Mem, tree: Tree, v: nat)
    requires AllOpen(m, tree)
    ensures OpenWay(m, tree, v)
  {
  }

  predicate Extends(t: Tree, t': Tree) {
    forall p :: p in t ==> p in t' && t'[p] == t[p]
  }

  // The links of the tables in `t` are the same, and those of new tables take no right away
  ghost predicate SameLinks(m: Mem, t: Tree, m': Mem, t': Tree) {
    forall p :: p in t' && !p.P3? ==>
      if p in t then LinkOf(m', t', p) == LinkOf(m, t, p)
      else LinkOf(m', t', p).Some? && Open(LinkOf(m', t', p).value)
  }

  lemma SameLinksTwice(m: Mem, t: Tree, m1: Mem, t1: Tree, m2: Mem, t2: Tree)
    requires SameLinks(m, t, m1, t1) && SameLinks(m1, t1, m2, t2) && Extends(t, t1) && Extends(t1, t2)
    ensures SameLinks(m, t, m2, t2)
  {
    hide LinkOf;
  }

  lemma BelowKept(m: Mem, t: Tree, m': Mem, t': Tree, p: Pos, d: Option<Entry>)
    requires SameLinks(m, t, m', t') && Extends(t, t')
    ensures Below(m', t', p, d) == Below(m, t, p, d) && (OpenAt(m, t, p) ==> OpenAt(m', t', p))
  {
  }

  // Growth takes no right away from a page
  lemma ThroughKept(m: Mem, t: Tree, m': Mem, t': Tree, v: nat, d: Option<Entry>)
    requires SameLinks(m, t, m', t') && Extends(t, t')
    ensures Through(m', t', v, d) == Through(m, t, v, d) && (OpenWay(m, t, v) ==> OpenWay(m', t', v))
  {
    hide Below, OpenAt, SameLinks, Extends;
    var a, b, c := Index(v, 3), Index(v, 2), Index(v, 1);
    var d0 := Below(m, t, P0(a, b, c), d);
    BelowKept(m, t, m', t', P0(a, b, c), d);
    BelowKept(m, t, m', t', P1(a, b), d0);
    BelowKept(m, t, m', t', P2(a), Below(m, t, P1(a, b), d0));
  }

  lemma AllOpenKept(m: Mem, t: Tree, m': Mem, t': Tree)
    requires AllOpen(m, t) && SameLinks(m, t, m', t')
    ensures AllOpen(m', t')
  {
    forall p | p in t' ensures OpenAt(m', t', p) {
      if p in t { assert OpenAt(m, t, p); }
    }
  }

  // Page `v` has the descriptor it had, or a cleared one in a new table
  predicate Kept(m: Mem, tree: Tree, m': Mem, tree': Tree, v: nat) {
    Desc(m', tree', v) ==
      if LeafPos(v) in tree' && LeafPos(v) !in tree then Some(EMPTY) else Desc(m, tree, v)
  }

  lemma KeptLeaf(m: Mem, tree: Tree, m': Mem, tree': Tree, v: nat)
    requires Kept(m, tree, m', tree', v)
    ensures Leaf(m', tree', v) == Leaf(m, tree, v)
  {
  }

  lemma KeptTwice(m: Mem, tree: Tree, m1: Mem, tree1: Tree, m2: Mem, tree2: Tree, v: nat)
    requires Kept(m, tree, m1, tree1, v) && Kept(m1, tree1, m2, tree2, v)
    requires LeafPos(v) in tree ==> LeafPos(v) in tree1
    requires LeafPos(v) in tree1 ==> LeafPos(v) in tree2
    ensures Kept(m, tree, m2, tree2, v)
  {
  }

  // ---------- what a change leaves alone

  // Both memories agree on every frame outside `used`
  ghost predicate Agrees(m: Mem, m': Mem, used: set<nat>) {
    forall f :: f !in used ==> (f in m <==> f in m') && (f in m ==> m'[f] == m[f])
  }

  // The tables that the hardware walk from table `f` visits
  function Path(m: Mem, f: nat, v: nat, level: nat): set<nat>
    decreases level
  {
    {f} +
    if !IsTable(m, f) || level == 0 then {}
    else
      var e := m[f][Index(v, level)];
      if e.present && !e.large then Path(m, e.frame, v, level - 1) else {}
  }

  // Below the root, the walk for `v` keeps away from `used`
  predicate Elsewhere(m: Mem, root: nat, v: nat, used: set<nat>) {
    IsTable(m, root) &&
    var e := m[root][Index(v, 3)];
    e.present && !e.large ==> Path(m, e.frame, v, 2) !! used
  }

  lemma {:induction false} WalkSame(m: Mem, m': Mem, f: nat, v: nat, level: nat, used: set<nat>)
    requires Agrees(m, m', used) && Path(m, f, v, level) !! used
    ensures Walk(m', f, v, level) == Walk(m, f, v, level)
    decreases level
  {
    if IsTable(m, f) && level > 0 {
      var e := m[f][Index(v, level)];
      if e.present && !e.large { WalkSame(m, m', e.frame, v, level - 1, used); }
    }
  }

  /** A page outside the slots that a change works on is translated as before. */
  lemma ElsewhereSame(m: Mem, m': Mem, root: nat, v: nat, used: set<nat>)
    requires Agrees(m, m', used) && Elsewhere(m, root, v, used) && IsTable(m', root)
    requires m'[root][Index(v, 3)] == m[root][Index(v, 3)]
    ensures Translate(m', root, v) == Translate(m, root, v)
  {
    var e := m[root][Index(v, 3)];
    if e.present && !e.large { WalkSame(m, m', e.frame, v, 2, used); }
  }

  /** In a well-shaped tree the hardware finds exactly the leaf that the tree names, with the rights that
      the links on the way leave of it. */
  lemma TranslateIsLeaf(m: Mem, slots: set<nat>, tree: Tree, v: nat)
    requires Shape(m, slots, tree) && Index(v, 3) in slots
    ensures Translate(m, tree[P3], v) == Through(m, tree, v, Leaf(m, tree, v))
  {
    hide LinkOf, Shape, Index;
    AllTables(m, slots, tree, P3);
    var a, b, c := Index(v, 3), Index(v, 2), Index(v, 1);
    WalkStep(m, slots, tree, P3, v, 3);
    if P2(a) in tree {
      WalkStep(m, slots, tree, P2(a), v, 2);
      if P1(a, b) in tree {
        WalkStep(m, slots, tree, P1(a, b), v, 1);
        if P0(a, b, c) in tree { AllTables(m, slots, tree, P0(a, b, c)); }
      }
    }
    NotBelow(m, slots, tree, v);
  }

  lemma AllTables(m: Mem, slots: set<nat>, tree: Tree, p: Pos)
    requires Shape(m, slots, tree) && (p.P3? || p in tree)
    ensures p in tree && IsTable(m, tree[p])
  {
  }

  lemma WalkStep(m: Mem, slots: set<nat>, tree: Tree, p: Pos, v: nat, level: nat)
    requires Shape(m, slots, tree) && p in tree && !p.P0? && level > 0
    requires p.P3? ==> Index(v, level) in slots
    ensures var q := p.Child(Index(v, level));
      Walk(m, tree[p], v, level) == if q in tree then Below(m, tree, q, Walk(m, tree[q], v, level - 1)) else None
  {
    var q := p.Child(Index(v, level));
    if q in tree { assert Hangs(m, slots, tree, q); }
  }

  // The tree is closed upwards
  lemma NotBelow(m: Mem, slots: set<nat>, tree: Tree, v: nat)
    requires Shape(m, slots, tree)
    ensures LeafPos(v) in tree ==> LeafPos(v).Up() in tree && LeafPos(v).Up().Up() in tree
  {
  }

  // ---------- single writes

  function Put(m: Mem, f: nat, i: nat, e: Entry): Mem
    requires IsTable(m, f) && i < ENTRIES
  {
    m[f := m[f][i := e]]
  }

  // What walk stores for a new table (vm.c:118-121), and the cleared table itself
  function Link(f: nat): Entry { Entry(true, true, true, false, false, f) }

  function Cleared(): seq<Entry> { seq(ENTRIES, _ => EMPTY) }

  function Linked(m: Mem, tree: Tree, p: Pos, i: nat, f: nat): Mem
    requires p in tree && IsTable(m, tree[p]) && i < ENTRIES
  {
    Put(m, tree[p], i, Link(f))[f := Cleared()]
  }

  /** Linking a cleared fresh frame keeps the shape and translates nothing new. */
  lemma LinkKeeps(m: Mem, slots: set<nat>, tree: Tree, p: Pos, i: nat, f: nat)
    requires Shape(m, slots, tree) && p in tree && !p.P0? && i < ENTRIES
    requires (if p.P3? then i else p.Top()) in slots
    requires !m[tree[p]][i].present && f !in tree.Values
    ensures Shape(Linked(m, tree, p, i, f), slots, tree[p.Child(i) := f])
    ensures var m', tree' := Linked(m, tree, p, i, f), tree[p.Child(i) := f];
      (forall v :: Kept(m, tree, m', tree', v)) && SameLinks(m, tree, m', tree')
    ensures LinkOf(Linked(m, tree, p, i, f), tree[p.Child(i) := f], p.Child(i)) ==
      Some(Entry(true, true, true, false, false, f))
    ensures !p.P3? ==> Linked(m, tree, p, i, f)[tree[P3]] == m[tree[P3]]
  {
    var c, m', tree' := p.Child(i), Linked(m, tree, p, i, f), tree[p.Child(i) := f];
    assert c in tree ==> Hangs(m, slots, tree, c);
    forall q | q in tree ensures tree[q] != f { assert tree[q] in tree.Values; }
    forall q | q in tree && q != p ensures m'[tree[q]] == m[tree[q]] {}
    LinkShape(m, slots, tree, p, i, f);
    LinkLinks(m, slots, tree, p, i, f);
    forall v ensures Kept(m, tree, m', tree', v) {
      var q := LeafPos(v);
      if q in tree { assert q != p && m'[tree[q]] == m[tree[q]]; }
    }
  }

  lemma LinkShape(m: Mem, slots: set<nat>, tree: Tree, p: Pos, i: nat, f: nat)
    requires Shape(m, slots, tree) && p in tree && !p.P0? && i < ENTRIES
    requires (if p.P3? then i else p.Top()) in slots
    requires !m[tree[p]][i].present && p.Child(i) !in tree
    requires forall q :: q in tree ==> tree[q] != f
    ensures Shape(Linked(m, tree, p, i, f), slots, tree[p.Child(i) := f])
  {
    var c, m', tree' := p.Child(i), Linked(m, tree, p, i, f), tree[p.Child(i) := f];
    LinkEntries(m, slots, tree, p, i, f);
    forall q | q in tree' && !q.P3? ensures Hangs(m', slots, tree', q) {
      LinkHangs(m, slots, tree, p, i, f, q);
    }
  }

  // The entries of the tables after linking: one more is present
  lemma LinkEntries(m: Mem, slots: set<nat>, tree: Tree, p: Pos, i: nat, f: nat)
    requires Shape(m, slots, tree) && p in tree && !p.P0? && i < ENTRIES && p.Child(i) !in tree
    requires forall q :: q in tree ==> tree[q] != f
    ensures var m' := Linked(m, tree, p, i, f);
      && IsTable(m', f) && (forall j :: 0 <= j < ENTRIES ==> m'[f][j] == EMPTY)
      && (forall q :: q in tree ==> IsTable(m', tree[q]))
      && (forall q, j :: q in tree && 0 <= j < ENTRIES ==>
            m'[tree[q]][j] == if q == p && j == i then Link(f) else m[tree[q]][j])
  {
  }

  // One link is new
  lemma LinkLinks(m: Mem, slots: set<nat>, tree: Tree, p: Pos, i: nat, f: nat)
    requires Shape(m, slots, tree) && p in tree && !p.P0? && i < ENTRIES && p.Child(i) !in tree
    requires forall q :: q in tree ==> tree[q] != f
    ensures var m', tree' := Linked(m, tree, p, i, f), tree[p.Child(i) := f];
      SameLinks(m, tree, m', tree') && LinkOf(m', tree', p.Child(i)) == Some(Entry(true, true, true, false, false, f))
  {
    LinkEntries(m, slots, tree, p, i, f);
    var m', tree' := Linked(m, tree, p, i, f), tree[p.Child(i) := f];
    forall q | q in tree && !q.P3? ensures LinkOf(m', tree', q) == LinkOf(m, tree, q) {
      assert Hangs(m, slots, tree, q);
      assert q.Up() == p ==> q.Slot() != i;
    }
  }

  lemma LinkHangs(m: Mem, slots: set<nat>, tree: Tree, p: Pos, i: nat, f: nat, q: Pos)
    requires Shape(m, slots, tree) && p in tree && !p.P0? && i < ENTRIES
    requires (if p.P3? then i else p.Top()) in slots
    requires !m[tree[p]][i].present && p.Child(i) !in tree
    requires forall q :: q in tree ==> tree[q] != f
    requires q in tree[p.Child(i) := f] && !q.P3?
    ensures Hangs(Linked(m, tree, p, i, f), slots, tree[p.Child(i) := f], q)
  {
    LinkEntries(m, slots, tree, p, i, f);
    if q != p.Child(i) {
      assert Hangs(m, slots, tree, q);
      assert q.Up() == p ==> q.Slot() != i;
    }
  }

  lemma Apart(v: nat, w: nat)
    requires Canonical(v) && Canonical(w) && v != w
    ensures LeafPos(v) != LeafPos(w) || Index(v, 0) != Index(w, 0)
  {
    if LeafPos(v) == LeafPos(w) && Index(v, 0) == Index(w, 0) { SlotsDiffer(v, w); }
  }

  /** Writing one descriptor changes the translation of that page only. */
  lemma DescriptorWrite(m: Mem, slots: set<nat>, tree: Tree, v: nat, e: Entry)
    requires Shape(m, slots, tree) && LeafPos(v) in tree && Canonical(v)
    ensures var m' := Put(m, tree[LeafPos(v)], Index(v, 0), e);
      && Shape(m', slots, tree) && Desc(m', tree, v) == Some(e) && m'[tree[P3]] == m[tree[P3]]
      && SameLinks(m, tree, m', tree)
      && forall w :: Canonical(w) && w != v ==> Kept(m, tree, m', tree, w)
  {
    hide Index, Canonical;
    var p, i := LeafPos(v), Index(v, 0);
    var m' := Put(m, tree[p], i, e);
    DescriptorShape(m, slots, tree, p, i, e);
    forall w | Canonical(w) && w != v ensures Kept(m, tree, m', tree, w) {
      Apart(v, w);
      if LeafPos(w) in tree && LeafPos(w) != p { assert m'[tree[LeafPos(w)]] == m[tree[LeafPos(w)]]; }
    }
  }

  lemma DescriptorShape(m: Mem, slots: set<nat>, tree: Tree, p: Pos, i: nat, e: Entry)
    requires Shape(m, slots, tree) && p in tree && p.P0? && i < ENTRIES
    ensures Shape(Put(m, tree[p], i, e), slots, tree)
    ensures forall q :: q in tree && q != p ==> Put(m, tree[p], i, e)[tree[q]] == m[tree[q]]
    ensures SameLinks(m, tree, Put(m, tree[p], i, e), tree)
  {
    var m' := Put(m, tree[p], i, e);
    forall q | q in tree && !q.P3? ensures Hangs(m', slots, tree, q) {
      assert Hangs(m, slots, tree, q);
      assert q.Up() != p;
    }
    forall q, j | q in tree && !q.P0? && 0 <= j < ENTRIES && (q.P3? ==> j in slots) && m'[tree[q]][j].present
      ensures q.Child(j) in tree
    {
      assert q != p;
    }
  }
}
