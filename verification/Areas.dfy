/**
 kernel/memory/vmm.c: the areas of one address space, kept in a doubly linked
 list whose nodes are slots of page-sized containers.
 */
module Areas {
  import opened Words

  const ITEM_PER_CONTAINER: nat := 102   // PAGE_SIZE / sizeof(memory_area_t)
  const USER: u8 := 2                    // MEMORY_FLAG_USER

  // ---------- where an area goes

  datatype Place = Nowhere | Place(start: u64, size: u64)

  // vmm_alloc_at (vmm.c:54-106): the gap search only ever ends with nothing found
  function PlaceFor(low: u64, base: u64, high: u64, sz: u64): Place {
    var length := PageEnd(Wrap(sz - 1));
    var found := if low < PageStart(base) then PageStart(base) else low;
    if Wrap(found + length) > high || found == 0 then Nowhere else Place(found, Wrap(length + 1))
  }

  // The request neither is empty nor runs over the end of the address space
  predicate NoWrap(low: u64, base: u64, sz: u64) {
    sz > 0 && low + PageEnd(sz - 1) < TWO_64 && PageStart(base) + PageEnd(sz - 1) < TWO_64
  }

  // Whole pages in bounds that start at `low` or at the page of `base`, whichever is greater, at least
  // as many bytes as asked for and not a page more
  predicate Serves(p: Place, low: u64, base: u64, high: u64, sz: u64) {
    && p.Place? && p.start % PAGE_SIZE == 0 && p.size % PAGE_SIZE == 0
    && low <= p.start && PageStart(base) <= p.start && (p.start == low || p.start == PageStart(base))
    && p.start + p.size <= high && 0 < sz <= p.size < sz + PAGE_SIZE
  }

  /** When nothing wraps around, a place is found exactly if the bytes asked for fit below `high`. */
  lemma PlaceFits(low: u64, base: u64, high: u64, sz: u64)
    requires 0 < low && low % PAGE_SIZE == 0 && high % PAGE_SIZE == 0 && NoWrap(low, base, sz)
    ensures PlaceFor(low, base, high, sz).Place? <==> low + sz <= high && PageStart(base) + sz <= high
  {
    var found, length := if low < PageStart(base) then PageStart(base) else low, PageEnd(sz - 1);
    assert Wrap(sz - 1) == sz - 1 && Wrap(found + length) == found + length;
    Fits(found, length, sz, high);
  }

  lemma Fits(found: nat, length: nat, sz: nat, high: nat)
    requires found % PAGE_SIZE == 0 && high % PAGE_SIZE == 0 && (length + 1) % PAGE_SIZE == 0
    requires sz <= length + 1 < sz + PAGE_SIZE
    ensures found + length <= high <==> found + sz <= high
  {
  }

  /** A place given serves the request exactly when the sum did not wrap around. */
  lemma PlaceExact(low: u64, base: u64, high: u64, sz: u64)
    requires low % PAGE_SIZE == 0 && high % PAGE_SIZE == 0 && PlaceFor(low, base, high, sz).Place?
    ensures Serves(PlaceFor(low, base, high, sz), low, base, high, sz) <==> NoWrap(low, base, sz)
  {
    var found, length := if low < PageStart(base) then PageStart(base) else low, PageEnd(Wrap(sz - 1));
    if sz > 0 {
      assert Wrap(sz - 1) == sz - 1;
      if found + length < TWO_64 {
        assert Wrap(found + length) == found + length;
        assert (found + length) % PAGE_SIZE == PAGE_SIZE - 1;
      } else if length + 1 < TWO_64 {
        assert Wrap(length + 1) == length + 1;
      } else {
        assert Wrap(length + 1) == 0;
      }
    }
  }

  // An empty request is given an empty place
  lemma PlaceEmpty(low: u64, base: u64, high: u64)
    requires low % PAGE_SIZE == 0 && high % PAGE_SIZE == 0 && PlaceFor(low, base, high, 0).Place?
    ensures var p := PlaceFor(low, base, high, 0); p.start % PAGE_SIZE == 0 && low <= p.start <= high && p.size == 0
  {
  }

  lemma PlaceAligned(low: u64, base: u64, high: u64, sz: u64)
    requires low % PAGE_SIZE == 0 && PlaceFor(low, base, high, sz).Place?
    ensures var p := PlaceFor(low, base, high, sz);
      p.start % PAGE_SIZE == 0 && p.size % PAGE_SIZE == 0 && low <= p.start
  {
    WholePages(PageEnd(Wrap(sz - 1)) + 1);
  }

  lemma WholePages(n: nat)
    requires n <= TWO_64 && n % PAGE_SIZE == 0
    ensures Wrap(n) % PAGE_SIZE == 0
  {
    assert n < TWO_64 ==> Wrap(n) == n;
    assert n == TWO_64 ==> Wrap(n) == 0;
  }

  /** A request in a user address space that wraps around: nearly 2^64 bytes are granted from 2 MiB on. */
  lemma WrappingRequest()
    ensures var p := PlaceFor(0x20_0000, 0, 0x8000_0000_1000, TWO_64 - 0x10_0000);
      p == Place(0x20_0000, TWO_64 - 0x10_0000) && !Serves(p, 0x20_0000, 0, 0x8000_0000_1000, TWO_64 - 0x10_0000)
  {
    var sz := TWO_64 - 0x10_0000;
    assert Wrap(sz - 1) == sz - 1 && PageEnd(sz - 1) == sz - 1;
    assert Wrap(0x20_0000 + (sz - 1)) == 0xF_FFFF;
    assert Wrap(sz) == sz;
  }

  // ---------- the list

  class Area {
    var start: u64
    var size: u64
    var flags: u8
    var isMmio: bool
    var next: Area?
    var prev: Area?

    // A slot of a page from kalloc: it holds whatever the page held
    constructor (mmio: bool)
      ensures isMmio == mmio
    {
      start, size, flags, isMmio, next, prev := 0, 0, 0, mmio, null, null;
    }

    function AsSpan(): Span reads this`start, this`size, this`flags { Span(start, size, flags) }

    predicate Has(va: u64) reads this { start <= va < start + size }
  }

  // vmm_container_t in a page from kalloc: `next` holds whatever the page held
  class Container {
    const slots: seq<Area>
    var next: Container?

    constructor (areas: seq<Area>, link: Container?)
      ensures slots == areas && next == link
    {
      slots, next := areas, link;
    }
  }

  function At(s: seq<Area>, i: int): Area? {
    if 0 <= i < |s| then s[i] else null
  }

  ghost predicate Hooked(s: seq<Area>, i: nat)
    requires i < |s|
    reads s`next, s`prev
  {
    s[i].next == At(s, i + 1) && s[i].prev == At(s, i - 1)
  }

  ghost predicate Linked(s: seq<Area>)
    reads s`next, s`prev
  {
    && (forall i, j :: 0 <= i < j < |s| ==> s[i] != s[j])
    && forall i :: 0 <= i < |s| ==> Hooked(s, i)
  }

  // ---------- what the areas cover

  datatype Span = Span(start: u64, size: u64, flags: u8)
  {
    // Whole pages between `lo` and `hi`
    predicate InBounds(lo: nat, hi: nat) {
      start % PAGE_SIZE == 0 && size % PAGE_SIZE == 0 && lo <= start && start + size <= hi
    }
  }

  ghost function Spans(s: seq<Area>): (r: seq<Span>)
    reads s`start, s`size, s`flags
    ensures |r| == |s| && forall i :: 0 <= i < |s| ==> r[i] == s[i].AsSpan()
  {
    if s == [] then [] else Spans(s[..|s| - 1]) + [s[|s| - 1].AsSpan()]
  }

  lemma SpansAppended(s: seq<Area>, a: Area)
    ensures Spans(s + [a]) == Spans(s) + [a.AsSpan()]
  {
  }

  // In bounds, in address order, disjoint
  predicate Laid(ps: seq<Span>, lo: nat, hi: nat) {
    && (forall i :: 0 <= i < |ps| ==> ps[i].InBounds(lo, hi))
    && forall i, j :: 0 <= i < j < |ps| ==> ps[i].start + ps[i].size <= ps[j].start
  }

  // Nothing reaches beyond `top`
  predicate Below(ps: seq<Span>, top: nat) {
    forall i :: 0 <= i < |ps| ==> ps[i].start + ps[i].size <= top
  }

  function Without<T>(s: seq<T>, i: nat): (r: seq<T>)
    requires i < |s|
    ensures |r| == |s| - 1 && forall k :: 0 <= k < |r| ==> r[k] == s[if k < i then k else k + 1]
  {
    s[..i] + s[i + 1..]
  }

  ghost predicate Chained(cs: seq<Container>, k: nat)
    requires k < |cs|
    reads cs[k]
  {
    k + 1 < |cs| ==> cs[k].next == cs[k + 1]
  }

  ghost predicate Housed(cs: seq<Container>, a: Area) {
    exists c :: c in cs && a in c.slots
  }

  predicate Slotted(c: Container) {
    |c.slots| == ITEM_PER_CONTAINER && forall i, j :: 0 <= i < j < |c.slots| ==> c.slots[i] != c.slots[j]
  }

  lemma SlotTaken(cs: seq<Container>, c: Container, i: nat, issued: set<Area>)
    requires c in cs && Slotted(c) && i < ITEM_PER_CONTAINER
    requires forall m :: i <= m < |c.slots| ==> c.slots[m] !in issued
    ensures |c.slots| == ITEM_PER_CONTAINER && Housed(cs, c.slots[i])
    ensures forall m :: i < m < ITEM_PER_CONTAINER ==> c.slots[m] !in issued + {c.slots[i]}
  {
  }

  class Vmm {
    const user: bool
    const dataStart: u64
    const dataEnd: u64
    var currentIndex: nat
    var rootContainer: Container?
    var currentContainer: Container?
    var currentAddr: u64
    var firstArea: Area?
    var currentArea: Area?
    ghost var areas: seq<Area>          // the live areas, in list order
    ghost var issued: set<Area>         // the slots ever given out
    ghost var containers: seq<Container>

    // Slots come from the containers, and those behind `currentIndex` are new
    ghost predicate SlotsOk()
      reads this`containers, this`issued, this`rootContainer, this`currentContainer, this`currentIndex, containers
    {
      && (containers == [] ==> rootContainer == null && currentContainer == null && issued == {})
      && (containers != [] ==> rootContainer == containers[0] && currentContainer == containers[|containers| - 1])
      && (forall k :: 0 <= k < |containers| ==> Chained(containers, k) && Slotted(containers[k]))
      && (forall k, m :: 0 <= k < m < |containers| ==> containers[k] != containers[m])
      && currentIndex <= ITEM_PER_CONTAINER
      && (forall a :: a in issued ==> Housed(containers, a))
      && (currentContainer != null ==>
            forall i :: currentIndex <= i < |currentContainer.slots| ==> currentContainer.slots[i] !in issued)
    }

    ghost predicate ListOk()
      reads this`areas, this`issued, this`firstArea, this`currentArea, areas`next, areas`prev
    {
      && Linked(areas) && firstArea == At(areas, 0) && currentArea == At(areas, |areas| - 1)
      && forall a :: a in areas ==> a in issued
    }

    // Nothing live lies behind `currentAddr`
    ghost predicate LayoutOk()
      reads this`areas, this`currentAddr, areas`start, areas`size, areas`flags
    {
      && dataStart % PAGE_SIZE == 0 && dataEnd % PAGE_SIZE == 0 && dataStart >= PAGE_SIZE
      && Laid(Spans(areas), dataStart, dataEnd) && Below(Spans(areas), currentAddr + 1)
      && (areas != [] ==> (currentAddr + 1) % PAGE_SIZE == 0 && currentAddr < dataEnd)
    }

    ghost predicate Valid()
      reads this, areas, containers
    {
      SlotsOk() && ListOk() && LayoutOk()
    }

    // vmm_init
    constructor (start: u64, end: u64, u: bool)
      ensures Valid() && areas == [] && issued == {} && user == u
      ensures dataStart == if PageStart(start) == 0 then PAGE_SIZE else PageStart(start)
      ensures if PageEnd(end) + 1 < TWO_64 then end < dataEnd <= end + PAGE_SIZE else dataEnd == 0
    {
      user := u;
      var s := PageStart(start);
      dataStart := if s == 0 then s + PAGE_SIZE else s;
      dataEnd := Wrap(PageEnd(end) + 1);
      currentIndex, rootContainer, currentContainer := 0, null, null;
      currentAddr, firstArea, currentArea := 0, null, null;
      areas, issued, containers := [], {}, [];
    }

    // get_memory_area
    method Lookup(va: u64) returns (r: Area?)
      requires Valid()
      ensures r != null ==> r in areas && r.Has(va)
      ensures r == null ==> forall a :: a in areas ==> !a.Has(va)
    {
      if va > currentAddr { return null; }
      r := firstArea;
      ghost var i := 0;
      while r != null
        invariant i <= |areas| && r == At(areas, i)
        invariant forall k :: 0 <= k < i ==> !areas[k].Has(va)
        decreases |areas| - i
      {
        if r.start <= va && va < r.start + r.size { return; }
        assert Hooked(areas, i);
        r := r.next;
        i := i + 1;
      }
    }

    // The lowest address vmm_alloc_at considers
    function Low(): (r: u64)
      reads this`currentArea, this`currentAddr
    {
      if currentArea == null then dataStart else Wrap(PageEnd(currentAddr) + 1)
    }

    lemma LowOk()
      requires LayoutOk() && ListOk()
      ensures Low() % PAGE_SIZE == 0 && Low() >= PAGE_SIZE
      ensures dataStart <= Low() && Below(Spans(areas), Low())
    {
      assert areas != [] ==> Spans(areas)[0].InBounds(dataStart, dataEnd);
    }

    // A page from kalloc that could become a container: none of it is in use
    ghost predicate Spare(page: Container)
      reads this, containers
    {
      page !in containers && Slotted(page) && forall a :: a in page.slots ==> a !in issued
    }

    // The slots of the current container
    ghost function Room(): seq<Area>
      reads this
    {
      if currentContainer == null then [] else currentContainer.slots
    }

    // vmm_alloc_at (vmm.c:117-131)
    method AddContainer(page: Container)
      requires SlotsOk() && Spare(page)
      modifies this`currentIndex, this`rootContainer, this`currentContainer, this`containers, currentContainer
      ensures SlotsOk() && containers == old(containers) + [page] && currentIndex == 0
    {
      ghost var cs := containers;
      assert forall k :: 0 <= k < |cs| ==> Chained(cs, k) && Slotted(cs[k]);
      if currentContainer != null {
        currentContainer.next := page;
      } else {
        rootContainer := page;
      }
      currentContainer := page;
      currentIndex := 0;
      containers := containers + [page];
      forall k | 0 <= k < |containers| ensures Chained(containers, k) && Slotted(containers[k]) {
        if k < |cs| { assert containers[k] == cs[k] && (k + 1 < |cs| ==> Chained(cs, k)); }
      }
      forall a | a in issued ensures Housed(containers, a) {
        var c :| c in cs && a in c.slots;
        assert c in containers;
      }
    }

    // The next slot of the current container
    method NextSlot() returns (slot: Area)
      requires SlotsOk() && ListOk() && containers != [] && currentIndex < ITEM_PER_CONTAINER
      modifies this`currentIndex, this`issued
      ensures SlotsOk() && ListOk() && slot !in old(issued) && slot !in areas && issued == old(issued) + {slot}
      ensures slot in Room() && currentIndex == old(currentIndex) + 1
      ensures |Room()| == ITEM_PER_CONTAINER && slot == Room()[old(currentIndex)]
    {
      hide Linked, At, Slotted, Housed, Chained;
      assert Slotted(containers[|containers| - 1]);
      SlotTaken(containers, currentContainer, currentIndex, issued);
      slot := currentContainer.slots[currentIndex];
      currentIndex := currentIndex + 1;
      issued := issued + {slot};
    }

    // vmm_alloc_at (vmm.c:115-135)
    method TakeSlot(page: Container) returns (slot: Area)
      requires SlotsOk() && ListOk() && Spare(page)
      modifies this`currentIndex, this`rootContainer, this`currentContainer, this`containers, this`issued,
        currentContainer
      ensures SlotsOk() && ListOk() && slot !in old(issued) && slot !in areas && issued == old(issued) + {slot}
      ensures slot in page.slots || slot in old(Room())
      ensures Next(old(currentIndex), old(containers), old(Room()), page, slot)
    {
      hide ListOk, Slotted, Chained, Housed;
      if currentIndex == ITEM_PER_CONTAINER || rootContainer == null {
        AddContainer(page);
      }
      slot := NextSlot();
    }

    // The slot is the next one of the current container or, when that is full or there is none, the first of
    // the new page, which is chained
    ghost predicate Next(index: nat, cs: seq<Container>, room: seq<Area>, page: Container, slot: Area)
      reads this
    {
      if index == ITEM_PER_CONTAINER || cs == []
      then containers == cs + [page] && currentIndex == 1 && page.slots != [] && slot == page.slots[0]
      else containers == cs && currentIndex == index + 1 && index < |room| && slot == room[index]
    }

    // vmm_alloc_at (vmm.c:141-153), behind the last area
    method Append(slot: Area)
      requires ListOk() && slot in issued && slot !in areas
      modifies this`firstArea, this`currentArea, this`currentAddr, this`areas, areas`next, slot`next, slot`prev
      ensures ListOk() && areas == old(areas) + [slot] && currentAddr == Wrap(slot.start + slot.size - 1)
    {
      ghost var s := areas;
      assert forall i :: 0 <= i < |s| ==> Hooked(s, i);
      slot.next := null;
      slot.prev := currentArea;
      if currentArea != null {
        currentArea.next := slot;
      } else {
        firstArea := slot;
      }
      currentArea := slot;
      currentAddr := Wrap(slot.start + slot.size - 1);
      areas := areas + [slot];
      forall i | 0 <= i < |areas| ensures Hooked(areas, i) {
        if i < |s| { assert old(Hooked(s, i)) && areas[i] == s[i]; }
      }
    }

    // Room behind the last area
    lemma Roomy(p: Span)
      requires LayoutOk() && ListOk() && Low() <= p.start && p.InBounds(0, dataEnd)
      ensures Laid(Spans(areas) + [p], dataStart, dataEnd) && Below(Spans(areas) + [p], p.start + p.size)
      ensures Wrap(p.start + p.size - 1) == p.start + p.size - 1
      ensures dataStart % PAGE_SIZE == 0 && dataEnd % PAGE_SIZE == 0 && dataStart >= PAGE_SIZE
    {
      LowOk();
      LaidAppended(Spans(areas), p, dataStart, dataEnd);
    }

    lemma LayoutNow(s: seq<Area>, slot: Area)
      requires areas == s + [slot] && currentAddr == Wrap(slot.start + slot.size - 1) == slot.start + slot.size - 1
      requires Laid(Spans(s) + [slot.AsSpan()], dataStart, dataEnd)
      requires Below(Spans(s) + [slot.AsSpan()], slot.start + slot.size)
      requires slot.AsSpan().InBounds(0, dataEnd)
      requires dataStart % PAGE_SIZE == 0 && dataEnd % PAGE_SIZE == 0 && dataStart >= PAGE_SIZE
      ensures LayoutOk()
    {
      hide Laid, Below, Spans;
      SpansAppended(s, slot);
    }

    // Filling a slot that is not in use changes nothing
    method Fill(slot: Area, start: u64, size: u64, flags: u8)
      requires slot !in areas
      modifies slot`start, slot`size, slot`flags
      ensures slot.AsSpan() == Span(start, size, WithUser(flags, user))
      ensures Spans(areas) == old(Spans(areas))
    {
      slot.start := start;
      slot.size := size;
      slot.flags := WithUser(flags, user);
    }

    // vmm_alloc_at (vmm.c:136-153)
    method Install(slot: Area, start: u64, size: u64, flags: u8)
      requires ListOk() && LayoutOk() && slot in issued && slot !in areas
      requires Low() <= start && start % PAGE_SIZE == 0 && size % PAGE_SIZE == 0
      modifies this`firstArea, this`currentArea, this`currentAddr, this`areas, areas`next,
        slot`start, slot`size, slot`flags, slot`next, slot`prev
      ensures ListOk() && areas == old(areas) + [slot] && (LayoutOk() <==> start + size <= dataEnd)
      ensures Spans(areas) == old(Spans(areas)) + [Span(start, size, WithUser(flags, user))]
      ensures currentAddr == Wrap(start + size - 1)
      ensures slot.AsSpan() == Span(start, size, WithUser(flags, user))
    {
      hide Wrap, PageEnd, ListOk, LayoutOk, Laid, Below, Spans;
      if start + size <= dataEnd { Roomy(Span(start, size, WithUser(flags, user))); }
      Fill(slot, start, size, flags);
      ghost var s := areas;
      assert Spans(s) == old(Spans(areas));
      Append(slot);
      assert Spans(s) == old(Spans(areas));
      SpansAppended(s, slot);
      if start + size <= dataEnd { LayoutNow(s, slot); } else { OutOfBounds(s, slot); }
    }

    // An area that reaches beyond the end spoils the layout
    lemma OutOfBounds(s: seq<Area>, slot: Area)
      requires areas == s + [slot] && slot.start + slot.size > dataEnd
      ensures !LayoutOk()
    {
      hide Spans;
      SpansAppended(s, slot);
      assert Spans(areas)[|s|] == slot.AsSpan() && !slot.AsSpan().InBounds(dataStart, dataEnd);
    }

    // vmm_alloc_at; `page` is what kalloc would return.  `is_mmio` is left as the slot held it
    method Alloc(base: u64, sz: u64, flags: u8, page: Container) returns (r: Area?)
      requires Valid() && Spare(page)
      modifies this, areas`next, currentContainer, Room()`start, Room()`size, Room()`flags, Room()`next, Room()`prev
      modifies page.slots`start, page.slots`size, page.slots`flags, page.slots`next, page.slots`prev
      ensures SlotsOk() && ListOk() && (Valid() <==> (r == null || r.start + r.size <= dataEnd))
      ensures old(Low()) == if old(areas) == [] then dataStart else old(currentAddr) + 1
      ensures var low, page, length := old(Low()), PageStart(base), PageEnd(Wrap(sz - 1));
        && (r == null <==> if page <= low then Wrap(low + length) > dataEnd else Wrap(page + length) > dataEnd)
        && (r != null ==> low <= r.start && page <= r.start && (r.start == low || r.start == page))
        && (r != null ==> r.size == Wrap(length + 1))
      ensures NoWrap(old(Low()), base, sz) ==>
        (r == null <==> old(Low()) + sz > dataEnd || PageStart(base) + sz > dataEnd)
      ensures r == null ==> areas == old(areas) && issued == old(issued) && currentAddr == old(currentAddr)
      ensures r != null ==> areas == old(areas) + [r] && r !in old(issued) && issued == old(issued) + {r}
      ensures r != null ==>
        && (r.flags / 2 % 2 == 1 <==> user || flags / 2 % 2 == 1)
        && r.flags % 2 == flags % 2 && r.flags / 4 == flags / 4
      ensures r != null ==> Next(old(currentIndex), old(containers), old(Room()), page, r)
      ensures r != null ==> Spans(areas) == old(Spans(areas)) + [r.AsSpan()]
      ensures r != null ==> currentAddr == Wrap(r.start + r.size - 1)
      ensures r == null ==> Spans(areas) == old(Spans(areas))
      ensures r != null ==>
        (Serves(Place(r.start, r.size), old(Low()), base, dataEnd, sz) <==> NoWrap(old(Low()), base, sz))
      ensures NoWrap(old(Low()), base, sz) || sz == 0 ==> Valid()
    {
      hide Wrap, PageEnd, PageStart, PlaceFor, SlotsOk, ListOk, LayoutOk, Slotted, Spare, Laid, Below, Spans,
        WithUser, Low, NoWrap, Serves;
      var length: int := PageEnd(Wrap(sz - 1));
      LowIs();
      PlaceIs(base, sz);
      var found: int := Low();
      if found < PageStart(base) { found := PageStart(base); }
      if Wrap(found + length) > dataEnd || found == 0 { return null; }
      PlaceOk(base, sz);
      var size := Wrap(length + 1);
      var slot := TakeSlot(page);
      Install(slot, found, size, flags);
      r := slot;
      UserBit(flags, user);
    }

    lemma LowIs()
      requires LayoutOk() && ListOk()
      ensures Low() == if areas == [] then dataStart else currentAddr + 1
      ensures Low() > 0
    {
      LowOk();
    }

    lemma PlaceIs(base: u64, sz: u64)
      requires LayoutOk() && ListOk()
      ensures var found, length := if Low() < PageStart(base) then PageStart(base) else Low(), PageEnd(Wrap(sz - 1));
        PlaceFor(Low(), base, dataEnd, sz) ==
          if Wrap(found + length) > dataEnd then Nowhere else Place(found, Wrap(length + 1))
      ensures NoWrap(Low(), base, sz) ==>
        (PlaceFor(Low(), base, dataEnd, sz).Place? <==> Low() + sz <= dataEnd && PageStart(base) + sz <= dataEnd)
    {
      LowOk();
      if NoWrap(Low(), base, sz) { PlaceFits(Low(), base, dataEnd, sz); }
    }

    // What is known of the place: it is in bounds if nothing wraps
    lemma PlaceOk(base: u64, sz: u64)
      requires LayoutOk() && ListOk() && PlaceFor(Low(), base, dataEnd, sz).Place?
      ensures var p := PlaceFor(Low(), base, dataEnd, sz);
        && p.start % PAGE_SIZE == 0 && p.size % PAGE_SIZE == 0 && Low() <= p.start
        && (Serves(p, Low(), base, dataEnd, sz) <==> NoWrap(Low(), base, sz))
        && (NoWrap(Low(), base, sz) || sz == 0 ==> p.start + p.size <= dataEnd)
    {
      hide NoWrap;
      LowOk();
      PlaceAligned(Low(), base, dataEnd, sz);
      PlaceExact(Low(), base, dataEnd, sz);
      if sz == 0 { PlaceEmpty(Low(), base, dataEnd); }
    }

    // vmm_free_area (vmm.c:162-173): the walk finds the container before it meets a `next` never set
    method FindContainer(area: Area) returns (c: Container?)
      requires Valid() && area in areas
      ensures c != null && c in containers && area in c.slots
    {
      c := rootContainer;
      ghost var k := 0;
      assert Housed(containers, area);
      while c != null && area !in c.slots
        invariant k < |containers| && c == containers[k]
        invariant forall m :: 0 <= m < k ==> area !in containers[m].slots
        decreases |containers| - k
      {
        assert Chained(containers, k);
        c := c.next;
        k := k + 1;
      }
    }

    // vmm_free_area (vmm.c:175-185)
    method Unlink(area: Area, ghost i: nat)
      requires ListOk() && i < |areas| && areas[i] == area
      modifies this`firstArea, this`currentArea, this`areas, areas`next, areas`prev
      ensures ListOk() && areas == Without(old(areas), i)
    {
      ghost var s := areas;
      assert Hooked(s, i);
      if area.prev != null {
        area.prev.next := area.next;
      } else {
        firstArea := area.next;
      }
      if area.next != null {
        area.next.prev := area.prev;
      } else {
        currentArea := area.prev;
      }
      areas := Without(s, i);
      forall k | 0 <= k < |areas| ensures Hooked(areas, k) {
        var m := if k < i then k else k + 1;
        assert old(Hooked(s, m)) && areas[k] == s[m];
        assert At(areas, k + 1) == if m + 1 == i then At(s, i + 1) else At(s, m + 1);
        assert At(areas, k - 1) == if m - 1 == i then At(s, i - 1) else At(s, m - 1);
      }
    }

    lemma Leaving(i: nat)
      requires Valid() && i < |areas|
      ensures areas[i] !in Without(areas, i) && Laid(Spans(areas), dataStart, dataEnd)
      ensures Below(Spans(areas), currentAddr + 1)
      ensures dataStart % PAGE_SIZE == 0 && dataEnd % PAGE_SIZE == 0 && dataStart >= PAGE_SIZE
      ensures (currentAddr + 1) % PAGE_SIZE == 0 && currentAddr < dataEnd
    {
    }

    lemma Left(s: seq<Area>, i: nat)
      requires i < |s| && areas == Without(s, i)
      requires Laid(Spans(s), dataStart, dataEnd) && Below(Spans(s), currentAddr + 1)
      requires dataStart % PAGE_SIZE == 0 && dataEnd % PAGE_SIZE == 0 && dataStart >= PAGE_SIZE
      requires (currentAddr + 1) % PAGE_SIZE == 0 && currentAddr < dataEnd
      ensures LayoutOk() && Spans(areas) == Without(Spans(s), i)
    {
      hide Laid, Below, Spans, Without;
      SpansWithout(s, i);
      LaidWithout(Spans(s), i, dataStart, dataEnd, currentAddr + 1);
    }

    // vmm_free_area, but for unmappages
    method Free(area: Area?) returns (r: int)
      requires Valid() && (area != null ==> area in areas)
      modifies this`firstArea, this`currentArea, this`areas, areas`next, areas`prev
      ensures Valid() && (r == 0 <==> area != null) && (r == 0 || r == -1)
      ensures area == null ==> areas == old(areas)
      ensures area != null ==> area !in areas
      ensures area != null ==> exists i :: Removed(old(areas), i, area, areas, old(Spans(areas)), Spans(areas))
    {
      hide SlotsOk, ListOk, LayoutOk, Linked, Laid, Below, Spans, Without;
      if area == null { return -1; }
      var c := FindContainer(area);
      if c == null { return -1; }
      ghost var s := areas;
      ghost var i :| 0 <= i < |s| && s[i] == area;
      Leaving(i);
      Unlink(area, i);
      assert Spans(s) == old(Spans(areas));
      Left(s, i);
      assert Removed(old(areas), i, area, areas, old(Spans(areas)), Spans(areas));
      r := 0;
    }

    // unmap_mmio (vmm.c:318-329): only an area that is marked as MMIO goes
    method FreeMmio(va: u64) returns (area: Area?, r: int)
      requires Valid()
      modifies this`firstArea, this`currentArea, this`areas, areas`next, areas`prev
      ensures Valid()
      ensures r == 0 <==> exists a :: a in old(areas) && old(a.Has(va)) && old(a.isMmio)
      ensures r == 0 ==> area != null && area in old(areas) && old(area.Has(va)) && area !in areas
      ensures r == 0 ==> exists i :: Removed(old(areas), i, area, areas, old(Spans(areas)), Spans(areas))
      ensures r != 0 ==> areas == old(areas)
    {
      hide SlotsOk, ListOk, Linked, Laid, Below, Spans, Without, Removed;
      area := Lookup(va);
      if area == null { return area, -1; }
      OnlyArea(area, va);
      if !area.isMmio { return area, -1; }
      r := Free(area);
    }

    // At most one area has an address
    lemma OnlyArea(area: Area, va: u64)
      requires LayoutOk() && area in areas && area.Has(va)
      ensures forall a :: a in areas && a.Has(va) ==> a == area
    {
      var i :| 0 <= i < |areas| && areas[i] == area;
      forall k | 0 <= k < |areas| && areas[k].Has(va) ensures areas[k] == area {
        assert Spans(areas)[i] == areas[i].AsSpan() && Spans(areas)[k] == areas[k].AsSpan();
      }
    }
  }

  // `s'` and its spans are `s` and its spans without the area at `i`
  ghost predicate Removed(s: seq<Area>, i: nat, a: Area, s': seq<Area>, ps: seq<Span>, ps': seq<Span>) {
    i < |s| && s[i] == a && s' == Without(s, i) && i < |ps| && ps' == Without(ps, i)
  }

  lemma SpansWithout(s: seq<Area>, i: nat)
    requires i < |s|
    ensures Spans(Without(s, i)) == Without(Spans(s), i)
  {
    hide Spans;
    var w := Without(s, i);
    forall k | 0 <= k < |w| ensures Spans(w)[k] == Without(Spans(s), i)[k] {
      var m := if k < i then k else k + 1;
      assert w[k] == s[m] && Spans(s)[m] == s[m].AsSpan();
    }
  }

  lemma LaidWithout(ps: seq<Span>, i: nat, lo: nat, hi: nat, top: nat)
    requires Laid(ps, lo, hi) && Below(ps, top) && i < |ps|
    ensures Laid(Without(ps, i), lo, hi) && Below(Without(ps, i), top)
  {
  }

  // new->flags |= MEMORY_FLAG_USER for a user address space
  function WithUser(flags: u8, user: bool): u8 {
    if user && flags / 2 % 2 == 0 then flags + USER else flags
  }

  lemma UserBit(flags: u8, user: bool)
    ensures var f := WithUser(flags, user);
      (f / 2 % 2 == 1 <==> user || flags / 2 % 2 == 1) && f % 2 == flags % 2 && f / 4 == flags / 4
  {
  }

  lemma LaidAppended(ps: seq<Span>, p: Span, lo: nat, hi: nat)
    requires Laid(ps, lo, hi) && p.InBounds(lo, hi) && Below(ps, p.start)
    ensures Laid(ps + [p], lo, hi) && Below(ps + [p], p.start + p.size)
  {
  }
}
