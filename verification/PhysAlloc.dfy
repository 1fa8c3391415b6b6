/**
 kernel/arch/x86-64/memory/physical_allocator.c: a bitmap that must agree with a
 linked free list.  Addresses are physical; the direct-map offset that the C
 code adds before and subtracts after touching a page cancels out.
 */
module PhysAlloc {
  import opened Words
  import opened PageList

  // ---------- bits of the bitmap bytes

  // 1 << k
  function Mask(k: nat): bv8
    requires k < 8
  {
    match k
    case 0 => 1 case 1 => 2 case 2 => 4 case 3 => 8
    case 4 => 16 case 5 => 32 case 6 => 64 case _ => 128
  }

  /** bit_set and bit_clear (lines 70-74) on a byte change what bit_isset reads at
      one position only; so the byte array below is kept as its bits. */
  lemma ByteBit(b: bv8, p: nat, q: nat)
    requires p < 8 && q < 8
    ensures (b | Mask(p)) & Mask(q) != 0 <==> p == q || b & Mask(q) != 0
    ensures (b & !Mask(p)) & Mask(q) != 0 <==> p != q && b & Mask(q) != 0
  {
  }

  // ---------- the allocator

  /** page_index (lines 57-61) on addresses is a difference of page numbers, so
      pages are named by number below: page n is the address n * PAGE_SIZE. */
  lemma PageIndexLaw(base: nat, a: nat)
    requires base % PAGE_SIZE == 0 && base <= a
    ensures (PageStart(a) - base) / PAGE_SIZE == a / PAGE_SIZE - base / PAGE_SIZE
    ensures PageStart(a) == a / PAGE_SIZE * PAGE_SIZE
  {
  }

  // Number of set bits
  function Trues(s: seq<bool>): nat {
    if s == [] then 0 else Trues(s[..|s| - 1]) + if s[|s| - 1] then 1 else 0
  }

  lemma {:induction false} TruesUpdate(s: seq<bool>, i: nat, b: bool)
    requires i < |s| && s[i] != b
    ensures Trues(s[i := b]) == Trues(s) + if b then 1 else -1
  {
    var n := |s| - 1;
    if i == n {
      assert s[i := b][..n] == s[..n];
    } else {
      assert s[i := b][..n] == s[..n][i := b];
      TruesUpdate(s[..n], i, b);
    }
  }

  // The first `k` bits are set and no other
  lemma {:induction false} TruesPrefix(s: seq<bool>, k: nat)
    requires k <= |s| && forall j :: 0 <= j < |s| ==> (s[j] <==> j < k)
    ensures Trues(s) == k
  {
    if s != [] {
      TruesPrefix(s[..|s| - 1], if k == |s| then k - 1 else k);
    }
  }

  class Allocator {
    const base: nat              // first managed page
    const pages: nat             // page_count
    const first: nat             // pages below base + first hold the bitmap
    const bits: array<bool>      // alloc, bit by bit
    const list: List             // free_lst

    ghost predicate Valid()
      reads bits, list
    {
      && base > 0 && first <= pages <= bits.Length
      && list.Valid() && list.head == 0
      && (forall i :: 0 <= i < bits.Length && !bits[i] ==> first <= i < pages && base + i in list.items)
      && (forall p :: p in list.items ==> Managed(p) && !bits[p - base])
      && |list.items| + Trues(bits[..pages]) == pages
    }

    // `p` is a page that kalloc may hand out
    predicate Managed(p: nat) {
      base + first <= p < base + pages
    }

    // The free pages
    ghost function Free(): set<nat>
      reads list
    {
      set p | p in list.items
    }

    // init_phys_allocator (lines 76-102)
    constructor (start: nat, size: nat)
      ensures Valid() && fresh(bits) && fresh(list)
      ensures base == PageEnd(start) / PAGE_SIZE + 1 && pages == size / PAGE_SIZE
      ensures forall p :: p in Free() <==> Managed(p)
      ensures forall j :: 0 <= j < |list.items| ==> list.items[j] == base + first + j
      ensures pages > 0 ==> first == (pages - 1) / 8 / PAGE_SIZE + 1
    {
      var count := size / PAGE_SIZE;
      var bytes := if count == 0 then 0 else (count - 1) / 8 + 1;
      base := PageEnd(start) / PAGE_SIZE + 1;
      pages := count;
      first := if count == 0 then 0 else (bytes - 1) / PAGE_SIZE + 1;
      bits := new bool[8 * bytes](_ => false);
      list := new List(0);
      new;
      hide List.Valid, Trues;
      BitmapFits(count);
      SetRange(bits, 0, first);
      PushRange(list, base + first, pages - first);
      SetRange(bits, pages, bits.Length);
      Started();
    }

    // The state that the initialisation leaves is sound
    lemma Started()
      requires base > 0 && first <= pages <= bits.Length && list.Valid() && list.head == 0
      requires |list.items| == pages - first && forall j :: 0 <= j < |list.items| ==> list.items[j] == base + first + j
      requires forall j :: 0 <= j < bits.Length ==> (bits[j] <==> j < first || pages <= j)
      ensures Valid() && forall p :: p in Free() <==> Managed(p)
    {
      hide List.Valid, Trues;
      forall p: nat | Managed(p) ensures p in list.items {
        assert list.items[p - base - first] == p;
      }
      TruesPrefix(bits[..pages], first);
    }

    // The loops over the bitmap (lines 90-92, 99-101)
    static method SetRange(bits: array<bool>, from: nat, upto: nat)
      requires from <= upto <= bits.Length
      modifies bits
      ensures forall j :: 0 <= j < bits.Length ==> (bits[j] <==> old(bits[j]) || from <= j < upto)
    {
      for i := from to upto
        invariant forall j :: 0 <= j < bits.Length ==> (bits[j] <==> old(bits[j]) || from <= j < i)
      {
        bits[i] := true;
      }
    }

    // The loop over the free pages (lines 94-97)
    static method PushRange(list: List, from: nat, count: nat)
      requires list.Valid() && list.head == 0 && list.items == [] && from > 0
      modifies list
      ensures list.Valid() && |list.items| == count && forall j :: 0 <= j < count ==> list.items[j] == from + j
    {
      for i := 0 to count
        invariant list.Valid() && list.head == 0 && |list.items| == i
        invariant forall j :: 0 <= j < i ==> list.items[j] == from + j
      {
        list.PushEnd(from + i);
      }
    }

    // The bitmap's own pages lie inside the range
    static lemma BitmapFits(count: nat)
      ensures count > 0 ==> ((count - 1) / 8 + 1 - 1) / PAGE_SIZE + 1 <= count <= 8 * ((count - 1) / 8 + 1)
    {
    }

    // kalloc (lines 106-116): 0 when no page is free
    method Alloc() returns (page: nat)
      requires Valid()
      modifies bits, list
      ensures Valid()
      ensures page == 0 <==> old(Free()) == {}
      ensures page == 0 ==> Free() == {}
      ensures page != 0 ==> page in old(Free()) && Managed(page) && Free() == old(Free()) - {page}
      ensures page != 0 ==> old(list.items) == [page] + list.items
    {
      hide List.Valid, Trues;
      var empty := list.Empty();
      ghost var was := list.items;
      if empty {
        return 0;
      }
      assert was[0] in was && was[0] in Free();
      page := list.Pop();
      TruesUpdate(bits[..pages], page - base, true);
      bits[page - base] := true;
      assert bits[..pages] == old(bits[..pages])[page - base := true];
      assert forall p :: p in list.items <==> p in was && p != page;
    }

    // kfree (lines 118-130): an address in a managed page; freeing twice does nothing
    method Release(a: nat)
      requires Valid() && Managed(a / PAGE_SIZE)
      modifies bits, list
      ensures Valid() && Free() == old(Free()) + {a / PAGE_SIZE}
      ensures list.items == if a / PAGE_SIZE in old(Free()) then old(list.items) else [a / PAGE_SIZE] + old(list.items)
    {
      hide List.Valid, Trues;
      var index := a / PAGE_SIZE - base;
      if !bits[index] {
        return;
      }
      list.Push(base + index);
      TruesUpdate(bits[..pages], index, false);
      bits[index] := false;
      assert bits[..pages] == old(bits[..pages])[index := false];
    }
  }
}
