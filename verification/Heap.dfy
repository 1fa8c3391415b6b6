/**
 kernel/memory/heap.c: an in-band list of blocks with split, coalesce and
 in-place realloc, within one arena.
 */
module Heap {

  const HEADER: nat := 32    // sizeof(heap_node_t)

  // heap_node_t; 0 is NULL
  datatype Node = Node(size: nat, used: bool, prev: nat, next: nat)

  datatype Block = Block(addr: nat, size: nat, used: bool)
  {
    function End(): nat { addr + HEADER + size }
  }

  // The blocks cover [lo, hi) without gap or overlap
  predicate Tiles(bs: seq<Block>, lo: nat, hi: nat) {
    && bs != [] && bs[0].addr == lo && bs[|bs| - 1].End() == hi
    && forall i :: 0 < i < |bs| ==> Meets(bs, i)
  }

  // Block `i` starts where the one before it ends
  predicate Meets(bs: seq<Block>, i: nat)
    requires 0 < i < |bs|
  {
    bs[i].addr == bs[i - 1].End()
  }

  // The header of `b` in memory, with `next` leading to the address given
  predicate Header(h: map<nat, Node>, b: Block, next: nat) {
    b.addr in h && h[b.addr].size == b.size && h[b.addr].used == b.used && h[b.addr].next == next
  }

  // Where the block after `i` starts, or NULL
  function After(bs: seq<Block>, i: nat): nat
    requires i < |bs|
  {
    if i + 1 < |bs| then bs[i + 1].addr else 0
  }

  // The headers in memory spell out the blocks; nothing is said about `prev`
  predicate Spells(h: map<nat, Node>, bs: seq<Block>) {
    forall i {:trigger After(bs, i)} :: 0 <= i < |bs| ==> Header(h, bs[i], After(bs, i))
  }

  // Where the block before `i` starts, or NULL
  function Before(bs: seq<Block>, i: nat): nat
    requires i <= |bs|
  {
    if i == 0 then 0 else bs[i - 1].addr
  }

  predicate Back(h: map<nat, Node>, b: Block, prev: nat) {
    b.addr in h && h[b.addr].prev == prev
  }

  // Every block knows its predecessor
  predicate BackLinked(h: map<nat, Node>, bs: seq<Block>) {
    forall i {:trigger Before(bs, i)} :: 0 <= i < |bs| ==> Back(h, bs[i], Before(bs, i))
  }

  // Some earlier block, perhaps not the nearest, or none is what `prev` of block `i` names
  predicate Known(h: map<nat, Node>, bs: seq<Block>, i: nat)
    requires i < |bs|
  {
    bs[i].addr in h &&
    (h[bs[i].addr].prev == 0 || exists p :: 0 <= p < i && bs[p].addr == h[bs[i].addr].prev)
  }

  // Every block's `prev` is NULL or an earlier block
  ghost predicate AllKnown(h: map<nat, Node>, bs: seq<Block>) {
    forall k :: 0 <= k < |bs| ==> Known(h, bs, k)
  }

  // So is that of every block outside `but`, none of which names an address in `gone`
  ghost predicate KnownBut(h: map<nat, Node>, bs: seq<Block>, but: set<nat>, gone: set<nat>) {
    forall k :: 0 <= k < |bs| && k !in but ==> Known(h, bs, k) && h[bs[k].addr].prev !in gone
  }

  // The allocations in use
  function Live(bs: seq<Block>): set<Block> {
    set b | b in bs && b.used
  }

  /** Blocks later in the list lie wholly behind earlier ones. */
  lemma {:induction false} Ordered(bs: seq<Block>, lo: nat, hi: nat, i: nat, j: nat)
    requires Tiles(bs, lo, hi) && i < j < |bs|
    ensures bs[i].End() <= bs[j].addr
  {
    assert Meets(bs, j);
    if i + 1 < j { Ordered(bs, lo, hi, i, j - 1); }
  }

  // No other block starts inside block `i`
  lemma Apart(bs: seq<Block>, lo: nat, hi: nat, i: nat)
    requires Tiles(bs, lo, hi) && i < |bs|
    ensures forall k :: 0 <= k < |bs| && k != i ==> !(bs[i].addr <= bs[k].addr < bs[i].End())
    ensures bs[i].addr >= lo && bs[i].End() <= hi
  {
    forall k | 0 <= k < |bs| && k != i ensures !(bs[i].addr <= bs[k].addr < bs[i].End()) {
      if k < i { Ordered(bs, lo, hi, k, i); } else { Ordered(bs, lo, hi, i, k); }
    }
    if 0 < i { Ordered(bs, lo, hi, 0, i); }
    if i < |bs| - 1 { Ordered(bs, lo, hi, i, |bs| - 1); }
  }

  // Only the last block has no `next`
  lemma Reaches(bs: seq<Block>, lo: nat, hi: nat, i: nat)
    requires Tiles(bs, lo, hi) && 0 < lo && i < |bs|
    ensures bs[i].addr > 0 && (After(bs, i) == 0 <==> i + 1 == |bs|)
  {
    Apart(bs, lo, hi, i);
    if i + 1 < |bs| { Apart(bs, lo, hi, i + 1); }
  }

  /** Two allocations in use never share a byte, and both lie in the arena. */
  lemma LiveDisjoint(bs: seq<Block>, lo: nat, hi: nat, a: Block, b: Block)
    requires Tiles(bs, lo, hi) && a in Live(bs) && b in Live(bs) && a != b
    ensures a.End() <= b.addr || b.End() <= a.addr
    ensures lo <= a.addr && a.End() <= hi
  {
    var i :| 0 <= i < |bs| && bs[i] == a;
    var k :| 0 <= k < |bs| && bs[k] == b;
    Apart(bs, lo, hi, i);
    Apart(bs, lo, hi, k);
  }

  // ---------- replacing blocks

  // Blocks `i` to `j - 1` give way to `mid`
  function Splice(bs: seq<Block>, i: nat, j: nat, mid: seq<Block>): seq<Block>
    requires i <= j <= |bs|
  {
    bs[..i] + mid + bs[j..]
  }

  // Replacing blocks by others that cover the same stretch keeps the tiling
  lemma SpliceTiles(bs: seq<Block>, lo: nat, hi: nat, i: nat, j: nat, mid: seq<Block>)
    requires Tiles(bs, lo, hi) && i < j <= |bs| && Tiles(mid, bs[i].addr, bs[j - 1].End())
    ensures Tiles(Splice(bs, i, j, mid), lo, hi)
  {
    var r := Splice(bs, i, j, mid);
    forall k | 0 < k < |r| ensures Meets(r, k) {
      if k < i {
        assert Meets(bs, k);
        assert r[k] == bs[k] && r[k - 1] == bs[k - 1];
      } else if k < i + |mid| {
        assert r[k] == mid[k - i];
        if k > i {
          assert Meets(mid, k - i) && r[k - 1] == mid[k - i - 1];
        } else {
          assert Meets(bs, i) && r[k - 1] == bs[i - 1];
        }
      } else {
        assert r[k] == bs[k - i - |mid| + j];
        assert Meets(bs, k - i - |mid| + j);
        if k > i + |mid| {
          assert r[k - 1] == bs[k - i - |mid| + j - 1];
        } else {
          assert r[k - 1] == mid[|mid| - 1];
        }
      }
    }
  }

  // Headers outside the stretch still spell; the stretch's own are given
  lemma SpliceSpells(h: map<nat, Node>, bs: seq<Block>, i: nat, j: nat, mid: seq<Block>)
    requires i < j <= |bs| && mid != [] && mid[0].addr == bs[i].addr
    requires forall k {:trigger After(bs, k)} :: 0 <= k < |bs| && !(i <= k < j) ==> Header(h, bs[k], After(bs, k))
    requires forall k {:trigger AfterMid(bs, j, mid, k)} :: 0 <= k < |mid| ==>
      Header(h, mid[k], AfterMid(bs, j, mid, k))
    ensures Spells(h, Splice(bs, i, j, mid))
  {
    var r := Splice(bs, i, j, mid);
    forall k | 0 <= k < |r| ensures Header(h, r[k], After(r, k)) {
      if k < i {
        assert r[k] == bs[k] && After(r, k) == After(bs, k);
      } else if k < i + |mid| {
        assert r[k] == mid[k - i] && After(r, k) == AfterMid(bs, j, mid, k - i);
      } else {
        var b := k - i - |mid| + j;
        assert r[k] == bs[b] && After(r, k) == After(bs, b);
      }
    }
  }

  // Where the block after `mid[k]` starts once `mid` stands before `bs[j..]`
  function AfterMid(bs: seq<Block>, j: nat, mid: seq<Block>, k: nat): nat
    requires j <= |bs| && k < |mid|
  {
    if k + 1 < |mid| then mid[k + 1].addr else if j < |bs| then bs[j].addr else 0
  }

  function BeforeMid(bs: seq<Block>, i: nat, mid: seq<Block>, k: nat): nat
    requires i <= |bs| && k < |mid|
  {
    if k > 0 then mid[k - 1].addr else Before(bs, i)
  }

  lemma SpliceBack(h: map<nat, Node>, bs: seq<Block>, i: nat, j: nat, mid: seq<Block>)
    requires i < j <= |bs| && mid != []
    requires forall k {:trigger Before(bs, k)} :: 0 <= k < |bs| && !(i <= k <= j) ==> Back(h, bs[k], Before(bs, k))
    requires j < |bs| ==> Back(h, bs[j], mid[|mid| - 1].addr)
    requires forall k {:trigger BeforeMid(bs, i, mid, k)} :: 0 <= k < |mid| ==>
      Back(h, mid[k], BeforeMid(bs, i, mid, k))
    ensures BackLinked(h, Splice(bs, i, j, mid))
  {
    var r := Splice(bs, i, j, mid);
    forall k | 0 <= k < |r| ensures Back(h, r[k], Before(r, k)) {
      if k < i {
        assert r[k] == bs[k] && Before(r, k) == Before(bs, k);
      } else if k < i + |mid| {
        assert r[k] == mid[k - i] && Before(r, k) == BeforeMid(bs, i, mid, k - i);
      } else if k == i + |mid| {
        assert r[k] == bs[j] && Before(r, k) == mid[|mid| - 1].addr;
      } else {
        var b := k - i - |mid| + j;
        assert r[k] == bs[b] && Before(r, k) == Before(bs, b);
      }
    }
  }

  // Allocations outside the stretch live on
  lemma SpliceLive(bs: seq<Block>, lo: nat, hi: nat, i: nat, j: nat, mid: seq<Block>)
    requires Tiles(bs, lo, hi) && i < j <= |bs|
    ensures Live(Splice(bs, i, j, mid)) == Live(bs) - Live(bs[i..j]) + Live(mid)
  {
    var r := Splice(bs, i, j, mid);
    forall m | i <= m < j ensures bs[m] in bs[i..j] {
      assert bs[i..j][m - i] == bs[m];
    }
    forall b | b in Live(bs) - Live(bs[i..j]) ensures b in r {
      var k :| 0 <= k < |bs| && bs[k] == b;
      assert k < i ==> r[k] == b;
      assert k >= j ==> r[k - j + i + |mid|] == b;
    }
    forall b | b in mid ensures b in r {
      var k :| 0 <= k < |mid| && mid[k] == b;
      assert r[i + k] == b;
    }
    forall b | b in Live(r) && b !in mid ensures b in bs && b !in bs[i..j] {
      var k :| 0 <= k < |r| && r[k] == b;
      var o := if k < i then k else k - i - |mid| + j;
      assert bs[o] == b;
      forall m | i <= m < j ensures bs[m] != b {
        Apart(bs, lo, hi, m);
      }
    }
  }

  // ---------- what the operations make of the blocks

  predicate Fits(b: Block, size: nat) { !b.used && size <= b.size }

  // The place of the first block that fits, or the number of blocks
  function FitIndex(bs: seq<Block>, size: nat): (i: nat)
    ensures i <= |bs|
  {
    if bs == [] || Fits(bs[0], size) then 0 else 1 + FitIndex(bs[1..], size)
  }

  lemma {:induction false} FitIndexIs(bs: seq<Block>, size: nat, i: nat)
    requires i <= |bs| && forall k :: 0 <= k < i ==> !Fits(bs[k], size)
    requires i < |bs| ==> Fits(bs[i], size)
    ensures FitIndex(bs, size) == i
  {
    if i > 0 { FitIndexIs(bs[1..], size, i - 1); }
  }

  // Nothing is left behind block `i` once it has taken in a free right neighbour
  predicate LastBehind(bs: seq<Block>, i: nat) {
    i + 1 == |bs| || (i + 2 == |bs| && !bs[i + 1].used)
  }

  lemma LastIff(bs: seq<Block>, i: nat)
    requires i < |bs|
    ensures LastBehind(bs, i) <==> i + 1 >= |Joined(Marked(bs, i), i)|
  {
    var m := Marked(bs, i);
    assert |m| == |bs| && forall k :: 0 <= k < |bs| && k != i ==> m[k] == bs[k];
  }

  // A free block given out for `size` bytes: split if more than a header is left over
  function Cut(b: Block, size: nat): seq<Block>
    requires size <= b.size
  {
    if b.size > size + HEADER then
      [Block(b.addr, size, true), Block(b.addr + HEADER + size, b.size - size - HEADER, false)]
    else
      [Block(b.addr, b.size, true)]
  }

  lemma CutSpliced(bs: seq<Block>, i: nat, size: nat)
    requires i < |bs| && size <= bs[i].size
    ensures var b := bs[i];
      Splice(bs, i, i + 1, Cut(b, size)) ==
        bs[..i]
        + (if b.size > size + HEADER
           then [Block(b.addr, size, true), Block(b.addr + HEADER + size, b.size - size - HEADER, false)]
           else [Block(b.addr, b.size, true)])
        + bs[i + 1..]
  {
  }

  /**
   Giving out block `i` leaves all back links right unless it is split in front
   of another block: that one then still names the block that was split.
   */
  lemma CutBack(h: map<nat, Node>, bs: seq<Block>, i: nat, size: nat)
    requires i < |bs| && size <= bs[i].size && BackLinked(h, bs)
    requires |Cut(bs[i], size)| == 2 ==> Back(h, Cut(bs[i], size)[1], bs[i].addr)
    ensures BackLinked(h, Splice(bs, i, i + 1, Cut(bs[i], size))) <==>
            |Cut(bs[i], size)| == 1 || i + 1 == |bs|
  {
    var c := Cut(bs[i], size);
    var r := Splice(bs, i, i + 1, c);
    assert Back(h, bs[i], Before(bs, i));
    if |c| == 2 && i + 1 < |bs| {
      assert r[i + 2] == bs[i + 1] && Back(h, bs[i + 1], Before(bs, i + 1));
      assert Before(r, i + 2) == c[1].addr;
    } else {
      assert i + 1 < |bs| ==> Back(h, bs[i + 1], Before(bs, i + 1));
      SpliceBack(h, bs, i, i + 1, c);
    }
  }

  // Block `i` with its right neighbour absorbed, if that one is free
  function Joined(bs: seq<Block>, i: nat): (r: seq<Block>)
    requires i < |bs|
    ensures i < |r| && r[i].addr == bs[i].addr && r[i].used == bs[i].used
    ensures forall k :: 0 <= k < i ==> r[k] == bs[k]
  {
    if i + 1 < |bs| && !bs[i + 1].used then
      Splice(bs, i, i + 2, [bs[i].(size := bs[i].size + HEADER + bs[i + 1].size)])
    else
      bs
  }

  function Marked(bs: seq<Block>, i: nat): seq<Block>
    requires i < |bs|
  {
    Splice(bs, i, i + 1, [bs[i].(used := false)])
  }

  // Block `i` given back, with the free neighbours that get absorbed
  function Freed(bs: seq<Block>, i: nat, left: bool): seq<Block>
    requires i < |bs| && (left ==> 0 < i)
  {
    var c := Joined(Marked(bs, i), i);
    if left then Joined(c, i - 1) else c
  }

  // Block `k` and the one before it are not both free
  predicate Parted(bs: seq<Block>, k: nat)
    requires 0 < k < |bs|
  {
    bs[k].used || bs[k - 1].used
  }

  // No two free blocks are neighbours
  predicate Coalesced(bs: seq<Block>) {
    forall k :: 0 < k < |bs| ==> Parted(bs, k)
  }

  lemma JoinedParted(bs: seq<Block>, i: nat)
    requires i < |bs| && !bs[i].used
    requires forall k :: 0 < k < |bs| && k != i && k != i + 1 ==> Parted(bs, k)
    ensures i < |Joined(bs, i)| && !Joined(bs, i)[i].used
    ensures i > 0 ==> Joined(bs, i)[i - 1] == bs[i - 1]
    ensures forall k :: 0 < k < |Joined(bs, i)| && k != i ==> Parted(Joined(bs, i), k)
  {
    var c := Joined(bs, i);
    forall k | 0 < k < |c| && k != i ensures Parted(c, k) {
      if c == bs || k < i {
        assert c[k] == bs[k] && c[k - 1] == bs[k - 1];
        assert k != i + 1 ==> Parted(bs, k);
      } else {
        assert c[k] == bs[k + 1] && (k - 1 != i ==> c[k - 1] == bs[k]);
        assert Parted(bs, k + 1);
      }
    }
  }

  lemma MarkedParted(bs: seq<Block>, i: nat)
    requires i < |bs| && bs[i].used && Coalesced(bs)
    ensures |Marked(bs, i)| == |bs| && !Marked(bs, i)[i].used
    ensures forall k :: 0 <= k < |bs| && k != i ==> Marked(bs, i)[k] == bs[k]
    ensures forall k :: 0 < k < |bs| && k != i && k != i + 1 ==> Parted(Marked(bs, i), k)
  {
    var m := Marked(bs, i);
    assert forall k :: 0 <= k < |bs| && k != i ==> m[k] == bs[k];
    forall k | 0 < k < |m| && k != i && k != i + 1 ensures Parted(m, k) {
      assert Parted(bs, k);
    }
  }

  /** With the left neighbour absorbed when free, freeing leaves no two free blocks side by side. */
  lemma FreedCoalesced(bs: seq<Block>, i: nat)
    requires i < |bs| && bs[i].used && Coalesced(bs)
    ensures Coalesced(Freed(bs, i, i > 0 && !bs[i - 1].used))
  {
    hide Marked, Joined, Splice;
    MarkedParted(bs, i);
    var c := Joined(Marked(bs, i), i);
    JoinedParted(Marked(bs, i), i);
    if i > 0 && !bs[i - 1].used {
      assert i - 1 > 0 ==> Parted(bs, i - 1);
      assert i - 1 > 0 ==> Parted(c, i - 1);
      JoinedParted(c, i - 1);
    }
  }

  // ---------- what they make of the headers

  ghost predicate Represents(h: map<nat, Node>, bs: seq<Block>, lo: nat, hi: nat) {
    0 < lo && Tiles(bs, lo, hi) && Spells(h, bs)
  }

  // `prev` of the first `n` blocks is as before
  predicate BackKept(h: map<nat, Node>, h': map<nat, Node>, bs: seq<Block>, n: nat)
    requires n <= |bs|
  {
    forall k :: 0 <= k < n ==>
      bs[k].addr in h && bs[k].addr in h' && h'[bs[k].addr].prev == h[bs[k].addr].prev
  }

  // `prev` of every block outside `but` is as before
  predicate BackKeptBut(h: map<nat, Node>, h': map<nat, Node>, bs: seq<Block>, but: set<nat>) {
    forall k :: 0 <= k < |bs| && k !in but ==>
      bs[k].addr in h && bs[k].addr in h' && h'[bs[k].addr].prev == h[bs[k].addr].prev
  }

  // The right neighbour of block `i` that a merge takes in, and the one behind it
  function Merging(bs: seq<Block>, i: nat): set<nat> {
    if i + 1 < |bs| && !bs[i + 1].used then {i + 1, i + 2} else {}
  }

  // The start of that neighbour
  function Swallowed(bs: seq<Block>, i: nat): set<nat> {
    if i + 1 < |bs| && !bs[i + 1].used then {bs[i + 1].addr} else {}
  }

  lemma KnownAll(h: map<nat, Node>, bs: seq<Block>)
    ensures KnownBut(h, bs, {}, {}) <==> AllKnown(h, bs)
  {
  }

  // Every block has a header
  lemma Present(h: map<nat, Node>, bs: seq<Block>)
    requires Spells(h, bs)
    ensures forall k :: 0 <= k < |bs| ==> bs[k].addr in h
    ensures forall but :: BackKeptBut(h, h, bs, but)
  {
    forall k | 0 <= k < |bs| ensures bs[k].addr in h {
      assert Header(h, bs[k], After(bs, k));
    }
  }

  // What a walk along `next` sees at block `i`
  lemma Neighbour(h: map<nat, Node>, bs: seq<Block>, lo: nat, hi: nat, i: nat)
    requires Represents(h, bs, lo, hi) && i < |bs|
    ensures Header(h, bs[i], After(bs, i))
    ensures h[bs[i].addr].next == 0 <==> i + 1 == |bs|
    ensures i + 1 < |bs| ==> Header(h, bs[i + 1], After(bs, i + 1)) && bs[i + 1].addr == bs[i].End()
    ensures i + 2 < |bs| ==> bs[i + 2].addr in h
  {
    Reaches(bs, lo, hi, i);
    Present(h, bs);
    assert Header(h, bs[i], After(bs, i));
    assert i + 1 < |bs| ==> Meets(bs, i + 1) && Header(h, bs[i + 1], After(bs, i + 1));
  }

  function HandedOut(h: map<nat, Node>, cur: nat, size: nat): map<nat, Node>
    requires cur in h && size <= h[cur].size
  {
    var n, rest := h[cur], cur + HEADER + size;
    if n.size > size + HEADER then
      h[rest := Node(n.size - size - HEADER, false, cur, n.next)][cur := Node(size, true, n.prev, rest)]
    else
      h[cur := n.(used := true)]
  }

  lemma HandedOutSpells(h: map<nat, Node>, bs: seq<Block>, lo: nat, hi: nat, i: nat, size: nat)
    requires Represents(h, bs, lo, hi) && i < |bs| && Header(h, bs[i], After(bs, i)) && size <= bs[i].size
    ensures Spells(HandedOut(h, bs[i].addr, size), Splice(bs, i, i + 1, Cut(bs[i], size)))
    ensures BackKept(h, HandedOut(h, bs[i].addr, size), bs, |bs|)
  {
    var h' := HandedOut(h, bs[i].addr, size);
    Apart(bs, lo, hi, i);
    Present(h, bs);
    SpliceSpells(h', bs, i, i + 1, Cut(bs[i], size));
  }

  lemma HandedOutOk(h: map<nat, Node>, bs: seq<Block>, lo: nat, hi: nat, i: nat, size: nat)
    requires Represents(h, bs, lo, hi) && i < |bs| && Header(h, bs[i], After(bs, i)) && Fits(bs[i], size)
    ensures Represents(HandedOut(h, bs[i].addr, size), Splice(bs, i, i + 1, Cut(bs[i], size)), lo, hi)
    ensures Live(Splice(bs, i, i + 1, Cut(bs[i], size))) == Live(bs) + {Cut(bs[i], size)[0]}
    ensures BackKept(h, HandedOut(h, bs[i].addr, size), bs, |bs|)
    ensures BackLinked(h, bs) ==>
      (BackLinked(HandedOut(h, bs[i].addr, size), Splice(bs, i, i + 1, Cut(bs[i], size))) <==>
       |Cut(bs[i], size)| == 1 || i + 1 == |bs|)
  {
    var h', c := HandedOut(h, bs[i].addr, size), Cut(bs[i], size);
    HandedOutSpells(h, bs, lo, hi, i, size);
    SpliceTiles(bs, lo, hi, i, i + 1, c);
    SpliceLive(bs, lo, hi, i, i + 1, c);
    assert bs[i..i + 1] == [bs[i]];
    if BackLinked(h, bs) {
      CutBack(h', bs, i, size);
    }
  }

  function Absorbed(h: map<nat, Node>, node: nat): map<nat, Node>
    requires node in h && h[node].next in h
  {
    var m := h[h[node].next];
    var h1 := if m.next != 0 && m.next in h then h[m.next := h[m.next].(prev := node)] else h;
    h1[node := h1[node].(next := m.next, size := h1[node].size + m.size + HEADER)]
  }

  lemma AbsorbedOk(h: map<nat, Node>, bs: seq<Block>, lo: nat, hi: nat, i: nat)
    requires Represents(h, bs, lo, hi) && i + 1 < |bs| && !bs[i + 1].used
    requires Header(h, bs[i], After(bs, i)) && bs[i + 1].addr in h
    ensures Represents(Absorbed(h, bs[i].addr), Joined(bs, i), lo, hi)
    ensures BackKeptBut(h, Absorbed(h, bs[i].addr), bs, {i + 1, i + 2})
  {
    var h' := Absorbed(h, bs[i].addr);
    var mid := [bs[i].(size := bs[i].size + HEADER + bs[i + 1].size)];
    Apart(bs, lo, hi, i);
    Apart(bs, lo, hi, i + 1);
    Present(h, bs);
    assert Header(h, bs[i + 1], After(bs, i + 1)) && Meets(bs, i + 1);
    if i + 2 < |bs| { Apart(bs, lo, hi, i + 2); }
    SpliceTiles(bs, lo, hi, i, i + 2, mid);
    SpliceSpells(h', bs, i, i + 2, mid);
  }

  lemma AbsorbedBack(h: map<nat, Node>, bs: seq<Block>, lo: nat, hi: nat, i: nat)
    requires Represents(h, bs, lo, hi) && i + 1 < |bs| && !bs[i + 1].used
    requires Header(h, bs[i], After(bs, i)) && bs[i + 1].addr in h && BackLinked(h, bs)
    ensures BackLinked(Absorbed(h, bs[i].addr), Joined(bs, i))
  {
    var h' := Absorbed(h, bs[i].addr);
    var mid := [bs[i].(size := bs[i].size + HEADER + bs[i + 1].size)];
    Apart(bs, lo, hi, i);
    assert Header(h, bs[i + 1], After(bs, i + 1));
    Present(h, bs);
    Apart(bs, lo, hi, i + 1);
    if i + 2 < |bs| { Apart(bs, lo, hi, i + 2); }
    SpliceBack(h', bs, i, i + 2, mid);
  }

  lemma JoinedLive(bs: seq<Block>, lo: nat, hi: nat, i: nat)
    requires Tiles(bs, lo, hi) && i < |bs| && !bs[i].used
    ensures Live(Joined(bs, i)) == Live(bs)
  {
  }

  lemma MarkedOk(h: map<nat, Node>, bs: seq<Block>, lo: nat, hi: nat, i: nat)
    requires Represents(h, bs, lo, hi) && i < |bs| && Header(h, bs[i], After(bs, i)) && bs[i].used
    ensures |Marked(bs, i)| == |bs| && Marked(bs, i)[i] == bs[i].(used := false)
    ensures forall k :: 0 <= k < |bs| && k != i ==> Marked(bs, i)[k] == bs[k]
    ensures var h' := h[bs[i].addr := h[bs[i].addr].(used := false)];
            && Represents(h', Marked(bs, i), lo, hi) && BackKept(h, h', bs, |bs|)
            && (BackLinked(h, bs) ==> BackLinked(h', Marked(bs, i)))
    ensures Live(Marked(bs, i)) == Live(bs) - {bs[i]}
  {
    var h' := h[bs[i].addr := h[bs[i].addr].(used := false)];
    var mid := [bs[i].(used := false)];
    Apart(bs, lo, hi, i);
    Present(h, bs);
    SpliceTiles(bs, lo, hi, i, i + 1, mid);
    SpliceSpells(h', bs, i, i + 1, mid);
    SpliceLive(bs, lo, hi, i, i + 1, mid);
    assert bs[i..i + 1] == [bs[i]];
    if BackLinked(h, bs) {
      assert Back(h, bs[i], Before(bs, i));
      assert i + 1 < |bs| ==> Back(h, bs[i + 1], Before(bs, i + 1));
      SpliceBack(h', bs, i, i + 1, mid);
    }
  }

  // The three steps of free() together
  lemma FreedBack(h: map<nat, Node>, h1: map<nat, Node>, h2: map<nat, Node>, h3: map<nat, Node>,
                  bs: seq<Block>, i: nat)
    requires i < |bs| && BackKept(h, h1, bs, |bs|)
    requires BackKeptBut(h1, h2, Marked(bs, i), Merging(Marked(bs, i), i))
    requires BackKeptBut(h2, h3, Joined(Marked(bs, i), i), {i, i + 1})
    ensures BackKeptBut(h, h3, bs, {i, i + 1} + Merging(bs, i))
  {
    var m := Marked(bs, i);
    var c := Joined(m, i);
    forall k | 0 <= k < |bs| && k !in {i, i + 1} + Merging(bs, i)
      ensures bs[k].addr in h && bs[k].addr in h3 && h3[bs[k].addr].prev == h[bs[k].addr].prev
    {
      assert m[k] == bs[k] && (i + 1 < |bs| ==> m[i + 1] == bs[i + 1]);
      var k' := if c == m || k < i then k else k - 1;
      assert c[k'] == bs[k];
    }
  }

  // Only the nearest earlier block ends where block `i` starts
  lemma NearestOnly(bs: seq<Block>, lo: nat, hi: nat, p: nat, i: nat)
    requires Tiles(bs, lo, hi) && 0 < lo && p < i < |bs|
    ensures bs[p].End() == bs[i].addr <==> p + 1 == i
    ensures bs[p].addr == bs[i - 1].addr <==> p + 1 == i
    ensures 0 < bs[p].addr < bs[i].addr
  {
    Reaches(bs, lo, hi, p);
    Ordered(bs, lo, hi, p, i);
    if p + 1 < i { Ordered(bs, lo, hi, p, i - 1); }
    assert Meets(bs, i);
  }

  // Whether free() of block `i` takes its left neighbour in
  predicate Leftwards(h: map<nat, Node>, bs: seq<Block>, i: nat)
    requires i < |bs|
  {
    i > 0 && !bs[i - 1].used && Back(h, bs[i], bs[i - 1].addr)
  }

  // Where block `i` is once free block `a` was given out
  lemma StillKnown(h: map<nat, Node>, h': map<nat, Node>, bs: seq<Block>, i: nat, a: nat, size: nat) returns (i': nat)
    requires i < |bs| && a < |bs| && i != a && size <= bs[a].size
    requires BackKept(h, h', bs, |bs|) && Known(h, bs, i)
    ensures var bs' := Splice(bs, a, a + 1, Cut(bs[a], size));
            i' < |bs'| && bs'[i'] == bs[i] && Known(h', bs', i')
    ensures i' == if i < a then i else i + |Cut(bs[a], size)| - 1
  {
    var c := Cut(bs[a], size);
    var bs' := Splice(bs, a, a + 1, c);
    i' := if i < a then i else i + |c| - 1;
    assert bs'[i'] == bs[i];
    if h[bs[i].addr].prev != 0 {
      var p :| 0 <= p < i && bs[p].addr == h[bs[i].addr].prev;
      var p' := if p <= a then p else p + |c| - 1;
      assert bs'[p'].addr == bs[p].addr && 0 <= p' < i';
    }
  }

  // `prev` of the block behind after free() of block `i`: the block that took it in, if any
  predicate Behind(h: map<nat, Node>, h': map<nat, Node>, bs: seq<Block>, i: nat)
    requires i < |bs|
  {
    var b := if Merging(bs, i) != {} then i + 2 else i + 1;
    b < |bs| ==>
      if Leftwards(h, bs, i) then Back(h', bs[b], bs[i - 1].addr)
      else if Merging(bs, i) != {} then Back(h', bs[b], bs[i].addr)
      else bs[b].addr in h && Back(h', bs[b], h[bs[b].addr].prev)
  }

  // After block `a` was given out, free() of block `i` merges left exactly as before, unless `a` is the left neighbour
  lemma StillLeftwards(h: map<nat, Node>, h': map<nat, Node>, bs: seq<Block>, lo: nat, hi: nat,
                       i: nat, a: nat, size: nat, i': nat)
    requires Tiles(bs, lo, hi) && 0 < lo && i < |bs| && a < |bs| && i != a && size <= bs[a].size
    requires BackKept(h, h', bs, |bs|) && Known(h, bs, i)
    requires i' == if i < a then i else i + |Cut(bs[a], size)| - 1
    ensures var bs' := Splice(bs, a, a + 1, Cut(bs[a], size));
      i' < |bs'| && (Leftwards(h', bs', i') <==> Leftwards(h, bs, i) && i != a + 1)
  {
    var c := Cut(bs[a], size);
    var bs' := Splice(bs, a, a + 1, c);
    assert bs'[i'] == bs[i];
    assert i' > 0 ==> bs'[i' - 1] == if i == a + 1 then c[|c| - 1] else bs[i - 1];
    Apart(bs, lo, hi, a);
  }

  lemma StillBehind(bs: seq<Block>, i: nat, a: nat, size: nat, i': nat)
    requires i < |bs| && a < |bs| && i != a && size <= bs[a].size
    requires i' == if i < a then i else i + |Cut(bs[a], size)| - 1
    ensures LastBehind(Splice(bs, a, a + 1, Cut(bs[a], size)), i') <==> LastBehind(bs, i) && a < i
  {
    var c := Cut(bs[a], size);
    var bs' := Splice(bs, a, a + 1, c);
    assert |bs'| == |bs| + |c| - 1;
    assert a < i && i + 1 < |bs| ==> bs'[i' + 1] == bs[i + 1];
    assert a == i + 1 ==> bs'[i' + 1] == c[0];
  }

  // Block `i` after block `a` was given out: same block, `prev` still known; when free() of it would fault
  lemma Bystander(h: map<nat, Node>, h': map<nat, Node>, bs: seq<Block>, lo: nat, hi: nat,
                  i: nat, a: nat, size: nat) returns (i': nat)
    requires Represents(h, bs, lo, hi) && i < |bs| && a < |bs| && bs[i].used && Fits(bs[a], size)
    requires BackKept(h, h', bs, |bs|) && Known(h, bs, i)
    ensures var bs' := Splice(bs, a, a + 1, Cut(bs[a], size));
            && i' < |bs'| && bs'[i'] == bs[i] && Known(h', bs', i')
            && (Leftwards(h', bs', i') && LastBehind(bs', i') <==>
                Leftwards(h, bs, i) && LastBehind(bs, i) && a + 1 < i)
    ensures Cut(bs[a], size)[0] != bs[i]
  {
    i' := StillKnown(h, h', bs, i, a, size);
    StillLeftwards(h, h', bs, lo, hi, i, a, size, i');
    StillBehind(bs, i, a, size, i');
    Apart(bs, lo, hi, i);
  }

  // Header of `node` cut back to `sz` bytes, with a free block of `rest` bytes set up behind it
  function Resized(h: map<nat, Node>, node: nat, sz: nat, rest: nat, next: nat): map<nat, Node>
    requires node in h
  {
    var right := node + HEADER + sz;
    var h1 := h[right := Node(rest, false, node, next)];
    var h2 := if next != 0 && next in h1 then h1[next := h1[next].(prev := right)] else h1;
    h2[node := h2[node].(next := right, size := sz)]
  }

  // A used block of `sz` bytes and a free one over the same stretch
  function Resplit(b: Block, sz: nat, rest: nat): seq<Block> {
    [Block(b.addr, sz, true), Block(b.addr + HEADER + sz, rest, false)]
  }

  lemma ResizedOk(h: map<nat, Node>, bs: seq<Block>, lo: nat, hi: nat, i: nat, j: nat, sz: nat, rest: nat)
    requires Represents(h, bs, lo, hi) && i < j <= |bs| && bs[i].used && bs[i].addr in h && j <= i + 2
    requires bs[j - 1].End() == bs[i].addr + HEADER + sz + HEADER + rest
    requires j == i + 2 ==> !bs[i + 1].used
    ensures var h' := Resized(h, bs[i].addr, sz, rest, After(bs, j - 1));
            var bs' := Splice(bs, i, j, Resplit(bs[i], sz, rest));
            && Represents(h', bs', lo, hi)
            && Live(bs') == Live(bs) - {bs[i]} + {Block(bs[i].addr, sz, true)}
            && (BackLinked(h, bs) ==> BackLinked(h', bs'))
  {
    var h' := Resized(h, bs[i].addr, sz, rest, After(bs, j - 1));
    var mid := Resplit(bs[i], sz, rest);
    Present(h, bs);
    assert Header(h, bs[i], After(bs, i));
    ResizedApart(bs, lo, hi, i, j, bs[i].addr + HEADER + sz);
    SpliceTiles(bs, lo, hi, i, j, mid);
    SpliceSpells(h', bs, i, j, mid);
    SpliceLive(bs, lo, hi, i, j, mid);
    assert bs[i..j] == if j == i + 1 then [bs[i]] else [bs[i], bs[i + 1]];
    if BackLinked(h, bs) {
      assert Back(h, bs[i], Before(bs, i));
      SpliceBack(h', bs, i, j, mid);
    }
  }

  // No block outside the stretch starts at `right`, nor where the stretch starts
  lemma ResizedApart(bs: seq<Block>, lo: nat, hi: nat, i: nat, j: nat, right: nat)
    requires Tiles(bs, lo, hi) && 0 < lo && i < j <= |bs| && j <= i + 2 && bs[i].addr < right < bs[j - 1].End()
    ensures forall k :: 0 <= k < |bs| && !(i <= k < j) ==> bs[k].addr != right && bs[k].addr != bs[i].addr
    ensures j < |bs| ==> After(bs, j - 1) != 0
    ensures forall k :: 0 <= k < |bs| && k != j ==> bs[k].addr != After(bs, j - 1)
  {
    Apart(bs, lo, hi, i);
    Apart(bs, lo, hi, j - 1);
    if j == i + 2 { assert Meets(bs, i + 1); }
    if j < |bs| { Apart(bs, lo, hi, j); }
    forall k | 0 <= k < |bs| ensures bs[k].addr > 0 { Apart(bs, lo, hi, k); }
  }

  // ---------- which `prev` name a block

  function Starts(bs: seq<Block>): set<nat> {
    set b | b in bs :: b.addr
  }

  // The same in terms of addresses: `prev` is NULL or a block further down
  predicate KnownAt(h: map<nat, Node>, starts: set<nat>, a: nat) {
    a in h && (h[a].prev == 0 || (h[a].prev in starts && h[a].prev < a))
  }

  lemma KnownIff(h: map<nat, Node>, bs: seq<Block>, lo: nat, hi: nat, k: nat)
    requires Tiles(bs, lo, hi) && k < |bs|
    ensures Known(h, bs, k) <==> KnownAt(h, Starts(bs), bs[k].addr)
  {
    var a := bs[k].addr;
    forall p | 0 <= p < |bs| ensures bs[p].addr < a <==> p < k {
      if p < k { Ordered(bs, lo, hi, p, k); } else if k < p { Ordered(bs, lo, hi, k, p); }
    }
    if a in h && h[a].prev in Starts(bs) && h[a].prev < a {
      var b :| b in bs && b.addr == h[a].prev;
      var p :| 0 <= p < |bs| && bs[p] == b;
    }
    forall p | 0 <= p < k ensures bs[p].addr in Starts(bs) { assert bs[p] in bs; }
  }

  // The blocks `bs` give way to `bs'`: the addresses `gone` are no blocks any more and `born` are new ones;
  // outside `but`, `prev` is as it was, and the blocks in `but` that stay are known afterwards
  lemma KnownChange(h: map<nat, Node>, h': map<nat, Node>, bs: seq<Block>, bs': seq<Block>, lo: nat, hi: nat,
                    but: set<nat>, gone: set<nat>, born: set<nat>)
    requires Tiles(bs, lo, hi) && Tiles(bs', lo, hi) && Starts(bs') == Starts(bs) - gone + born
    requires BackKeptBut(h, h', bs, but) && forall k :: 0 <= k < |bs| && k !in but ==> bs[k].addr !in gone
    requires forall k :: 0 <= k < |bs| && k in but ==> bs[k].addr in gone || KnownAt(h', Starts(bs'), bs[k].addr)
    requires forall a :: a in born ==> KnownAt(h', Starts(bs'), a)
    requires 0 !in gone && gone !! born && (born == {} || AllKnown(h, bs))
    ensures AllKnown(h', bs') <==> KnownBut(h, bs, but, gone)
  {
    hide Known, Tiles;
    forall k | 0 <= k < |bs| && k !in but
      ensures KnownAt(h', Starts(bs'), bs[k].addr) <==> Known(h, bs, k) && h[bs[k].addr].prev !in gone
    {
      KnownIff(h, bs, lo, hi, k);
    }
    if AllKnown(h', bs') {
      forall k | 0 <= k < |bs| && k !in but ensures KnownAt(h', Starts(bs'), bs[k].addr) {
        assert bs[k] in bs && bs[k].addr in Starts(bs');
        var k' := PlaceOf(bs', bs[k].addr);
        KnownIff(h', bs', lo, hi, k');
      }
    }
    if KnownBut(h, bs, but, gone) {
      forall k' | 0 <= k' < |bs'| ensures Known(h', bs', k') {
        var a := bs'[k'].addr;
        assert bs'[k'] in bs' && a in Starts(bs');
        if a !in born {
          var k := PlaceOf(bs, a);
        }
        KnownIff(h', bs', lo, hi, k');
      }
    }
  }

  lemma PlaceOf(bs: seq<Block>, a: nat) returns (k: nat)
    requires a in Starts(bs)
    ensures k < |bs| && bs[k].addr == a
  {
    var b :| b in bs && b.addr == a;
    k :| 0 <= k < |bs| && bs[k] == b;
  }

  lemma StartsSplice(bs: seq<Block>, lo: nat, hi: nat, i: nat, j: nat, mid: seq<Block>)
    requires Tiles(bs, lo, hi) && i < j <= |bs|
    ensures Starts(Splice(bs, i, j, mid)) == Starts(bs) - Starts(bs[i..j]) + Starts(mid)
  {
    var r := Splice(bs, i, j, mid);
    forall m | i <= m < j ensures bs[m].addr in Starts(bs[i..j]) {
      assert bs[i..j][m - i] in bs[i..j];
    }
    forall k | i <= k < i + |mid| ensures r[k].addr in Starts(mid) {
      assert r[k] == mid[k - i] && mid[k - i] in mid;
    }
    forall a | a in Starts(bs) - Starts(bs[i..j]) ensures a in Starts(r) {
      var k := PlaceOf(bs, a);
      assert k < i ==> r[k] == bs[k];
      assert k >= j ==> r[k - j + i + |mid|] == bs[k];
      assert bs[k] in r;
    }
    forall a | a in Starts(mid) ensures a in Starts(r) {
      var k := PlaceOf(mid, a);
      assert r[i + k] == mid[k] && mid[k] in r;
    }
    forall a | a in Starts(r) && a !in Starts(mid) ensures a in Starts(bs) - Starts(bs[i..j]) {
      var k := PlaceOf(r, a);
      var o := if k < i then k else k - i - |mid| + j;
      assert bs[o] == r[k] && bs[o] in bs;
      forall b | b in bs[i..j] ensures b.addr != a {
        var m :| 0 <= m < j - i && bs[i..j][m] == b;
        Apart(bs, lo, hi, i + m);
      }
    }
  }

  // `prev` after block `i + 1` was absorbed
  lemma AbsorbedKnown(h: map<nat, Node>, bs: seq<Block>, lo: nat, hi: nat, i: nat)
    requires Represents(h, bs, lo, hi) && i + 1 < |bs| && !bs[i + 1].used
    requires Header(h, bs[i], After(bs, i)) && bs[i + 1].addr in h
    ensures AllKnown(Absorbed(h, bs[i].addr), Joined(bs, i)) <==> KnownBut(h, bs, {i + 1, i + 2}, {bs[i + 1].addr})
    ensures i + 2 < |bs| ==> Back(Absorbed(h, bs[i].addr), bs[i + 2], bs[i].addr)
  {
    hide Tiles, Spells, KnownBut, AllKnown, Known;
    var h', bs', x := Absorbed(h, bs[i].addr), Joined(bs, i), bs[i + 1].addr;
    AbsorbedOk(h, bs, lo, hi, i);
    AbsorbedBehind(h, bs, lo, hi, i);
    JoinedStarts(bs, lo, hi, i);
    Apart(bs, lo, hi, i + 1);
    if i + 2 < |bs| { NearestOnly(bs, lo, hi, i, i + 2); }
    KnownChange(h, h', bs, bs', lo, hi, {i + 1, i + 2}, {x}, {});
  }

  lemma AbsorbedBehind(h: map<nat, Node>, bs: seq<Block>, lo: nat, hi: nat, i: nat)
    requires Represents(h, bs, lo, hi) && i + 1 < |bs|
    requires Header(h, bs[i], After(bs, i)) && bs[i + 1].addr in h
    ensures i + 2 < |bs| ==> Back(Absorbed(h, bs[i].addr), bs[i + 2], bs[i].addr)
  {
    Neighbour(h, bs, lo, hi, i);
    Neighbour(h, bs, lo, hi, i + 1);
    if i + 2 < |bs| { NearestOnly(bs, lo, hi, i, i + 2); }
  }

  lemma JoinedStarts(bs: seq<Block>, lo: nat, hi: nat, i: nat)
    requires Tiles(bs, lo, hi) && i + 1 < |bs| && !bs[i + 1].used
    ensures Starts(Joined(bs, i)) == Starts(bs) - {bs[i + 1].addr}
    ensures bs[i].addr in Starts(Joined(bs, i))
  {
    var mid := [bs[i].(size := bs[i].size + HEADER + bs[i + 1].size)];
    StartsSplice(bs, lo, hi, i, i + 2, mid);
    assert bs[i..i + 2] == [bs[i], bs[i + 1]];
    assert bs[i] in bs && Starts(mid) == {bs[i].addr} && Starts(bs[i..i + 2]) == {bs[i].addr, bs[i + 1].addr};
    Apart(bs, lo, hi, i);
  }

  // Marking a block free changes no `prev`
  lemma MarkedKnown(h: map<nat, Node>, h': map<nat, Node>, bs: seq<Block>, i: nat, but: set<nat>, gone: set<nat>)
    requires i < |bs| && BackKept(h, h', bs, |bs|)
    ensures KnownBut(h', Marked(bs, i), but, gone) <==> KnownBut(h, bs, but, gone)
  {
    var m := Marked(bs, i);
    assert |m| == |bs| && forall k :: 0 <= k < |bs| ==> m[k].addr == bs[k].addr;
    forall k | 0 <= k < |bs| ensures Known(h', m, k) <==> Known(h, bs, k) {
      assert h'[m[k].addr].prev == h[bs[k].addr].prev;
    }
  }

  // Block `k` other than those involved, after block `i` has taken in its right neighbour
  lemma JoinedKnown(h: map<nat, Node>, h': map<nat, Node>, bs: seq<Block>, lo: nat, hi: nat, i: nat, k: nat)
    requires Tiles(bs, lo, hi) && 0 < lo && i < |bs| && k < |bs| && k !in Merging(bs, i)
    requires Tiles(Joined(bs, i), lo, hi) && BackKeptBut(h, h', bs, Merging(bs, i))
    ensures var k' := if k <= i || Merging(bs, i) == {} then k else k - 1;
      && k' < |Joined(bs, i)| && Joined(bs, i)[k'].addr == bs[k].addr
      && (Known(h', Joined(bs, i), k') <==> Known(h, bs, k) && h[bs[k].addr].prev !in Swallowed(bs, i))
  {
    var k' := if k <= i || Merging(bs, i) == {} then k else k - 1;
    assert Joined(bs, i)[k'].addr == bs[k].addr;
    hide Tiles, Known, Joined;
    KnownIff(h, bs, lo, hi, k);
    KnownIff(h', Joined(bs, i), lo, hi, k');
    if Merging(bs, i) != {} {
      JoinedStarts(bs, lo, hi, i);
      NearestOnly(bs, lo, hi, i, i + 1);
    } else {
      NotJoined(bs, i);
    }
  }

  lemma NotJoined(bs: seq<Block>, i: nat)
    requires i < |bs| && Merging(bs, i) == {}
    ensures Joined(bs, i) == bs && Swallowed(bs, i) == {}
  {
  }

  // Both merges of free() together
  lemma FreedKnown(h: map<nat, Node>, h': map<nat, Node>, bs: seq<Block>, lo: nat, hi: nat, i: nat, a: nat)
    requires Tiles(bs, lo, hi) && 0 < lo && i < |bs|
    requires Tiles(Joined(bs, i), lo, hi) && BackKeptBut(h, h', bs, Merging(bs, i))
    ensures KnownBut(h', Joined(bs, i), {i, i + 1}, {a}) <==>
            KnownBut(h, bs, {i, i + 1} + Merging(bs, i), {a} + Swallowed(bs, i))
  {
    hide Tiles, Known;
    var c := Joined(bs, i);
    forall k | 0 <= k < |bs| && k !in {i, i + 1} + Merging(bs, i)
      ensures var k' := if k <= i || Merging(bs, i) == {} then k else k - 1;
        && k' < |c| && k' !in {i, i + 1} && h'[c[k'].addr].prev == h[bs[k].addr].prev
        && (Known(h', c, k') <==> Known(h, bs, k) && h[bs[k].addr].prev !in Swallowed(bs, i))
    {
      JoinedKnown(h, h', bs, lo, hi, i, k);
    }
    if KnownBut(h, bs, {i, i + 1} + Merging(bs, i), {a} + Swallowed(bs, i)) {
      forall k' | 0 <= k' < |c| && k' !in {i, i + 1} ensures Known(h', c, k') && h'[c[k'].addr].prev != a {
        var k := if k' < i || Merging(bs, i) == {} then k' else k' + 1;
        assert k < |bs| && k !in {i, i + 1} + Merging(bs, i);
      }
    }
  }

  lemma FreedBehind(h: map<nat, Node>, h1: map<nat, Node>, h2: map<nat, Node>, h3: map<nat, Node>,
                    bs: seq<Block>, i: nat)
    requires i < |bs| && BackKept(h, h1, bs, |bs|)
    requires var m := Marked(bs, i);
      && BackKeptBut(h1, h2, m, Merging(m, i))
      && (Merging(m, i) != {} && i + 2 < |m| ==> Back(h2, m[i + 2], bs[i].addr))
      && var c := Joined(m, i);
      && (Leftwards(h, bs, i) && i + 1 < |c| ==> Back(h3, c[i + 1], bs[i - 1].addr))
      && (!Leftwards(h, bs, i) ==> h3 == h2)
    ensures Behind(h, h3, bs, i)
  {
    var m := Marked(bs, i);
    assert |m| == |bs| && forall k :: 0 <= k < |bs| && k != i ==> m[k] == bs[k];
    assert Merging(m, i) == Merging(bs, i);
    var c := Joined(m, i);
    if Merging(bs, i) != {} {
      assert i + 2 < |bs| ==> c[i + 1] == bs[i + 2];
    } else {
      assert c == m;
    }
  }

  // The start of the block split off, if any
  function SplitOff(b: Block, size: nat): set<nat>
    requires size <= b.size
  {
    if |Cut(b, size)| == 2 then {Cut(b, size)[1].addr} else {}
  }

  lemma CutStarts(bs: seq<Block>, lo: nat, hi: nat, i: nat, size: nat)
    requires Tiles(bs, lo, hi) && i < |bs| && size <= bs[i].size
    ensures Starts(Splice(bs, i, i + 1, Cut(bs[i], size))) == Starts(bs) + SplitOff(bs[i], size)
    ensures bs[i].addr in Starts(bs)
  {
    var c := Cut(bs[i], size);
    StartsSplice(bs, lo, hi, i, i + 1, c);
    assert bs[i..i + 1] == [bs[i]] && bs[i] in bs;
    assert Starts(bs[i..i + 1]) == {bs[i].addr} && Starts(c) == {bs[i].addr} + SplitOff(bs[i], size);
  }

  lemma SplitOffKnown(h: map<nat, Node>, b: Block, starts: set<nat>, size: nat)
    requires b.addr in h && h[b.addr].size == b.size && size <= b.size && b.addr in starts
    ensures forall a :: a in SplitOff(b, size) ==> KnownAt(HandedOut(h, b.addr, size), starts, a)
  {
  }

  // Giving out a block leaves every `prev` known
  lemma HandedOutKnown(h: map<nat, Node>, bs: seq<Block>, lo: nat, hi: nat, i: nat, size: nat)
    requires Represents(h, bs, lo, hi) && i < |bs| && Header(h, bs[i], After(bs, i)) && Fits(bs[i], size)
    requires AllKnown(h, bs)
    ensures AllKnown(HandedOut(h, bs[i].addr, size), Splice(bs, i, i + 1, Cut(bs[i], size)))
  {
    hide Tiles, Spells, Known, Splice, KnownAt, HandedOut, Cut, SplitOff, Starts;
    var h', bs' := HandedOut(h, bs[i].addr, size), Splice(bs, i, i + 1, Cut(bs[i], size));
    HandedOutOk(h, bs, lo, hi, i, size);
    CutStarts(bs, lo, hi, i, size);
    SplitOffKnown(h, bs[i], Starts(bs'), size);
    KnownChange(h, h', bs, bs', lo, hi, {}, {}, SplitOff(bs[i], size));
  }

  lemma ResizedStarts(bs: seq<Block>, lo: nat, hi: nat, i: nat, j: nat, sz: nat, rest: nat)
    requires Tiles(bs, lo, hi) && 0 < lo && i < j <= |bs| && j <= i + 2
    requires bs[j - 1].End() == bs[i].addr + HEADER + sz + HEADER + rest
    ensures var right := bs[i].addr + HEADER + sz;
      && Starts(Splice(bs, i, j, Resplit(bs[i], sz, rest))) == Starts(bs) - Dropped(bs, i, j, sz) + {right}
      && right !in Dropped(bs, i, j, sz) && 0 !in Dropped(bs, i, j, sz) && bs[i].addr !in Dropped(bs, i, j, sz)
      && (forall k :: 0 <= k < |bs| && k != i + 1 ==> bs[k].addr !in Dropped(bs, i, j, sz))
      && bs[i].addr in Starts(bs)
  {
    hide Tiles, Starts, Splice;
    StartsSplice(bs, lo, hi, i, j, Resplit(bs[i], sz, rest));
    StretchStarts(bs, i, j, sz, rest);
    Apart(bs, lo, hi, i);
    NextStart(bs, lo, hi, i);
    if j == i + 2 { Apart(bs, lo, hi, i + 1); }
  }

  lemma StretchStarts(bs: seq<Block>, i: nat, j: nat, sz: nat, rest: nat)
    requires i < j <= |bs| && j <= i + 2
    ensures Starts(bs[i..j]) == if j == i + 1 then {bs[i].addr} else {bs[i].addr, bs[i + 1].addr}
    ensures Starts(Resplit(bs[i], sz, rest)) == {bs[i].addr, bs[i].addr + HEADER + sz} && bs[i].addr in Starts(bs)
  {
    assert bs[i] in bs && bs[i..j] == if j == i + 1 then [bs[i]] else [bs[i], bs[i + 1]];
  }

  lemma ResizedPrevs(h: map<nat, Node>, bs: seq<Block>, lo: nat, hi: nat, i: nat, j: nat, sz: nat, rest: nat)
    requires Represents(h, bs, lo, hi) && i < j <= |bs| && bs[i].addr in h && j <= i + 2
    requires bs[j - 1].End() == bs[i].addr + HEADER + sz + HEADER + rest
    ensures var h', right := Resized(h, bs[i].addr, sz, rest, After(bs, j - 1)), bs[i].addr + HEADER + sz;
      && BackKeptBut(h, h', bs, {i + 1, j})
      && right in h' && h'[right].prev == bs[i].addr && (j < |bs| ==> Back(h', bs[j], right))
  {
    var right := bs[i].addr + HEADER + sz;
    Present(h, bs);
    ResizedApart(bs, lo, hi, i, j, right);
  }

  // A block cut back to `sz` bytes, with what was behind it up to block `j` set up anew
  lemma ResizedKnown(h: map<nat, Node>, bs: seq<Block>, lo: nat, hi: nat, i: nat, j: nat, sz: nat, rest: nat)
    requires Represents(h, bs, lo, hi) && i < j <= |bs| && bs[i].used && bs[i].addr in h && j <= i + 2
    requires bs[j - 1].End() == bs[i].addr + HEADER + sz + HEADER + rest
    requires (j == i + 2 ==> !bs[i + 1].used) && AllKnown(h, bs)
    ensures var h' := Resized(h, bs[i].addr, sz, rest, After(bs, j - 1));
            var bs' := Splice(bs, i, j, Resplit(bs[i], sz, rest));
            AllKnown(h', bs') <==> KnownBut(h, bs, {i + 1, j}, Dropped(bs, i, j, sz))
  {
    hide Tiles, Spells, Known, Splice, Resized, Starts, KnownBut, AllKnown, BackKeptBut;
    var right := bs[i].addr + HEADER + sz;
    var h', bs' := Resized(h, bs[i].addr, sz, rest, After(bs, j - 1)), Splice(bs, i, j, Resplit(bs[i], sz, rest));
    ResizedOk(h, bs, lo, hi, i, j, sz, rest);
    ResizedStarts(bs, lo, hi, i, j, sz, rest);
    ResizedPrevs(h, bs, lo, hi, i, j, sz, rest);
    if j < |bs| { NearestOnly(bs, lo, hi, j - 1, j); }
    NextStart(bs, lo, hi, i);
    KnownChange(h, h', bs, bs', lo, hi, {i + 1, j}, Dropped(bs, i, j, sz), {right});
  }

  lemma NextStart(bs: seq<Block>, lo: nat, hi: nat, i: nat)
    requires Tiles(bs, lo, hi) && i < |bs|
    ensures i + 1 < |bs| ==> bs[i + 1].addr == bs[i].End()
  {
    assert i + 1 < |bs| ==> Meets(bs, i + 1);
  }

  // The blocks of a shrink, by place
  lemma ShrunkPlaces(bs: seq<Block>, i: nat, sz: nat, rest: nat)
    requires i < |bs|
    ensures var bs1 := Splice(bs, i, i + 1, Resplit(bs[i], sz, rest));
      && |bs1| == |bs| + 1 && bs1[i].addr == bs[i].addr && bs1[i + 1].addr == bs[i].addr + HEADER + sz
      && (forall k :: 0 <= k < i ==> bs1[k] == bs[k])
      && (forall k :: i < k < |bs| ==> bs1[k + 1] == bs[k])
  {
  }

  // ... and their `prev`
  lemma ShrunkPrevs(h: map<nat, Node>, bs: seq<Block>, lo: nat, hi: nat, i: nat, sz: nat, rest: nat)
    requires Represents(h, bs, lo, hi) && i < |bs| && bs[i].used && bs[i].addr in h
    requires bs[i].End() == bs[i].addr + HEADER + sz + HEADER + rest
    ensures var h1 := Resized(h, bs[i].addr, sz, rest, After(bs, i));
      var bs1 := Splice(bs, i, i + 1, Resplit(bs[i], sz, rest));
      && |bs1| == |bs| + 1
      && (forall k :: 0 <= k <= i ==> bs[k].addr in h && Back(h1, bs1[k], h[bs[k].addr].prev))
      && Back(h1, bs1[i + 1], bs[i].addr)
      && (forall k :: i + 1 < k < |bs| ==> bs[k].addr in h && Back(h1, bs1[k + 1], h[bs[k].addr].prev))
      && (forall k :: i < k < |bs| ==> bs1[k + 1] == bs[k])
  {
    hide Splice, Resplit, Tiles, Spells, Resized;
    ShrunkPlaces(bs, i, sz, rest);
    ResizedPrevs(h, bs, lo, hi, i, i + 1, sz, rest);
  }

  // Shrinking and the merge that follows
  lemma ShrunkKnown(h: map<nat, Node>, h1: map<nat, Node>, bs: seq<Block>, lo: nat, hi: nat, i: nat, sz: nat, rest: nat)
    requires Represents(h, bs, lo, hi) && i < |bs| && bs[i].used && bs[i].addr in h && AllKnown(h, bs)
    requires bs[i].End() == bs[i].addr + HEADER + sz + HEADER + rest
    requires h1 == Resized(h, bs[i].addr, sz, rest, After(bs, i))
    ensures var bs1 := Splice(bs, i, i + 1, Resplit(bs[i], sz, rest));
      KnownBut(h1, bs1, Merging(bs1, i + 1), Swallowed(bs1, i + 1)) <==>
      KnownBut(h, bs, Merging(bs, i), Swallowed(bs, i))
  {
    hide Splice, Represents, Known, Resized, Resplit, KnownBut, AllKnown;
    var bs1 := Splice(bs, i, i + 1, Resplit(bs[i], sz, rest));
    ResizedKnown(h, bs, lo, hi, i, i + 1, sz, rest);
    ShrunkPrevs(h, bs, lo, hi, i, sz, rest);
    KnownNone(h, bs, i + 1);
    assert {i + 1, i + 1} == {i + 1};
    assert AllKnown(h1, bs1);
    KnownAll(h, bs);
    KnownAll(h1, bs1);
    if i + 1 < |bs| && !bs[i + 1].used {
      EarlierOnly(h, bs, lo, hi, i);
      TilesOf(h, bs, lo, hi);
      NextStart(bs, lo, hi, i);
      var x := bs[i + 1].addr;
      ShrunkNames(h, h1, bs, bs1, i, x);
    }
  }

  // Who names `x`, before and after
  lemma ShrunkNames(h: map<nat, Node>, h1: map<nat, Node>, bs: seq<Block>, bs1: seq<Block>, i: nat, x: nat)
    requires i < |bs| && |bs1| == |bs| + 1 && AllKnown(h, bs) && AllKnown(h1, bs1) && bs[i].addr != x
    requires forall k :: 0 <= k <= i ==> bs[k].addr in h && h[bs[k].addr].prev != x
    requires forall k :: 0 <= k <= i ==> Back(h1, bs1[k], h[bs[k].addr].prev)
    requires Back(h1, bs1[i + 1], bs[i].addr)
    requires forall k :: i + 1 < k < |bs| ==> bs[k].addr in h && Back(h1, bs1[k + 1], h[bs[k].addr].prev)
    ensures KnownBut(h1, bs1, {i + 2, i + 3}, {x}) <==> KnownBut(h, bs, {i + 1, i + 2}, {x})
  {
    KnownDomain(h, bs);
    KnownDomain(h1, bs1);
    hide Known;
    if KnownBut(h, bs, {i + 1, i + 2}, {x}) {
      forall k | 0 <= k < |bs1| && k !in {i + 2, i + 3} ensures Known(h1, bs1, k) && h1[bs1[k].addr].prev != x {
        assert Known(h1, bs1, k);
        if k > i + 3 { assert Back(h1, bs1[(k - 1) + 1], h[bs[k - 1].addr].prev); }
      }
    }
    if KnownBut(h1, bs1, {i + 2, i + 3}, {x}) {
      forall k | 0 <= k < |bs| && k !in {i + 1, i + 2} ensures Known(h, bs, k) && h[bs[k].addr].prev != x {
        assert Known(h, bs, k);
        if k > i + 2 { assert Known(h1, bs1, k + 1) && Back(h1, bs1[k + 1], h[bs[k].addr].prev); }
      }
    }
  }

  lemma KnownDomain(h: map<nat, Node>, bs: seq<Block>)
    requires AllKnown(h, bs)
    ensures forall k :: 0 <= k < |bs| ==> bs[k].addr in h
  {
    forall k | 0 <= k < |bs| ensures bs[k].addr in h { assert Known(h, bs, k); }
  }

  lemma TilesOf(h: map<nat, Node>, bs: seq<Block>, lo: nat, hi: nat)
    requires Represents(h, bs, lo, hi)
    ensures Tiles(bs, lo, hi)
  {
  }

  lemma KnownNone(h: map<nat, Node>, bs: seq<Block>, k: nat)
    requires AllKnown(h, bs)
    ensures KnownBut(h, bs, {k}, {})
  {
  }

  // Blocks up to `i` do not name block `i + 1`
  lemma EarlierOnly(h: map<nat, Node>, bs: seq<Block>, lo: nat, hi: nat, i: nat)
    requires Represents(h, bs, lo, hi) && AllKnown(h, bs) && i + 1 < |bs|
    ensures forall k :: 0 <= k <= i ==> bs[k].addr in h && h[bs[k].addr].prev != bs[i + 1].addr
  {
    forall k | 0 <= k <= i ensures bs[k].addr in h && h[bs[k].addr].prev != bs[i + 1].addr {
      KnownIff(h, bs, lo, hi, k);
      NearestOnly(bs, lo, hi, k, i + 1);
      assert Known(h, bs, k);
    }
  }

  // The address of block `i + 1`, if growth of block `i` to `sz` bytes moves its start
  function Dropped(bs: seq<Block>, i: nat, j: nat, sz: nat): set<nat>
    requires i < j <= |bs|
  {
    if j == i + 2 && sz != bs[i].size then {bs[i + 1].addr} else {}
  }

  // ---------- growing in place

  // Byte `k` of a word
  function ByteOf(n: nat, k: nat): (b: nat)
    ensures b < 256
  {
    if k == 0 then n % 256 else ByteOf(n / 256, k - 1)
  }

  // Growth by `g` bytes writes the new header `g` bytes behind the old one, before the `next` of the old
  // one has been read (heap.c:119-122).  The bytes of `next` that the new `size`, which is `rest`, and the
  // new `status` hit already have those values
  predicate Unhit(next: nat, rest: nat, g: int) {
    forall k :: 0 <= k < 8 ==> UnhitAt(next, rest, g, k)
  }

  predicate UnhitAt(next: nat, rest: nat, g: int, k: nat) {
    && (g <= 24 + k < g + 8 ==> ByteOf(next, k) == ByteOf(rest, 24 + k - g))
    && (24 + k == g + 8 ==> ByteOf(next, k) == 0)
  }

  lemma UnhitFar(next: nat, rest: nat, g: int)
    requires !(16 <= g < HEADER)
    ensures Unhit(next, rest, g)
  {
  }

  class Arena {
    const base: nat
    var hdr: map<nat, Node>
    ghost const hi: nat
    ghost var blocks: seq<Block>

    ghost predicate Valid()
      reads this
    {
      Represents(hdr, blocks, base, hi)
    }

    // The allocations are those of `kept` and one at `r`, of at least `size` bytes and at most a header more
    ghost predicate Gave(kept: set<Block>, r: nat, size: nat)
      reads this
    {
      exists b: Block :: b.used && b.addr + HEADER == r && size <= b.size <= size + HEADER && Live(blocks) == kept + {b}
    }

    // init_heap
    constructor (heap: nat, size: nat)
      requires 0 < heap && HEADER <= size
      ensures Valid() && base == heap && hi == heap + size
      ensures blocks == [Block(heap, size - HEADER, false)] && BackLinked(hdr, blocks)
    {
      base := heap;
      hdr := map[heap := Node(size - HEADER, false, 0, 0)];
      hi := heap + size;
      blocks := [Block(heap, size - HEADER, false)];
    }

    // The search loop of alloc: the first block that fits, or else the last block
    method FirstFit(size: nat) returns (cur: nat, ghost i: nat)
      requires Valid()
      ensures i < |blocks| && blocks[i].addr == cur && Header(hdr, blocks[i], After(blocks, i))
      ensures forall k :: 0 <= k < i ==> !Fits(blocks[k], size)
      ensures Fits(blocks[i], size) || i + 1 == |blocks|
    {
      cur := base;
      i := 0;
      assert Header(hdr, blocks[0], After(blocks, 0));
      while hdr[cur].used || hdr[cur].size < size
        invariant i < |blocks| && blocks[i].addr == cur && Header(hdr, blocks[i], After(blocks, i))
        invariant forall k :: 0 <= k < i ==> !Fits(blocks[k], size)
        decreases |blocks| - i
      {
        Reaches(blocks, base, hi, i);
        if hdr[cur].next == 0 { break; }
        assert Header(hdr, blocks[i + 1], After(blocks, i + 1));
        cur := hdr[cur].next;
        i := i + 1;
      }
    }

    // The header writes of alloc (heap.c:51-64)
    method HandOut(cur: nat, size: nat)
      requires cur in hdr && size <= hdr[cur].size
      modifies this`hdr
      ensures hdr == HandedOut(old(hdr), cur, size)
    {
      if hdr[cur].size > size + HEADER {
        var rest := cur + HEADER + size;
        hdr := hdr[rest := Node(hdr[cur].size - size - HEADER, false, cur, hdr[cur].next)];
        hdr := hdr[cur := hdr[cur].(next := rest)];
        hdr := hdr[cur := hdr[cur].(size := size)];
      }
      hdr := hdr[cur := hdr[cur].(used := true)];
    }

    // alloc, without the attempt to grow the arena: no fitting block gives NULL
    method Alloc(size: nat) returns (r: nat, ghost i: nat)
      requires Valid()
      modifies this`hdr, this`blocks
      ensures Valid()
      ensures i <= |old(blocks)| && forall k :: 0 <= k < i ==> !Fits(old(blocks)[k], size)
      ensures r == 0 <==> i == |old(blocks)|
      ensures r == 0 ==> blocks == old(blocks) && hdr == old(hdr)
      ensures r != 0 ==> Fits(old(blocks)[i], size) && r == old(blocks)[i].addr + HEADER
      ensures r != 0 ==> blocks == Splice(old(blocks), i, i + 1, Cut(old(blocks)[i], size))
      ensures r != 0 ==>
        var bs, b := old(blocks), old(blocks)[i];
        blocks == bs[..i]
                + (if b.size > size + HEADER
                   then [Block(b.addr, size, true), Block(r + size, b.size - size - HEADER, false)]
                   else [Block(b.addr, b.size, true)])
                + bs[i + 1..]
      ensures r != 0 ==> Live(blocks) == old(Live(blocks)) + {Cut(old(blocks)[i], size)[0]}
      ensures r != 0 ==> Gave(old(Live(blocks)), r, size)
      ensures BackKept(old(hdr), hdr, old(blocks), |old(blocks)|)
      ensures old(AllKnown(hdr, blocks)) ==> AllKnown(hdr, blocks)
      ensures old(BackLinked(hdr, blocks)) ==>
        (BackLinked(hdr, blocks) <==> r == 0 || |Cut(old(blocks)[i], size)| == 1 || i + 1 == |old(blocks)|)
    {
      hide Known, AllKnown, BackLinked, Tiles, Spells, Live, Splice, HandedOut;
      var cur: nat;
      cur, i := FirstFit(size);
      if hdr[cur].next == 0 && (hdr[cur].used || hdr[cur].size < size) {
        Reaches(blocks, base, hi, i);
        Present(hdr, blocks);
        i := i + 1;
        return 0, i;
      }
      r := cur + HEADER;
      HandedOutOk(hdr, blocks, base, hi, i, size);
      if AllKnown(hdr, blocks) { HandedOutKnown(hdr, blocks, base, hi, i, size); }
      HandOut(cur, size);
      blocks := Splice(blocks, i, i + 1, Cut(blocks[i], size));
      CutSpliced(old(blocks), i, size);
    }

    // merge_right
    method MergeRight(node: nat, ghost i: nat)
      requires Valid() && i < |blocks| && node == blocks[i].addr
      modifies this`hdr, this`blocks
      ensures Valid() && blocks == Joined(old(blocks), i)
      ensures !old(blocks)[i].used ==> Live(blocks) == old(Live(blocks))
      ensures BackKeptBut(old(hdr), hdr, old(blocks), Merging(old(blocks), i))
      ensures i + 2 in Merging(old(blocks), i) && i + 2 < |old(blocks)| ==> Back(hdr, old(blocks)[i + 2], node)
      ensures AllKnown(hdr, blocks) <==>
        KnownBut(old(hdr), old(blocks), Merging(old(blocks), i), Swallowed(old(blocks), i))
      ensures old(BackLinked(hdr, blocks)) ==> BackLinked(hdr, blocks)
    {
      hide Tiles, Spells, BackLinked, AllKnown, Known, KnownBut;
      var ptr := node + HEADER;
      Neighbour(hdr, blocks, base, hi, i);
      Present(hdr, blocks);
      KnownAll(hdr, blocks);
      if !blocks[i].used { JoinedLive(blocks, base, hi, i); }
      if hdr[node].next != 0 && !hdr[hdr[node].next].used {
        if hdr[node].size + ptr == hdr[node].next {
          var merging := hdr[node].next;
          AbsorbedOk(hdr, blocks, base, hi, i);
          AbsorbedKnown(hdr, blocks, base, hi, i);
          if BackLinked(hdr, blocks) { AbsorbedBack(hdr, blocks, base, hi, i); }
          if hdr[merging].next != 0 {
            hdr := hdr[hdr[merging].next := hdr[hdr[merging].next].(prev := node)];
          }
          hdr := hdr[node := hdr[node].(next := hdr[merging].next)];
          hdr := hdr[node := hdr[node].(size := hdr[node].size + hdr[merging].size + HEADER)];
          assert hdr == Absorbed(old(hdr), node);
          blocks := Joined(blocks, i);
        }
      }
    }

    // The second half of free, for a block already marked free
    method MergeLeft(node: nat, ghost i: nat) returns (ok: bool)
      requires Valid() && i < |blocks| && node == blocks[i].addr && Known(hdr, blocks, i) && !blocks[i].used
      modifies this`hdr, this`blocks
      ensures ok <==> (old(Leftwards(hdr, blocks, i)) ==> i + 1 < |old(blocks)|)
      ensures ok ==> Valid() && Live(blocks) == old(Live(blocks))
      ensures ok ==> BackKeptBut(old(hdr), hdr, old(blocks), {i, i + 1})
      ensures old(Leftwards(hdr, blocks, i)) && ok ==> Back(hdr, old(blocks)[i + 1], old(blocks)[i - 1].addr)
      ensures !old(Leftwards(hdr, blocks, i)) ==> hdr == old(hdr)
      ensures ok ==> (AllKnown(hdr, blocks) <==>
        if old(Leftwards(hdr, blocks, i)) then KnownBut(old(hdr), old(blocks), {i, i + 1}, {node})
        else old(AllKnown(hdr, blocks)))
      ensures ok ==> blocks == if old(Leftwards(hdr, blocks, i)) then Joined(old(blocks), i - 1) else old(blocks)
      ensures ok && old(BackLinked(hdr, blocks)) ==> BackLinked(hdr, blocks)
    {
      hide Tiles, Spells, BackLinked, BackKeptBut, AllKnown, KnownBut;
      var prev := hdr[node].prev;
      Present(hdr, blocks);
      if i > 0 { NearestOnly(blocks, base, hi, i - 1, i); }
      if prev != 0 {
        ghost var p :| 0 <= p < i && blocks[p].addr == prev;
        NearestOnly(blocks, base, hi, p, i);
        Neighbour(hdr, blocks, base, hi, p);
        Neighbour(hdr, blocks, base, hi, i);
        if !hdr[prev].used && prev + hdr[prev].size + HEADER == node {
          AbsorbedOk(hdr, blocks, base, hi, p);
          AbsorbedKnown(hdr, blocks, base, hi, p);
          if BackLinked(hdr, blocks) { AbsorbedBack(hdr, blocks, base, hi, p); }
          JoinedLive(blocks, base, hi, p);
          hdr := hdr[prev := hdr[prev].(next := hdr[node].next)];
          var next := hdr[node].next;
          if next == 0 { return false; }
          hdr := hdr[next := hdr[next].(prev := prev)];
          hdr := hdr[prev := hdr[prev].(size := hdr[prev].size + hdr[node].size + HEADER)];
          assert hdr == Absorbed(old(hdr), prev);
          blocks := Joined(blocks, p);
        }
      }
      ok := true;
    }

    // free; `ok` is false when it follows a NULL `next`
    method Free(ptr: nat, ghost i: nat) returns (ok: bool)
      requires Valid() && i < |blocks| && ptr == blocks[i].addr + HEADER && Known(hdr, blocks, i)
      modifies this`hdr, this`blocks
      ensures !old(blocks)[i].used ==> ok && blocks == old(blocks) && hdr == old(hdr)
      ensures old(blocks)[i].used ==> (ok <==> !(old(Leftwards(hdr, blocks, i)) && LastBehind(old(blocks), i)))
      ensures ok ==> Valid() && Live(blocks) == old(Live(blocks)) - {old(blocks)[i]}
      ensures ok ==> BackKeptBut(old(hdr), hdr, old(blocks), {i, i + 1} + Merging(old(blocks), i))
      ensures ok && old(blocks)[i].used ==> Behind(old(hdr), hdr, old(blocks), i)
      ensures ok && old(blocks)[i].used ==> (AllKnown(hdr, blocks) <==>
        if old(Leftwards(hdr, blocks, i))
        then KnownBut(old(hdr), old(blocks), {i, i + 1} + Merging(old(blocks), i),
                      {ptr - HEADER} + Swallowed(old(blocks), i))
        else KnownBut(old(hdr), old(blocks), Merging(old(blocks), i), Swallowed(old(blocks), i)))
      ensures ok && old(blocks)[i].used ==> blocks == Freed(old(blocks), i, old(Leftwards(hdr, blocks, i)))
      ensures ok && old(BackLinked(hdr, blocks)) ==> BackLinked(hdr, blocks)
    {
      hide Tiles, Spells, BackLinked, Splice, AllKnown, KnownBut;
      var node := ptr - HEADER;
      Neighbour(hdr, blocks, base, hi, i);
      Present(hdr, blocks);
      if !hdr[node].used { return true; }
      MarkedOk(hdr, blocks, base, hi, i);
      hdr := hdr[node := hdr[node].(used := false)];
      ghost var h1 := hdr;
      blocks := Marked(blocks, i);
      MergeRight(node, i);
      ghost var h2 := hdr;
      ghost var m := Marked(old(blocks), i);
      LastIff(old(blocks), i);
      FreedKnown(h1, h2, m, base, hi, i, node);
      MarkedKnown(old(hdr), h1, old(blocks), i, {i, i + 1} + Merging(m, i), {node} + Swallowed(m, i));
      MarkedKnown(old(hdr), h1, old(blocks), i, Merging(m, i), Swallowed(m, i));
      ok := MergeLeft(node, i);
      if ok {
        FreedBack(old(hdr), h1, h2, hdr, old(blocks), i);
        FreedBehind(old(hdr), h1, h2, hdr, old(blocks), i);
      }
    }

    // Whether realloc() of block `i` to `sz` bytes takes room from a free right neighbour
    ghost predicate GrowsInPlace(i: nat, sz: nat)
      reads this
      requires i < |blocks|
    {
      && blocks[i].size <= sz && i + 1 < |blocks| && !blocks[i + 1].used
      && sz <= blocks[i].size + blocks[i + 1].size
    }

    // Growing in place does not overwrite what it still has to read
    ghost predicate Harmless(i: nat, sz: nat)
      reads this
      requires i < |blocks| && GrowsInPlace(i, sz)
    {
      Unhit(After(blocks, i + 1), blocks[i].size + blocks[i + 1].size - sz, sz - blocks[i].size)
    }

    // The header writes of a shrinking realloc (heap.c:97-104)
    method CutTail(node: nat, freed: nat, sz: nat)
      requires node in hdr && freed == node + HEADER + sz && sz + HEADER <= hdr[node].size && freed != node
      requires hdr[node].next != 0 ==> hdr[node].next in hdr && hdr[node].next != node && hdr[node].next != freed
      modifies this`hdr
      ensures hdr == Resized(old(hdr), node, sz, old(hdr[node].size) - sz - HEADER, old(hdr[node].next))
    {
      hdr := hdr[freed := Node(hdr[node].size - sz - HEADER, false, node, hdr[node].next)];
      hdr := hdr[node := hdr[node].(size := sz)];
      if hdr[node].next != 0 { hdr := hdr[hdr[node].next := hdr[hdr[node].next].(prev := freed)]; }
      hdr := hdr[node := hdr[node].(next := freed)];
    }

    // The part of realloc that gives back the end of a block
    method Shrink(ptr: nat, sz: nat, ghost i: nat)
      requires Valid() && i < |blocks| && ptr == blocks[i].addr + HEADER && blocks[i].used
      requires sz + HEADER <= blocks[i].size
      modifies this`hdr, this`blocks
      ensures Valid()
      ensures old(BackLinked(hdr, blocks)) ==> BackLinked(hdr, blocks)
      ensures blocks == Joined(Splice(old(blocks), i, i + 1,
        Resplit(old(blocks)[i], sz, old(blocks)[i].size - sz - HEADER)), i + 1)
      ensures Live(blocks) == old(Live(blocks)) - {old(blocks)[i]} + {Block(ptr - HEADER, sz, true)}
      ensures old(AllKnown(hdr, blocks)) ==> (AllKnown(hdr, blocks) <==>
        KnownBut(old(hdr), old(blocks), Merging(old(blocks), i), Swallowed(old(blocks), i)))
    {
      hide Tiles, Spells, BackLinked, BackKeptBut, Merging, Swallowed, AllKnown, KnownBut, Resized, Live, Known;
      var node := ptr - HEADER;
      Neighbour(hdr, blocks, base, hi, i);
      ghost var rest := hdr[node].size - sz - HEADER;
      ResizedOk(hdr, blocks, base, hi, i, i + 1, sz, rest);
      ResizedApart(blocks, base, hi, i, i + 1, ptr + sz);
      CutTail(node, ptr + sz, sz);
      if old(AllKnown(hdr, blocks)) { ShrunkKnown(old(hdr), hdr, blocks, base, hi, i, sz, rest); }
      blocks := Splice(blocks, i, i + 1, Resplit(blocks[i], sz, rest));
      MergeRight(ptr + sz, i + 1);
    }

    // The part of realloc that stays in place; `done` is false if there is no room
    method Resize(ptr: nat, sz: nat, ghost i: nat) returns (done: bool)
      requires Valid() && i < |blocks| && ptr == blocks[i].addr + HEADER && blocks[i].used
      requires GrowsInPlace(i, sz) ==> Harmless(i, sz)
      modifies this`hdr, this`blocks
      ensures Valid()
      ensures done <==> sz < old(blocks)[i].size || old(GrowsInPlace(i, sz))
      ensures old(BackLinked(hdr, blocks)) ==> BackLinked(hdr, blocks)
      ensures !done || old(blocks)[i].size - HEADER < sz < old(blocks)[i].size ==>
        blocks == old(blocks) && hdr == old(hdr)
      ensures done && !(old(blocks)[i].size - HEADER < sz < old(blocks)[i].size) ==>
        Live(blocks) == old(Live(blocks)) - {old(blocks)[i]} + {Block(ptr - HEADER, sz, true)}
      ensures done ==> Gave(old(Live(blocks)) - {old(blocks)[i]}, ptr, sz)
      ensures done && sz + HEADER <= old(blocks)[i].size && old(AllKnown(hdr, blocks)) ==> (AllKnown(hdr, blocks) <==>
        KnownBut(old(hdr), old(blocks), Merging(old(blocks), i), Swallowed(old(blocks), i)))
      ensures old(GrowsInPlace(i, sz)) && old(AllKnown(hdr, blocks)) ==> (AllKnown(hdr, blocks) <==>
        KnownBut(old(hdr), old(blocks), {i + 1, i + 2}, Dropped(old(blocks), i, i + 2, sz)))
    {
      hide Tiles, Spells, BackLinked, AllKnown, KnownBut, Known, Swallowed, Merging, Dropped;
      var node := ptr - HEADER;
      Neighbour(hdr, blocks, base, hi, i);
      if sz < hdr[node].size {
        if hdr[node].size - sz < HEADER {
          assert Live(blocks) == Live(blocks) - {blocks[i]} + {blocks[i]};
          return true;
        }
        Shrink(ptr, sz, i);
        return true;
      }
      if hdr[node].next == 0 || hdr[hdr[node].next].used || hdr[node].size + ptr != hdr[node].next
         || hdr[hdr[node].next].size + hdr[node].size < sz {
        return false;
      }
      Grow(ptr, sz, i);
      done := true;
    }

    // The part of realloc that takes room from the right neighbour (heap.c:119-127)
    method Grow(ptr: nat, sz: nat, ghost i: nat)
      requires Valid() && i < |blocks| && ptr == blocks[i].addr + HEADER && blocks[i].used && GrowsInPlace(i, sz)
      requires Harmless(i, sz)
      modifies this`hdr, this`blocks
      ensures Valid()
      ensures old(BackLinked(hdr, blocks)) ==> BackLinked(hdr, blocks)
      ensures Live(blocks) == old(Live(blocks)) - {old(blocks)[i]} + {Block(ptr - HEADER, sz, true)}
      ensures old(AllKnown(hdr, blocks)) ==> (AllKnown(hdr, blocks) <==>
        KnownBut(old(hdr), old(blocks), {i + 1, i + 2}, Dropped(old(blocks), i, i + 2, sz)))
    {
      hide Tiles, Spells, BackLinked, AllKnown, KnownBut, Known, Dropped, Live;
      var node := ptr - HEADER;
      Neighbour(hdr, blocks, base, hi, i);
      var right := ptr + sz;
      var rest := hdr[node].size + hdr[hdr[node].next].size - sz;
      var next := hdr[hdr[node].next].next;
      ResizedOk(hdr, blocks, base, hi, i, i + 2, sz, rest);
      if AllKnown(hdr, blocks) { ResizedKnown(hdr, blocks, base, hi, i, i + 2, sz, rest); }
      hdr := hdr[right := Node(rest, false, node, next)];
      hdr := hdr[node := hdr[node].(next := right)];
      hdr := hdr[node := hdr[node].(size := sz)];
      if next != 0 { hdr := hdr[next := hdr[next].(prev := right)]; }
      assert hdr == Resized(old(hdr), node, sz, rest, After(blocks, i + 1));
      blocks := Splice(blocks, i, i + 2, Resplit(blocks[i], sz, rest));
    }

    // A move of block `i` succeeds: some block fits, and the free that follows does not follow a NULL `next`
    ghost predicate MoveOk(i: nat, sz: nat)
      reads this
      requires i < |blocks|
    {
      && FitIndex(blocks, sz) < |blocks|
      && !(Leftwards(hdr, blocks, i) && LastBehind(blocks, i) && FitIndex(blocks, sz) + 1 < i)
    }

    // The part of realloc that allocates, copies and frees
    method Move(ptr: nat, sz: nat, ghost i: nat) returns (r: nat, ok: bool)
      requires Valid() && i < |blocks| && ptr == blocks[i].addr + HEADER && blocks[i].used && Known(hdr, blocks, i)
      modifies this`hdr, this`blocks
      ensures ok ==> Valid() && Gave(old(Live(blocks)) - {old(blocks)[i]}, r, sz)
      ensures ok <==> old(MoveOk(i, sz))
    {
      hide Tiles, Spells, BackLinked, BackKept, Known, Leftwards, Splice, Freed, Joined, AllKnown, KnownBut, LastBehind,
        FitIndex;
      ghost var a: nat;
      r, a := Alloc(sz);
      FitIndexIs(old(blocks), sz, a);
      if r == 0 { return 0, false; }
      ghost var b := Cut(old(blocks)[a], sz)[0];
      ghost var i' := Bystander(old(hdr), hdr, old(blocks), base, hi, i, a, sz);
      ok := Free(ptr, i');
      assert ok ==> Live(blocks) == old(Live(blocks)) - {old(blocks)[i]} + {b};
    }

    // realloc; `ok` is false when it follows or copies to NULL
    method Realloc(ptr: nat, sz: nat, ghost i: nat) returns (r: nat, ok: bool)
      requires Valid()
      requires ptr != 0 ==> i < |blocks| && ptr == blocks[i].addr + HEADER && blocks[i].used && Known(hdr, blocks, i)
      requires ptr != 0 && GrowsInPlace(i, sz) ==> Harmless(i, sz)
      modifies this`hdr, this`blocks
      ensures ok ==> Valid()
      ensures ptr == 0 ==> ok && (r != 0 ==> Gave(old(Live(blocks)), r, sz)) && (r == 0 ==> blocks == old(blocks))
      ensures ok && ptr != 0 && sz == 0 ==> r == 0 && Live(blocks) == old(Live(blocks)) - {old(blocks)[i]}
      ensures ptr != 0 && sz == 0 ==> (ok <==> !(old(Leftwards(hdr, blocks, i)) && LastBehind(old(blocks), i)))
      ensures ptr != 0 && sz > 0 ==>
        (ok <==> sz < old(blocks)[i].size || old(GrowsInPlace(i, sz)) || old(MoveOk(i, sz)))
      ensures ok && ptr != 0 && sz > 0 ==> Gave(old(Live(blocks)) - {old(blocks)[i]}, r, sz)
    {
      hide Tiles, Spells, BackLinked, Cut, AllKnown, KnownBut, Known, MoveOk;
      if ptr == 0 {
        ghost var a: nat;
        r, a := Alloc(sz);
        return r, true;
      }
      if sz == 0 {
        ok := Free(ptr, i);
        return 0, ok;
      }
      var done := Resize(ptr, sz, i);
      if done { return ptr, true; }
      r, ok := Move(ptr, sz, i);
    }
  }

  // ---------- a run that leaves a dangling `prev`

  lemma PrevOf(h: map<nat, Node>, bs: seq<Block>, k: nat)
    requires BackLinked(h, bs) && k < |bs|
    ensures bs[k].addr in h && h[bs[k].addr].prev == Before(bs, k)
    ensures Known(h, bs, k)
  {
    assert Back(h, bs[k], Before(bs, k));
  }

  // Alloc, when block `i` is the first that fits
  method AllocAt(a: Arena, size: nat, ghost i: nat, ghost r: seq<Block>)
    requires a.Valid() && i < |a.blocks| && Fits(a.blocks[i], size)
    requires forall k :: 0 <= k < i ==> !Fits(a.blocks[k], size)
    requires r == Splice(a.blocks, i, i + 1, Cut(a.blocks[i], size))
    modifies a
    ensures a.Valid() && a.blocks == r && BackKept(old(a.hdr), a.hdr, old(a.blocks), |old(a.blocks)|)
    ensures old(BackLinked(a.hdr, a.blocks)) && i + 1 == |old(a.blocks)| ==> BackLinked(a.hdr, a.blocks)
  {
    hide Tiles, Spells, BackLinked, Splice, Cut, Live;
    var p; ghost var j;
    p, j := a.Alloc(size);
  }

  // Three allocations in a fresh arena, the middle one freed
  method MiddleFreed() returns (a: Arena)
    ensures fresh(a) && a.Valid() && BackLinked(a.hdr, a.blocks)
    ensures a.blocks == [Block(4096, 10, true), Block(4138, 200, false), Block(4370, 10, true), Block(4412, 652, false)]
  {
    hide Tiles, Spells, BackLinked, BackKept, BackKeptBut, Live;
    a := new Arena(4096, 1000);
    AllocAt(a, 10, 0, [Block(4096, 10, true), Block(4138, 926, false)]);
    AllocAt(a, 200, 1, [Block(4096, 10, true), Block(4138, 200, true), Block(4370, 694, false)]);
    AllocAt(a, 10, 2, [Block(4096, 10, true), Block(4138, 200, true), Block(4370, 10, true), Block(4412, 652, false)]);
    PrevOf(a.hdr, a.blocks, 1);
    var ok := a.Free(4170, 1);
  }

  // Part of the hole given out, then the rest: the block behind it keeps its old `prev`
  method HoleRefilled() returns (a: Arena)
    ensures fresh(a) && a.Valid()
    ensures a.blocks == [Block(4096, 10, true), Block(4138, 50, true), Block(4220, 118, true),
                         Block(4370, 10, true), Block(4412, 652, false)]
    ensures Known(a.hdr, a.blocks, 0) && Known(a.hdr, a.blocks, 1)
    ensures Back(a.hdr, a.blocks[0], 0) && Back(a.hdr, a.blocks[1], 4096) && Back(a.hdr, a.blocks[3], 4138)
  {
    hide Tiles, Spells, BackLinked, Live;
    a := MiddleFreed();
    PrevOf(a.hdr, a.blocks, 0);
    PrevOf(a.hdr, a.blocks, 1);
    PrevOf(a.hdr, a.blocks, 2);
    AllocAt(a, 50, 1, [Block(4096, 10, true), Block(4138, 50, true), Block(4220, 118, false),
                       Block(4370, 10, true), Block(4412, 652, false)]);
    AllocAt(a, 118, 2, [Block(4096, 10, true), Block(4138, 50, true), Block(4220, 118, true),
                        Block(4370, 10, true), Block(4412, 652, false)]);
    assert a.blocks[0].addr == 4096;
  }

  /**
   Freeing the two blocks in front of the refilled hole then leaves an
   allocation whose `prev` names an address where no block starts any more.
   */
  method DanglingPrev() returns (a: Arena)
    ensures a.Valid() && exists k :: 0 <= k < |a.blocks| && a.blocks[k].used && !Known(a.hdr, a.blocks, k)
  {
    hide Tiles, Spells, BackLinked, Live;
    a := HoleRefilled();
    var ok := a.Free(4170, 1);
    assert a.blocks == [Block(4096, 10, true), Block(4138, 50, false), Block(4220, 118, true),
                        Block(4370, 10, true), Block(4412, 652, false)];
    ok := a.Free(4128, 0);
    assert a.blocks == [Block(4096, 92, false), Block(4220, 118, true), Block(4370, 10, true), Block(4412, 652, false)];
    assert a.blocks[2].used && !Known(a.hdr, a.blocks, 2);
  }

  /** free at the end of the arena: the second of two allocations that fill it is freed after the first,
      merges left, and follows the NULL `next`. */
  method FreeAtEnd() returns (a: Arena, ok: bool)
    ensures !ok
  {
    hide Tiles, Spells, BackLinked, BackKept, BackKeptBut, Live;
    a := new Arena(4096, 100);
    AllocAt(a, 10, 0, [Block(4096, 10, true), Block(4138, 26, false)]);
    AllocAt(a, 26, 1, [Block(4096, 10, true), Block(4138, 26, true)]);
    PrevOf(a.hdr, a.blocks, 0);
    ok := a.Free(4128, 0);
    assert a.blocks == [Block(4096, 10, false), Block(4138, 26, true)];
    PrevOf(a.hdr, a.blocks, 1);
    ok := a.Free(4170, 1);
  }
}
