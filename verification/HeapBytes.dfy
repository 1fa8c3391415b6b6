/**
 The in-place growth of realloc (kernel/memory/heap.c:119-127), byte by byte: the new
 header is written before the old neighbour's header has been read completely.  This
 is what the precondition of Heap.Arena.Resize rests on.
 */
module HeapBytes {
  import opened Words
  import opened Heap

  type Memory = nat -> u8

  // Offsets in heap_node_t; `size` is at 0
  const STATUS: nat := 8
  const PREV: nat := 16
  const NEXT: nat := 24

  // ---------- words, little-endian

  type Word = w: seq<u8> | |w| == 8 witness [0, 0, 0, 0, 0, 0, 0, 0]

  function Encode(n: nat, len: nat): (s: seq<u8>)
    ensures |s| == len
  {
    if len == 0 then [] else [n % 256] + Encode(n / 256, len - 1)
  }

  function Decode(s: seq<u8>): nat {
    if s == [] then 0 else s[0] + 256 * Decode(s[1..])
  }

  function Limit(len: nat): nat {
    if len == 0 then 1 else 256 * Limit(len - 1)
  }

  lemma {:induction false} RoundTrip(n: nat, len: nat)
    requires n < Limit(len)
    ensures Decode(Encode(n, len)) == n
  {
    if len > 0 {
      RoundTrip(n / 256, len - 1);
      assert Encode(n, len)[1..] == Encode(n / 256, len - 1);
    }
  }

  lemma {:induction false} Injective(s: seq<u8>, t: seq<u8>)
    requires |s| == |t| && Decode(s) == Decode(t)
    ensures s == t
  {
    if s != [] {
      assert s[0] == t[0] && Decode(s[1..]) == Decode(t[1..]);
      Injective(s[1..], t[1..]);
      assert s == [s[0]] + s[1..] && t == [t[0]] + t[1..];
    }
  }

  lemma EightBytes()
    ensures Limit(8) == TWO_64
  {
    assert Limit(1) == 256 && Limit(2) == 256 * Limit(1) && Limit(3) == 256 * Limit(2) && Limit(4) == 256 * Limit(3);
    assert Limit(5) == 256 * Limit(4) && Limit(6) == 256 * Limit(5) && Limit(7) == 256 * Limit(6);
  }

  // ---------- memory

  function Load(m: Memory, a: nat): Word {
    [m(a), m(a + 1), m(a + 2), m(a + 3), m(a + 4), m(a + 5), m(a + 6), m(a + 7)]
  }

  function Store(m: Memory, a: nat, w: Word): Memory {
    (x: nat) => if a <= x < a + 8 then w[x - a] else m(x)
  }

  function Read(m: Memory, a: nat): nat {
    Decode(Load(m, a))
  }

  function Write(m: Memory, a: nat, n: u64): Memory {
    Store(m, a, Encode(n, 8))
  }

  function Poke(m: Memory, a: nat, b: u8): Memory {
    (x: nat) => if x == a then b else m(x)
  }

  lemma LoadAt(m: Memory, a: nat, k: nat)
    requires k < 8
    ensures Load(m, a)[k] == m(a + k)
  {
  }

  lemma ReadWritten(m: Memory, a: nat, n: u64)
    ensures Read(Write(m, a, n), a) == n
  {
    EightBytes();
    RoundTrip(n, 8);
    hide Load;
    forall k | 0 <= k < 8 ensures Load(Write(m, a, n), a)[k] == Encode(n, 8)[k] {
      LoadAt(Write(m, a, n), a, k);
    }
    assert Load(Write(m, a, n), a) == Encode(n, 8);
  }

  // Reading where nothing was written
  lemma ReadSame(m: Memory, m': Memory, a: nat)
    requires forall x: nat :: a <= x < a + 8 ==> m'(x) == m(x)
    ensures Read(m', a) == Read(m, a)
  {
    assert Load(m', a) == Load(m, a);
  }

  lemma {:induction false} EncodeAt(n: nat, len: nat, k: nat)
    requires k < len
    ensures Encode(n, len)[k] == ByteOf(n, k)
  {
    if k > 0 { EncodeAt(n / 256, len - 1, k - 1); }
  }

  // The bytes of a word that reads as `n`
  lemma BytesOf(m: Memory, a: nat, n: u64, k: nat)
    requires Read(m, a) == n && k < 8
    ensures m(a + k) == ByteOf(n, k)
  {
    hide Load, ByteOf, Encode;
    EightBytes();
    RoundTrip(n, 8);
    Injective(Load(m, a), Encode(n, 8));
    LoadAt(m, a, k);
    EncodeAt(n, 8, k);
  }

  lemma {:induction false} DecodeBound(s: seq<u8>)
    ensures Decode(s) < Limit(|s|)
  {
    if s != [] { DecodeBound(s[1..]); }
  }

  lemma ReadBound(m: Memory, a: nat)
    ensures Read(m, a) < TWO_64
  {
    EightBytes();
    DecodeBound(Load(m, a));
  }

  predicate SameByte(m: Memory, m': Memory, a: nat, k: nat) { m'(a + k) == m(a + k) }

  // Two words are the same number exactly when they have the same bytes
  lemma ReadEqual(m: Memory, m': Memory, a: nat)
    ensures Read(m', a) == Read(m, a) <==> forall k :: 0 <= k < 8 ==> SameByte(m, m', a, k)
  {
    hide Load;
    forall k | 0 <= k < 8 ensures Load(m, a)[k] == Load(m', a)[k] <==> SameByte(m, m', a, k) {
      LoadAt(m, a, k);
      LoadAt(m', a, k);
    }
    if Read(m', a) == Read(m, a) { Injective(Load(m', a), Load(m, a)); }
    if forall k :: 0 <= k < 8 ==> SameByte(m, m', a, k) { assert Load(m', a) == Load(m, a); }
  }

  // ---------- headers

  predicate HeaderOf(m: Memory, a: nat, size: nat, status: u8, prev: nat, next: nat) {
    Read(m, a) == size && m(a + STATUS) == status && Read(m, a + PREV) == prev && Read(m, a + NEXT) == next
  }

  // The bytes at `a` are the header `n`
  predicate Decodes(m: Memory, a: nat, n: Heap.Node) {
    HeaderOf(m, a, n.size, if n.used then 1 else 0, n.prev, n.next)
  }

  // Memory holds an arena in the sense of Heap.Arena.Valid
  ghost predicate Holds(m: Memory, h: map<nat, Heap.Node>, bs: seq<Block>, lo: nat, hi: nat) {
    && Represents(h, bs, lo, hi) && hi <= TWO_64
    && forall k :: 0 <= k < |bs| ==> bs[k].addr in h && Decodes(m, bs[k].addr, h[bs[k].addr])
  }

  // Block `i` is in use and can grow to `sz` bytes at the cost of its free neighbour
  predicate Grows(bs: seq<Block>, i: nat, sz: nat) {
    && i + 1 < |bs| && bs[i].used && !bs[i + 1].used
    && bs[i].size <= sz <= bs[i].size + bs[i + 1].size
  }

  // ---------- the writes of realloc

  // right->status = FREE; right->size = node->size + node->next->size - sz
  function Sized(m: Memory, node: nat, sz: nat): Memory {
    var right := node + HEADER + sz;
    var m1 := Poke(m, right + STATUS, 0);
    Write(m1, right, Wrap(Read(m1, node) + Read(m1, Read(m1, node + NEXT)) - sz))
  }

  // right->next = node->next->next; right->prev = node
  function Linked(m: Memory, node: nat, sz: nat): Memory {
    var right, m2 := node + HEADER + sz, Sized(m, node, sz);
    var m3 := Write(m2, right + NEXT, Wrap(Read(m2, Read(m2, node + NEXT) + NEXT)));
    Write(m3, right + PREV, Wrap(node))
  }

  // node->next = right; node->size = sz; if (right->next) right->next->prev = right
  function Grown(m: Memory, node: nat, sz: nat): Memory {
    var right, m4 := node + HEADER + sz, Linked(m, node, sz);
    var m6 := Write(Write(m4, node + NEXT, Wrap(right)), node, Wrap(sz));
    var next := Read(m6, right + NEXT);
    if next != 0 then Write(m6, next + PREV, Wrap(right)) else m6
  }

  // Only the bytes [a, b) changed
  ghost predicate Only(m: Memory, m': Memory, a: nat, b: nat) {
    forall x: nat :: !(a <= x < b) ==> m'(x) == m(x)
  }

  lemma OnlyWritten(m: Memory, a: nat, n: u64)
    ensures Only(m, Write(m, a, n), a, a + 8)
  {
  }

  lemma Poked(m: Memory, a: nat, b: u8)
    ensures Only(m, Poke(m, a, b), a, a + 1) && Poke(m, a, b)(a) == b
  {
  }

  lemma Unwrapped(n: u64)
    ensures Wrap(n) == n
  {
  }

  // A word away from the change
  lemma OnlyRead(m: Memory, m': Memory, a: nat, b: nat, x: nat)
    requires Only(m, m', a, b) && (x + 8 <= a || b <= x)
    ensures Read(m', x) == Read(m, x)
  {
    ReadSame(m, m', x);
  }

  // ---------- what the writes leave

  // A block `node` of `size` bytes with its neighbour at `next`
  ghost predicate Ready(m: Memory, node: nat, next: nat, sz: nat) {
    && Read(m, node + NEXT) == next && next == node + HEADER + Read(m, node)
    && Read(m, node) <= sz <= Read(m, node) + Read(m, next) && next + HEADER + Read(m, next) <= TWO_64
  }

  lemma SizedFields(m: Memory, node: nat, next: nat, sz: nat)
    requires Ready(m, node, next, sz)
    ensures var right, m2 := node + HEADER + sz, Sized(m, node, sz);
      && Only(m, m2, right, right + STATUS + 1) && m2(right + STATUS) == 0
      && Read(m2, right) == Read(m, node) + Read(m, next) - sz && Read(m2, node + NEXT) == next
  {
    hide Read, Write, Poke, Wrap;
    var right := node + HEADER + sz;
    var m1 := Poke(m, right + STATUS, 0);
    Poked(m, right + STATUS, 0);
    OnlyRead(m, m1, right + STATUS, right + STATUS + 1, node);
    OnlyRead(m, m1, right + STATUS, right + STATUS + 1, node + NEXT);
    OnlyRead(m, m1, right + STATUS, right + STATUS + 1, next);
    var rest := Read(m, node) + Read(m, next) - sz;
    Unwrapped(rest);
    OnlyWritten(m1, right, rest);
    ReadWritten(m1, right, rest);
    OnlyRead(m, Sized(m, node, sz), right, right + STATUS + 1, node + NEXT);
  }

  // A byte of the neighbour's `next` once the new `size` and `status` are written
  lemma SizedByte(m: Memory, node: nat, next: nat, sz: nat, k: nat)
    requires Ready(m, node, next, sz) && k < 8
    ensures var g, rest := sz - Read(m, node), Read(m, node) + Read(m, next) - sz;
      Sized(m, node, sz)(next + NEXT + k) ==
        if g <= 24 + k < g + 8 then ByteOf(rest, 24 + k - g) else if 24 + k == g + 8 then 0 else m(next + NEXT + k)
  {
    hide Read, Sized, ByteOf;
    var g, rest, right := sz - Read(m, node), Read(m, node) + Read(m, next) - sz, node + HEADER + sz;
    SizedFields(m, node, next, sz);
    if g <= 24 + k < g + 8 { BytesOf(Sized(m, node, sz), right, rest, 24 + k - g); }
  }

  /** The neighbour's `next` is still there when it comes to be read, exactly if no write has changed a byte of it. */
  lemma SizedNext(m: Memory, node: nat, next: nat, sz: nat)
    requires Ready(m, node, next, sz)
    ensures Read(Sized(m, node, sz), next + NEXT) == Read(m, next + NEXT) <==>
            Unhit(Read(m, next + NEXT), Read(m, node) + Read(m, next) - sz, sz - Read(m, node))
  {
    hide Read, Sized, ByteOf, SameByte, UnhitAt;
    ReadEqual(m, Sized(m, node, sz), next + NEXT);
    var m2, a, after := Sized(m, node, sz), next + NEXT, Read(m, next + NEXT);
    var rest, g := Read(m, node) + Read(m, next) - sz, sz - Read(m, node);
    forall k | 0 <= k < 8 ensures SameByte(m, m2, a, k) <==> UnhitAt(after, rest, g, k) {
      ByteUnhit(m, node, next, sz, k);
    }
  }

  lemma ByteUnhit(m: Memory, node: nat, next: nat, sz: nat, k: nat)
    requires Ready(m, node, next, sz) && k < 8
    ensures SameByte(m, Sized(m, node, sz), next + NEXT, k) <==>
      UnhitAt(Read(m, next + NEXT), Read(m, node) + Read(m, next) - sz, sz - Read(m, node), k)
  {
    hide Read, Sized, ByteOf;
    SizedByte(m, node, next, sz, k);
    ReadBound(m, next + NEXT);
    BytesOf(m, next + NEXT, Read(m, next + NEXT), k);
  }

  lemma LinkedFields(m: Memory, node: nat, next: nat, sz: nat, after: u64)
    requires Ready(m, node, next, sz) && Read(Sized(m, node, sz), next + NEXT) == after
    ensures var right, m4 := node + HEADER + sz, Linked(m, node, sz);
      && Only(m, m4, right, right + HEADER) && m4(right + STATUS) == 0
      && Read(m4, right) == Read(m, node) + Read(m, next) - sz
      && Read(m4, right + PREV) == node && Read(m4, right + NEXT) == after
  {
    hide Read, Sized, Write;
    SizedFields(m, node, next, sz);
    var right, m2 := node + HEADER + sz, Sized(m, node, sz);
    var m3 := Write(m2, right + NEXT, after);
    OnlyWritten(m2, right + NEXT, after);
    ReadWritten(m2, right + NEXT, after);
    var m4 := Write(m3, right + PREV, node);
    OnlyWritten(m3, right + PREV, node);
    ReadWritten(m3, right + PREV, node);
    OnlyRead(m3, m4, right + PREV, right + PREV + 8, right + NEXT);
    OnlyRead(m2, m3, right + NEXT, right + NEXT + 8, right);
    OnlyRead(m3, m4, right + PREV, right + PREV + 8, right);
  }

  // The writes to the block itself
  lemma NodeWritten(m: Memory, node: nat, right: u64, sz: u64)
    ensures var m' := Write(Write(m, node + NEXT, right), node, sz);
      && HeaderOf(m', node, sz, m(node + STATUS), Read(m, node + PREV), right)
      && forall x: nat :: !(node <= x < node + HEADER) ==> m'(x) == m(x)
  {
    hide Read, Write;
    var m5 := Write(m, node + NEXT, right);
    var m6 := Write(m5, node, sz);
    OnlyWritten(m, node + NEXT, right);
    ReadWritten(m, node + NEXT, right);
    OnlyWritten(m5, node, sz);
    ReadWritten(m5, node, sz);
    OnlyRead(m5, m6, node, node + 8, node + NEXT);
    OnlyRead(m5, m6, node, node + 8, node + PREV);
    OnlyRead(m, m5, node + NEXT, node + NEXT + 8, node + PREV);
  }

  // right->next->prev = right
  lemma PrevWritten(m: Memory, after: nat, right: u64)
    ensures var m' := Write(m, after + PREV, right);
      && HeaderOf(m', after, Read(m, after), m(after + STATUS), right, Read(m, after + NEXT))
      && Only(m, m', after + PREV, after + NEXT)
  {
    hide Read, Write;
    var m' := Write(m, after + PREV, right);
    OnlyWritten(m, after + PREV, right);
    ReadWritten(m, after + PREV, right);
    OnlyRead(m, m', after + PREV, after + NEXT, after);
    OnlyRead(m, m', after + PREV, after + NEXT, after + NEXT);
  }

  // A header away from all writes
  lemma HeaderSame(m: Memory, m': Memory, a: nat)
    requires forall x: nat :: a <= x < a + HEADER ==> m'(x) == m(x)
    ensures HeaderOf(m', a, Read(m, a), m(a + STATUS), Read(m, a + PREV), Read(m, a + NEXT))
  {
    hide Read;
    ReadSame(m, m', a);
    ReadSame(m, m', a + PREV);
    ReadSame(m, m', a + NEXT);
  }

  // `x` is in none of the three headers
  predicate Beyond(x: nat, node: nat, right: nat, after: nat) {
    && !(node <= x < node + HEADER) && !(right <= x < right + HEADER)
    && !(after != 0 && after <= x < after + HEADER)
  }

  // All three headers, and everything else as it was
  lemma GrownFields(m: Memory, node: nat, next: nat, sz: nat, after: u64)
    requires Ready(m, node, next, sz) && Read(m, next + NEXT) == after
    requires Unhit(after, Read(m, node) + Read(m, next) - sz, sz - Read(m, node))
    requires after == 0 || after == next + HEADER + Read(m, next)
    ensures var right, m' := node + HEADER + sz, Grown(m, node, sz);
      && HeaderOf(m', right, Read(m, node) + Read(m, next) - sz, 0, node, after)
      && HeaderOf(m', node, sz, m(node + STATUS), Read(m, node + PREV), right)
      && (after != 0 ==> HeaderOf(m', after, Read(m, after), m(after + STATUS), right, Read(m, after + NEXT)))
      && forall x: nat :: Beyond(x, node, right, after) ==> m'(x) == m(x)
  {
    hide Read, Write, Linked, Wrap, Unhit;
    var right, m4 := node + HEADER + sz, Linked(m, node, sz);
    SizedNext(m, node, next, sz);
    LinkedFields(m, node, next, sz, after);
    Unwrapped(right);
    Unwrapped(sz);
    NodeWritten(m4, node, right, sz);
    var m6 := Write(Write(m4, node + NEXT, right), node, sz);
    HeaderSame(m4, m6, right);
    OnlyRead(m, m4, right, right + HEADER, node + PREV);
    if after != 0 {
      HeaderSame(m, m6, after);
      PrevWritten(m6, after, right);
      HeaderSame(m6, Grown(m, node, sz), node);
      HeaderSame(m6, Grown(m, node, sz), right);
    }
  }

  // ---------- the writes refine Heap.Arena.Resize

  // Bytes left for the free block behind
  function Rest(bs: seq<Block>, i: nat, sz: nat): nat
    requires Grows(bs, i, sz)
  {
    bs[i].size + bs[i + 1].size - sz
  }

  // The condition that Heap.Arena.Resize asks for
  predicate NextUnhit(bs: seq<Block>, i: nat, sz: nat)
    requires Grows(bs, i, sz)
  {
    Unhit(After(bs, i + 1), Rest(bs, i, sz), sz - bs[i].size)
  }

  // The header map and the blocks after the growth, as in Heap.Arena.Resize
  function GrownHeaders(h: map<nat, Heap.Node>, bs: seq<Block>, i: nat, sz: nat): map<nat, Heap.Node>
    requires Grows(bs, i, sz) && bs[i].addr in h
  {
    Resized(h, bs[i].addr, sz, Rest(bs, i, sz), After(bs, i + 1))
  }

  function GrownBlocks(bs: seq<Block>, i: nat, sz: nat): (r: seq<Block>)
    requires Grows(bs, i, sz)
    ensures |r| == |bs|
  {
    Splice(bs, i, i + 2, Resplit(bs[i], sz, Rest(bs, i, sz)))
  }

  // What the bytes say of the block, its neighbour and the one behind
  lemma Around(m: Memory, h: map<nat, Heap.Node>, bs: seq<Block>, lo: nat, hi: nat, i: nat, sz: nat)
    requires Holds(m, h, bs, lo, hi) && Grows(bs, i, sz)
    ensures Ready(m, bs[i].addr, bs[i + 1].addr, sz)
    ensures bs[i].addr in h && Decodes(m, bs[i].addr, h[bs[i].addr]) && h[bs[i].addr].used
    ensures Read(m, bs[i].addr) == bs[i].size && Read(m, bs[i + 1].addr) == bs[i + 1].size
    ensures Read(m, bs[i + 1].addr + NEXT) == After(bs, i + 1)
    ensures After(bs, i + 1) == 0 || (i + 2 < |bs| && After(bs, i + 1) == bs[i + 2].addr == bs[i + 1].End())
    ensures After(bs, i + 1) < TWO_64
  {
    hide Read;
    Neighbour(h, bs, lo, hi, i);
    Neighbour(h, bs, lo, hi, i + 1);
    Heap.Apart(bs, lo, hi, i + 1);
    if i + 2 < |bs| { Heap.Apart(bs, lo, hi, i + 2); }
  }

  // Where block `k` of the old list is not one of those that change, its bytes do not
  lemma AwayFrom(bs: seq<Block>, lo: nat, hi: nat, i: nat, sz: nat, k: nat, x: nat)
    requires Tiles(bs, lo, hi) && Grows(bs, i, sz) && k < |bs| && !(i <= k <= i + 2)
    requires bs[k].addr <= x < bs[k].addr + HEADER
    ensures Beyond(x, bs[i].addr, bs[i].addr + HEADER + sz, After(bs, i + 1))
  {
    if k < i {
      Heap.Ordered(bs, lo, hi, k, i);
      Heap.Ordered(bs, lo, hi, k, i + 1);
      if i + 2 < |bs| { Heap.Ordered(bs, lo, hi, k, i + 2); }
    } else {
      assert Meets(bs, i + 1);
      Heap.Ordered(bs, lo, hi, i, k);
      Heap.Ordered(bs, lo, hi, i + 1, k);
      Heap.Ordered(bs, lo, hi, i + 2, k);
    }
  }

  lemma GrownHeader(m: Memory, h: map<nat, Heap.Node>, bs: seq<Block>, lo: nat, hi: nat, i: nat, sz: nat, k: nat)
    requires Holds(m, h, bs, lo, hi) && Grows(bs, i, sz) && NextUnhit(bs, i, sz)
    requires bs[i].addr in h && k < |GrownBlocks(bs, i, sz)|
    ensures var b := GrownBlocks(bs, i, sz)[k];
      b.addr in GrownHeaders(h, bs, i, sz)
      && Decodes(Grown(m, bs[i].addr, sz), b.addr, GrownHeaders(h, bs, i, sz)[b.addr])
  {
    hide Read, Grown, Tiles, Spells, Unhit;
    var node, right, after := bs[i].addr, bs[i].addr + HEADER + sz, After(bs, i + 1);
    Around(m, h, bs, lo, hi, i, sz);
    GrownFields(m, node, bs[i + 1].addr, sz, after);
    ResizedApart(bs, lo, hi, i, i + 2, right);
    assert GrownBlocks(bs, i, sz)[k] == if i <= k < i + 2 then Resplit(bs[i], sz, Rest(bs, i, sz))[k - i] else bs[k];
    if !(i <= k <= i + 2) { AwayHeader(m, bs, lo, hi, i, sz, k); }
  }

  lemma AwayHeader(m: Memory, bs: seq<Block>, lo: nat, hi: nat, i: nat, sz: nat, k: nat)
    requires Tiles(bs, lo, hi) && Grows(bs, i, sz) && k < |bs| && !(i <= k <= i + 2)
    requires forall x: nat :: Beyond(x, bs[i].addr, bs[i].addr + HEADER + sz, After(bs, i + 1)) ==>
      Grown(m, bs[i].addr, sz)(x) == m(x)
    ensures var a := bs[k].addr;
      HeaderOf(Grown(m, bs[i].addr, sz), a, Read(m, a), m(a + STATUS), Read(m, a + PREV), Read(m, a + NEXT))
  {
    hide Read, Grown, Tiles, Beyond;
    var a := bs[k].addr;
    forall x: nat | a <= x < a + HEADER ensures Grown(m, bs[i].addr, sz)(x) == m(x) {
      AwayFrom(bs, lo, hi, i, sz, k, x);
    }
    HeaderSame(m, Grown(m, bs[i].addr, sz), a);
  }

  /** Unless a byte of `next` is changed before it is read, the bytes after the writes hold exactly the
      arena that Heap.Arena.Resize promises. */
  lemma GrowRefines(m: Memory, h: map<nat, Heap.Node>, bs: seq<Block>, lo: nat, hi: nat, i: nat, sz: nat)
    requires Holds(m, h, bs, lo, hi) && Grows(bs, i, sz) && NextUnhit(bs, i, sz)
    ensures bs[i].addr in h
    ensures Holds(Grown(m, bs[i].addr, sz), GrownHeaders(h, bs, i, sz), GrownBlocks(bs, i, sz), lo, hi)
  {
    hide Read, Grown, Decodes, Tiles, Spells;
    Neighbour(h, bs, lo, hi, i);
    ResizedOk(h, bs, lo, hi, i, i + 2, sz, Rest(bs, i, sz));
    forall k | 0 <= k < |GrownBlocks(bs, i, sz)|
      ensures var b := GrownBlocks(bs, i, sz)[k];
        b.addr in GrownHeaders(h, bs, i, sz)
        && Decodes(Grown(m, bs[i].addr, sz), b.addr, GrownHeaders(h, bs, i, sz)[b.addr])
    {
      GrownHeader(m, h, bs, lo, hi, i, sz, k);
    }
  }

  // ---------- exactly when

  // A growth in place: an arena in memory, a block `i` of it, and the size it is to have
  datatype Growth = Growth(m: Memory, h: map<nat, Heap.Node>, bs: seq<Block>, lo: nat, hi: nat, i: nat, sz: nat)
  {
    ghost predicate Valid() { Holds(m, h, bs, lo, hi) && Grows(bs, i, sz) }

    function By(): int
      requires i < |bs|
    {
      sz - bs[i].size
    }

    // right->next, as the code then follows it, leads to the block behind the neighbour
    predicate Right()
      requires i + 1 < |bs|
    {
      var node := bs[i].addr;
      Read(Linked(m, node, sz), node + HEADER + sz + NEXT) == After(bs, i + 1)
    }
  }

  // A header written field by field
  function Hdr(m: Memory, a: nat, n: Heap.Node): Memory
    requires n.size < TWO_64 && n.prev < TWO_64 && n.next < TWO_64
  {
    Write(Write(Poke(Write(m, a, n.size), a + STATUS, if n.used then 1 else 0), a + PREV, n.prev), a + NEXT, n.next)
  }

  lemma HdrDecodes(m: Memory, a: nat, n: Heap.Node)
    requires n.size < TWO_64 && n.prev < TWO_64 && n.next < TWO_64
    ensures Decodes(Hdr(m, a, n), a, n) && Only(m, Hdr(m, a, n), a, a + HEADER)
  {
    hide Read, Write, Poke;
    var b: u8 := if n.used then 1 else 0;
    var m1 := Write(m, a, n.size);
    var m2 := Poke(m1, a + STATUS, b);
    var m3 := Write(m2, a + PREV, n.prev);
    var m4 := Write(m3, a + NEXT, n.next);
    OnlyWritten(m, a, n.size);
    Poked(m1, a + STATUS, b);
    OnlyWritten(m2, a + PREV, n.prev);
    OnlyWritten(m3, a + NEXT, n.next);
    ReadWritten(m, a, n.size);
    ReadWritten(m2, a + PREV, n.prev);
    ReadWritten(m3, a + NEXT, n.next);
    OnlyRead(m3, m4, a + NEXT, a + NEXT + 8, a + PREV);
    assert Only(m1, m4, a + STATUS, a + HEADER);
    OnlyRead(m1, m4, a + STATUS, a + HEADER, a);
  }

  // Three blocks at kernel addresses from a page boundary on: 64 bytes in use, 257 bytes free, 32 bytes in use
  const FIRST: nat := 0xFFFF_8181_8181_8000
  const SECOND: nat := 0xFFFF_8181_8181_8060
  const THIRD: nat := 0xFFFF_8181_8181_8181

  function Blocks(): seq<Block> {
    [Block(FIRST, 64, true), Block(SECOND, 257, false), Block(THIRD, 32, true)]
  }

  function Headers(): map<nat, Heap.Node> {
    map[FIRST := Heap.Node(64, true, 0, SECOND), SECOND := Heap.Node(257, false, FIRST, THIRD),
        THIRD := Heap.Node(32, true, SECOND, 0)]
  }

  function Bytes(): Memory {
    Hdr(Hdr(Hdr((x: nat) => 0, FIRST, Headers()[FIRST]), SECOND, Headers()[SECOND]), THIRD, Headers()[THIRD])
  }

  function Clash(n: nat): Growth {
    Growth(Bytes(), Headers(), Blocks(), FIRST, THIRD + 64, 0, 64 + n)
  }

  lemma ClashHolds()
    ensures Holds(Bytes(), Headers(), Blocks(), FIRST, THIRD + 64)
  {
    hide Read, Write, Poke, Hdr, Decodes;
    var h := Headers();
    var m0: Memory := (x: nat) => 0;
    var m1 := Hdr(m0, FIRST, h[FIRST]);
    var m2 := Hdr(m1, SECOND, h[SECOND]);
    var m3 := Hdr(m2, THIRD, h[THIRD]);
    HdrDecodes(m0, FIRST, h[FIRST]);
    HdrDecodes(m1, SECOND, h[SECOND]);
    HdrDecodes(m2, THIRD, h[THIRD]);
    Decoded(m1, m3, FIRST, h[FIRST]);
    Decoded(m2, m3, SECOND, h[SECOND]);
    var bs := Blocks();
    assert Meets(bs, 1) && Meets(bs, 2);
    assert After(bs, 0) == SECOND && After(bs, 1) == THIRD && After(bs, 2) == 0;
  }

  lemma Decoded(m: Memory, m': Memory, a: nat, n: Heap.Node)
    requires Decodes(m, a, n) && forall x: nat :: a <= x < a + HEADER ==> m'(x) == m(x)
    ensures Decodes(m', a, n)
  {
    HeaderSame(m, m', a);
  }

  lemma ByteNext(n: nat, q: nat, r: nat, k: nat)
    requires n == 256 * q + r && r < 256
    ensures ByteOf(n, k) == if k == 0 then r else ByteOf(q, k - 1)
  {
  }

  lemma ThirdBytes(k: nat)
    requires k < 8
    ensures ByteOf(THIRD, k) == if k < 6 then 0x81 else 0xFF
  {
    hide ByteOf;
    ByteNext(THIRD, 0xFF_FF81_8181_8181, 0x81, k);
    if k > 0 { ByteNext(0xFF_FF81_8181_8181, 0xFFFF_8181_8181, 0x81, k - 1); }
    if k > 1 { ByteNext(0xFFFF_8181_8181, 0xFF_FF81_8181, 0x81, k - 2); }
    if k > 2 { ByteNext(0xFF_FF81_8181, 0xFFFF_8181, 0x81, k - 3); }
    if k > 3 { ByteNext(0xFFFF_8181, 0xFF_FF81, 0x81, k - 4); }
    if k > 4 { ByteNext(0xFF_FF81, 0xFFFF, 0x81, k - 5); }
    if k > 5 { ByteNext(0xFFFF, 0xFF, 0xFF, k - 6); }
    if k > 6 { ByteNext(0xFF, 0, 0xFF, k - 7); }
  }

  // Every growth by 16 to 31 bytes hits a byte of THIRD
  lemma ClashHit(n: nat)
    requires 16 <= n < HEADER
    ensures !Unhit(THIRD, 257 - n, n)
  {
    hide ByteOf;
    var k := if n < 24 then n - 16 else n - 24;
    ThirdBytes(k);
    ByteNext(257 - n, 0, 257 - n, 0);
    assert n < 24 ==> 24 + k == n + 8;
    assert n >= 24 ==> 24 + k - n == 0;
    assert !UnhitAt(THIRD, 257 - n, n, k);
  }

  lemma ClashBlocks(n: nat)
    requires 16 <= n < HEADER
    ensures Grows(Blocks(), 0, 64 + n)
    ensures Rest(Blocks(), 0, 64 + n) == 257 - n && After(Blocks(), 1) == THIRD
  {
  }

  lemma ClashWrong(n: nat)
    requires 16 <= n < HEADER
    ensures exists c: Growth :: c.Valid() && c.By() == n && !c.Right()
  {
    hide Bytes, Headers, Holds, Unhit, Growth.Right, Rest, After, Grows;
    ClashHolds();
    ClashHit(n);
    ClashBlocks(n);
    GrowIff(Clash(n));
    assert Blocks()[0].size == 64;
    assert Clash(n).Valid() && Clash(n).By() == n && !Clash(n).Right();
  }

  /** In a given arena the new header's `next` is right exactly if no byte of the neighbour's `next` is changed. */
  lemma GrowIff(c: Growth)
    requires c.Valid()
    ensures c.Right() <==> NextUnhit(c.bs, c.i, c.sz)
  {
    hide Linked, Sized, Read, Unhit;
    var node, next := c.bs[c.i].addr, c.bs[c.i + 1].addr;
    Around(c.m, c.h, c.bs, c.lo, c.hi, c.i, c.sz);
    SizedNext(c.m, node, next, c.sz);
    ReadBound(Sized(c.m, node, c.sz), next + NEXT);
    LinkedFields(c.m, node, next, c.sz, Read(Sized(c.m, node, c.sz), next + NEXT));
  }

  /** So it is for every arena in memory exactly when the growth is not by 16 to 31 bytes. */
  lemma GrowExact(n: nat)
    ensures (forall c: Growth :: c.Valid() && c.By() == n ==> c.Right()) <==> !(16 <= n < HEADER)
  {
    hide Growth.Right, Holds, Unhit, After;
    if 16 <= n < HEADER {
      ClashWrong(n);
    } else {
      forall c: Growth | c.Valid() && c.By() == n ensures c.Right() {
        GrowIff(c);
        UnhitFar(After(c.bs, c.i + 1), Rest(c.bs, c.i, c.sz), n);
      }
    }
  }
}
