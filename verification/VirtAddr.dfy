/**
 Virtual addresses and descriptor words as 64-bit vectors
 (kernel/include/kernel/arch/x86-64/memory_layout.h:24-51, 67-145;
 kernel/arch/x86-64/memory/vm.c:89-96).
 */
module VirtAddr {
  import opened PageTables
  import opened Paging

  // VA2INDEX for levels 3 to 0
  function Pml4Index(va: bv64): bv64 { (va >> 39) & 0x1FF }
  function PdptIndex(va: bv64): bv64 { (va >> 30) & 0x1FF }
  function PdIndex(va: bv64): bv64 { (va >> 21) & 0x1FF }
  function PtIndex(va: bv64): bv64 { (va >> 12) & 0x1FF }
  function Offset(va: bv64): bv64 { va & 0xFFF }

  // get_va; pt_e >= 512 leaves the last index out
  function GetVa(pml4: bv64, pdpt: bv64, pd: bv64, pt: bv64, offset: bv64): bv64 {
    (if pml4 & 0x100 != 0 then 0xFFFF_0000_0000_0000 else 0)
    | (pml4 << 39) | (pdpt << 30) | (pd << 21) | (if pt < 512 then pt << 12 else 0) | offset
  }

  // Bits 47 to 63 are all equal
  predicate CanonicalWord(va: bv64) {
    va >> 47 == 0 || va >> 47 == 0x1_FFFF
  }

  /** From indices to an address and back. */
  lemma IndicesOfVa(a: bv64, b: bv64, c: bv64, d: bv64, o: bv64)
    requires a < 512 && b < 512 && c < 512 && d < 512 && o < 4096
    ensures var va := GetVa(a, b, c, d, o);
      && Pml4Index(va) == a && PdptIndex(va) == b && PdIndex(va) == c && PtIndex(va) == d && Offset(va) == o
      && CanonicalWord(va)
  {
  }

  /** From an address to indices and back: exactly on canonical addresses. */
  lemma VaOfIndices(va: bv64)
    ensures GetVa(Pml4Index(va), PdptIndex(va), PdIndex(va), PtIndex(va), Offset(va)) == va <==> CanonicalWord(va)
  {
    Recomposed(va);
    var g := GetVa(Pml4Index(va), PdptIndex(va), PdIndex(va), PtIndex(va), Offset(va));
    if va & 0x8000_0000_0000 != 0 {
      assert Pml4Index(va) & 0x100 != 0;
      Reordered(0xFFFF_0000_0000_0000, Pml4Index(va) << 39, PdptIndex(va) << 30, PdIndex(va) << 21,
                PtIndex(va) << 12, Offset(va));
      assert g == 0xFFFF_0000_0000_0000 | (va & 0xFFFF_FFFF_FFFF);
      if g == va { UpperHalf(va); }
      if CanonicalWord(va) { UpperOnes(va); }
    } else {
      assert Pml4Index(va) & 0x100 == 0;
      Reordered(0, Pml4Index(va) << 39, PdptIndex(va) << 30, PdIndex(va) << 21, PtIndex(va) << 12, Offset(va));
      assert g == va & 0xFFFF_FFFF_FFFF;
      if g == va { LowerHalf(va); }
      if CanonicalWord(va) { LowerZeros(va); }
    }
  }

  lemma Reordered(h: bv64, a: bv64, b: bv64, c: bv64, d: bv64, e: bv64)
    ensures h | a | b | c | d | e == h | (a | b | c | d | e)
  {
  }

  lemma UpperHalf(va: bv64)
    requires 0xFFFF_0000_0000_0000 | (va & 0xFFFF_FFFF_FFFF) == va && va & 0x8000_0000_0000 != 0
    ensures va >> 47 == 0x1_FFFF
  {
  }

  lemma UpperOnes(va: bv64)
    requires (va >> 47 == 0 || va >> 47 == 0x1_FFFF) && va & 0x8000_0000_0000 != 0
    ensures 0xFFFF_0000_0000_0000 | (va & 0xFFFF_FFFF_FFFF) == va
  {
  }

  lemma LowerHalf(va: bv64)
    requires va & 0xFFFF_FFFF_FFFF == va && va & 0x8000_0000_0000 == 0
    ensures va >> 47 == 0
  {
  }

  lemma LowerZeros(va: bv64)
    requires (va >> 47 == 0 || va >> 47 == 0x1_FFFF) && va & 0x8000_0000_0000 == 0
    ensures va & 0xFFFF_FFFF_FFFF == va
  {
  }

  // The four indices and the offset are the low 48 bits
  lemma Recomposed(va: bv64)
    ensures (Pml4Index(va) << 39) | (PdptIndex(va) << 30) | (PdIndex(va) << 21) | (PtIndex(va) << 12) | Offset(va)
         == va & 0xFFFF_FFFF_FFFF
    ensures PtIndex(va) < 512
    ensures Pml4Index(va) & 0x100 != 0 <==> va & 0x8000_0000_0000 != 0
  {
  }

  // ---------- descriptor words

  const FRAME: bv64 := 0x0007_FFFF_FFFF_F000   // bits 12 to 50
  const FLAG_MASK: bv64 := 0x8000_0000_0000_0006

  // vmflag_to_x86flag; flag bits 0 write, 1 user, 2 exec
  function X86Flags(flags: bv64, nx: bool): bv64 {
    (if nx && flags & 4 == 0 then 0x8000_0000_0000_0000 else 0) | ((flags & 3) << 1)
  }

  /** A descriptor built by mappages (vm.c:167-169) has the frame, the present bit, and the
      flag bits and no other. */
  lemma MadeDescriptor(pa: bv64, flags: bv64, nx: bool)
    requires pa & FRAME == pa
    ensures var raw := pa | X86Flags(flags, nx) | 1;
      && raw & FRAME == pa && raw & 1 == 1 && raw & 0x80 == 0
      && (raw & 2 != 0 <==> flags & 1 != 0) && (raw & 4 != 0 <==> flags & 2 != 0)
      && (raw >> 63 == 1 <==> nx && flags & 4 == 0)
  {
  }

  /** updatepages (vm.c:186-187) replaces the three flag bits and keeps every other bit. */
  lemma UpdatedDescriptor(raw: bv64, flags: bv64, nx: bool)
    ensures var new_raw := (raw & !FLAG_MASK) | X86Flags(flags, nx);
      && new_raw & !FLAG_MASK == raw & !FLAG_MASK
      && (new_raw & 2 != 0 <==> flags & 1 != 0) && (new_raw & 4 != 0 <==> flags & 2 != 0)
      && (new_raw >> 63 == 1 <==> nx && flags & 4 == 0)
  {
  }

  /** The word of a descriptor, as the fields that the page table model keeps. */
  function Decoded(raw: bv64): Entry {
    Entry(raw & 1 != 0, raw & 2 != 0, raw & 4 != 0, raw & 0x80 != 0, raw >> 63 == 1, FrameOf(raw))
  }

  /** The word that walk stores for a new table (vm.c:118-121) is the link of the page table model. */
  lemma LinkedIsLink(pa: bv64)
    requires pa & FRAME == pa
    ensures Decoded(pa | 1 | 2 | 4) == Link(Num(pa >> 12)) && Open(Decoded(pa | 1 | 2 | 4))
  {
    hide Num;
    LinkedBits(pa);
  }

  lemma LinkedBits(pa: bv64)
    requires pa & FRAME == pa
    ensures var raw := pa | 1 | 2 | 4;
      raw & FRAME == pa && raw & 1 != 0 && raw & 2 != 0 && raw & 4 != 0 && raw & 0x80 == 0 && raw >> 63 != 1
  {
  }

  /** A cleared word is an empty descriptor: not present, without rights, naming frame 0. */
  lemma ClearedIsEmpty()
    ensures Decoded(0) == EMPTY == Entry(false, false, false, false, false, 0)
  {
    assert (0 as bv64 & FRAME) >> 12 == 0;
    Zero(64);
  }

  // The frame number that bits 12 to 50 spell
  function FrameOf(raw: bv64): nat {
    Num((raw & FRAME) >> 12)
  }

  function FlagsOf(flags: bv64): Flags {
    Flags(flags & 1 != 0, flags & 2 != 0, flags & 4 == 4)
  }

  /** The word that mappages builds is the descriptor of the page table model, for the frame of the
      address. */
  lemma MadeIsDescriptor(pa: bv64, flags: bv64, nx: bool)
    requires pa & FRAME == pa
    ensures Decoded(pa | X86Flags(flags, nx) | 1) == Descriptor(Num(pa >> 12), FlagsOf(flags), nx)
  {
    hide Num;
    MadeDescriptor(pa, flags, nx);
    ExecBit(flags);
  }

  /** The word that updatepages builds is the reflagged descriptor of the page table model: write is flag
      bit 0, user flag bit 1, and everything but those and the no-execute bit stays. */
  lemma UpdatedIsReflagged(raw: bv64, flags: bv64, nx: bool)
    ensures var new_raw := (raw & !FLAG_MASK) | X86Flags(flags, nx);
      && Some(Decoded(new_raw)) == Reflagged(Some(Decoded(raw)), FlagsOf(flags), nx)
      && Refitted(Some(Decoded(raw)), Some(Decoded(new_raw)), flags & 1 != 0, flags & 2 != 0, nx && flags & 4 == 0)
  {
    hide Decoded, X86Flags, FlagsOf, Reflagged, Refitted;
    UpdatedDescriptor(raw, flags, nx);
    KeptBits(raw, (raw & !FLAG_MASK) | X86Flags(flags, nx));
    UpdatedFields(raw, (raw & !FLAG_MASK) | X86Flags(flags, nx), flags, nx);
  }

  lemma UpdatedFields(raw: bv64, new_raw: bv64, flags: bv64, nx: bool)
    requires new_raw & 1 == raw & 1 && new_raw & 0x80 == raw & 0x80 && new_raw & FRAME == raw & FRAME
    requires new_raw & 2 != 0 <==> flags & 1 != 0
    requires new_raw & 4 != 0 <==> flags & 2 != 0
    requires new_raw >> 63 == 1 <==> nx && flags & 4 == 0
    ensures Some(Decoded(new_raw)) == Reflagged(Some(Decoded(raw)), FlagsOf(flags), nx)
    ensures Refitted(Some(Decoded(raw)), Some(Decoded(new_raw)), flags & 1 != 0, flags & 2 != 0, nx && flags & 4 == 0)
  {
    hide Num;
    ExecBit(flags);
  }

  lemma ExecBit(flags: bv64)
    ensures flags & 4 == 4 <==> flags & 4 != 0
  {
  }

  lemma KeptBits(raw: bv64, new_raw: bv64)
    requires new_raw & !FLAG_MASK == raw & !FLAG_MASK
    ensures new_raw & 1 == raw & 1 && new_raw & 0x80 == raw & 0x80 && new_raw & FRAME == raw & FRAME
  {
  }

  // ---------- words as numbers

  function Half(x: bv64): bv64 { x >> 1 }

  function Bit(x: bv64): nat {
    if x & 1 != 0 then 1 else 0
  }

  // The number that the lowest `n` bits of `x` spell
  function Bits(x: bv64, n: nat): nat {
    if n == 0 then 0 else Bit(x) + 2 * Bits(Half(x), n - 1)
  }

  function Num(x: bv64): nat {
    Bits(x, 64)
  }

  // Three halvings
  function Eighth(x: bv64): bv64 { Half(Half(Half(x))) }

  lemma Split3(x: bv64, n: nat)
    requires 3 <= n
    ensures Bits(x, n) == Bits(x, 3) + 8 * Bits(Eighth(x), n - 3) && Bits(x, 3) < 8
  {
    hide Half, Bit;
    BitSmall(x);
    BitSmall(Half(x));
    BitSmall(Half(Half(x)));
    assert Bits(Half(x), n - 1) == Bit(Half(x)) + 2 * Bits(Half(Half(x)), n - 2);
    assert Bits(Half(x), 2) == Bit(Half(x)) + 2 * Bits(Half(Half(x)), 1);
    assert Bits(Half(Half(x)), 1) == Bit(Half(Half(x))) + 2 * Bits(Eighth(x), 0);
  }

  lemma BitSmall(x: bv64)
    ensures Bit(x) < 2
  {
  }

  lemma Split9(x: bv64, n: nat)
    requires 9 <= n
    ensures Bits(x, n) == Bits(x, 9) + 512 * Bits(Eighth(Eighth(Eighth(x))), n - 9) && Bits(x, 9) < 512
  {
    hide Eighth, Bits;
    var y, z := Eighth(x), Eighth(Eighth(x));
    Split3(x, n);
    Split3(y, n - 3);
    Split3(z, n - 6);
    Split3(x, 9);
    Split3(y, 6);
    NoBits(Eighth(z));
    Split3(z, 3);
  }

  lemma NoBits(x: bv64)
    ensures Bits(x, 0) == 0
  {
  }

  lemma Shifts(x: bv64)
    ensures Eighth(Eighth(Eighth(x))) == x >> 9 && Eighth(Eighth(Eighth(Eighth(x)))) == x >> 12
  {
  }

  lemma Below9(x: bv64, n: nat)
    requires 9 <= n
    ensures Bits(x, n) / 512 == Bits(x >> 9, n - 9) && Bits(x, n) % 512 == Bits(x, 9)
  {
    hide Eighth, Bits;
    Shifts(x);
    Split9(x, n);
  }

  // The page number of an address is what is left above its lowest 12 bits
  lemma PageOf(va: bv64)
    ensures Num(va) / 4096 == Bits(va >> 12, 52)
  {
    hide Eighth, Bits;
    Shifts(va);
    Split3(va, 64);
    Split9(Eighth(va), 61);
  }

  // ---------- the lowest nine bits

  predicate SameUnder(x: bv64, y: bv64, m: bv64) { x & m == y & m }

  lemma DownBits(x: bv64, y: bv64, m: bv64, n: bv64)
    requires SameUnder(x, y, n) && n == (m << 3) | 7
    ensures SameUnder(Eighth(x), Eighth(y), m)
    ensures Bit(x) == Bit(y) && Bit(Half(x)) == Bit(Half(y)) && Bit(Half(Half(x))) == Bit(Half(Half(y)))
  {
  }

  lemma ThreeBits(x: bv64)
    ensures Bits(x, 3) == Bit(x) + 2 * (Bit(Half(x)) + 2 * Bit(Half(Half(x))))
  {
    hide Half, Bit;
    assert Bits(Half(x), 2) == Bit(Half(x)) + 2 * Bits(Half(Half(x)), 1);
    assert Bits(Half(Half(x)), 1) == Bit(Half(Half(x))) + 2 * Bits(Eighth(x), 0);
  }

  lemma Down3(x: bv64, y: bv64, m: bv64, n: bv64)
    requires SameUnder(x, y, n) && n == (m << 3) | 7
    ensures SameUnder(Eighth(x), Eighth(y), m) && Bits(x, 3) == Bits(y, 3)
  {
    hide Half, Bit, SameUnder, Eighth, Bits;
    DownBits(x, y, m, n);
    ThreeBits(x);
    ThreeBits(y);
  }

  lemma Low9(x: bv64, y: bv64)
    requires SameUnder(x, y, 0x1FF)
    ensures Bits(x, 9) == Bits(y, 9)
  {
    hide Eighth, Bits, SameUnder;
    Down3(x, y, 0x3F, 0x1FF);
    Down3(Eighth(x), Eighth(y), 7, 0x3F);
    Down3(Eighth(Eighth(x)), Eighth(Eighth(y)), 0, 7);
    Split3(x, 9);
    Split3(y, 9);
    Split3(Eighth(x), 6);
    Split3(Eighth(y), 6);
  }

  lemma {:induction false} Zero(n: nat)
    ensures Bits(0, n) == 0
  {
    if n > 0 {
      Zero(n - 1);
      assert Half(0) == 0 && Bit(0) == 0;
    }
  }

  lemma Masked(x: bv64)
    ensures Num(x & 0x1FF) == Bits(x, 9)
  {
    Cleared9(x);
    hide Half, Bits, Bit, SameUnder;
    Below9(x & 0x1FF, 64);
    Zero(55);
    Low9(x & 0x1FF, x);
  }

  lemma Cleared9(x: bv64)
    ensures (x & 0x1FF) >> 9 == 0 && SameUnder(x & 0x1FF, x, 0x1FF)
  {
  }

  // An address without what is below the index of a level
  function Above(va: bv64, level: nat): bv64
    requires level < 4
  {
    if level == 0 then va >> 12 else if level == 1 then va >> 21 else if level == 2 then va >> 30 else va >> 39
  }

  lemma Level(va: bv64, level: nat)
    requires level < 3
    ensures Above(va, level) >> 9 == Above(va, level + 1)
  {
    if level == 0 { From12(va); } else if level == 1 { From21(va); } else { From30(va); }
  }

  lemma From12(va: bv64)
    ensures (va >> 12) >> 9 == va >> 21
  {
  }

  lemma From21(va: bv64)
    ensures (va >> 21) >> 9 == va >> 30
  {
  }

  lemma From30(va: bv64)
    ensures (va >> 30) >> 9 == va >> 39
  {
  }

  lemma IndexBits(va: bv64)
    ensures Num(PtIndex(va)) == Bits(Above(va, 0), 9) && Num(PdIndex(va)) == Bits(Above(va, 1), 9)
    ensures Num(PdptIndex(va)) == Bits(Above(va, 2), 9) && Num(Pml4Index(va)) == Bits(Above(va, 3), 9)
  {
    hide Bits, Num;
    Masked(va >> 12);
    Masked(va >> 21);
    Masked(va >> 30);
    Masked(va >> 39);
  }

  lemma BelowLevel(va: bv64, level: nat, n: nat)
    requires level < 3 && 9 <= n
    ensures Bits(Above(va, level), n) / 512 == Bits(Above(va, level + 1), n - 9)
    ensures Bits(Above(va, level), n) % 512 == Bits(Above(va, level), 9)
  {
    hide Bits, Above;
    Level(va, level);
    Below9(Above(va, level), n);
  }

  lemma PageAbove(va: bv64)
    ensures Num(va) / 4096 == Bits(Above(va, 0), 52)
  {
    hide Bits, Num;
    PageOf(va);
  }

  /** VA2INDEX on words is the index that the page table model takes of the page number. */
  lemma IndicesAgree(va: bv64)
    ensures var v := Num(va) / 4096;
      && Num(PtIndex(va)) == Index(v, 0) && Num(PdIndex(va)) == Index(v, 1)
      && Num(PdptIndex(va)) == Index(v, 2) && Num(Pml4Index(va)) == Index(v, 3)
  {
    hide Bits, Index, Num, Above, PtIndex, PdIndex, PdptIndex, Pml4Index;
    IndexBits(va);
    PageAbove(va);
    Digits(Num(va) / 4096);
    BelowLevel(va, 0, 52);
    BelowLevel(va, 1, 43);
    BelowLevel(va, 2, 34);
    TopLevel(va);
  }

  lemma TopLevel(va: bv64)
    ensures Bits(Above(va, 3), 25) % 512 == Bits(Above(va, 3), 9)
  {
    hide Bits, Above;
    Below9(Above(va, 3), 25);
  }
}
