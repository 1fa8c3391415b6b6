/** Machine integers of the kernel's C types, and the page size. */
module Words {
  const TWO_64: int := 0x1_0000_0000_0000_0000

  const PAGE_SIZE: nat := 4096

  type u64 = x: int | 0 <= x < TWO_64

  // Truncation to 64 bits
  function Wrap(n: int): u64 { n % TWO_64 }

  lemma WrapStep(n: int)
    ensures Wrap(Wrap(n) + 1) == Wrap(n + 1) && Wrap(Wrap(n) - 1) == Wrap(n - 1)
  {
  }

  type u8 = x: int | 0 <= x < 256

  // PAGE_START and PAGE_END: the first and the last address of the page of `a`
  function PageStart(a: nat): (r: nat)
    ensures r <= a < r + PAGE_SIZE && r % PAGE_SIZE == 0
  {
    a - a % PAGE_SIZE
  }

  function PageEnd(a: nat): (r: nat)
    ensures r - PAGE_SIZE < a <= r && (r + 1) % PAGE_SIZE == 0
    ensures a < TWO_64 ==> r < TWO_64
  {
    PageStart(a) + PAGE_SIZE - 1
  }
}
