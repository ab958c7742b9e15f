/**
 * The xv6 memory layout the allocator relies on: page size, the kernel's
 * virtual base, the top of usable physical memory, 32-bit address arithmetic,
 * V2P, PGROUNDUP and the page-directory / page-table index of a virtual
 * address. Values are those of xv6's mmu.h and memlayout.h.
 */
module Memlayout {

  const UINT_LIMIT: int := 0x1_0000_0000

  /** A C `uint` (and a 32-bit pointer). */
  type Uint = x: int | 0 <= x < UINT_LIMIT

  const PGSIZE: int := 4096
  const KERNBASE: int := 0x8000_0000
  const PHYSTOP: int := 0xE00_0000
  /** Number of physical frames, the length of `pages[PHYSTOP/PGSIZE]`. */
  const NPAGES: int := PHYSTOP / PGSIZE

  /** `PGROUNDUP(a)`: `(a + PGSIZE - 1) & ~(PGSIZE - 1)` in `uint` arithmetic. */
  function PgRoundUp(a: Uint): (r: Uint)
    ensures r % PGSIZE == 0
    ensures a <= UINT_LIMIT - PGSIZE ==> a <= r < a + PGSIZE
    ensures a > UINT_LIMIT - PGSIZE ==> r == 0
  {
    var x := (a + (PGSIZE - 1)) % UINT_LIMIT;
    x - x % PGSIZE
  }

  /**
   * `V2P(a)`: `(uint)a - KERNBASE`, wrapping like a `uint`. It does not wrap
   * exactly for kernel addresses, and `P2V` undoes it for every address.
   */
  function V2P(a: Uint): (pa: Uint)
    ensures KERNBASE <= a <==> pa == a - KERNBASE
    ensures P2V(pa) == a
  {
    (a - KERNBASE) % UINT_LIMIT
  }

  /** The kernel virtual address of physical address `pa`, `P2V(pa)`. */
  function P2V(pa: Uint): (a: Uint) {
    (pa + KERNBASE) % UINT_LIMIT
  }

  /**
   * The frame number `V2P(v)/PGSIZE` that indexes `pages[]`: for an address
   * of the kernel's map of physical memory, the frame holding it.
   */
  function FrameOf(v: Uint): (n: nat)
    ensures KERNBASE <= v < KERNBASE + PHYSTOP ==>
      n < NPAGES && KERNBASE + n * PGSIZE <= v < KERNBASE + n * PGSIZE + PGSIZE
  {
    V2P(v) / PGSIZE
  }

  /**
   * The test in `kfree`: `v` is page aligned, not below `end` (the first
   * address after the kernel image) and below `PHYSTOP` once translated,
   * which, with `V2P` wrapping, holds exactly for the page-aligned addresses
   * of `[max(end, KERNBASE), KERNBASE + PHYSTOP)`.
   */
  predicate Freeable(v: Uint, kernEnd: Uint): (b: bool)
    ensures b <==> v % PGSIZE == 0 && kernEnd <= v && KERNBASE <= v < KERNBASE + PHYSTOP
  {
    v % PGSIZE == 0 && v >= kernEnd && V2P(v) < PHYSTOP
  }

  /** A freeable address does not wrap under `V2P` and its frame has a descriptor. */
  lemma FreeableFrame(v: Uint, kernEnd: Uint)
    requires Freeable(v, kernEnd)
    ensures V2P(v) == v - KERNBASE && FrameOf(v) < NPAGES
    ensures P2V(V2P(v)) == v
  {
  }

  /** Distinct freeable addresses occupy distinct frames. */
  lemma FrameOfInjective(v: Uint, w: Uint, kernEnd: Uint)
    requires Freeable(v, kernEnd) && Freeable(w, kernEnd) && v != w
    ensures FrameOf(v) != FrameOf(w)
  {
    FreeableFrame(v, kernEnd);
    FreeableFrame(w, kernEnd);
    var a, b := V2P(v), V2P(w);
    assert a % PGSIZE == 0 && b % PGSIZE == 0;
    assert a == (a / PGSIZE) * PGSIZE && b == (b / PGSIZE) * PGSIZE;
  }

  /** Distinct page-aligned addresses are at least a page apart. */
  lemma AlignedGap(p: int, q: int)
    requires p % PGSIZE == 0 && q % PGSIZE == 0 && p < q
    ensures p + PGSIZE <= q
  {
    assert p == (p / PGSIZE) * PGSIZE && q == (q / PGSIZE) * PGSIZE;
  }

  /** Bytes mapped by one page-directory entry (`PGSIZE * NPTENTRIES`). */
  const PDSIZE: int := 0x40_0000

  /** `PDX(va)`: bits 22..31, the page-directory index: the 4 MiB region holding `va`. */
  function Pdx(va: Uint): (d: nat)
    ensures d < 1024 && d * PDSIZE <= va < d * PDSIZE + PDSIZE
  {
    va / PDSIZE % 1024
  }

  /**
   * `PTX(va)`: bits 12..21, the page-table index. With `PDX` it names the
   * page of `va`: `va / PGSIZE == PDX(va) * 1024 + PTX(va)`.
   */
  function Ptx(va: Uint): (t: nat)
    ensures t < 1024 && va / PGSIZE == Pdx(va) * 1024 + t
  {
    va / PGSIZE % 1024
  }
}
