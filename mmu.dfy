/**
 * The hardware page tables, seen only through the bits the clock scan reads
 * and writes. A page-directory entry is named by its directory (`pgdir`, a
 * handle the allocator does not own) and `PDX(va)`; a page-table entry also
 * by `PTX(va)`. The two-level walk and the bit layout are not modelled.
 */
module Mmu {
  import opened Memlayout

  datatype PdeKey = PdeKey(pgdir: nat, pdx: nat)
  datatype PteKey = PteKey(pgdir: nat, pdx: nat, ptx: nat)

  /** `&pgdir[PDX(va)]`. */
  function PdeOf(pgdir: nat, va: Uint): PdeKey {
    PdeKey(pgdir, Pdx(va))
  }

  /** The entry the walk `pgtab = P2V(PTE_ADDR(pgdir[PDX(va)])); &pgtab[PTX(va)]` reaches. */
  function PteOf(pgdir: nat, va: Uint): PteKey {
    PteKey(pgdir, Pdx(va), Ptx(va))
  }

  /**
   * Two addresses of one address space share a page-directory entry exactly
   * when they lie in the same 4 MiB region, and a page-table entry exactly
   * when they lie in the same page; that entry is under their common
   * directory entry.
   */
  lemma PteOfPage(g: nat, a: Uint, h: nat, b: Uint)
    ensures PdeOf(g, a) == PdeOf(h, b) <==> g == h && a / PDSIZE == b / PDSIZE
    ensures PteOf(g, a) == PteOf(h, b) <==> g == h && a / PGSIZE == b / PGSIZE
    ensures PteOf(g, a) == PteOf(h, b) ==> PdeOf(g, a) == PdeOf(h, b)
  {
    var da, db := Pdx(a), Pdx(b);
    assert a / PDSIZE == da && b / PDSIZE == db;
  }

  class PageTables {
    /** The page-table entries whose `PTE_A` bit is set. */
    var accessed: set<PteKey>
    /** The page-directory entries whose `PTE_P` bit is set. */
    var present: set<PdeKey>

    constructor (accessed: set<PteKey>, present: set<PdeKey>)
      ensures this.accessed == accessed && this.present == present
    {
      this.accessed := accessed;
      this.present := present;
    }
  }
}
