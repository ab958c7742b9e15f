# xv6 physical page allocator and clock LRU ring

A Dafny model of the physical memory allocator of an xv6 kernel extended
with page swapping, in its two versions, `kalloc.c` and `kalloc_ys.c`.
Each version keeps two pieces of state.

- **The free list.** `kmem.freelist` is an intrusive stack of free 4096-byte
  frames whose first word links to the next free frame, and
  `num_free_pages` counts it. `kinit1`/`kinit2` seed it through `freerange`.
  `kfree` checks an address, fills the page with junk and pushes it.
  `kalloc` pops the head or, on an empty list, asks `swap_out` for a frame
  and tries again.
- **The LRU ring.** It is a circular doubly-linked list threaded through the
  static descriptor array `pages[PHYSTOP/PGSIZE]`, with `page_lru_head` and
  `num_lru_pages`. Insertion makes a page the head, between the old tail
  and the old head. Deletion unlinks a page from anywhere. `select_victim`
  is a clock (second-chance) scan. From the head it clears `PTE_A` of each
  referenced page and advances the head. It returns the first page whose
  `PTE_A` reads clear. The `kalloc_ys.c` scan also panics on a page whose
  page-directory entry lacks `PTE_P`.

Files:

- `memlayout.dfy` holds the xv6 constants (`PGSIZE`, `KERNBASE`,
  `PHYSTOP`), 32-bit `uint` arithmetic, `V2P`, `PGROUNDUP`, `PDX`, `PTX`
  and the `kfree` address test.
- `mmu.dfy` holds the page tables, seen only as the set of directory
  entries with `PTE_P` and the set of page-table entries with `PTE_A`.
- `freelist.dfy` is the free list as values. It covers the little-endian
  link word, junk bytes, the invariant `IsFreeList`, push and pop, and the
  pages `freerange` walks.
- `ring.dfy` is the ring as values. It covers the `Page` descriptor with
  index links (NULL is -1), the ring invariant `IsRing`, and the descriptor
  arrays after an insertion (`Spliced`), a deletion (`Unlinked`) and an
  owner update (`Owned`). It also holds the specification of the clock scan
  (`Passed`, `VictimIndex`, `PanicIndex`).
- `seqs.dfy` holds generic sequence facts.
- `kalloc.dfy` (module `Kalloc`) and `kalloc_ys.dfy` (module `KallocYs`)
  each hold the classes `Kmem` and `Lru`. Their fields are the globals of
  the C file, updated in place. `Lru.pages` is an array and `Kmem.mem`
  holds the bytes of each frame. A ghost `freeSeq` or `order` gives the
  list read from its head. Every method states its new state through the
  specification functions.

## Model

| member | source | states |
|---|---|---|
| Kalloc.Kmem.constructor | kalloc.c:20-31 | the zero-initialised statics form an empty free list with count 0 and `use_lock` off |
| Kalloc.Kmem.Kinit1 | kalloc.c:39-46 | `use_lock` ends off; the free list becomes the pages `freerange` frees pushed onto the old list; every frame none of them occupies keeps its bytes; `ok` iff every page of the range was accepted |
| Kalloc.Kmem.Kinit2 | kalloc.c:48-54 | as `kinit1`, and `use_lock` is switched on once the range is freed |
| Kalloc.Kmem.Freerange | kalloc.c:56-63 | the free list becomes the old list with the pages of the range pushed in ascending order, up to the first page `kfree` rejects; the count grows by their number; the last page freed is the head; every frame none of them occupies keeps its bytes; `ok` iff none was rejected |
| Kalloc.Kmem.Kfree | kalloc.c:69-93 | `ok` iff `v` is page aligned, not below `end` and `V2P(v) < PHYSTOP`, with nothing changed otherwise; on success `v` is the new head, its link word holds the old head, every other byte is 1, and the count grows by 1 |
| Kalloc.Kmem.SwapOut | kalloc.c:119 | the external `swap_out`: returns 0 and changes nothing, or puts the evicted frame back with `kfree` and returns non-zero |
| Kalloc.Kmem.Kalloc | kalloc.c:98-128 | on a non-empty list returns the old head, leaves its successor as head, decrements the count and touches no memory; on an empty list with `swap_out` returning 0 returns 0 with nothing changed; otherwise retries and returns the evicted frame; a returned page is freeable, off the list and junk-filled beyond its link word |
| Kalloc.Lru.constructor | kalloc.c:26-31 | the zero-initialised statics form an empty ring of all-NULL descriptors |
| Kalloc.Lru.AddPageToLruList | kalloc.c:133-160 | frame `f`, not on the ring, becomes the head; the ring order is `[f] + old order`; the count grows by 1; the new descriptors are `Spliced` |
| Kalloc.Lru.DelPageFromLru | kalloc.c:163-187 | frame `f` on the ring is taken out with the others in their cyclic order; the head moves to `f->next` if `f` was the head and is NULL if `f` was alone; the count drops by 1; the new descriptors are `Unlinked` |
| Kalloc.Lru.KallocToLruList | kalloc.c:191-199 | records `pgdir`/`va` on `pages[V2P(pa)/PGSIZE]`, then inserts it as `add_page_to_lru_list` does |
| Kalloc.Lru.KfreeFromLruList | kalloc.c:202-212 | clears `pgdir`/`vaddr` of `pages[V2P(v)/PGSIZE]`, then deletes it as `del_page_from_lru` does |
| Kalloc.Lru.SelectVictim | kalloc.c:214-261 | on an empty ring returns NULL and changes nothing; otherwise returns the page at `VictimIndex` (the first whose `PTE_A` reads clear, or the old head when all were set), clears `PTE_A` of exactly the pages passed before it, leaves the descriptors and the count alone, and rotates the ring so the victim is the head |
| KallocYs.Kmem.constructor | kalloc_ys.c:20-30 | as in `kalloc.c` |
| KallocYs.Kmem.Kinit1 | kalloc_ys.c:37-44 | as in `kalloc.c` |
| KallocYs.Kmem.Kinit2 | kalloc_ys.c:46-51 | as in `kalloc.c` |
| KallocYs.Kmem.Freerange | kalloc_ys.c:53-60 | as in `kalloc.c` |
| KallocYs.Kmem.Kfree | kalloc_ys.c:66-87 | as in `kalloc.c` (the head is set before the counter) |
| KallocYs.Kmem.SwapOut | kalloc_ys.c:108 | as in `kalloc.c` |
| KallocYs.Kmem.Kalloc | kalloc_ys.c:91-117 | as in `kalloc.c` |
| KallocYs.Lru.constructor | kalloc_ys.c:26-30 | as in `kalloc.c` |
| KallocYs.Lru.KallocToLruList | kalloc_ys.c:119-146 | records `pgdir`/`va`, links the page after the old tail and before the old head (self-links on an empty ring), makes it the head and grows the count; the ring stays a ring with order `[f] + old order` |
| KallocYs.Lru.KfreeFromLruList | kalloc_ys.c:148-170 | clears the owner, advances the head if the page was the head, unlinks the page when other pages remain and otherwise empties the ring, clears its links and drops the count; the others keep their cyclic order |
| KallocYs.Lru.SelectVictim | kalloc_ys.c:172-212 | on an empty ring returns `NoVictim` and changes nothing; when a page the scan reaches lacks `PTE_P` it ends in `Panic` at the first such page, with the bits before it cleared and the head there; otherwise it returns `Victim` with the outcome of the `kalloc.c` scan |
| Memlayout.Freeable | kalloc.c:74 | the test of `kfree` holds exactly for the page-aligned addresses not below `end` in `[KERNBASE, KERNBASE + PHYSTOP)`: the wrap of `V2P` below `KERNBASE` makes `V2P(v) < PHYSTOP` exclude them |
| Memlayout.V2P | kalloc.c:74 | `V2P` subtracts `KERNBASE` without wrapping exactly for addresses at or above `KERNBASE`, and `P2V` undoes it for every address |
| Memlayout.FrameOf | kalloc.c:193 | for an address of the kernel's map of physical memory, `V2P(v)/PGSIZE` is a descriptor index below `PHYSTOP/PGSIZE` and the frame that holds `v` |
| Memlayout.Pdx | kalloc.c:231 | `PDX(va)` is below 1024 and the 4 MiB region holding `va` |
| Memlayout.Ptx | kalloc.c:236 | `PTX(va)` is below 1024 and, after `PDX(va)`, the rest of the page number of `va` |
| Memlayout.PgRoundUp | kalloc.c:60 | `PGROUNDUP` in `uint` arithmetic is page aligned and the least such address not below `a`, wrapping to 0 at the top of the address space |
| Memlayout.FreeableFrame | kalloc.c:74 | the `V2P` of an address `kfree` accepts does not wrap, `P2V` maps it back, and its frame has a descriptor |
| Memlayout.FrameOfInjective | kalloc.c:193 | distinct accepted addresses have distinct descriptors `pages[V2P(v)/PGSIZE]` |
| Mmu.PteOfPage | kalloc.c:231-236 | two addresses of one page directory reach the same directory entry exactly when they share a 4 MiB region, and the same page-table entry exactly when they share a page, which lies under their directory entry |
| FreeList.LinkBytes | kalloc.c:84 | storing a pointer into `run.next` writes four bytes from which a load reads the pointer back |
| FreeList.LinkBytesDecode | kalloc.c:110 | every four bytes are the stored form of exactly the pointer they load as |
| FreeList.FreeListFreeable | kalloc.c:74-75 | every page on a free list passes the `kfree` test |
| FreeList.FreeListBound | kalloc.c:87 | a free list holds at most one page per frame, so `num_free_pages` is at most `PHYSTOP/PGSIZE` |
| FreeList.HeadIsNull | kalloc.c:106-109 | `kmem.freelist` is NULL exactly when the list is empty |
| FreeList.PushFree | kalloc.c:83-90 | pushing an accepted page that holds the old head in its link word keeps a free list |
| FreeList.PopFree | kalloc.c:106-110 | the head is accepted, holds junk, and its link word loads as its successor; the rest is a free list |
| FreeList.RangePages | kalloc.c:60-61 | `freerange` hands to `kfree` as many pages as whole pages fit between `PGROUNDUP(vstart)` and `vend` |
| FreeList.RangeFromAt | kalloc.c:60-61 | after `i` steps the cursor of `freerange` is `PGROUNDUP(vstart) + i*PGSIZE`, and the loop test passes exactly while pages remain |
| FreeList.Accepted | kalloc.c:61-62 | the pages `kfree` accepts before the first it rejects |
| FreeList.FreedPages | kalloc.c:56-63 | what `freerange` frees is a prefix of the range |
| FreeList.RangePagesExact | kalloc.c:56-63 | `freerange` walks exactly the page-aligned `p` with `PGROUNDUP(vstart) <= p` and `p + PGSIZE <= vend`, in ascending order |
| FreeList.FreshRangePage | kalloc.c:61-62 | the next page `freerange` frees is not on the list yet |
| Seqs.PushAllReverse | kalloc.c:61-62 | pushing pages one at a time leaves them on top of the old list, last pushed first |
| Ring.RingBound | kalloc.c:157 | the ring holds each descriptor at most once, so `num_lru_pages` is at most the number of descriptors |
| Ring.FollowRing | kalloc.c:230 | following `next` from the head visits the ring in order and returns after `num_lru_pages` steps |
| Ring.FollowBackRing | kalloc.c:149 | following `prev` from the head visits the ring backwards, so `head->prev` is the tail |
| Ring.RotateRing | kalloc.c:243 | advancing the head any number of places keeps the ring |
| Ring.NextInRing | kalloc.c:230 | the captured `nxt` of the page at a ring position is the page after it |
| Ring.Owned | kalloc.c:193-195 | recording an owner sets `pgdir` and `vaddr` of that descriptor and changes no link and no other descriptor |
| Ring.OwnedRing | kalloc.c:194-195 | recording an owner does not disturb the ring |
| Ring.Spliced | kalloc.c:133-157 | after the insertion the page links to the old head and the old tail (to itself on an empty ring), and a page spliced in from off the ring is the old head's `prev` and the old tail's `next` |
| Ring.SplicedRing | kalloc.c:133-157 | splicing a page off the ring in front of the head gives the ring `[f] + order` |
| Ring.SplicedFrame | kalloc.c:133-157 | splicing changes no owner, and no descriptor, on the ring or off it, but those of the page, the old head and the old tail |
| Ring.Bypassed | kalloc.c:172-178 | on a ring of more than one page the predecessor's `next` and the successor's `prev` skip the page; a page alone on the ring changes nothing |
| Ring.Unlinked | kalloc.c:163-184 | the deleted page's links become NULL, and on a ring of distinct pages with others left its neighbours are linked to each other |
| Ring.UnlinkedRing | kalloc.c:163-184 | unlinking a ring position gives the ring without it, the others in their cyclic order |
| Ring.UnlinkedFrame | kalloc.c:163-184 | unlinking changes no owner, and no descriptor but those of the page and its two neighbours |
| Ring.Passed | kalloc.c:240-258 | the number of pages the hand passes, at most the ring's length: each of them had `PTE_A` set (not cleared earlier in the scan) and the page after them reads clear |
| Ring.VictimIndex | kalloc.c:240-258 | the victim is the first page that reads clear, or the old head when the hand passed them all |
| Ring.PassedStep | kalloc.c:240-243 | a page at the hand that reads set is before the victim, and clearing it leaves exactly the bits of the pages passed cleared |
| Ring.ScanStops | kalloc.c:254-257 | a page at the hand that reads clear is the victim |
| Ring.VictimFirstClear | kalloc.c:240-258 | with no two pages sharing an entry, the victim is the first page whose `PTE_A` is clear, every page before it set |
| Ring.AllAccessedVictimIsHead | kalloc.c:240-258 | with every bit set the hand passes the whole ring, clears every bit and returns the original head |
| Ring.ClearHeadIsVictim | kalloc.c:240-258 | a head that reads clear is the victim and nothing is cleared |
| Ring.ScanLimit | kalloc_ys.c:184-211 | the number of positions whose `PTE_P` the scan checks: the pages passed plus the victim when the hand stops early, the whole ring, each page once, when it passes every page |
| Ring.FirstAbsent | kalloc_ys.c:187-191 | the first position before a limit whose directory entry lacks `PTE_P`, every one before it present |
| Ring.PanicIndex | kalloc_ys.c:187-191 | the panic position is the first page the scan reaches whose directory entry lacks `PTE_P`, every page before it present |
| Ring.ScanPanics | kalloc_ys.c:187-191 | the scan panics exactly when some page it reaches lacks `PTE_P` |
| Ring.PresentNoPanic | kalloc_ys.c:187-191 | with every directory entry present the scan of `kalloc_ys.c` does not panic |
| Ring.PanicHere | kalloc_ys.c:187-191 | a page reached without `PTE_P` is where the scan panics |
| Ring.PresentHere | kalloc_ys.c:187-191 | a page reached with `PTE_P` is not where the scan panics, and at the victim the scan does not panic |

## Left out

- Spinlocks (`initlock`, `acquire`, `release`) and the concurrency they guard are not modelled. `use_lock` is a plain flag.
- `swap_out` is not part of this model. `Kalloc` and `SwapOut` take a parameter `reclaim`. It stands for the frame `swap_out` evicts and returns to the allocator through `kfree`, or none when `swap_out` returns 0.
- Kalloc.Kmem.Kalloc: only one round of `goto try_again` after `swap_out` is modelled. A `swap_out` that reports success without freeing a frame, which would make the C code retry for ever, is not modelled. The same holds for KallocYs.Kmem.Kalloc.
- The page-table walk `PTE_ADDR`/`P2V` and the entry bit layout are not modelled. Entries are named by `(pgdir, PDX(va))` and `(pgdir, PDX(va), PTX(va))`, and their `PTE_P`/`PTE_A` bits are sets in `Mmu.PageTables`.
- `panic` is an error outcome rather than a halt: `ok == false` from `Kfree`/`Freerange`/`Kinit*`, and `Panic` from the `kalloc_ys.c` scan. `cprintf` is not modelled.
- Kalloc.Kmem.Freerange: the cursor `p` is an unbounded integer, so a `p + PGSIZE` that wraps past 2^32 is not modelled. `PGROUNDUP` itself wraps as in C. The same holds for KallocYs.Kmem.Freerange.
- Kalloc.Kmem.Kfree: freeing a page that is already free is a precondition, because the C code would corrupt the list. The same holds for KallocYs.Kmem.Kfree.
- Kalloc.Lru.AddPageToLruList: inserting a page already on the ring is a precondition. The same holds for Kalloc.Lru.KallocToLruList and KallocYs.Lru.KallocToLruList.
- Kalloc.Lru.DelPageFromLru: deleting a page that is not on the ring is a precondition. The same holds for Kalloc.Lru.KfreeFromLruList and KallocYs.Lru.KfreeFromLruList.
- Kalloc.Lru.SelectVictim: the "move to tail" relinking of a scanned page that is not the head (kalloc.c:244-253 and kalloc_ys.c:198-205) is shown unreachable and is not modelled further. The scanned page is always the head. The same holds for KallocYs.Lru.SelectVictim.
- Kalloc.Lru.SelectVictim: the bound of at most `num_lru_pages + 1` examinations is not a separate contract. The loop's `decreases` clause and the bound on `Passed` give it.
- `memset` is modelled only for the page `kfree` fills (`FreeList.Memset`), and the link word is overwritten afterwards. Physical memory is modelled only as the frames below `PHYSTOP`.
- memlayout.h and mmu.h are not among the source files of this model; memlayout.dfy restates the macros the allocator uses (`PGSIZE`, `KERNBASE`, `PHYSTOP`, `V2P`, `P2V`, `PGROUNDUP`, `PDX`, `PTX`) with the xv6 values.
- `num_free_pages` and `num_lru_pages` are unbounded integers. Their 32-bit `int` range is never approached: `FreeListBound` and `RingBound` bound them by the number of frames.
- swaptest.c, a user program, is not part of this model.
