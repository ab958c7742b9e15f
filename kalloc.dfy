/**
 * kalloc.c: the physical page allocator (`kinit1`, `kinit2`, `freerange`,
 * `kfree`, `kalloc`) and the LRU ring of swappable pages
 * (`add_page_to_lru_list`, `del_page_from_lru`, `kalloc_to_lru_list`,
 * `kfree_from_lru_list`, `select_victim`).
 */
module Kalloc {
  import opened Seqs
  import opened Memlayout
  import opened Mmu
  import opened FreeList
  import opened Ring

  /**
   * `kmem` (its `use_lock` flag and `freelist` head), `num_free_pages`, and
   * the physical memory the intrusive list is threaded through.
   */
  class Kmem {
    /** `end`: the first address after the kernel image. */
    const kernEnd: Uint
    /** Physical memory: the bytes of each frame, indexed by frame number. */
    const mem: array<seq<byte>>
    var useLock: bool
    /** `kmem.freelist`; 0 is NULL. */
    var freelist: Uint
    var numFreePages: int
    /** The free list read from `freelist`. */
    ghost var freeSeq: seq<Uint>

    ghost predicate Valid()
      reads this, mem
    {
      numFreePages == |freeSeq| && IsFreeList(mem[..], freeSeq, freelist, kernEnd)
    }

    /** The zero-initialised statics before `kinit1`. */
    constructor (kernEnd: Uint)
      ensures Valid() && fresh(mem)
      ensures this.kernEnd == kernEnd && !useLock && freeSeq == [] && numFreePages == 0
    {
      this.kernEnd := kernEnd;
      mem := new seq<byte>[NPAGES](_ => seq(PGSIZE, _ => 0 as byte));
      useLock := false;
      freelist := 0;
      numFreePages := 0;
      freeSeq := [];
    }

    /** `kinit1`: seed the free list from `[vstart, vend)` before locking is in use. */
    method Kinit1(vstart: Uint, vend: Uint) returns (ok: bool)
      requires Valid()
      requires forall q :: q in RangePages(vstart, vend) ==> q !in freeSeq
      modifies this, mem
      ensures Valid() && !useLock
      ensures ok <==> FreedPages(vstart, vend, kernEnd) == RangePages(vstart, vend)
      ensures freeSeq == PushAll(old(freeSeq), FreedPages(vstart, vend, kernEnd))
      ensures forall g :: 0 <= g < mem.Length && (forall q :: q in FreedPages(vstart, vend, kernEnd) ==> FrameOf(q) != g) ==>
        mem[g] == old(mem[g])
    {
      useLock := false;
      ok := Freerange(vstart, vend);
    }

    /** `kinit2`: seed the rest of memory, then switch to locked operation. */
    method Kinit2(vstart: Uint, vend: Uint) returns (ok: bool)
      requires Valid()
      requires forall q :: q in RangePages(vstart, vend) ==> q !in freeSeq
      modifies this, mem
      ensures Valid() && useLock == (ok || old(useLock))
      ensures ok <==> FreedPages(vstart, vend, kernEnd) == RangePages(vstart, vend)
      ensures freeSeq == PushAll(old(freeSeq), FreedPages(vstart, vend, kernEnd))
      ensures forall g :: 0 <= g < mem.Length && (forall q :: q in FreedPages(vstart, vend, kernEnd) ==> FrameOf(q) != g) ==>
        mem[g] == old(mem[g])
    {
      ok := Freerange(vstart, vend);
      if !ok {
        return;
      }
      useLock := true;
    }

    /**
     * `freerange`: `kfree` every whole page from `PGROUNDUP(vstart)` up to
     * `vend`, in ascending order, so the last page freed ends up at the
     * head. `ok` is false when one of them made `kfree` panic, after the
     * pages before it have been freed.
     */
    method Freerange(vstart: Uint, vend: Uint) returns (ok: bool)
      requires Valid()
      requires forall q :: q in RangePages(vstart, vend) ==> q !in freeSeq
      modifies this, mem
      ensures Valid() && useLock == old(useLock)
      ensures ok <==> FreedPages(vstart, vend, kernEnd) == RangePages(vstart, vend)
      ensures freeSeq == PushAll(old(freeSeq), FreedPages(vstart, vend, kernEnd))
      ensures forall g :: 0 <= g < mem.Length && (forall q :: q in FreedPages(vstart, vend, kernEnd) ==> FrameOf(q) != g) ==>
        mem[g] == old(mem[g])
      ensures numFreePages == old(numFreePages) + |FreedPages(vstart, vend, kernEnd)|
      ensures FreedPages(vstart, vend, kernEnd) != [] ==>
        freelist == FreedPages(vstart, vend, kernEnd)[|FreedPages(vstart, vend, kernEnd)| - 1]
    {
      ghost var ps := RangePages(vstart, vend);
      ghost var c := Accepted(ps, kernEnd, 0);
      var p: nat := PgRoundUp(vstart);
      ghost var i := 0;
      ok := true;
      while p + PGSIZE <= vend
        invariant 0 <= i <= c && p == PgRoundUp(vstart) + i * PGSIZE
        invariant Valid() && useLock == old(useLock)
        invariant freeSeq == PushAll(old(freeSeq), ps[..i]) && numFreePages == old(numFreePages) + i
        invariant SameOutside(mem[..], old(mem[..]), ps[..i])
        decreases vend - p
      {
        RangeFromAt(PgRoundUp(vstart), vend, i);
        FreshRangePage(vstart, vend, i, old(freeSeq));
        PushAllStep(old(freeSeq), ps, i);
        var q: Uint := p;
        assert i < |ps| && ps[i] == q;
        ghost var m, hd := mem[..], freelist;
        ok := Kfree(q);
        if !ok {
          assert i == c && FreedPages(vstart, vend, kernEnd) == ps[..i];
          return;
        }
        assert Freeable(ps[i], kernEnd) && i < c;
        SameOutsideStep(m, old(mem[..]), ps[..i], q, LinkBytes(hd) + Junk());
        assert ps[..i + 1] == ps[..i] + [q];
        p := p + PGSIZE;
        i := i + 1;
      }
      RangeFromAt(PgRoundUp(vstart), vend, i);
      assert i == c && FreedPages(vstart, vend, kernEnd) == ps[..i];
    }

    /**
     * `kfree`: panic (`ok` false, nothing changed) unless `v` is page
     * aligned, not below `end` and below `PHYSTOP` physically; otherwise
     * fill the page with junk and push it, its link word naming the old head.
     */
    method Kfree(v: Uint) returns (ok: bool)
      requires Valid()
      requires v !in freeSeq
      modifies this, mem
      ensures Valid() && useLock == old(useLock)
      ensures ok == Freeable(v, kernEnd)
      ensures !ok ==> freelist == old(freelist) && freeSeq == old(freeSeq) && mem[..] == old(mem[..])
      ensures ok ==> freelist == v && freeSeq == [v] + old(freeSeq) && numFreePages == old(numFreePages) + 1
      ensures ok ==> mem[..] == old(mem[..])[FrameOf(v) := LinkBytes(old(freelist)) + Junk()]
      ensures ok ==> forall k :: WORD <= k < PGSIZE ==> mem[FrameOf(v)][k] == JUNK
    {
      if v % PGSIZE != 0 || v < kernEnd || V2P(v) >= PHYSTOP {
        return false; // panic("kfree")
      }
      FreeableFrame(v, kernEnd);
      var f := FrameOf(v);
      mem[f] := Memset(JUNK);
      mem[f] := LinkBytes(freelist) + mem[f][WORD..];
      assert mem[..] == old(mem[..])[f := LinkBytes(freelist) + Junk()];
      PushFree(old(mem[..]), freeSeq, freelist, kernEnd, v);
      numFreePages := numFreePages + 1;
      freelist := v;
      freeSeq := [v] + freeSeq;
      ok := true;
    }

    /**
     * Stand-in for the external `swap_out()`: `reclaim` is the frame it
     * evicts and returns to the allocator through `kfree`, or None when the
     * LRU ring has no victim and `swap_out` returns 0.
     */
    method SwapOut(reclaim: Option<Uint>) returns (s: int)
      requires Valid()
      requires reclaim.Some? ==> Freeable(reclaim.value, kernEnd) && reclaim.value !in freeSeq
      modifies this, mem
      ensures Valid() && useLock == old(useLock)
      ensures reclaim.None? ==> s == 0 && freelist == old(freelist) && freeSeq == old(freeSeq) && mem[..] == old(mem[..])
      ensures reclaim.Some? ==> s != 0 && freeSeq == [reclaim.value] + old(freeSeq)
      ensures reclaim.Some? ==> mem[..] == old(mem[..])[FrameOf(reclaim.value) := LinkBytes(old(freelist)) + Junk()]
    {
      if reclaim.None? {
        return 0;
      }
      var ok := Kfree(reclaim.value);
      s := 1;
    }

    /**
     * `kalloc`: pop the head of the free list. On an empty list call
     * `swap_out`; when it returns 0 report out of memory (0, nothing
     * changed), otherwise try again, which then pops the evicted frame.
     */
    method Kalloc(reclaim: Option<Uint>) returns (r: Uint)
      requires Valid()
      requires reclaim.Some? ==> Freeable(reclaim.value, kernEnd) && reclaim.value !in freeSeq
      modifies this, mem
      ensures Valid() && useLock == old(useLock)
      ensures old(freeSeq) != [] ==>
        && r == old(freelist) && freeSeq == old(freeSeq)[1..]
        && numFreePages == old(numFreePages) - 1 && mem[..] == old(mem[..])
      ensures old(freeSeq) == [] && reclaim.None? ==>
        r == 0 && freelist == 0 && freeSeq == [] && numFreePages == old(numFreePages) && mem[..] == old(mem[..])
      ensures old(freeSeq) == [] && reclaim.Some? ==>
        && r == reclaim.value && freeSeq == [] && numFreePages == old(numFreePages)
        && mem[..] == old(mem[..])[FrameOf(r) := LinkBytes(0) + Junk()]
      ensures r != 0 ==>
        && Freeable(r, kernEnd) && r !in freeSeq && FrameOf(r) < NPAGES
        && |mem[FrameOf(r)]| == PGSIZE && mem[FrameOf(r)][WORD..] == Junk()
    {
      ghost var swapped := false;
      while true
        invariant Valid() && useLock == old(useLock)
        invariant !swapped ==> freelist == old(freelist) && freeSeq == old(freeSeq) && mem[..] == old(mem[..])
        invariant swapped ==>
          && old(freeSeq) == [] && reclaim.Some? && freeSeq == [reclaim.value]
          && mem[..] == old(mem[..])[FrameOf(reclaim.value) := LinkBytes(0) + Junk()]
        decreases if swapped then 0 else 1
      {
        HeadIsNull(mem[..], freeSeq, freelist, kernEnd);
        r := freelist;
        if r != 0 {
          PopFree(mem[..], freeSeq, freelist, kernEnd);
          freelist := DecodeLink(mem[FrameOf(r)][..WORD]);
          numFreePages := numFreePages - 1;
          freeSeq := freeSeq[1..];
          return;
        }
        var s := SwapOut(reclaim);
        if s == 0 {
          return; // cprintf("kalloc: out of memory")
        }
        swapped := true;
      }
    }
  }

  /** `lru_lock`'s data: the descriptor array `pages`, `page_lru_head` and `num_lru_pages`. */
  class Lru {
    const pages: array<Page>
    /** `page_lru_head` as a frame number; NULL when the ring is empty. */
    var head: int
    var numLruPages: int
    /** The frames of the ring, in order from the head. */
    ghost var order: seq<nat>

    ghost predicate Valid()
      reads this, pages
    {
      && pages.Length == NPAGES
      && IsRing(pages[..], order)
      && numLruPages == |order|
      && head == (if order == [] then NULL else order[0])
    }

    /** The zero-initialised statics: no page on the ring. */
    constructor ()
      ensures Valid() && fresh(pages) && order == []
      ensures forall f :: 0 <= f < NPAGES ==> pages[f] == EMPTY_PAGE
    {
      pages := new Page[NPAGES](_ => EMPTY_PAGE);
      head := NULL;
      numLruPages := 0;
      order := [];
    }

    /**
     * `add_page_to_lru_list` (the caller holds `lru_lock`): make frame `f`
     * the head, between the old tail and the old head.
     */
    method AddPageToLruList(f: nat)
      requires Valid() && f < NPAGES && f !in order
      modifies this, pages
      ensures Valid()
      ensures order == [f] + old(order) && head == f && numLruPages == old(numLruPages) + 1
      ensures pages[..] == Spliced(old(pages[..]), old(order), f)
    {
      if numLruPages == 0 {
        pages[f] := pages[f].(prev := f);
        pages[f] := pages[f].(next := f);
      } else if numLruPages == 1 {
        pages[f] := pages[f].(prev := head);
        pages[head] := pages[head].(next := f);
        pages[head] := pages[head].(prev := f);
        pages[f] := pages[f].(next := head);
      } else {
        assert LinkedAt(pages[..], order, 0);
        var tail := pages[head].prev;
        pages[tail] := pages[tail].(next := f);
        pages[f] := pages[f].(prev := pages[head].prev);
        pages[head] := pages[head].(prev := f);
        pages[f] := pages[f].(next := head);
      }
      assert pages[..] == Spliced(old(pages[..]), order, f);
      SplicedRing(old(pages[..]), order, f);
      head := f;
      numLruPages := numLruPages + 1;
      order := [f] + order;
    }

    /**
     * `del_page_from_lru` (the caller holds `lru_lock`): unlink frame `f`,
     * moving the head on if it was the head and emptying the ring if it was
     * the only page; then clear its links.
     */
    method DelPageFromLru(f: nat)
      requires Valid() && f in order
      modifies this, pages
      ensures Valid()
      ensures order == RemoveAt(old(order), IndexOf(old(order), f))
      ensures numLruPages == old(numLruPages) - 1
      ensures old(head) == f ==> head == (if |old(order)| == 1 then NULL else old(pages[f].next))
      ensures old(head) != f ==> head == old(head)
      ensures pages[..] == Unlinked(old(pages[..]), old(order), IndexOf(old(order), f))
    {
      ghost var j := IndexOf(order, f);
      assert LinkedAt(pages[..], order, j);
      if f == head {
        head := pages[f].next;
      }
      if pages[f].next == f || numLruPages == 1 {
        head := NULL;
      } else {
        var nx, pv := pages[f].next, pages[f].prev;
        pages[nx] := pages[nx].(prev := pages[f].prev);
        pages[pv] := pages[pv].(next := pages[f].next);
      }
      pages[f] := pages[f].(next := NULL);
      pages[f] := pages[f].(prev := NULL);
      numLruPages := numLruPages - 1;
      assert pages[..] == Unlinked(old(pages[..]), order, j);
      UnlinkedRing(old(pages[..]), order, j);
      order := RemoveAt(order, j);
    }

    /**
     * `kalloc_to_lru_list`: record `pgdir` and `va` on the descriptor of
     * the frame at kernel address `pa` and make it the head of the ring.
     */
    method KallocToLruList(pgdir: nat, pa: Uint, va: Uint)
      requires Valid()
      requires KERNBASE <= pa < KERNBASE + PHYSTOP && FrameOf(pa) !in order
      modifies this, pages
      ensures Valid()
      ensures order == [FrameOf(pa)] + old(order) && head == FrameOf(pa) && numLruPages == old(numLruPages) + 1
      ensures pages[..] == Spliced(Owned(old(pages[..]), FrameOf(pa), pgdir, va), old(order), FrameOf(pa))
    {
      var f := FrameOf(pa);
      pages[f] := pages[f].(pgdir := pgdir);
      pages[f] := pages[f].(vaddr := va);
      assert pages[..] == Owned(old(pages[..]), f, pgdir, va);
      OwnedRing(old(pages[..]), order, f, pgdir, va);
      AddPageToLruList(f);
    }

    /**
     * `kfree_from_lru_list`: clear the owner of the descriptor of the frame
     * at kernel address `v` and unlink it from the ring.
     */
    method KfreeFromLruList(v: Uint)
      requires Valid()
      requires KERNBASE <= v < KERNBASE + PHYSTOP && FrameOf(v) in order
      modifies this, pages
      ensures Valid()
      ensures order == RemoveAt(old(order), IndexOf(old(order), FrameOf(v)))
      ensures numLruPages == old(numLruPages) - 1
      ensures old(head) == FrameOf(v) ==> head == (if |old(order)| == 1 then NULL else old(pages[FrameOf(v)].next))
      ensures old(head) != FrameOf(v) ==> head == old(head)
      ensures pages[..] == Unlinked(Owned(old(pages[..]), FrameOf(v), 0, 0), old(order), IndexOf(old(order), FrameOf(v)))
    {
      var f := FrameOf(v);
      pages[f] := pages[f].(pgdir := 0);
      pages[f] := pages[f].(vaddr := 0);
      assert pages[..] == Owned(old(pages[..]), f, 0, 0);
      OwnedRing(old(pages[..]), order, f, 0, 0);
      DelPageFromLru(f);
    }

    /** The page-table entries of the ring's pages, in order from the head. */
    ghost function Keys(): seq<PteKey>
      reads this, pages
      requires Valid()
    {
      RingKeys(pages[..], order)
    }

    /**
     * `select_victim`: the clock scan. From the head, clear `PTE_A` of each
     * page that has it and advance the head past it; return the first page
     * whose `PTE_A` reads clear, leaving it on the ring as the head. NULL
     * on an empty ring.
     */
    method SelectVictim(pt: PageTables) returns (victim: int)
      requires Valid()
      modifies this, pt
      ensures Valid()
      ensures pages[..] == old(pages[..]) && numLruPages == old(numLruPages) && pt.present == old(pt.present)
      ensures old(order) == [] ==> victim == NULL && order == [] && head == NULL && pt.accessed == old(pt.accessed)
      ensures old(order) != [] ==>
        && victim == old(order)[VictimIndex(old(Keys()), old(pt.accessed))]
        && order == Rotate(old(order), VictimIndex(old(Keys()), old(pt.accessed)))
        && head == victim
        && pt.accessed == old(pt.accessed) - Elems(old(Keys())[..Passed(old(Keys()), old(pt.accessed), 0)])
    {
      var curr := head;
      if curr == NULL {
        return NULL;
      }
      ghost var o, ks, acc := order, Keys(), pt.accessed;
      ghost var n, k := |o|, Passed(ks, acc, 0);
      ghost var i := 0;
      // the ghost `order` stays `o` during the scan and is rotated to the
      // new head when the scan ends
      while true
        invariant order == o && numLruPages == n && IsRing(pages[..], o)
        invariant pt.present == old(pt.present)
        invariant 0 <= i <= k
        invariant curr == head && curr == (if i < n then o[i] else o[0])
        invariant pt.accessed == acc - Elems(ks[..i])
        decreases n - i
      {
        var nxt := pages[curr].next;
        var pte := KeyOf(pages[curr]);
        if pte in pt.accessed {
          pt.accessed := pt.accessed - {pte};
          if curr == head {
            head := pages[curr].next;
          } else {
            // unreachable: the scanned page is always the head, so the
            // "move to the tail" relinking never runs
            assert false;
          }
          PassedStep(ks, acc, i);
          NextInRing(pages[..], o, i);
          i := i + 1;
        } else {
          ScanStops(ks, acc, i);
          if i == n {
            RotateFull(o);
          }
          RotateRing(pages[..], o, i);
          order := Rotate(o, i);
          return curr;
        }
        curr := nxt;
      }
    }
  }
}
