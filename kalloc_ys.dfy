/**
 * kalloc_ys.c: the same allocator (`kinit1`, `kinit2`, `freerange`, `kfree`,
 * `kalloc`) with the LRU ring operations written inline in
 * `kalloc_to_lru_list` and `kfree_from_lru_list`, and a clock scan
 * (`select_victim`) that panics on a page whose directory entry is not present.
 */
module KallocYs {
  import opened Seqs
  import opened Memlayout
  import opened Mmu
  import opened FreeList
  import opened Ring

  /** What `select_victim` ends with: NULL, the victim's descriptor, or the panic at a descriptor. */
  datatype Scan = NoVictim | Victim(frame: nat) | Panic(frame: nat)

  /**
   * `kmem` (its `use_lock` flag and `freelist` head), `num_free_pages`, and
   * the physical memory the intrusive list is threaded through. kalloc_ys.c
   * repeats the allocator of kalloc.c line for line (only `kfree` updates
   * the head before the counter), so this class repeats `Kalloc.Kmem`.
   */
  class Kmem {
    /** `end`: the first address after the kernel image. */
    const kernEnd: Uint
    /** Physical memory: the bytes of each frame, indexed by frame number. */
    const mem: array<seq<byte>>
    var useLock: bool
    /** `kmem.freelist`; 0 is NULL. */
    var freelist: Uint
    var numFreePages: int
    /** The free list read from `freelist`. */
    ghost var freeSeq: seq<Uint>

    ghost predicate Valid()
      reads this, mem
    {
      numFreePages == |freeSeq| && IsFreeList(mem[..], freeSeq, freelist, kernEnd)
    }

    /** The zero-initialised statics before `kinit1`. */
    constructor (kernEnd: Uint)
      ensures Valid() && fresh(mem)
      ensures this.kernEnd == kernEnd && !useLock && freeSeq == [] && numFreePages == 0
    {
      this.kernEnd := kernEnd;
      mem := new seq<byte>[NPAGES](_ => seq(PGSIZE, _ => 0 as byte));
      useLock := false;
      freelist := 0;
      numFreePages := 0;
      freeSeq := [];
    }

    /** `kinit1`: seed the free list from `[vstart, vend)` before locking is in use. */
    method Kinit1(vstart: Uint, vend: Uint) returns (ok: bool)
      requires Valid()
      requires forall q :: q in RangePages(vstart, vend) ==> q !in freeSeq
      modifies this, mem
      ensures Valid() && !useLock
      ensures ok <==> FreedPages(vstart, vend, kernEnd) == RangePages(vstart, vend)
      ensures freeSeq == PushAll(old(freeSeq), FreedPages(vstart, vend, kernEnd))
      ensures forall g :: 0 <= g < mem.Length && (forall q :: q in FreedPages(vstart, vend, kernEnd) ==> FrameOf(q) != g) ==>
        mem[g] == old(mem[g])
    {
      useLock := false;
      ok := Freerange(vstart, vend);
    }

    /** `kinit2`: seed the rest of memory, then switch to locked operation. */
    method Kinit2(vstart: Uint, vend: Uint) returns (ok: bool)
      requires Valid()
      requires forall q :: q in RangePages(vstart, vend) ==> q !in freeSeq
      modifies this, mem
      ensures Valid() && useLock == (ok || old(useLock))
      ensures ok <==> FreedPages(vstart, vend, kernEnd) == RangePages(vstart, vend)
      ensures freeSeq == PushAll(old(freeSeq), FreedPages(vstart, vend, kernEnd))
      ensures forall g :: 0 <= g < mem.Length && (forall q :: q in FreedPages(vstart, vend, kernEnd) ==> FrameOf(q) != g) ==>
        mem[g] == old(mem[g])
    {
      ok := Freerange(vstart, vend);
      if !ok {
        return;
      }
      useLock := true;
    }

    /**
     * `freerange`: `kfree` every whole page from `PGROUNDUP(vstart)` up to
     * `vend`, in ascending order, so the last page freed ends up at the
     * head. `ok` is false when one of them made `kfree` panic, after the
     * pages before it have been freed.
     */
    method Freerange(vstart: Uint, vend: Uint) returns (ok: bool)
      requires Valid()
      requires forall q :: q in RangePages(vstart, vend) ==> q !in freeSeq
      modifies this, mem
      ensures Valid() && useLock == old(useLock)
      ensures ok <==> FreedPages(vstart, vend, kernEnd) == RangePages(vstart, vend)
      ensures freeSeq == PushAll(old(freeSeq), FreedPages(vstart, vend, kernEnd))
      ensures forall g :: 0 <= g < mem.Length && (forall q :: q in FreedPages(vstart, vend, kernEnd) ==> FrameOf(q) != g) ==>
        mem[g] == old(mem[g])
      ensures numFreePages == old(numFreePages) + |FreedPages(vstart, vend, kernEnd)|
      ensures FreedPages(vstart, vend, kernEnd) != [] ==>
        freelist == FreedPages(vstart, vend, kernEnd)[|FreedPages(vstart, vend, kernEnd)| - 1]
    {
      ghost var ps := RangePages(vstart, vend);
      ghost var c := Accepted(ps, kernEnd, 0);
      var p: nat := PgRoundUp(vstart);
      ghost var i := 0;
      ok := true;
      while p + PGSIZE <= vend
        invariant 0 <= i <= c && p == PgRoundUp(vstart) + i * PGSIZE
        invariant Valid() && useLock == old(useLock)
        invariant freeSeq == PushAll(old(freeSeq), ps[..i]) && numFreePages == old(numFreePages) + i
        invariant SameOutside(mem[..], old(mem[..]), ps[..i])
        decreases vend - p
      {
        RangeFromAt(PgRoundUp(vstart), vend, i);
        FreshRangePage(vstart, vend, i, old(freeSeq));
        PushAllStep(old(freeSeq), ps, i);
        var q: Uint := p;
        assert i < |ps| && ps[i] == q;
        ghost var m, hd := mem[..], freelist;
        ok := Kfree(q);
        if !ok {
          assert i == c && FreedPages(vstart, vend, kernEnd) == ps[..i];
          return;
        }
        assert Freeable(ps[i], kernEnd) && i < c;
        SameOutsideStep(m, old(mem[..]), ps[..i], q, LinkBytes(hd) + Junk());
        assert ps[..i + 1] == ps[..i] + [q];
        p := p + PGSIZE;
        i := i + 1;
      }
      RangeFromAt(PgRoundUp(vstart), vend, i);
      assert i == c && FreedPages(vstart, vend, kernEnd) == ps[..i];
    }

    /**
     * `kfree`: panic (`ok` false, nothing changed) unless `v` is page
     * aligned, not below `end` and below `PHYSTOP` physically; otherwise
     * fill the page with junk and push it, its link word naming the old head.
     */
    method Kfree(v: Uint) returns (ok: bool)
      requires Valid()
      requires v !in freeSeq
      modifies this, mem
      ensures Valid() && useLock == old(useLock)
      ensures ok == Freeable(v, kernEnd)
      ensures !ok ==> freelist == old(freelist) && freeSeq == old(freeSeq) && mem[..] == old(mem[..])
      ensures ok ==> freelist == v && freeSeq == [v] + old(freeSeq) && numFreePages == old(numFreePages) + 1
      ensures ok ==> mem[..] == old(mem[..])[FrameOf(v) := LinkBytes(old(freelist)) + Junk()]
      ensures ok ==> forall k :: WORD <= k < PGSIZE ==> mem[FrameOf(v)][k] == JUNK
    {
      if v % PGSIZE != 0 || v < kernEnd || V2P(v) >= PHYSTOP {
        return false; // panic("kfree")
      }
      FreeableFrame(v, kernEnd);
      var f := FrameOf(v);
      mem[f] := Memset(JUNK);
      mem[f] := LinkBytes(freelist) + mem[f][WORD..];
      assert mem[..] == old(mem[..])[f := LinkBytes(freelist) + Junk()];
      PushFree(old(mem[..]), freeSeq, freelist, kernEnd, v);
      freelist := v;
      numFreePages := numFreePages + 1;
      freeSeq := [v] + freeSeq;
      ok := true;
    }

    /**
     * Stand-in for the external `swap_out()`: `reclaim` is the frame it
     * evicts and returns to the allocator through `kfree`, or None when the
     * LRU ring has no victim and `swap_out` returns 0.
     */
    method SwapOut(reclaim: Option<Uint>) returns (s: int)
      requires Valid()
      requires reclaim.Some? ==> Freeable(reclaim.value, kernEnd) && reclaim.value !in freeSeq
      modifies this, mem
      ensures Valid() && useLock == old(useLock)
      ensures reclaim.None? ==> s == 0 && freelist == old(freelist) && freeSeq == old(freeSeq) && mem[..] == old(mem[..])
      ensures reclaim.Some? ==> s != 0 && freeSeq == [reclaim.value] + old(freeSeq)
      ensures reclaim.Some? ==> mem[..] == old(mem[..])[FrameOf(reclaim.value) := LinkBytes(old(freelist)) + Junk()]
    {
      if reclaim.None? {
        return 0;
      }
      var ok := Kfree(reclaim.value);
      s := 1;
    }

    /**
     * `kalloc`: pop the head of the free list. On an empty list call
     * `swap_out`; when it returns 0 report out of memory (0, nothing
     * changed), otherwise try again, which then pops the evicted frame.
     */
    method Kalloc(reclaim: Option<Uint>) returns (r: Uint)
      requires Valid()
      requires reclaim.Some? ==> Freeable(reclaim.value, kernEnd) && reclaim.value !in freeSeq
      modifies this, mem
      ensures Valid() && useLock == old(useLock)
      ensures old(freeSeq) != [] ==>
        && r == old(freelist) && freeSeq == old(freeSeq)[1..]
        && numFreePages == old(numFreePages) - 1 && mem[..] == old(mem[..])
      ensures old(freeSeq) == [] && reclaim.None? ==>
        r == 0 && freelist == 0 && freeSeq == [] && numFreePages == old(numFreePages) && mem[..] == old(mem[..])
      ensures old(freeSeq) == [] && reclaim.Some? ==>
        && r == reclaim.value && freeSeq == [] && numFreePages == old(numFreePages)
        && mem[..] == old(mem[..])[FrameOf(r) := LinkBytes(0) + Junk()]
      ensures r != 0 ==>
        && Freeable(r, kernEnd) && r !in freeSeq && FrameOf(r) < NPAGES
        && |mem[FrameOf(r)]| == PGSIZE && mem[FrameOf(r)][WORD..] == Junk()
    {
      ghost var swapped := false;
      while true
        invariant Valid() && useLock == old(useLock)
        invariant !swapped ==> freelist == old(freelist) && freeSeq == old(freeSeq) && mem[..] == old(mem[..])
        invariant swapped ==>
          && old(freeSeq) == [] && reclaim.Some? && freeSeq == [reclaim.value]
          && mem[..] == old(mem[..])[FrameOf(reclaim.value) := LinkBytes(0) + Junk()]
        decreases if swapped then 0 else 1
      {
        HeadIsNull(mem[..], freeSeq, freelist, kernEnd);
        r := freelist;
        if r != 0 {
          PopFree(mem[..], freeSeq, freelist, kernEnd);
          freelist := DecodeLink(mem[FrameOf(r)][..WORD]);
          numFreePages := numFreePages - 1;
          freeSeq := freeSeq[1..];
          return;
        }
        var s := SwapOut(reclaim);
        if s == 0 {
          return; // cprintf("kalloc: out of memory")
        }
        swapped := true;
      }
    }
  }

  /** `lru_lock`'s data: the descriptor array `pages`, `page_lru_head` and `num_lru_pages`. */
  class Lru {
    const pages: array<Page>
    /** `page_lru_head` as a frame number; NULL when the ring is empty. */
    var head: int
    var numLruPages: int
    /** The frames of the ring, in order from the head. */
    ghost var order: seq<nat>

    ghost predicate Valid()
      reads this, pages
    {
      && pages.Length == NPAGES
      && IsRing(pages[..], order)
      && numLruPages == |order|
      && head == (if order == [] then NULL else order[0])
    }

    /** The zero-initialised statics: no page on the ring. */
    constructor ()
      ensures Valid() && fresh(pages) && order == []
      ensures forall f :: 0 <= f < NPAGES ==> pages[f] == EMPTY_PAGE
    {
      pages := new Page[NPAGES](_ => EMPTY_PAGE);
      head := NULL;
      numLruPages := 0;
      order := [];
    }

    /**
     * `kalloc_to_lru_list`: record `pgdir` and `va` on the descriptor of the
     * frame at kernel address `pa`, link it after the old tail and before
     * the old head (to itself on an empty ring), and make it the head.
     */
    method KallocToLruList(pgdir: nat, pa: Uint, va: Uint)
      requires Valid()
      requires KERNBASE <= pa < KERNBASE + PHYSTOP && FrameOf(pa) !in order
      modifies this, pages
      ensures Valid()
      ensures order == [FrameOf(pa)] + old(order) && head == FrameOf(pa) && numLruPages == old(numLruPages) + 1
      ensures pages[..] == Spliced(Owned(old(pages[..]), FrameOf(pa), pgdir, va), old(order), FrameOf(pa))
    {
      var f := FrameOf(pa);
      pages[f] := pages[f].(pgdir := pgdir);
      pages[f] := pages[f].(vaddr := va);
      ghost var owned := pages[..];
      assert owned == Owned(old(pages[..]), f, pgdir, va);
      OwnedRing(old(pages[..]), order, f, pgdir, va);
      if numLruPages == 0 {
        pages[f] := pages[f].(prev := f);
        pages[f] := pages[f].(next := f);
        assert pages[..] == Spliced(owned, order, f);
      } else {
        assert head == order[0] != f;
        if numLruPages == 1 {
          pages[f] := pages[f].(prev := head);
          pages[head] := pages[head].(next := f);
        } else {
          assert LinkedAt(pages[..], order, 0);
          var tail := pages[head].prev;
          assert tail == order[|order| - 1] != f;
          pages[tail] := pages[tail].(next := f);
          pages[f] := pages[f].(prev := pages[head].prev);
        }
        pages[head] := pages[head].(prev := f);
        pages[f] := pages[f].(next := head);
        assert pages[..] == Spliced(owned, order, f);
      }
      head := f;
      SplicedRing(owned, order, f);
      numLruPages := numLruPages + 1;
      order := [f] + order;
    }

    /**
     * `kfree_from_lru_list`: clear the owner of the descriptor of the frame
     * at kernel address `v`, move the head on if it is the head, unlink it
     * when other pages remain (else empty the ring), and clear its links.
     */
    method KfreeFromLruList(v: Uint)
      requires Valid()
      requires KERNBASE <= v < KERNBASE + PHYSTOP && FrameOf(v) in order
      modifies this, pages
      ensures Valid()
      ensures order == RemoveAt(old(order), IndexOf(old(order), FrameOf(v)))
      ensures numLruPages == old(numLruPages) - 1
      ensures old(head) == FrameOf(v) ==> head == (if |old(order)| == 1 then NULL else old(pages[FrameOf(v)].next))
      ensures old(head) != FrameOf(v) ==> head == old(head)
      ensures pages[..] == Unlinked(Owned(old(pages[..]), FrameOf(v), 0, 0), old(order), IndexOf(old(order), FrameOf(v)))
    {
      var f := FrameOf(v);
      pages[f] := pages[f].(pgdir := 0);
      pages[f] := pages[f].(vaddr := 0);
      ghost var owned := pages[..];
      assert owned == Owned(old(pages[..]), f, 0, 0);
      OwnedRing(old(pages[..]), order, f, 0, 0);
      ghost var j := IndexOf(order, f);
      assert LinkedAt(pages[..], order, j);
      if f == head {
        head := pages[f].next;
      }
      if numLruPages > 1 {
        var pv, nx := pages[f].prev, pages[f].next;
        pages[pv] := pages[pv].(next := pages[f].next);
        pages[nx] := pages[nx].(prev := pages[f].prev);
        assert pages[..] == Bypassed(owned, order, j);
      } else {
        head := NULL;
      }
      pages[f] := pages[f].(next := NULL);
      pages[f] := pages[f].(prev := NULL);
      numLruPages := numLruPages - 1;
      assert pages[..] == Unlinked(owned, order, j);
      UnlinkedRing(owned, order, j);
      RemoveAtHead(order, j);
      order := RemoveAt(order, j);
    }

    /** The page-table entries of the ring's pages, in order from the head. */
    ghost function Keys(): seq<PteKey>
      reads this, pages
      requires Valid()
    {
      RingKeys(pages[..], order)
    }

    /** The page-directory entries of the ring's pages, in order from the head. */
    ghost function Pdes(): seq<PdeKey>
      reads this, pages
      requires Valid()
    {
      RingPdes(pages[..], order)
    }

    /**
     * `select_victim`: the clock scan of `kalloc.c`, except that it panics
     * at the first page it reaches whose directory entry lacks `PTE_P`,
     * leaving the bits it cleared and the head it advanced to as they are.
     */
    method SelectVictim(pt: PageTables) returns (res: Scan)
      requires Valid()
      modifies this, pt
      ensures Valid()
      ensures pages[..] == old(pages[..]) && numLruPages == old(numLruPages) && pt.present == old(pt.present)
      ensures old(order) == [] ==> res == NoVictim && order == [] && head == NULL && pt.accessed == old(pt.accessed)
      ensures old(order) != [] && ScanPanics(old(Pdes()), old(pt.present), old(Keys()), old(pt.accessed)) ==>
        var at := PanicIndex(old(Pdes()), old(pt.present), old(Keys()), old(pt.accessed));
        && res == Panic(old(order)[at])
        && order == Rotate(old(order), at) && head == old(order)[at]
        && pt.accessed == old(pt.accessed) - Elems(old(Keys())[..at])
      ensures old(order) != [] && !ScanPanics(old(Pdes()), old(pt.present), old(Keys()), old(pt.accessed)) ==>
        var at := VictimIndex(old(Keys()), old(pt.accessed));
        && res == Victim(old(order)[at])
        && order == Rotate(old(order), at) && head == old(order)[at]
        && pt.accessed == old(pt.accessed) - Elems(old(Keys())[..Passed(old(Keys()), old(pt.accessed), 0)])
    {
      var curr := head;
      if curr == NULL {
        return NoVictim;
      }
      ghost var o, ks, ds, acc := order, Keys(), Pdes(), pt.accessed;
      ghost var n, k := |o|, Passed(ks, acc, 0);
      ghost var pa := PanicIndex(ds, pt.present, ks, acc);
      ghost var i := 0;
      // the ghost `order` stays `o` during the scan and is rotated to the
      // new head when the scan ends
      while true
        invariant order == o && numLruPages == n && IsRing(pages[..], o)
        invariant pt.present == old(pt.present)
        invariant 0 <= i <= k && i <= pa
        invariant curr == head && curr == (if i < n then o[i] else o[0])
        invariant pt.accessed == acc - Elems(ks[..i])
        decreases n - i
      {
        var nxt := pages[curr].next;
        var pde := PdeOf(pages[curr].pgdir, pages[curr].vaddr);
        if pde !in pt.present {
          PanicHere(ds, pt.present, ks, acc, i);
          RotateRing(pages[..], o, i);
          order := Rotate(o, i);
          return Panic(curr); // panic("find_victim: ...")
        }
        PresentHere(ds, pt.present, ks, acc, i);
        var pte := PteOf(pages[curr].pgdir, pages[curr].vaddr);
        if pte in pt.accessed {
          pt.accessed := pt.accessed - {pte};
          if curr == head {
            head := pages[curr].next;
          } else {
            // unreachable: the scanned page is always the head, so the
            // "move to tail" relinking never runs
            assert false;
          }
          PassedStep(ks, acc, i);
          NextInRing(pages[..], o, i);
          i := i + 1;
        } else {
          ScanStops(ks, acc, i);
          if i == n {
            RotateFull(o);
          }
          RotateRing(pages[..], o, i);
          order := Rotate(o, i);
          return Victim(curr);
        }
        curr := nxt;
      }
    }
  }
}
