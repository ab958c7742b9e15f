/**
 * The LRU ring as values: the page descriptors of `pages[PHYSTOP/PGSIZE]`
 * with index links (`prev`/`next` are frame numbers, NULL is -1), the ring
 * shape they must have, and the specification of the clock (second-chance)
 * scan of `select_victim`.
 */
module Ring {
  import opened Seqs
  import opened Memlayout
  import opened Mmu

  /** The NULL descriptor link (frame 0 is a real descriptor). */
  const NULL: int := -1

  /** `struct page`: owning page directory (0 is NULL), mapped address, ring links. */
  datatype Page = Page(pgdir: nat, vaddr: Uint, prev: int, next: int)

  /** A zero-initialised static descriptor. */
  const EMPTY_PAGE: Page := Page(0, 0, NULL, NULL)

  function Succ(i: nat, n: nat): (j: nat)
    requires i < n
    ensures j < n
  {
    if i + 1 == n then 0 else i + 1
  }

  function Pred(i: nat, n: nat): (j: nat)
    requires i < n
    ensures j < n
  {
    if i == 0 then n - 1 else i - 1
  }

  /** Position `i` of `order` is linked to its cyclic neighbours. */
  ghost predicate LinkedAt(pages: seq<Page>, order: seq<nat>, i: nat) {
    && i < |order| && order[i] < |pages|
    && pages[order[i]].next == order[Succ(i, |order|)]
    && pages[order[i]].prev == order[Pred(i, |order|)]
  }

  /**
   * The descriptors in `order` form one cycle: each is linked by `next` to
   * the one after it and by `prev` to the one before it, cyclically, and no
   * frame occurs twice. `order` lists the ring from its head.
   */
  ghost predicate IsRing(pages: seq<Page>, order: seq<nat>) {
    && Distinct(order)
    && (forall i :: 0 <= i < |order| ==> order[i] < |pages|)
    && (forall i :: 0 <= i < |order| ==> LinkedAt(pages, order, i))
  }

  /** A ring holds each descriptor at most once, so `num_lru_pages` never exceeds their number. */
  lemma RingBound(pages: seq<Page>, order: seq<nat>)
    requires IsRing(pages, order)
    ensures |order| <= |pages|
  {
    DistinctBelow(order, |pages|);
  }

  /** The descriptor reached from `f` by following `next` `k` times. */
  function Follow(pages: seq<Page>, f: int, k: nat): (g: int) {
    if k == 0 then f
    else
      var g := Follow(pages, f, k - 1);
      if 0 <= g < |pages| then pages[g].next else NULL
  }

  /** The descriptor reached from `f` by following `prev` `k` times. */
  function FollowBack(pages: seq<Page>, f: int, k: nat): (g: int) {
    if k == 0 then f
    else
      var g := FollowBack(pages, f, k - 1);
      if 0 <= g < |pages| then pages[g].prev else NULL
  }

  /**
   * Following `next` from the head visits the ring in order and is back at
   * the head after exactly `|order|` steps.
   */
  lemma {:induction false} FollowRing(pages: seq<Page>, order: seq<nat>, k: nat)
    requires IsRing(pages, order) && order != [] && k <= |order|
    ensures Follow(pages, order[0], k) == if k < |order| then order[k] else order[0]
  {
    if k > 0 {
      FollowRing(pages, order, k - 1);
      assert LinkedAt(pages, order, k - 1);
    }
  }

  /** Following `prev` from the head retraces the ring backwards and is back after `|order|` steps. */
  lemma {:induction false} FollowBackRing(pages: seq<Page>, order: seq<nat>, k: nat)
    requires IsRing(pages, order) && order != [] && k <= |order|
    ensures FollowBack(pages, order[0], k) == if k == 0 then order[0] else order[|order| - k]
  {
    if k > 0 {
      FollowBackRing(pages, order, k - 1);
      assert LinkedAt(pages, order, if k == 1 then 0 else |order| - k + 1);
    }
  }

  /** The ring shape depends only on the links of the ring's own descriptors. */
  lemma RingFrame(pages: seq<Page>, order: seq<nat>, pages': seq<Page>)
    requires IsRing(pages, order) && |pages'| == |pages|
    requires forall i :: 0 <= i < |order| ==>
      pages'[order[i]].next == pages[order[i]].next && pages'[order[i]].prev == pages[order[i]].prev
    ensures IsRing(pages', order)
  {
    forall i | 0 <= i < |order| ensures LinkedAt(pages', order, i) {
      assert LinkedAt(pages, order, i);
    }
  }

  /** Advancing the head by one keeps the ring shape. */
  lemma RotateOneRing(pages: seq<Page>, order: seq<nat>)
    requires IsRing(pages, order) && order != []
    ensures IsRing(pages, order[1..] + [order[0]])
  {
    var n, r := |order|, order[1..] + [order[0]];
    forall i | 0 <= i < n ensures LinkedAt(pages, r, i) {
      var m := Succ(i, n);
      assert LinkedAt(pages, order, m);
      assert r[i] == order[m];
      assert r[Succ(i, n)] == order[Succ(m, n)];
      assert r[Pred(i, n)] == order[Pred(m, n)];
    }
    forall i, j | 0 <= i < j < n ensures r[i] != r[j] {
      assert r[i] == order[Succ(i, n)] && r[j] == order[Succ(j, n)];
    }
  }

  /** Any rotation of a ring is a ring with the same links. */
  lemma {:induction false} RotateRing(pages: seq<Page>, order: seq<nat>, k: nat)
    requires IsRing(pages, order) && k <= |order|
    ensures IsRing(pages, Rotate(order, k))
  {
    if k > 0 {
      RotateRing(pages, order, k - 1);
      RotateStep(order, k - 1);
      var r := Rotate(order, k - 1);
      RotateOneRing(pages, r);
      assert r[1..] + [r[0]] == Rotate(order, k);
    } else {
      assert Rotate(order, 0) == order;
    }
  }

  /**
   * Splicing `f` in as the new head, after the old tail and before the old
   * head (self-links into an empty ring), gives the ring `[f] + order`.
   */
  lemma InsertRing(pages: seq<Page>, order: seq<nat>, f: nat, pages': seq<Page>)
    requires IsRing(pages, order) && f < |pages| && f !in order && |pages'| == |pages|
    requires order == [] ==> pages'[f].next == f && pages'[f].prev == f
    requires order != [] ==>
      && pages'[f].next == order[0] && pages'[f].prev == order[|order| - 1]
      && pages'[order[0]].prev == f && pages'[order[|order| - 1]].next == f
    requires forall i :: 0 <= i < |order| && i != 0 ==> pages'[order[i]].prev == pages[order[i]].prev
    requires forall i :: 0 <= i < |order| && i != |order| - 1 ==> pages'[order[i]].next == pages[order[i]].next
    ensures IsRing(pages', [f] + order)
  {
    var n, r := |order| + 1, [f] + order;
    forall i | 0 <= i < n ensures LinkedAt(pages', r, i) {
      if i > 0 {
        assert LinkedAt(pages, order, i - 1);
        assert r[i] == order[i - 1];
      }
    }
  }

  /**
   * Linking the neighbours of `order[j]` to each other gives the ring with
   * `order[j]` taken out, the others in their cyclic order.
   */
  lemma UnlinkRing(pages: seq<Page>, order: seq<nat>, j: nat, pages': seq<Page>)
    requires IsRing(pages, order) && j < |order| && |pages'| == |pages|
    requires |order| > 1 ==>
      && pages'[order[Pred(j, |order|)]].next == order[Succ(j, |order|)]
      && pages'[order[Succ(j, |order|)]].prev == order[Pred(j, |order|)]
    requires forall i :: 0 <= i < |order| && i != j && i != Succ(j, |order|) ==> pages'[order[i]].prev == pages[order[i]].prev
    requires forall i :: 0 <= i < |order| && i != j && i != Pred(j, |order|) ==> pages'[order[i]].next == pages[order[i]].next
    ensures IsRing(pages', RemoveAt(order, j))
  {
    var n, r := |order| - 1, RemoveAt(order, j);
    forall i | 0 <= i < n ensures LinkedAt(pages', r, i) {
      var oi := if i < j then i else i + 1;
      assert LinkedAt(pages, order, oi);
      assert r[i] == order[oi];
    }
    forall i, k | 0 <= i < k < n ensures r[i] != r[k] {
      assert r[i] == order[if i < j then i else i + 1];
      assert r[k] == order[if k < j then k else k + 1];
    }
  }

  /** On a ring, `next` of the page at position `i` is the page after it, cyclically. */
  lemma NextInRing(pages: seq<Page>, o: seq<nat>, i: nat)
    requires i < |o| && IsRing(pages, o)
    ensures o[i] < |pages| && pages[o[i]].next == if i + 1 < |o| then o[i + 1] else o[0]
  {
    assert LinkedAt(pages, o, i);
  }

  /**
   * The descriptors after frame `f` records its owner `pgdir` and address
   * `va`: no link changes, and no other descriptor.
   */
  function Owned(pages: seq<Page>, f: nat, pgdir: nat, va: Uint): (r: seq<Page>)
    requires f < |pages|
    ensures |r| == |pages| && r[f].pgdir == pgdir && r[f].vaddr == va
    ensures forall g :: 0 <= g < |r| ==> r[g].next == pages[g].next && r[g].prev == pages[g].prev
    ensures forall g :: 0 <= g < |r| && g != f ==> r[g] == pages[g]
  {
    pages[f := pages[f].(pgdir := pgdir, vaddr := va)]
  }

  /** Recording an owner changes no link, so the ring is untouched. */
  lemma OwnedRing(pages: seq<Page>, order: seq<nat>, f: nat, pgdir: nat, va: Uint)
    requires IsRing(pages, order) && f < |pages|
    ensures IsRing(Owned(pages, f, pgdir, va), order)
  {
    RingFrame(pages, order, Owned(pages, f, pgdir, va));
  }

  /**
   * The descriptors after `add_page_to_lru_list` makes `f` the head: the old
   * tail's `next` and the old head's `prev` point at `f`, and `f` points back
   * at them (at itself when the ring was empty).
   */
  function Spliced(pages: seq<Page>, order: seq<nat>, f: nat): (r: seq<Page>)
    requires f < |pages| && forall i :: 0 <= i < |order| ==> order[i] < |pages|
    ensures |r| == |pages|
    ensures r[f].next == (if order == [] then f else order[0])
    ensures r[f].prev == (if order == [] then f else order[|order| - 1])
    ensures order != [] && f !in order ==> r[order[0]].prev == f && r[order[|order| - 1]].next == f
  {
    if order == [] then pages[f := pages[f].(prev := f, next := f)]
    else
      var h, t := order[0], order[|order| - 1];
      var p1 := pages[t := pages[t].(next := f)];
      var p2 := p1[h := p1[h].(prev := f)];
      p2[f := p2[f].(prev := t, next := h)]
  }

  /**
   * Splicing a frame that is not on the ring in front of the head gives a
   * ring with that frame as its head.
   */
  lemma SplicedRing(pages: seq<Page>, order: seq<nat>, f: nat)
    requires IsRing(pages, order) && f < |pages| && f !in order
    ensures IsRing(Spliced(pages, order, f), [f] + order)
  {
    var r := Spliced(pages, order, f);
    if order != [] {
      assert r[order[0]].prev == f && r[order[|order| - 1]].next == f;
    }
    forall i | 0 <= i < |order| && i != 0 ensures r[order[i]].prev == pages[order[i]].prev {
      assert order[i] != order[0];
    }
    forall i | 0 <= i < |order| && i != |order| - 1 ensures r[order[i]].next == pages[order[i]].next {
      assert order[i] != order[|order| - 1];
    }
    InsertRing(pages, order, f, r);
  }

  /**
   * Splicing changes only links, and only those of `f`, the old head and
   * the old tail.
   */
  lemma SplicedFrame(pages: seq<Page>, order: seq<nat>, f: nat)
    requires f < |pages| && forall i :: 0 <= i < |order| ==> order[i] < |pages|
    ensures forall g :: 0 <= g < |pages| ==>
      Spliced(pages, order, f)[g].pgdir == pages[g].pgdir && Spliced(pages, order, f)[g].vaddr == pages[g].vaddr
    ensures forall g :: 0 <= g < |pages| && g != f && (order == [] || (g != order[0] && g != order[|order| - 1])) ==>
      Spliced(pages, order, f)[g] == pages[g]
  {
  }

  /**
   * The descriptors after `del_page_from_lru` takes out ring position `j`:
   * its successor's `prev` and its predecessor's `next` skip it (unless it
   * was alone on the ring), and its own links become NULL.
   */
  function Unlinked(pages: seq<Page>, order: seq<nat>, j: nat): (r: seq<Page>)
    requires j < |order| && forall i :: 0 <= i < |order| ==> order[i] < |pages|
    ensures |r| == |pages| && r[order[j]].next == NULL && r[order[j]].prev == NULL
    ensures Distinct(order) && |order| > 1 ==>
      && r[order[Pred(j, |order|)]].next == order[Succ(j, |order|)]
      && r[order[Succ(j, |order|)]].prev == order[Pred(j, |order|)]
  {
    var p := Bypassed(pages, order, j);
    p[order[j] := p[order[j]].(next := NULL, prev := NULL)]
  }

  /** The neighbours of ring position `j` linked to each other (nothing when it is alone). */
  function Bypassed(pages: seq<Page>, order: seq<nat>, j: nat): (r: seq<Page>)
    requires j < |order| && forall i :: 0 <= i < |order| ==> order[i] < |pages|
    ensures |r| == |pages|
    ensures |order| == 1 ==> r == pages
    ensures |order| > 1 ==>
      && r[order[Pred(j, |order|)]].next == order[Succ(j, |order|)]
      && r[order[Succ(j, |order|)]].prev == order[Pred(j, |order|)]
  {
    var n := |order|;
    var nx, pv := order[Succ(j, n)], order[Pred(j, n)];
    if n == 1 then pages
    else
      var p1 := pages[nx := pages[nx].(prev := pv)];
      p1[pv := p1[pv].(next := nx)]
  }

  /**
   * Unlinking a ring position gives the ring without it, the others in their
   * cyclic order.
   */
  lemma UnlinkedRing(pages: seq<Page>, order: seq<nat>, j: nat)
    requires IsRing(pages, order) && j < |order|
    ensures IsRing(Unlinked(pages, order, j), RemoveAt(order, j))
  {
    var n, r := |order|, Unlinked(pages, order, j);
    forall i | 0 <= i < n && i != j && i != Succ(j, n) ensures r[order[i]].prev == pages[order[i]].prev {
      assert order[i] != order[j] && order[i] != order[Succ(j, n)];
    }
    forall i | 0 <= i < n && i != j && i != Pred(j, n) ensures r[order[i]].next == pages[order[i]].next {
      assert order[i] != order[j] && order[i] != order[Pred(j, n)];
    }
    if n > 1 {
      assert order[Succ(j, n)] != order[j] && order[Pred(j, n)] != order[j];
    }
    UnlinkRing(pages, order, j, r);
  }

  /**
   * Unlinking changes only links, and only those of the frame and its two
   * neighbours.
   */
  lemma UnlinkedFrame(pages: seq<Page>, order: seq<nat>, j: nat)
    requires j < |order| && forall i :: 0 <= i < |order| ==> order[i] < |pages|
    ensures forall g :: 0 <= g < |pages| ==>
      Unlinked(pages, order, j)[g].pgdir == pages[g].pgdir && Unlinked(pages, order, j)[g].vaddr == pages[g].vaddr
    ensures forall g :: 0 <= g < |pages| && g != order[j] && g != order[Succ(j, |order|)] && g != order[Pred(j, |order|)] ==>
      Unlinked(pages, order, j)[g] == pages[g]
  {
  }

  // ---------------------------------------------------------------------
  // The clock scan

  /** The page-table entry a descriptor's `(pgdir, vaddr)` names. */
  function KeyOf(p: Page): (k: PteKey) {
    PteOf(p.pgdir, p.vaddr)
  }

  /** The page-table entries of the ring's pages, in ring order. */
  function RingKeys(pages: seq<Page>, order: seq<nat>): (ks: seq<PteKey>)
    requires forall i :: 0 <= i < |order| ==> order[i] < |pages|
    ensures |ks| == |order|
    ensures forall i :: 0 <= i < |order| ==> ks[i] == KeyOf(pages[order[i]])
  {
    seq(|order|, i requires 0 <= i < |order| => KeyOf(pages[order[i]]))
  }

  /** The page-directory entries of the ring's pages, in ring order. */
  function RingPdes(pages: seq<Page>, order: seq<nat>): (ds: seq<PdeKey>)
    requires forall i :: 0 <= i < |order| ==> order[i] < |pages|
    ensures |ds| == |order|
    ensures forall i :: 0 <= i < |order| ==> ds[i] == PdeOf(pages[order[i]].pgdir, pages[order[i]].vaddr)
  {
    seq(|order|, i requires 0 <= i < |order| => PdeOf(pages[order[i]].pgdir, pages[order[i]].vaddr))
  }

  /**
   * When the hand reaches position `i`, `PTE_A` reads clear: it was clear to
   * begin with, or the hand cleared it at an earlier page naming the same entry.
   */
  predicate FoundClear(ks: seq<PteKey>, acc: set<PteKey>, i: nat)
    requires i < |ks|
  {
    ks[i] !in acc || ks[i] in ks[..i]
  }

  /**
   * How many pages the hand passes, starting at position `i`, before it
   * finds one whose bit reads clear; `|ks|` when every one of them reads set.
   */
  function Passed(ks: seq<PteKey>, acc: set<PteKey>, i: nat): (k: nat)
    requires i <= |ks|
    ensures i <= k <= |ks|
    ensures forall j :: i <= j < k ==> !FoundClear(ks, acc, j)
    ensures k < |ks| ==> FoundClear(ks, acc, k)
    decreases |ks| - i
  {
    if i == |ks| then i
    else if FoundClear(ks, acc, i) then i
    else Passed(ks, acc, i + 1)
  }

  /**
   * The ring position of the victim: the first page whose bit reads clear,
   * or, when the hand passed them all, the old head, whose bit the first
   * step cleared.
   */
  function VictimIndex(ks: seq<PteKey>, acc: set<PteKey>): (v: nat)
    requires ks != []
    ensures v < |ks|
    ensures v == Passed(ks, acc, 0) || (v == 0 && Passed(ks, acc, 0) == |ks|)
  {
    var k := Passed(ks, acc, 0);
    if k < |ks| then k else 0
  }

  /**
   * One step of the scan: when the bit of the page at the hand reads set,
   * the hand has not yet reached the victim, and clearing that bit leaves
   * exactly the bits of the pages passed so far cleared.
   */
  lemma PassedStep(ks: seq<PteKey>, acc: set<PteKey>, i: nat)
    requires ks != [] && i <= Passed(ks, acc, 0)
    requires ks[if i < |ks| then i else 0] in acc - Elems(ks[..i])
    ensures i < Passed(ks, acc, 0)
    ensures acc - Elems(ks[..i]) - {ks[i]} == acc - Elems(ks[..i + 1])
  {
    assert ks[..|ks|] == ks;
    assert ks[..i + 1] == ks[..i] + [ks[i]];
  }

  /**
   * With distinct entries the victim is the first page, in order from the
   * head, whose `PTE_A` is clear, and the pages before it had theirs set.
   */
  lemma VictimFirstClear(ks: seq<PteKey>, acc: set<PteKey>, j: nat)
    requires Distinct(ks) && j < |ks|
    ensures Passed(ks, acc, 0) == j <==> (ks[j] !in acc && forall i :: 0 <= i < j ==> ks[i] in acc)
  {
    var k := Passed(ks, acc, 0);
    assert ks[j] !in ks[..j];
    forall i | 0 <= i < j ensures FoundClear(ks, acc, i) <==> ks[i] !in acc {
      assert ks[i] !in ks[..i];
    }
    if k < j {
      assert FoundClear(ks, acc, k) && ks[k] !in acc;
    } else if k > j {
      assert !FoundClear(ks, acc, j);
    } else {
      assert FoundClear(ks, acc, j);
    }
  }

  /**
   * With every entry's `PTE_A` set and no two pages sharing an entry, the
   * hand passes every page, clearing every bit, and the victim is the old head.
   */
  lemma AllAccessedVictimIsHead(ks: seq<PteKey>, acc: set<PteKey>)
    requires ks != [] && Distinct(ks)
    requires forall i :: 0 <= i < |ks| ==> ks[i] in acc
    ensures Passed(ks, acc, 0) == |ks| && VictimIndex(ks, acc) == 0
    ensures acc - Elems(ks[..Passed(ks, acc, 0)]) == acc - Elems(ks)
  {
    assert ks[..|ks|] == ks;
  }

  /** A head whose `PTE_A` is already clear is the victim and nothing is cleared. */
  lemma ClearHeadIsVictim(ks: seq<PteKey>, acc: set<PteKey>)
    requires ks != [] && ks[0] !in acc
    ensures Passed(ks, acc, 0) == 0 && VictimIndex(ks, acc) == 0
    ensures acc - Elems(ks[..Passed(ks, acc, 0)]) == acc
  {
  }

  /**
   * The first position the hand reaches, among the first `limit`, whose page
   * directory entry lacks `PTE_P`; `limit` when there is none.
   */
  function FirstAbsent(ds: seq<PdeKey>, present: set<PdeKey>, i: nat, limit: nat): (j: nat)
    requires i <= limit <= |ds|
    ensures i <= j <= limit
    ensures forall m :: i <= m < j ==> ds[m] in present
    ensures j < limit ==> ds[j] !in present
    decreases limit - i
  {
    if i == limit then i
    else if ds[i] !in present then i
    else FirstAbsent(ds, present, i + 1, limit)
  }

  /**
   * How many positions the scan of `kalloc_ys.c` checks for `PTE_P`:
   * those it passes and the victim's, each page of the ring at most once
   * (when it passes them all, the victim is the head, already checked).
   */
  function ScanLimit(ks: seq<PteKey>, acc: set<PteKey>): (l: nat)
    requires ks != []
    ensures 0 < l <= |ks|
    ensures Passed(ks, acc, 0) < |ks| ==> l == Passed(ks, acc, 0) + 1
    ensures Passed(ks, acc, 0) == |ks| ==> l == |ks|
  {
    var k := Passed(ks, acc, 0);
    if k < |ks| then k + 1 else |ks|
  }

  /**
   * The position of the panic "pde must have PTE_P bits": the first page
   * the scan reaches whose directory entry is not present, or
   * `ScanLimit` when there is none and the scan ends normally.
   */
  function PanicIndex(ds: seq<PdeKey>, present: set<PdeKey>, ks: seq<PteKey>, acc: set<PteKey>): (p: nat)
    requires ks != [] && |ds| == |ks|
    ensures p <= ScanLimit(ks, acc)
    ensures forall m :: 0 <= m < p ==> ds[m] in present
    ensures p < ScanLimit(ks, acc) ==> ds[p] !in present
  {
    FirstAbsent(ds, present, 0, ScanLimit(ks, acc))
  }

  /**
   * The scan of `kalloc_ys.c` panics: exactly when one of the pages it
   * reaches has a directory entry without `PTE_P`.
   */
  predicate ScanPanics(ds: seq<PdeKey>, present: set<PdeKey>, ks: seq<PteKey>, acc: set<PteKey>): (b: bool)
    requires ks != [] && |ds| == |ks|
    ensures b <==> exists m :: 0 <= m < ScanLimit(ks, acc) && ds[m] !in present
  {
    PanicIndex(ds, present, ks, acc) < ScanLimit(ks, acc)
  }

  /**
   * With every directory entry of the ring present the scan of
   * `kalloc_ys.c` never panics, and so ends where the scan of `kalloc.c` does.
   */
  lemma PresentNoPanic(ds: seq<PdeKey>, present: set<PdeKey>, ks: seq<PteKey>, acc: set<PteKey>)
    requires ks != [] && |ds| == |ks|
    requires forall m :: 0 <= m < |ds| ==> ds[m] in present
    ensures PanicIndex(ds, present, ks, acc) == ScanLimit(ks, acc) && !ScanPanics(ds, present, ks, acc)
  {
  }

  /**
   * The scan stops at the first position whose bit reads clear: that is
   * where the hand is, and the victim is the page there.
   */
  lemma ScanStops(ks: seq<PteKey>, acc: set<PteKey>, i: nat)
    requires ks != [] && i <= Passed(ks, acc, 0)
    requires ks[if i < |ks| then i else 0] !in acc - Elems(ks[..i])
    ensures i == Passed(ks, acc, 0)
    ensures VictimIndex(ks, acc) == if i < |ks| then i else 0
  {
    if i < |ks| {
      assert ks[i] in Elems(ks[..i]) <==> ks[i] in ks[..i];
      assert FoundClear(ks, acc, i);
    }
  }

  /** A page the scan reaches without `PTE_P` is where it panics. */
  lemma PanicHere(ds: seq<PdeKey>, present: set<PdeKey>, ks: seq<PteKey>, acc: set<PteKey>, i: nat)
    requires ks != [] && |ds| == |ks|
    requires i <= Passed(ks, acc, 0) && i <= PanicIndex(ds, present, ks, acc)
    requires ds[if i < |ds| then i else 0] !in present
    ensures ScanPanics(ds, present, ks, acc) && PanicIndex(ds, present, ks, acc) == i
  {
  }

  /**
   * A page the scan reaches with `PTE_P` is not where it panics; at the
   * victim this means the scan does not panic at all.
   */
  lemma PresentHere(ds: seq<PdeKey>, present: set<PdeKey>, ks: seq<PteKey>, acc: set<PteKey>, i: nat)
    requires ks != [] && |ds| == |ks|
    requires i <= Passed(ks, acc, 0) && i <= PanicIndex(ds, present, ks, acc)
    requires ds[if i < |ds| then i else 0] in present
    ensures i < ScanLimit(ks, acc) ==> i < PanicIndex(ds, present, ks, acc)
    ensures i == Passed(ks, acc, 0) ==> !ScanPanics(ds, present, ks, acc)
  {
  }
}
