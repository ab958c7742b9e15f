/**
 * The intrusive free list of xv6's allocator, as values. A free frame holds
 * `struct run { struct run *next; }` in its first machine word: four
 * little-endian bytes holding the address of the next free page (0 for
 * NULL). The remaining bytes hold the junk byte 1 that `kfree` writes.
 */
module FreeList {
  import opened Seqs
  import opened Memlayout

  newtype byte = x: int | 0 <= x < 256

  datatype Option<T> = None | Some(value: T)

  /** Size in bytes of the link word `run.next` (a 32-bit pointer). */
  const WORD: int := 4

  /** The byte `memset` writes over a freed page. */
  const JUNK: byte := 1

  /**
   * The little-endian bytes of the pointer `a`, as x86 stores `run.next`;
   * a load of `run.next` reads `a` back from them.
   */
  function LinkBytes(a: Uint): (b: seq<byte>)
    ensures |b| == WORD && DecodeLink(b) == a
  {
    var q1, q2, q3 := a / 0x100, a / 0x1_0000, a / 0x100_0000;
    assert a == a % 256 + 0x100 * q1;
    assert q1 == q1 % 256 + 0x100 * q2;
    assert q2 == q2 % 256 + 0x100 * q3;
    [(a % 256) as byte, (q1 % 256) as byte, (q2 % 256) as byte, q3 as byte]
  }

  /** The pointer a load of `run.next` reads from four bytes. */
  function DecodeLink(b: seq<byte>): (a: Uint)
    requires |b| == WORD
  {
    b[0] as int + 0x100 * (b[1] as int) + 0x1_0000 * (b[2] as int) + 0x100_0000 * (b[3] as int)
  }

  /** Every four bytes are the link word of exactly one pointer. */
  lemma LinkBytesDecode(b: seq<byte>)
    requires |b| == WORD
    ensures LinkBytes(DecodeLink(b)) == b
  {
    var a := DecodeLink(b);
    var b0, b1, b2, b3 := b[0] as int, b[1] as int, b[2] as int, b[3] as int;
    assert a == b0 + 0x100 * (b1 + 0x100 * (b2 + 0x100 * b3));
    assert a % 256 == b0 && a / 0x100 == b1 + 0x100 * (b2 + 0x100 * b3);
    assert a / 0x1_0000 == (a / 0x100) / 0x100 == b2 + 0x100 * b3;
    assert a / 0x100_0000 == (a / 0x1_0000) / 0x100 == b3;
  }

  /** A page after `memset(v, b, PGSIZE)`. */
  function Memset(b: byte): (page: seq<byte>)
    ensures |page| == PGSIZE
    ensures forall k :: 0 <= k < PGSIZE ==> page[k] == b
    ensures b == JUNK ==> page[WORD..] == Junk()
  {
    seq(PGSIZE, _ => b)
  }

  /** What `memset(v, 1, PGSIZE)` leaves beyond the link word. */
  function Junk(): (j: seq<byte>)
    ensures |j| == PGSIZE - WORD
    ensures forall k :: 0 <= k < |j| ==> j[k] == JUNK
  {
    seq(PGSIZE - WORD, _ => JUNK)
  }

  /** The contents of a free page whose `run.next` is `next`. */
  ghost predicate IsRun(page: seq<byte>, next: Uint) {
    |page| == PGSIZE && page[..WORD] == LinkBytes(next) && page[WORD..] == Junk()
  }

  /** The successor of `fs[i]` on the list, 0 (NULL) after the last. */
  function NextFree(fs: seq<Uint>, i: nat): (next: Uint)
    requires i < |fs|
  {
    if i + 1 < |fs| then fs[i + 1] else 0
  }

  /** Entry `i` of `fs` is a freeable page holding the link to its successor. */
  ghost predicate FreeAt(mem: seq<seq<byte>>, fs: seq<Uint>, i: nat, kernEnd: Uint) {
    && i < |fs| && Freeable(fs[i], kernEnd)
    && FrameOf(fs[i]) < |mem| && IsRun(mem[FrameOf(fs[i])], NextFree(fs, i))
  }

  /**
   * `fs` is the free list read from `head` through physical memory `mem`:
   * each page is freeable, none twice, each holds the link to the next one.
   */
  ghost predicate IsFreeList(mem: seq<seq<byte>>, fs: seq<Uint>, head: Uint, kernEnd: Uint) {
    && |mem| == NPAGES
    && head == (if fs == [] then 0 else fs[0])
    && Distinct(fs)
    && (forall i :: 0 <= i < |fs| ==> FreeAt(mem, fs, i, kernEnd))
  }

  /** Every page on a free list is freeable. */
  lemma FreeListFreeable(mem: seq<seq<byte>>, fs: seq<Uint>, head: Uint, kernEnd: Uint, q: Uint)
    requires IsFreeList(mem, fs, head, kernEnd) && q in fs
    ensures Freeable(q, kernEnd)
  {
    var i :| 0 <= i < |fs| && fs[i] == q;
    assert FreeAt(mem, fs, i, kernEnd);
  }

  /**
   * A free list holds at most one page per frame, so `num_free_pages` never
   * exceeds `PHYSTOP / PGSIZE`.
   */
  lemma FreeListBound(mem: seq<seq<byte>>, fs: seq<Uint>, head: Uint, kernEnd: Uint)
    requires IsFreeList(mem, fs, head, kernEnd)
    ensures |fs| <= NPAGES
  {
    var frames := seq(|fs|, i requires 0 <= i < |fs| => FrameOf(fs[i]));
    forall i | 0 <= i < |fs| ensures frames[i] < NPAGES {
      assert FreeAt(mem, fs, i, kernEnd);
    }
    forall i, j | 0 <= i < j < |fs| ensures frames[i] != frames[j] {
      assert FreeAt(mem, fs, i, kernEnd) && FreeAt(mem, fs, j, kernEnd);
      FrameOfInjective(fs[i], fs[j], kernEnd);
    }
    DistinctBelow(frames, NPAGES);
  }

  /** A freeable page is never NULL, so the head pointer tells whether the list is empty. */
  lemma HeadIsNull(mem: seq<seq<byte>>, fs: seq<Uint>, head: Uint, kernEnd: Uint)
    requires IsFreeList(mem, fs, head, kernEnd)
    ensures (head == 0) == (fs == [])
  {
    if fs != [] {
      assert FreeAt(mem, fs, 0, kernEnd);
      FreeableFrame(fs[0], kernEnd);
    }
  }

  /** Pushing a freeable page that holds the link to the old head gives a free list again. */
  lemma PushFree(mem: seq<seq<byte>>, fs: seq<Uint>, head: Uint, kernEnd: Uint, v: Uint)
    requires IsFreeList(mem, fs, head, kernEnd)
    requires Freeable(v, kernEnd) && v !in fs
    ensures IsFreeList(mem[FrameOf(v) := LinkBytes(head) + Junk()], [v] + fs, v, kernEnd)
  {
    FreeableFrame(v, kernEnd);
    var mem', fs' := mem[FrameOf(v) := LinkBytes(head) + Junk()], [v] + fs;
    forall i | 0 <= i < |fs'| ensures FreeAt(mem', fs', i, kernEnd) {
      if i == 0 {
        var page := LinkBytes(head) + Junk();
        assert page[..WORD] == LinkBytes(head) && page[WORD..] == Junk();
        assert NextFree(fs', 0) == head;
      } else {
        assert FreeAt(mem, fs, i - 1, kernEnd);
        FrameOfInjective(fs'[i], v, kernEnd);
        assert NextFree(fs', i) == NextFree(fs, i - 1);
      }
    }
  }

  /** Popping the head, whose link word names the next page, gives a free list again. */
  lemma PopFree(mem: seq<seq<byte>>, fs: seq<Uint>, head: Uint, kernEnd: Uint)
    requires IsFreeList(mem, fs, head, kernEnd) && fs != []
    ensures Freeable(head, kernEnd) && FrameOf(head) < |mem| && |mem[FrameOf(head)]| == PGSIZE
    ensures mem[FrameOf(head)][WORD..] == Junk()
    ensures DecodeLink(mem[FrameOf(head)][..WORD]) == NextFree(fs, 0)
    ensures IsFreeList(mem, fs[1..], NextFree(fs, 0), kernEnd)
  {
    assert FreeAt(mem, fs, 0, kernEnd);
    forall i | 0 <= i < |fs| - 1 ensures FreeAt(mem, fs[1..], i, kernEnd) {
      assert FreeAt(mem, fs, i + 1, kernEnd);
      assert NextFree(fs[1..], i) == NextFree(fs, i + 1);
    }
  }

  /** Memory `m` holds the bytes of `m0` in every frame no page of `ps` occupies. */
  ghost predicate SameOutside(m: seq<seq<byte>>, m0: seq<seq<byte>>, ps: seq<Uint>) {
    |m| == |m0| && forall g :: 0 <= g < |m| && (forall q :: q in ps ==> FrameOf(q) != g) ==> m[g] == m0[g]
  }

  /** Writing the frame of `v` keeps memory the same outside the frames of `ps + [v]`. */
  lemma SameOutsideStep(m: seq<seq<byte>>, m0: seq<seq<byte>>, ps: seq<Uint>, v: Uint, page: seq<byte>)
    requires SameOutside(m, m0, ps) && FrameOf(v) < |m|
    ensures SameOutside(m[FrameOf(v) := page], m0, ps + [v])
  {
    forall g | 0 <= g < |m| && (forall q :: q in ps + [v] ==> FrameOf(q) != g)
      ensures m[FrameOf(v) := page][g] == m0[g]
    {
      assert v in ps + [v];
      forall q | q in ps ensures FrameOf(q) != g {
        assert q in ps + [v];
      }
    }
  }

  /**
   * The pages `freerange` hands to `kfree` once its cursor is at `p`:
   * `p`, `p + PGSIZE`, ... while a whole page still fits below `vend`.
   */
  function RangeFrom(p: nat, vend: Uint): (ps: seq<Uint>)
    ensures |ps| == if p <= vend then (vend - p) / PGSIZE else 0
    decreases vend - p
  {
    if p + PGSIZE <= vend then [p as Uint] + RangeFrom(p + PGSIZE, vend) else []
  }

  /**
   * The pages `freerange(vstart, vend)` frees, in the order it frees them:
   * as many as whole pages fit between `PGROUNDUP(vstart)` and `vend`.
   */
  function RangePages(vstart: Uint, vend: Uint): (ps: seq<Uint>)
    ensures |ps| == if PgRoundUp(vstart) <= vend then (vend - PgRoundUp(vstart)) / PGSIZE else 0
  {
    RangeFrom(PgRoundUp(vstart), vend)
  }

  /**
   * The cursor of `freerange` after `i` pages: the loop test passes exactly
   * while pages remain, and the page at the cursor is the next one.
   */
  lemma {:induction false} RangeFromAt(p: nat, vend: Uint, i: nat)
    ensures i < |RangeFrom(p, vend)| <==> p + i * PGSIZE + PGSIZE <= vend
    ensures i < |RangeFrom(p, vend)| ==> RangeFrom(p, vend)[i] == p + i * PGSIZE
    decreases i
  {
    if i > 0 && p + PGSIZE <= vend {
      RangeFromAt(p + PGSIZE, vend, i - 1);
    }
  }

  /**
   * How many of the pages `ps`, from index `i` on, `kfree` accepts before
   * the first one it panics on; all of them when it accepts every one.
   */
  function Accepted(ps: seq<Uint>, kernEnd: Uint, i: nat): (c: nat)
    requires i <= |ps|
    ensures i <= c <= |ps|
    ensures forall j :: i <= j < c ==> Freeable(ps[j], kernEnd)
    ensures c < |ps| ==> !Freeable(ps[c], kernEnd)
    decreases |ps| - i
  {
    if i == |ps| || !Freeable(ps[i], kernEnd) then i else Accepted(ps, kernEnd, i + 1)
  }

  /** The pages `freerange(vstart, vend)` frees, up to the first one `kfree` panics on. */
  function FreedPages(vstart: Uint, vend: Uint, kernEnd: Uint): (fs: seq<Uint>)
    ensures fs <= RangePages(vstart, vend)
  {
    var ps := RangePages(vstart, vend);
    ps[..Accepted(ps, kernEnd, 0)]
  }

  /** Every page of the range lies in [p, vend). */
  lemma {:induction false} RangeFromBounds(p: nat, vend: Uint)
    ensures forall q :: q in RangeFrom(p, vend) ==> p <= q && q + PGSIZE <= vend
    decreases vend - p
  {
    if p + PGSIZE <= vend {
      RangeFromBounds(p + PGSIZE, vend);
    }
  }

  /** The range is strictly ascending. */
  lemma {:induction false} RangeFromAscending(p: nat, vend: Uint)
    ensures forall i, j :: 0 <= i < j < |RangeFrom(p, vend)| ==> RangeFrom(p, vend)[i] < RangeFrom(p, vend)[j]
    decreases vend - p
  {
    if p + PGSIZE <= vend {
      RangeFromAscending(p + PGSIZE, vend);
      RangeFromBounds(p + PGSIZE, vend);
      var ps, rest := RangeFrom(p, vend), RangeFrom(p + PGSIZE, vend);
      assert ps == [p as Uint] + rest;
      forall j | 0 < j < |ps| ensures ps[0] < ps[j] {
        assert ps[j] == rest[j - 1] && rest[j - 1] in rest;
      }
    }
  }

  /** From an aligned cursor the range holds exactly the whole pages in [p, vend). */
  lemma {:induction false} RangeFromExact(p: nat, vend: Uint)
    requires p % PGSIZE == 0
    ensures forall q: Uint :: q in RangeFrom(p, vend) <==> (q % PGSIZE == 0 && p <= q && q + PGSIZE <= vend)
    decreases vend - p
  {
    if p + PGSIZE <= vend {
      RangeFromExact(p + PGSIZE, vend);
      var ps, rest := RangeFrom(p, vend), RangeFrom(p + PGSIZE, vend);
      assert ps == [p as Uint] + rest;
      forall q: Uint | q % PGSIZE == 0 && p <= q && q + PGSIZE <= vend
        ensures q in ps
      {
        if q != p {
          AlignedGap(p, q);
          assert q in rest;
        }
      }
    }
  }

  /**
   * While `freerange` walks an ascending range, the next page is neither
   * among the ones it already pushed nor (by the caller's promise) among
   * those that were free before.
   */
  lemma FreshPage(ps: seq<Uint>, i: nat, before: seq<Uint>)
    requires i < |ps|
    requires forall j, k :: 0 <= j < k < |ps| ==> ps[j] < ps[k]
    requires forall q :: q in ps ==> q !in before
    ensures ps[i] !in PushAll(before, ps[..i])
  {
    assert ps[i] in ps;
    PushAllReverse(before, ps[..i]);
    ReverseElems(ps[..i], ps[i]);
  }

  /** `FreshPage` for the pages `freerange(vstart, vend)` walks. */
  lemma FreshRangePage(vstart: Uint, vend: Uint, i: nat, before: seq<Uint>)
    requires i < |RangePages(vstart, vend)|
    requires forall q :: q in RangePages(vstart, vend) ==> q !in before
    ensures RangePages(vstart, vend)[i] !in PushAll(before, RangePages(vstart, vend)[..i])
  {
    RangeFromAscending(PgRoundUp(vstart), vend);
    FreshPage(RangePages(vstart, vend), i, before);
  }

  /**
   * `freerange` frees exactly the page-aligned `p` with
   * `PGROUNDUP(vstart) <= p` and `p + PGSIZE <= vend`, in ascending order.
   */
  lemma RangePagesExact(vstart: Uint, vend: Uint)
    ensures forall i, j :: 0 <= i < j < |RangePages(vstart, vend)| ==>
              RangePages(vstart, vend)[i] < RangePages(vstart, vend)[j]
    ensures forall q: Uint :: q in RangePages(vstart, vend) <==>
              (q % PGSIZE == 0 && PgRoundUp(vstart) <= q && q + PGSIZE <= vend)
  {
    RangeFromAscending(PgRoundUp(vstart), vend);
    RangeFromExact(PgRoundUp(vstart), vend);
  }
}
