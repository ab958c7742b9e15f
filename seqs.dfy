/** Generic facts about sequences used by the free list and the LRU ring. */
module Seqs {

  /** No element occurs twice. */
  ghost predicate Distinct<T>(s: seq<T>) {
    forall i, j :: 0 <= i < j < |s| ==> s[i] != s[j]
  }

  /** The set of elements of a sequence. */
  ghost function Elems<T>(s: seq<T>): set<T> {
    set x | x in s
  }

  /** The sequence read backwards. */
  function Reverse<T>(s: seq<T>): (r: seq<T>)
    ensures |r| == |s|
  {
    if s == [] then [] else Reverse(s[1..]) + [s[0]]
  }

  lemma {:induction false} ReverseAt<T>(s: seq<T>, k: nat)
    requires k < |s|
    ensures Reverse(s)[k] == s[|s| - 1 - k]
  {
    if k < |s| - 1 {
      ReverseAt(s[1..], k);
    }
  }

  lemma ReverseElems<T>(s: seq<T>, x: T)
    ensures x in Reverse(s) <==> x in s
  {
    if x in s {
      var k :| 0 <= k < |s| && s[k] == x;
      ReverseAt(s, |s| - 1 - k);
    }
    if x in Reverse(s) {
      var k :| 0 <= k < |s| && Reverse(s)[k] == x;
      ReverseAt(s, k);
    }
  }

  /** Reading one more element pushes it onto the front of the reversal. */
  lemma ReverseSnoc<T>(s: seq<T>, x: T)
    ensures Reverse(s + [x]) == [x] + Reverse(s)
  {
    var r, t := Reverse(s + [x]), [x] + Reverse(s);
    forall k | 0 <= k < |r| ensures r[k] == t[k] {
      ReverseAt(s + [x], k);
      if k > 0 { ReverseAt(s, k - 1); }
    }
  }

  /** `fs` with the elements of `s` pushed onto its front one at a time, first to last. */
  function PushAll<T>(fs: seq<T>, s: seq<T>): (r: seq<T>)
    ensures |r| == |fs| + |s|
  {
    if s == [] then fs else [s[|s| - 1]] + PushAll(fs, s[..|s| - 1])
  }

  /** Pushing one more element of `s` puts it in front. */
  lemma PushAllStep<T>(fs: seq<T>, s: seq<T>, i: nat)
    requires i < |s|
    ensures PushAll(fs, s[..i + 1]) == [s[i]] + PushAll(fs, s[..i])
  {
    assert s[..i + 1][..i] == s[..i];
  }

  /** Pushing the elements one at a time leaves them in reverse order in front. */
  lemma {:induction false} PushAllReverse<T>(fs: seq<T>, s: seq<T>)
    ensures PushAll(fs, s) == Reverse(s) + fs
  {
    if s != [] {
      var t, x := s[..|s| - 1], s[|s| - 1];
      PushAllReverse(fs, t);
      assert s == t + [x];
      ReverseSnoc(t, x);
    }
  }

  /** The first index at which `x` occurs in `s`. */
  function IndexOf<T(==)>(s: seq<T>, x: T): (i: nat)
    requires x in s
    ensures i < |s| && s[i] == x && x !in s[..i]
  {
    if s[0] == x then 0 else 1 + IndexOf(s[1..], x)
  }

  /** `s` with the element at index `j` taken out. */
  function RemoveAt<T>(s: seq<T>, j: nat): (r: seq<T>)
    requires j < |s|
    ensures |r| == |s| - 1
    ensures forall i :: 0 <= i < j ==> r[i] == s[i]
    ensures forall i :: j <= i < |r| ==> r[i] == s[i + 1]
  {
    s[..j] + s[j + 1..]
  }

  /** Taking out index `j` leaves the first element first, or the second when `j` is 0. */
  lemma RemoveAtHead<T>(s: seq<T>, j: nat)
    requires j < |s|
    ensures RemoveAt(s, j) == [] <==> |s| == 1
    ensures 1 < |s| ==> RemoveAt(s, j)[0] == if j == 0 then s[1] else s[0]
  {
  }

  /** A sequence of distinct numbers below `n` has at most `n` elements. */
  lemma {:induction false} DistinctBelow(s: seq<nat>, n: nat)
    requires Distinct(s) && forall i :: 0 <= i < |s| ==> s[i] < n
    ensures |s| <= n
    decreases n
  {
    if s != [] {
      assert s[0] < n;
      var t := s;
      if n - 1 in s {
        var j := IndexOf(s, n - 1);
        t := RemoveAt(s, j);
        forall i, k | 0 <= i < k < |t| ensures t[i] != t[k] {
          assert t[i] == s[if i < j then i else i + 1];
          assert t[k] == s[if k < j then k else k + 1];
        }
        forall i | 0 <= i < |t| ensures t[i] < n - 1 {
          assert t[i] == s[if i < j then i else i + 1];
        }
      }
      DistinctBelow(t, n - 1);
    }
  }

  /** `s` rotated left by `k`: the element at index `k` comes first. */
  function Rotate<T>(s: seq<T>, k: nat): (r: seq<T>)
    requires k <= |s|
    ensures |r| == |s|
    ensures forall i :: 0 <= i < |s| - k ==> r[i] == s[i + k]
    ensures forall i :: |s| - k <= i < |s| ==> r[i] == s[i + k - |s|]
  {
    s[k..] + s[..k]
  }

  /** Moving the first element of a rotation to the back rotates one step further. */
  lemma RotateStep<T>(s: seq<T>, k: nat)
    requires k < |s|
    ensures Rotate(s, k)[1..] + [Rotate(s, k)[0]] == Rotate(s, k + 1)
  {
  }

  lemma RotateFull<T>(s: seq<T>)
    ensures Rotate(s, |s|) == s
  {
  }
}
