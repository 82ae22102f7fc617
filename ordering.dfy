/** Order and permutation facts shared by every sorting round. */
module Ordering {

  /** `s` is in non-decreasing order. */
  predicate Sorted(s: seq<int>)
  {
    forall i, j :: 0 <= i < j < |s| ==> s[i] <= s[j]
  }

  /** The slice `s[lo..hi]` is in non-decreasing order (stated on `s` itself). */
  predicate SortedBetween(s: seq<int>, lo: int, hi: int)
    requires 0 <= lo <= hi <= |s|
  {
    forall i, j :: lo <= i < j < hi ==> s[i] <= s[j]
  }

  /** Exchange positions `i` and `j`: the source's `a[i], a[j] = a[j], a[i]`. */
  function Swap(s: seq<int>, i: nat, j: nat): (r: seq<int>)
    requires i < |s| && j < |s|
    ensures |r| == |s|
  {
    s[i := s[j]][j := s[i]]
  }

  /** A swap permutes the list. */
  lemma SwapPermutes(s: seq<int>, i: nat, j: nat)
    requires i < |s| && j < |s|
    ensures multiset(Swap(s, i, j)) == multiset(s)
  {
  }

  /** A sorted permutation of a list is unique: two sorted lists with the
      same elements are equal. */
  lemma {:induction false} SortedUnique(a: seq<int>, b: seq<int>)
    requires Sorted(a) && Sorted(b) && multiset(a) == multiset(b)
    ensures a == b
  {
    if a == [] || b == [] {
      assert |multiset(a)| == 0 || |multiset(b)| == 0;
    } else {
      HeadIsLeast(a, b[0]);
      HeadIsLeast(b, a[0]);
      TailSorted(a);
      TailSorted(b);
      TailMultiset(a);
      TailMultiset(b);
      SortedUnique(a[1..], b[1..]);
      ConsEqual(a, b);
    }
  }

  /** Lists with equal heads and equal tails are equal. */
  lemma ConsEqual(a: seq<int>, b: seq<int>)
    requires a != [] && b != [] && a[0] == b[0] && a[1..] == b[1..]
    ensures a == b
  {
    assert a == [a[0]] + a[1..] && b == [b[0]] + b[1..];
  }

  /** Dropping the head keeps a list sorted. */
  lemma TailSorted(s: seq<int>)
    requires Sorted(s) && s != []
    ensures Sorted(s[1..])
  {
  }

  /** Dropping the head removes one copy of it. */
  lemma TailMultiset(s: seq<int>)
    requires s != []
    ensures multiset(s[1..]) == multiset(s) - multiset{s[0]}
  {
    assert s == [s[0]] + s[1..];
  }

  /** The head of a sorted list is its least element. */
  lemma HeadIsLeast(s: seq<int>, x: int)
    requires Sorted(s) && x in multiset(s)
    ensures s[0] <= x
  {
    var i :| 0 <= i < |s| && s[i] == x;
    assert i == 0 || s[0] <= s[i];
  }

  /** If two lists agree outside `[lo, hi)` and hold the same elements,
      then so do their slices `[lo, hi)`. */
  lemma SlicePermutation(a: seq<int>, b: seq<int>, lo: int, hi: int)
    requires 0 <= lo <= hi <= |a| == |b|
    requires multiset(a) == multiset(b)
    requires a[..lo] == b[..lo] && a[hi..] == b[hi..]
    ensures multiset(a[lo..hi]) == multiset(b[lo..hi])
  {
    assert a == a[..lo] + a[lo..hi] + a[hi..];
    assert b == b[..lo] + b[lo..hi] + b[hi..];
    calc {
      multiset(a[lo..hi]);
      multiset(a) - multiset(a[..lo]) - multiset(a[hi..]);
      multiset(b) - multiset(b[..lo]) - multiset(b[hi..]);
      multiset(b[lo..hi]);
    }
  }
}
