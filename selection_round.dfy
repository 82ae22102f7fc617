/** One selection-sort round: the minimum of the unsorted suffix is found and
    swapped to the cursor (the body of `selection_sort_step`). */
module SelectionRound {
  import opened Ordering

  /** The index the scan `for j in range(lo + 1, hi)` settles on: the first
      index of the minimum of `s[lo..hi-1]`. A later index replaces the
      current one only when it is strictly smaller. */
  function FirstMin(s: seq<int>, lo: nat, hi: nat): (m: nat)
    requires lo < hi <= |s|
    ensures lo <= m < hi
    ensures forall k :: lo <= k < hi ==> s[m] <= s[k]
    ensures forall k :: lo <= k < m ==> s[k] > s[m]
    decreases hi
  {
    if hi == lo + 1 then lo
    else
      var m := FirstMin(s, lo, hi - 1);
      if s[hi - 1] < s[m] then hi - 1 else m
  }

  /** After `c` rounds the prefix `s[0..c-1]` is sorted and holds the `c`
      smallest values. */
  ghost predicate Selected(s: seq<int>, c: nat)
  {
    c <= |s| &&
    SortedBetween(s, 0, c) &&
    forall i, j :: 0 <= i < c <= j < |s| ==> s[i] <= s[j]
  }

  /** Swapping the first minimum of the suffix to position `c` extends the
      selected prefix by one. */
  lemma SelectExtends(s: seq<int>, c: nat)
    requires Selected(s, c) && c < |s|
    ensures Selected(Swap(s, c, FirstMin(s, c, |s|)), c + 1)
  {
    var m := FirstMin(s, c, |s|);
    var r := Swap(s, c, m);
    forall i, j | 0 <= i < c + 1 <= j < |s|
      ensures r[i] <= r[j]
    {
      if j == m { assert r[j] == s[c]; } else { assert r[j] == s[j]; }
    }
  }

  /** Selecting every position but the last sorts the list. */
  lemma SelectedSorted(s: seq<int>)
    requires |s| > 0 && Selected(s, |s| - 1)
    ensures Sorted(s)
  {
  }
}
