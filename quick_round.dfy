/** The two helpers nested in `quick_sort_step`: Lomuto `partition` and the
    recursive `quick_sort`, both working in place on the list. */
module QuickRound {
  import opened Ordering

  /** `partition(arr, low, high)` with the last element as pivot. Afterwards
      the pivot sits at `p`, everything in `[low, p)` is smaller than it,
      everything in `(p, high]` is at least as large, positions outside
      `[low, high]` are untouched and the array holds the same elements. */
  method Partition(a: array<int>, low: int, high: int) returns (p: int)
    requires 0 <= low < high < a.Length
    modifies a
    ensures low <= p <= high
    ensures a[p] == old(a[high])
    ensures forall k :: low <= k < p ==> a[k] < a[p]
    ensures forall k :: p < k <= high ==> a[k] >= a[p]
    ensures forall k :: 0 <= k < a.Length && !(low <= k <= high) ==> a[k] == old(a[k])
    ensures multiset(a[..]) == multiset(old(a[..]))
  {
    var pivot := a[high];
    var i := low - 1;
    for j := low to high
      invariant low - 1 <= i < j
      invariant a[high] == pivot
      invariant forall k :: low <= k <= i ==> a[k] < pivot
      invariant forall k :: i < k < j ==> a[k] >= pivot
      invariant forall k :: 0 <= k < a.Length && !(low <= k <= high) ==> a[k] == old(a[k])
      invariant multiset(a[..]) == multiset(old(a[..]))
    {
      if a[j] < pivot {
        i := i + 1;
        Exchange(a, i, j);
      }
    }
    p := i + 1;
    Exchange(a, p, high);
  }

  /** The in-place swap `arr[i], arr[j] = arr[j], arr[i]`. */
  method Exchange(a: array<int>, i: int, j: int)
    requires 0 <= i < a.Length && 0 <= j < a.Length
    modifies a
    ensures a[i] == old(a[j]) && a[j] == old(a[i])
    ensures forall k :: 0 <= k < a.Length && k != i && k != j ==> a[k] == old(a[k])
    ensures multiset(a[..]) == multiset(old(a[..]))
  {
    SwapPermutes(a[..], i, j);
    a[i], a[j] := a[j], a[i];
    assert a[..] == Swap(old(a[..]), i, j);
  }

  /** `quick_sort(arr, low, high)`: sorts `a[low..high]` in place, permuting
      only that slice. An empty slice (`low == high + 1`) is left alone. */
  method QuickSort(a: array<int>, low: int, high: int)
    requires 0 <= low <= high + 1 <= a.Length
    modifies a
    ensures SortedBetween(a[..], low, high + 1)
    ensures forall k :: 0 <= k < a.Length && !(low <= k <= high) ==> a[k] == old(a[k])
    ensures multiset(a[..]) == multiset(old(a[..]))
    decreases high - low + 1
  {
    if low < high {
      var pi := Partition(a, low, high);
      ghost var afterPartition := a[..];
      QuickSort(a, low, pi - 1);
      ghost var afterLeft := a[..];
      QuickSort(a, pi + 1, high);
      BoundsKept(afterPartition, afterLeft, low, pi, pi);
      BoundsKept(afterLeft, a[..], pi + 1, high + 1, pi);
    }
  }

  /** What quick sorting one side of the pivot cannot break: when `b` permutes
      `a[lo..hi-1]` and leaves the rest alone, a value that was below (or not
      below) the pivot at `pv` everywhere in that slice still is, and every
      other position keeps its value. */
  lemma BoundsKept(a: seq<int>, b: seq<int>, lo: int, hi: int, pv: int)
    requires 0 <= lo <= hi <= |a| == |b| && 0 <= pv < |a| && !(lo <= pv < hi)
    requires multiset(a) == multiset(b)
    requires forall k :: 0 <= k < |a| && !(lo <= k < hi) ==> b[k] == a[k]
    ensures (forall k :: lo <= k < hi ==> a[k] < a[pv]) ==> (forall k :: lo <= k < hi ==> b[k] < b[pv])
    ensures (forall k :: lo <= k < hi ==> a[k] >= a[pv]) ==> (forall k :: lo <= k < hi ==> b[k] >= b[pv])
  {
    assert a[..lo] == b[..lo] && a[hi..] == b[hi..];
    SlicePermutation(a, b, lo, hi);
    forall k | lo <= k < hi
      ensures b[k] in a[lo..hi]
    {
      assert b[k] == b[lo..hi][k - lo];
      assert b[k] in multiset(a[lo..hi]);
    }
  }
}
