/** The two helpers nested in `merge_sort_step`: `merge` and `merge_sort`,
    pure functions over lists. */
module MergeRound {
  import opened Ordering

  /** `merge(left, right)`: repeatedly takes the smaller head, the right one on
      a tie, then appends what is left. The result holds exactly the elements
      of both lists; it is sorted when both are (MergeSorted). */
  function Merge(left: seq<int>, right: seq<int>): (r: seq<int>)
    ensures multiset(r) == multiset(left) + multiset(right)
    ensures |r| == |left| + |right|
    decreases |left| + |right|
  {
    if left == [] then right
    else if right == [] then left
    else if left[0] < right[0] then
      assert left == [left[0]] + left[1..];
      [left[0]] + Merge(left[1..], right)
    else
      assert right == [right[0]] + right[1..];
      [right[0]] + Merge(left, right[1..])
  }

  /** The merge starts with the head of one of its inputs. */
  lemma MergeHead(left: seq<int>, right: seq<int>)
    requires left != [] || right != []
    ensures (left != [] && Merge(left, right)[0] == left[0]) ||
            (right != [] && Merge(left, right)[0] == right[0])
  {
  }

  /** Merging two sorted lists gives a sorted list. */
  lemma {:induction false} MergeSorted(left: seq<int>, right: seq<int>)
    requires Sorted(left) && Sorted(right)
    ensures Sorted(Merge(left, right))
    decreases |left| + |right|
  {
    if left != [] && right != [] {
      if left[0] < right[0] {
        var rest := left[1..];
        TailSorted(left);
        MergeSorted(rest, right);
        MergeHead(rest, right);
        PrependSorted(left[0], Merge(rest, right));
      } else {
        var rest := right[1..];
        TailSorted(right);
        MergeSorted(left, rest);
        MergeHead(left, rest);
        PrependSorted(right[0], Merge(left, rest));
      }
    }
  }

  /** A value no larger than the head of a sorted list can be put in front of
      it. */
  lemma PrependSorted(x: int, s: seq<int>)
    requires Sorted(s) && (s != [] ==> x <= s[0])
    ensures Sorted([x] + s)
  {
  }

  /** `merge_sort(arr)`: split at `len // 2`, sort both halves, merge. The
      result is a sorted permutation of the input. */
  function MergeSort(s: seq<int>): (r: seq<int>)
    ensures |r| == |s|
    ensures multiset(r) == multiset(s)
    ensures Sorted(r)
    decreases |s|
  {
    if |s| <= 1 then s
    else
      var mid := |s| / 2;
      assert s == s[..mid] + s[mid..];
      MergeSorted(MergeSort(s[..mid]), MergeSort(s[mid..]));
      Merge(MergeSort(s[..mid]), MergeSort(s[mid..]))
  }

  /** The list after `list[:c+1] = merge_sort(list[:c+1])`. */
  function SortPrefix(s: seq<int>, c: nat): (r: seq<int>)
    requires c < |s|
    ensures |r| == |s|
  {
    MergeSort(s[..c + 1]) + s[c + 1..]
  }

  /** Sorting the prefix `s[0..c]` leaves it a sorted permutation of what it
      was, keeps `s[c+1..]`, and so permutes the whole list. */
  lemma SortPrefixFacts(s: seq<int>, c: nat)
    requires c < |s|
    ensures var r := SortPrefix(s, c);
      Sorted(r[..c + 1]) &&
      multiset(r[..c + 1]) == multiset(s[..c + 1]) &&
      r[c + 1..] == s[c + 1..] &&
      multiset(r) == multiset(s)
  {
    var sorted := MergeSort(s[..c + 1]);
    var r := SortPrefix(s, c);
    assert r[..c + 1] == sorted;
    assert r[c + 1..] == s[c + 1..];
    assert s == s[..c + 1] + s[c + 1..];
  }
}
