/** The `SortingVisualization` widget reduced to its stepper: the bar values,
    their colours, the progress cursor and whether the animation timer runs.
    Each method updates the fields in place as the Python method does and is
    proved to produce the state the matching function of module Steps
    describes. */
module Visualizer {
  import opened Ordering
  import opened Palette
  import opened BubbleRound
  import opened InsertionRound
  import opened SelectionRound
  import MergeRound
  import opened QuickRound
  import opened Steps

  /** What `random.sample(range(1, 100), size)` may return: `size` distinct
      values between 1 and 99. */
  predicate IsSample(sample: seq<int>, size: int)
  {
    |sample| == size &&
    (forall i :: 0 <= i < |sample| ==> 1 <= sample[i] <= 99) &&
    (forall i, j :: 0 <= i < j < |sample| ==> sample[i] != sample[j])
  }

  class Stepper {
    /** `self.list`: the bar heights. */
    var list: array<int>
    /** `self.colors`: one colour per bar. */
    var colors: array<Color>
    /** `self.animation_step`. */
    var cursor: nat
    /** Whether `self.timer` is active. */
    var running: bool

    /** One colour per bar. */
    ghost predicate Valid()
      reads this
    {
      list.Length == colors.Length
    }

    /** The fields as a value. */
    ghost function State(): Snapshot
      reads this, list, colors
    {
      Snapshot(list[..], colors[..], cursor, running)
    }

    /** A stepper with no bars yet, the cursor at 0 and the timer stopped. */
    constructor()
      ensures Valid() && State() == Snapshot([], [], 0, false)
      ensures fresh(list) && fresh(colors)
    {
      list := new int[0];
      colors := new Color[0];
      cursor := 0;
      running := false;
    }

    /** `create_list`: replace the bars by the sample and paint them blue. A
        size outside 0..99 makes `random.sample` raise before any field is
        assigned; then nothing changes and `created` is false. The cursor and
        the timer are not touched either way. */
    method CreateList(size: int, sample: seq<int>) returns (created: bool)
      requires 0 <= size <= 99 ==> IsSample(sample, size)
      modifies this
      ensures Valid() == (created || old(Valid()))
      ensures created <==> 0 <= size <= 99
      ensures created ==> fresh(list) && fresh(colors)
      ensures created ==> State() == old(State()).(list := sample, colors := Fill(Blue, size))
      ensures !created ==> list == old(list) && colors == old(colors) && State() == old(State())
    {
      if size < 0 || size > 99 {
        return false;
      }
      var values := new int[size];
      forall i | 0 <= i < size {
        values[i] := sample[i];
      }
      list := values;
      colors := PaintAll(Blue, size);
      created := true;
    }

    /** `start_animation` and the `*_animation` method it dispatches to: set
        the cursor to the algorithm's start and start the timer. */
    method StartAnimation(alg: Algorithm)
      modifies this
      ensures list == old(list) && colors == old(colors)
      ensures State() == Start(alg, old(State()))
    {
      cursor := Initial(alg);
      running := true;
    }

    /** `stop_animation`: stop the timer. */
    method StopAnimation()
      modifies this
      ensures list == old(list) && colors == old(colors)
      ensures State() == Halt(old(State()))
    {
      running := false;
    }

    /** `reset`: stop the timer, put the cursor back to 0 and empty the list
        and the colours. The state it leaves does not depend on the state
        before, so resetting twice is resetting once. */
    method Reset()
      modifies this
      ensures Valid() && State() == Snapshot([], [], 0, false)
      ensures fresh(list) && fresh(colors)
    {
      running := false;
      cursor := 0;
      list := new int[0];
      colors := new Color[0];
    }

    /** `animate_step`: one timer tick of the selected algorithm. */
    method Tick(alg: Algorithm)
      requires Valid()
      modifies this, list, colors
      ensures Valid()
      ensures list == old(list) && (colors == old(colors) || fresh(colors))
      ensures State() == Step(alg, old(State()))
    {
      match alg
      case Bubble => BubbleSortStep();
      case Insertion => InsertionSortStep();
      case Selection => SelectionSortStep();
      case Merge => MergeSortStep();
      case Quick => QuickSortStep();
    }

    /** `bubble_sort_step`. */
    method BubbleSortStep()
      requires Valid()
      modifies this, list, colors
      ensures Valid() && list == old(list) && colors == old(colors)
      ensures State() == BubbleStep(old(State()))
    {
      if cursor >= list.Length - 1 {
        running := false;
        return;
      }
      var m := list.Length - cursor - 1;
      ghost var s0 := list[..];
      ghost var c0 := colors[..];
      for j := 0 to m
        modifies list, colors
        invariant list[..] == Pass(s0, c0, j).values
        invariant colors[..] == Pass(s0, c0, j).colors
      {
        if list[j] > list[j + 1] {
          list[j], list[j + 1] := list[j + 1], list[j];
          colors[j], colors[j + 1] := Red, Red;
        } else {
          colors[j], colors[j + 1] := Green, Green;
        }
      }
      colors[m] := Yellow;
      cursor := cursor + 1;
    }

    /** `insertion_sort_step`. */
    method InsertionSortStep()
      requires Valid()
      modifies this, list
      ensures Valid() && list == old(list)
      ensures colors == old(colors) || fresh(colors)
      ensures State() == InsertionStep(old(State()))
    {
      var n := list.Length;
      if cursor >= n {
        running := false;
        return;
      }
      var c := cursor;
      InsertInPlace(list, c);
      colors := PaintSplit(Pink, c + 1, Black, n);
      cursor := c + 1;
    }

    /** The scan of `selection_sort_step` for the first index of the minimum
        of `list[c..]`. */
    method MinIndexFrom(c: nat) returns (m: nat)
      requires c < list.Length
      ensures c <= m < list.Length
      ensures forall k :: c <= k < list.Length ==> list[m] <= list[k]
      ensures forall k :: c <= k < m ==> list[k] > list[m]
      ensures m == FirstMin(list[..], c, list.Length)
    {
      m := c;
      for j := c + 1 to list.Length
        invariant c <= m < j
        invariant m == FirstMin(list[..], c, j)
      {
        if list[j] < list[m] {
          m := j;
        }
      }
    }

    /** `selection_sort_step`. */
    method SelectionSortStep()
      requires Valid()
      modifies this, list, colors
      ensures Valid() && list == old(list) && colors == old(colors)
      ensures State() == SelectionStep(old(State()))
    {
      if cursor >= list.Length - 1 {
        running := false;
        return;
      }
      var c := cursor;
      var m := MinIndexFrom(c);
      if m != c {
        list[c], list[m] := list[m], list[c];
        colors[c], colors[m] := Purple, Purple;
      }
      colors[c] := Cyan;
      cursor := c + 1;
    }

    /** `merge_sort_step`: the slice assignment
        `list[:c+1] = merge_sort(list[:c+1])` and the new colours. */
    method MergeSortStep()
      requires Valid()
      modifies this, list
      ensures Valid() && list == old(list)
      ensures colors == old(colors) || fresh(colors)
      ensures State() == MergeStep(old(State()))
    {
      var n := list.Length;
      if cursor >= n {
        running := false;
        return;
      }
      var c := cursor;
      ghost var s0 := list[..];
      var sorted := MergeRound.MergeSort(list[..c + 1]);
      AssignPrefix(list, sorted);
      assert list[..] == MergeRound.SortPrefix(s0, c);
      colors := PaintSplit(Gold, c + 1, Black, n);
      cursor := c + 1;
    }

    /** `quick_sort_step`: quicksort the whole list in place, paint it green
        and jump the cursor to the end. */
    method QuickSortStep()
      requires Valid()
      modifies this, list
      ensures Valid() && list == old(list)
      ensures colors == old(colors) || fresh(colors)
      ensures State() == QuickStep(old(State()))
    {
      var n := list.Length;
      if cursor >= n {
        running := false;
        return;
      }
      ghost var s0 := list[..];
      QuickSort(list, 0, n - 1);
      SortedUnique(list[..], MergeRound.MergeSort(s0));
      colors := PaintAll(Green, n);
      cursor := n;
    }
  }

  /** A fresh colour list `[front] * k + [back] * (n - k)`. */
  method PaintSplit(front: Color, k: nat, back: Color, n: nat) returns (cs: array<Color>)
    requires k <= n
    ensures fresh(cs) && cs[..] == Fill(front, k) + Fill(back, n - k)
  {
    cs := new Color[n](i => if i < k then front else back);
    assert cs[..] == Fill(front, k) + Fill(back, n - k);
  }

  /** A fresh colour list `[color] * n`. */
  method PaintAll(color: Color, n: nat) returns (cs: array<Color>)
    ensures fresh(cs) && cs[..] == Fill(color, n)
  {
    cs := new Color[n](_ => color);
    assert cs[..] == Fill(color, n);
  }

  /** The shifting loop of `insertion_sort_step`: `key = a[c]`, move every
      larger value before it one place right, drop the key into the gap. */
  method InsertInPlace(a: array<int>, c: nat)
    requires c < a.Length
    modifies a
    ensures a[..] == Insert(old(a[..]), c)
  {
    ghost var s0 := a[..];
    var key := a[c];
    var j := c - 1;
    while j >= 0 && a[j] > key
      invariant -1 <= j < c
      invariant forall k :: 0 <= k <= j ==> a[k] == s0[k]
      invariant forall k :: j + 1 < k <= c ==> a[k] == s0[k - 1]
      invariant forall k :: c < k < a.Length ==> a[k] == s0[k]
      invariant forall k :: j < k < c ==> s0[k] > key
      decreases j
    {
      a[j + 1] := a[j];
      j := j - 1;
    }
    a[j + 1] := key;
    InsertLands(s0, c, j + 1, a[..]);
  }

  /** The slice assignment `a[:len(s)] = s` with `len(s) <= len(a)`: the
      prefix is overwritten by `s`, the rest stays. */
  method AssignPrefix(a: array<int>, s: seq<int>)
    requires |s| <= a.Length
    modifies a
    ensures a[..] == s + old(a[..])[|s|..]
  {
    forall k | 0 <= k < |s| {
      a[k] := s[k];
    }
  }

  /** The shifting loop's result is `Insert`: when `r` keeps `s` before `q`,
      holds the key `s[c]` at `q`, holds `s[k-1]` at every `k` in `(q, c]`,
      keeps everything after `c`, and `q` is where the loop stopped, then `r`
      is the inserted list. */
  lemma InsertLands(s: seq<int>, c: nat, q: nat, r: seq<int>)
    requires c < |s| == |r| && q <= c
    requires forall k :: q <= k < c ==> s[k] > s[c]
    requires q == 0 || s[q - 1] <= s[c]
    requires forall k :: 0 <= k < q ==> r[k] == s[k]
    requires r[q] == s[c]
    requires forall k :: q < k <= c ==> r[k] == s[k - 1]
    requires forall k :: c < k < |s| ==> r[k] == s[k]
    ensures r == Insert(s, c)
  {
    InsertPosUnique(s, c, s[c], q);
    forall k | 0 <= k < |s|
      ensures r[k] == Insert(s, c)[k]
    {
      InsertAt(s, c, k);
    }
  }
}
