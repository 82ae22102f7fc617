/** The stepper as a value: the list, its colours, the progress cursor and
    whether the timer is running, and one function per `*_step` method
    giving the state after one tick. The class in module Visualizer is
    proved to implement these functions; the properties of a tick and of a
    whole run are proved here. */
module Steps {
  import opened Ordering
  import opened Palette
  import opened BubbleRound
  import opened InsertionRound
  import opened SelectionRound
  import MergeRound

  /** The algorithm picked in the combo box. */
  datatype Algorithm = Bubble | Insertion | Selection | Merge | Quick

  /** `self.list`, `self.colors`, `self.animation_step` and whether the timer
      is active. */
  datatype Snapshot = Snapshot(list: seq<int>, colors: seq<Color>, cursor: nat, running: bool)

  /** One colour per bar. */
  predicate Aligned(st: Snapshot)
  {
    |st.colors| == |st.list|
  }

  /** The cursor value each `*_animation` method starts from. */
  function Initial(alg: Algorithm): nat
  {
    if alg == Insertion then 1 else 0
  }

  /** The cursor value at which a step of `alg` on a list of length `n` stops
      the timer instead of working. */
  function Bound(alg: Algorithm, n: nat): int
  {
    match alg
    case Bubble => n - 1
    case Selection => n - 1
    case Insertion => n
    case Merge => n
    case Quick => n
  }

  /** The step's guard fires. */
  predicate AtBound(alg: Algorithm, st: Snapshot)
  {
    st.cursor >= Bound(alg, |st.list|)
  }

  /** What the guard does: stop the timer, change nothing else. */
  function Halt(st: Snapshot): Snapshot
  {
    st.(running := false)
  }

  /** `start_animation`: set the cursor to the algorithm's start and start
      the timer. */
  function Start(alg: Algorithm, st: Snapshot): Snapshot
  {
    st.(cursor := Initial(alg), running := true)
  }

  /** `bubble_sort_step`: one full pass over `list[0..N-c-1]`, colouring each
      compared pair, then the settled position yellow. */
  function BubbleStep(st: Snapshot): (r: Snapshot)
    requires Aligned(st)
    ensures Aligned(r) && |r.list| == |st.list|
  {
    var n := |st.list|;
    if st.cursor >= n - 1 then Halt(st)
    else
      var m := n - st.cursor - 1;
      var pass := Pass(st.list, st.colors, m);
      st.(list := pass.values, colors := pass.colors[m := Yellow], cursor := st.cursor + 1)
  }

  /** `insertion_sort_step`: insert `list[c]` into `list[0..c-1]`, colour
      `0..c` pink and the rest black. */
  function InsertionStep(st: Snapshot): (r: Snapshot)
    requires Aligned(st)
    ensures Aligned(r) && |r.list| == |st.list|
  {
    var n := |st.list|;
    var c := st.cursor;
    if c >= n then Halt(st)
    else
      InsertPermutes(st.list, c);
      st.(list := Insert(st.list, c),
          colors := Fill(Pink, c + 1) + Fill(Black, n - c - 1),
          cursor := c + 1)
  }

  /** `selection_sort_step`: swap the first minimum of `list[c..]` to `c`,
      colouring both purple when they differ, then colour `c` cyan. */
  function SelectionStep(st: Snapshot): (r: Snapshot)
    requires Aligned(st)
    ensures Aligned(r) && |r.list| == |st.list|
  {
    var n := |st.list|;
    var c := st.cursor;
    if c >= n - 1 then Halt(st)
    else
      var m := FirstMin(st.list, c, n);
      var list := if m != c then Swap(st.list, c, m) else st.list;
      var colors := if m != c then st.colors[c := Purple][m := Purple] else st.colors;
      st.(list := list, colors := colors[c := Cyan], cursor := c + 1)
  }

  /** `merge_sort_step`: replace `list[0..c]` by its merge sort, colour `0..c`
      gold and the rest black. */
  function MergeStep(st: Snapshot): (r: Snapshot)
    requires Aligned(st)
    ensures Aligned(r) && |r.list| == |st.list|
  {
    var n := |st.list|;
    var c := st.cursor;
    if c >= n then Halt(st)
    else
      st.(list := MergeRound.SortPrefix(st.list, c),
          colors := Fill(Gold, c + 1) + Fill(Black, n - c - 1),
          cursor := c + 1)
  }

  /** `quick_sort_step`: sort the whole list, colour it green and move the
      cursor to the end. The list's sorted permutation is unique
      (Ordering.SortedUnique), so it is named here by `MergeSort`; the class
      reaches it by quicksort. */
  function QuickStep(st: Snapshot): (r: Snapshot)
    requires Aligned(st)
    ensures Aligned(r) && |r.list| == |st.list|
  {
    var n := |st.list|;
    if st.cursor >= n then Halt(st)
    else
      st.(list := MergeRound.MergeSort(st.list), colors := Fill(Green, n), cursor := n)
  }

  /** `animate_step`: one timer tick of the selected algorithm. */
  function Step(alg: Algorithm, st: Snapshot): (r: Snapshot)
    requires Aligned(st)
    ensures Aligned(r) && |r.list| == |st.list|
  {
    match alg
    case Bubble => BubbleStep(st)
    case Insertion => InsertionStep(st)
    case Selection => SelectionStep(st)
    case Merge => MergeStep(st)
    case Quick => QuickStep(st)
  }

  /** The state after `k` ticks. */
  function Drive(alg: Algorithm, st: Snapshot, k: nat): (r: Snapshot)
    requires Aligned(st)
    ensures Aligned(r) && |r.list| == |st.list|
    decreases k
  {
    if k == 0 then st else Step(alg, Drive(alg, st, k - 1))
  }

  // ---------------------------------------------------------------------
  // One tick

  /** Every tick keeps the list a permutation of what it was, and the colours
      aligned with it. */
  lemma StepPermutes(alg: Algorithm, st: Snapshot)
    requires Aligned(st)
    ensures Aligned(Step(alg, st))
    ensures multiset(Step(alg, st).list) == multiset(st.list)
  {
    match alg
    case Bubble => BubbleStepPermutes(st);
    case Selection => SelectionStepPermutes(st);
    case Insertion => InsertionStepPermutes(st);
    case Merge => MergeStepPermutes(st);
    case Quick =>
  }

  /** A bubble tick permutes the list. */
  lemma BubbleStepPermutes(st: Snapshot)
    requires Aligned(st)
    ensures multiset(BubbleStep(st).list) == multiset(st.list)
  {
    if st.cursor < |st.list| - 1 {
      BubbleStepRunsPass(st);
      PassPermutes(st.list, st.colors, |st.list| - st.cursor - 1);
    }
  }

  /** A selection tick permutes the list. */
  lemma SelectionStepPermutes(st: Snapshot)
    requires Aligned(st)
    ensures multiset(SelectionStep(st).list) == multiset(st.list)
  {
    if st.cursor < |st.list| - 1 {
      SelectionStepSwaps(st);
      SwapPermutes(st.list, st.cursor, FirstMin(st.list, st.cursor, |st.list|));
    }
  }

  /** An insertion tick permutes the list. */
  lemma InsertionStepPermutes(st: Snapshot)
    requires Aligned(st)
    ensures multiset(InsertionStep(st).list) == multiset(st.list)
  {
    if st.cursor < |st.list| {
      InsertPermutes(st.list, st.cursor);
    }
  }

  /** A merge tick permutes the list. */
  lemma MergeStepPermutes(st: Snapshot)
    requires Aligned(st)
    ensures multiset(MergeStep(st).list) == multiset(st.list)
  {
    if st.cursor < |st.list| {
      MergeRound.SortPrefixFacts(st.list, st.cursor);
    }
  }

  /** When the guard fires the tick only stops the timer; otherwise it keeps
      the timer running and moves the cursor forward: by one, except for
      quick sort, which jumps to the end. */
  lemma StepCursor(alg: Algorithm, st: Snapshot)
    requires Aligned(st)
    ensures AtBound(alg, st) ==> Step(alg, st) == Halt(st)
    ensures !AtBound(alg, st) ==> Step(alg, st).running == st.running
    ensures !AtBound(alg, st) && alg != Quick ==> Step(alg, st).cursor == st.cursor + 1
    ensures !AtBound(alg, st) && alg == Quick ==> Step(alg, st).cursor == |st.list| > st.cursor
  {
  }

  /** A working bubble tick runs the pass over `list[0..N-c-1]` and paints
      the last position it reached yellow. */
  lemma BubbleStepRunsPass(st: Snapshot)
    requires Aligned(st) && st.cursor < |st.list| - 1
    ensures var m := |st.list| - st.cursor - 1; var pass := Pass(st.list, st.colors, m);
      BubbleStep(st).list == pass.values &&
      BubbleStep(st).colors == pass.colors[m := Yellow] &&
      BubbleStep(st).cursor == st.cursor + 1
  {
  }

  /** A working bubble tick at cursor `c` leaves at position `m = N-c-1` the
      maximum of `list[0..m]`, taken from that prefix, and keeps the
      positions after it. */
  lemma BubbleStepList(st: Snapshot)
    requires Aligned(st) && st.cursor < |st.list| - 1
    ensures var m := |st.list| - st.cursor - 1; var r := BubbleStep(st).list;
      r[m] in st.list[..m + 1] &&
      (forall i :: 0 <= i <= m ==> st.list[i] <= r[m]) &&
      r[m + 1..] == st.list[m + 1..]
  {
    BubbleStepRunsPass(st);
    PassBubblesMax(st.list, st.colors, |st.list| - st.cursor - 1);
  }

  /** A working bubble tick at cursor `c` colours position `m = N-c-1` yellow,
      keeps the colours after it, and leaves every compared position before
      it red when its pair was swapped and green otherwise. */
  lemma BubbleStepColors(st: Snapshot)
    requires Aligned(st) && st.cursor < |st.list| - 1
    ensures var m := |st.list| - st.cursor - 1; var r := BubbleStep(st).colors;
      r[m] == Yellow &&
      (forall i :: m < i < |r| ==> r[i] == st.colors[i]) &&
      (forall j :: 0 <= j < m ==> r[j] == if SwapsAt(st.list, st.colors, j) then Red else Green)
  {
    BubbleStepRunsPass(st);
    PassKeepsSuffix(st.list, st.colors, |st.list| - st.cursor - 1);
    PassColorsShowSwaps(st.list, st.colors, |st.list| - st.cursor - 1);
  }

  /** A working bubble tick at cursor `c` settles one more position: if the
      last `c` positions held the largest values in order and were yellow,
      the last `c+1` do now. */
  lemma BubbleStepSettles(st: Snapshot)
    requires Aligned(st) && st.cursor < |st.list| - 1
    requires Settled(st.list, st.cursor)
    requires forall i :: |st.list| - st.cursor <= i < |st.list| ==> st.colors[i] == Yellow
    ensures Settled(BubbleStep(st).list, st.cursor + 1)
    ensures forall i :: |st.list| - st.cursor - 1 <= i < |st.list| ==> BubbleStep(st).colors[i] == Yellow
  {
    BubbleStepRunsPass(st);
    PassKeepsSuffix(st.list, st.colors, |st.list| - st.cursor - 1);
    PassSettles(st.list, st.colors, st.cursor);
  }

  /** A working insertion tick at cursor `c` extends a sorted prefix
      `list[0..c-1]` to a sorted prefix `list[0..c]`, keeps `list[c+1..]`,
      and colours `c+1` bars pink followed by black. */
  lemma InsertionStepFacts(st: Snapshot)
    requires Aligned(st) && st.cursor < |st.list|
    requires SortedBetween(st.list, 0, st.cursor)
    ensures var c := st.cursor; var r := InsertionStep(st);
      SortedBetween(r.list, 0, c + 1) &&
      r.list[c + 1..] == st.list[c + 1..] &&
      (forall i :: 0 <= i < |r.colors| ==> r.colors[i] == if i <= c then Pink else Black) &&
      r.cursor == c + 1
  {
    InsertPermutes(st.list, st.cursor);
    InsertSortsPrefix(st.list, st.cursor);
  }

  /** A working selection tick at cursor `c` puts the minimum of `list[c..]`
      at `c`, taken from its first occurrence `m`; no other position changes.
      `m` turns purple when it differs from `c`, and `c` ends cyan. */
  lemma SelectionStepFacts(st: Snapshot)
    requires Aligned(st) && st.cursor < |st.list| - 1
    ensures var c := st.cursor; var n := |st.list|; var m := FirstMin(st.list, c, n);
      var r := SelectionStep(st);
      (forall k :: c <= k < n ==> r.list[c] <= st.list[k]) &&
      r.list[c] == st.list[m] &&
      (forall k :: c <= k < m ==> st.list[k] > st.list[m]) &&
      (forall k :: 0 <= k < n && k != c && k != m ==> r.list[k] == st.list[k] && r.colors[k] == st.colors[k]) &&
      (m != c ==> r.list[m] == st.list[c] && r.colors[m] == Purple) &&
      r.colors[c] == Cyan &&
      r.cursor == c + 1
  {
  }

  /** A working selection tick is the swap of `c` with the first minimum of
      `list[c..]` (a swap of `c` with itself changing nothing). */
  lemma SelectionStepSwaps(st: Snapshot)
    requires Aligned(st) && st.cursor < |st.list| - 1
    ensures SelectionStep(st).list == Swap(st.list, st.cursor, FirstMin(st.list, st.cursor, |st.list|))
  {
    var c := st.cursor;
    var m := FirstMin(st.list, c, |st.list|);
    if m == c {
      assert Swap(st.list, c, m) == st.list;
    }
  }

  /** A working merge tick at cursor `c` replaces `list[0..c]` by a sorted
      permutation of it and keeps `list[c+1..]`. */
  lemma MergeStepList(st: Snapshot)
    requires Aligned(st) && st.cursor < |st.list|
    ensures var c := st.cursor; var r := MergeStep(st).list;
      Sorted(r[..c + 1]) &&
      multiset(r[..c + 1]) == multiset(st.list[..c + 1]) &&
      r[c + 1..] == st.list[c + 1..]
  {
    MergeRound.SortPrefixFacts(st.list, st.cursor);
  }

  /** A working merge tick at cursor `c` colours `c+1` bars gold followed by
      black and moves the cursor to `c+1`. */
  lemma MergeStepColors(st: Snapshot)
    requires Aligned(st) && st.cursor < |st.list|
    ensures var c := st.cursor; var r := MergeStep(st);
      (forall i :: 0 <= i < |r.colors| ==> r.colors[i] == if i <= c then Gold else Black) &&
      r.cursor == c + 1
  {
  }

  /** A working quick tick leaves the list sorted and a permutation of what it
      was, every bar green, and the cursor at the end. */
  lemma QuickStepFacts(st: Snapshot)
    requires Aligned(st) && st.cursor < |st.list|
    ensures var r := QuickStep(st);
      Sorted(r.list) &&
      multiset(r.list) == multiset(st.list) &&
      (forall i :: 0 <= i < |r.colors| ==> r.colors[i] == Green) &&
      r.cursor == |st.list|
  {
  }
}
