/** Whole animation runs: from the cursor `start_animation` sets, how many
    ticks do work before the guard stops the timer, and what the list and
    colours are then. */
module Runs {
  import opened Ordering
  import opened Palette
  import opened BubbleRound
  import opened SelectionRound
  import opened Steps

  /** The number of working ticks of a run over a list of length `n`:
      N-1 for bubble, selection and insertion (which starts at 1), N for merge
      sort (its guard is `c >= N`), a single one for quick sort. */
  function WorkingSteps(alg: Algorithm, n: nat): nat
  {
    match alg
    case Bubble => if n == 0 then 0 else n - 1
    case Selection => if n == 0 then 0 else n - 1
    case Insertion => if n == 0 then 0 else n - 1
    case Merge => n
    case Quick => if n == 0 then 0 else 1
  }

  /** One more tick after `k`. */
  lemma DriveOneMore(alg: Algorithm, st: Snapshot, k: nat)
    requires Aligned(st)
    ensures Drive(alg, st, k + 1) == Step(alg, Drive(alg, st, k))
  {
  }

  /** After `k` bubble ticks: cursor `k`, the last `k` positions settled and
      yellow, the timer still running, the same elements. */
  lemma {:induction false} BubbleRun(st: Snapshot, k: nat)
    requires Aligned(st) && k < |st.list|
    ensures var r := Drive(Bubble, Start(Bubble, st), k);
      r.cursor == k && r.running &&
      multiset(r.list) == multiset(st.list) &&
      Settled(r.list, k) &&
      forall i :: |st.list| - k <= i < |st.list| ==> r.colors[i] == Yellow
  {
    var st0 := Start(Bubble, st);
    if k > 0 {
      var j := k - 1;
      BubbleRun(st, j);
      var p := Drive(Bubble, st0, j);
      DriveOneMore(Bubble, st0, j);
      StepPermutes(Bubble, p);
      BubbleStepSettles(p);
    }
  }

  /** After `k` insertion ticks: cursor `k+1`, the prefix `list[0..k]` sorted,
      the timer still running, the same elements; from the first tick on,
      `k+1` bars pink and the rest black. */
  lemma {:induction false} InsertionRun(st: Snapshot, k: nat)
    requires Aligned(st) && k < |st.list|
    ensures var r := Drive(Insertion, Start(Insertion, st), k);
      r.cursor == k + 1 && r.running &&
      multiset(r.list) == multiset(st.list) &&
      SortedBetween(r.list, 0, k + 1) &&
      (k > 0 ==> forall i :: 0 <= i < |st.list| ==> r.colors[i] == if i <= k then Pink else Black)
  {
    var st0 := Start(Insertion, st);
    if k > 0 {
      var j := k - 1;
      InsertionRun(st, j);
      var p := Drive(Insertion, st0, j);
      DriveOneMore(Insertion, st0, j);
      StepPermutes(Insertion, p);
      InsertionStepFacts(p);
    }
  }

  /** After `k` selection ticks: cursor `k`, the prefix `list[0..k-1]` sorted
      and holding the `k` smallest values, those bars cyan, the timer still
      running, the same elements. */
  lemma {:induction false} SelectionRun(st: Snapshot, k: nat)
    requires Aligned(st) && k < |st.list|
    ensures var r := Drive(Selection, Start(Selection, st), k);
      r.cursor == k && r.running &&
      multiset(r.list) == multiset(st.list) &&
      Selected(r.list, k) &&
      forall i :: 0 <= i < k ==> r.colors[i] == Cyan
  {
    var st0 := Start(Selection, st);
    if k > 0 {
      var j := k - 1;
      SelectionRun(st, j);
      var p := Drive(Selection, st0, j);
      DriveOneMore(Selection, st0, j);
      StepPermutes(Selection, p);
      SelectionStepSwaps(p);
      SelectExtends(p.list, j);
      SelectionStepFacts(p);
    }
  }

  /** After `k` merge ticks: cursor `k`, the prefix `list[0..k-1]` sorted, the
      timer still running, the same elements; from the first tick on, `k`
      bars gold and the rest black. */
  lemma {:induction false} MergeRun(st: Snapshot, k: nat)
    requires Aligned(st) && k <= |st.list|
    ensures var r := Drive(Merge, Start(Merge, st), k);
      r.cursor == k && r.running &&
      multiset(r.list) == multiset(st.list) &&
      SortedBetween(r.list, 0, k) &&
      (k > 0 ==> forall i :: 0 <= i < |st.list| ==> r.colors[i] == if i < k then Gold else Black)
  {
    var st0 := Start(Merge, st);
    if k > 0 {
      var j := k - 1;
      MergeRun(st, j);
      var p := Drive(Merge, st0, j);
      DriveOneMore(Merge, st0, j);
      StepPermutes(Merge, p);
      MergeStepList(p);
      MergeStepColors(p);
      var r := Drive(Merge, st0, k);
      forall i, j | 0 <= i < j < k
        ensures r.list[i] <= r.list[j]
      {
        assert r.list[i] == r.list[..k][i] && r.list[j] == r.list[..k][j];
      }
    }
  }

  /** Every algorithm, from the cursor its `*_animation` method sets, does
      exactly `WorkingSteps` working ticks: the guard does not fire before
      them and fires right after them, only stopping the timer. The list is
      then sorted and still holds the elements it started with. */
  lemma RunCompletes(alg: Algorithm, st: Snapshot)
    requires Aligned(st)
    ensures var st0 := Start(alg, st); var w := WorkingSteps(alg, |st.list|);
      forall k :: 0 <= k < w ==> !AtBound(alg, Drive(alg, st0, k))
    ensures var st0 := Start(alg, st); var w := WorkingSteps(alg, |st.list|);
      var fin := Drive(alg, st0, w);
      AtBound(alg, fin) && fin.running && Step(alg, fin) == Halt(fin) &&
      Sorted(fin.list) && multiset(fin.list) == multiset(st.list)
  {
    var n := |st.list|;
    var st0 := Start(alg, st);
    var w := WorkingSteps(alg, n);
    var fin := Drive(alg, st0, w);
    StepCursor(alg, fin);
    if n == 0 {
      return;
    }
    match alg
    case Bubble =>
      forall k | 0 <= k < w ensures !AtBound(alg, Drive(alg, st0, k)) { BubbleRun(st, k); }
      BubbleRun(st, w);
    case Insertion =>
      forall k | 0 <= k < w ensures !AtBound(alg, Drive(alg, st0, k)) { InsertionRun(st, k); }
      InsertionRun(st, w);
    case Selection =>
      forall k | 0 <= k < w ensures !AtBound(alg, Drive(alg, st0, k)) { SelectionRun(st, k); }
      SelectionRun(st, w);
    case Merge =>
      forall k | 0 <= k < w ensures !AtBound(alg, Drive(alg, st0, k)) { MergeRun(st, k); }
      MergeRun(st, w);
    case Quick =>
      DriveOneMore(Quick, st0, 0);
      QuickStepFacts(st0);
  }
}
