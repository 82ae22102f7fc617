/** One bubble-sort round: a single full outer pass of compare-and-swap over
    a prefix of the list (the body of `bubble_sort_step`). */
module BubbleRound {
  import opened Ordering
  import opened Palette

  /** The bars of a pass: the values and their colours. */
  datatype Bars = Bars(values: seq<int>, colors: seq<Color>)

  /** The bars after the first `k` steps of the inner loop of a pass, that is
      after pairs `(0,1)` .. `(k-1,k)` have been compared: a pair out of order
      is swapped and painted red, a pair in order painted green. */
  function Pass(s: seq<int>, cs: seq<Color>, k: nat): (r: Bars)
    requires k < |s| == |cs|
    ensures |r.values| == |s| && |r.colors| == |cs|
    decreases k
  {
    if k == 0 then Bars(s, cs)
    else
      var t := Pass(s, cs, k - 1);
      if t.values[k - 1] > t.values[k] then
        Bars(Swap(t.values, k - 1, k), t.colors[k - 1 := Red][k := Red])
      else
        Bars(t.values, t.colors[k - 1 := Green][k := Green])
  }

  /** The pass permutes the values. */
  lemma {:induction false} PassPermutes(s: seq<int>, cs: seq<Color>, k: nat)
    requires k < |s| == |cs|
    ensures multiset(Pass(s, cs, k).values) == multiset(s)
  {
    if k > 0 {
      var j := k - 1;
      PassPermutes(s, cs, j);
      CompareStepPermutes(s, cs, j);
    }
  }

  /** The compare-and-swap of pair `(j, j+1)` permutes the values. */
  lemma CompareStepPermutes(s: seq<int>, cs: seq<Color>, j: nat)
    requires j + 1 < |s| == |cs|
    ensures multiset(Pass(s, cs, j + 1).values) == multiset(Pass(s, cs, j).values)
  {
    var t := Pass(s, cs, j).values;
    if t[j] > t[j + 1] {
      SwapPermutes(t, j, j + 1);
    }
  }

  /** The pass changes nothing after position `k`, neither values nor
      colours. */
  lemma {:induction false} PassKeepsSuffix(s: seq<int>, cs: seq<Color>, k: nat)
    requires k < |s| == |cs|
    ensures Pass(s, cs, k).values[k + 1..] == s[k + 1..]
    ensures Pass(s, cs, k).colors[k + 1..] == cs[k + 1..]
  {
    if k > 0 {
      var j := k - 1;
      PassKeepsSuffix(s, cs, j);
      CompareStepKeepsSuffix(s, cs, j);
      var t := Pass(s, cs, j);
      SuffixShrinks(t.values, s, j + 1);
      SuffixShrinks(t.colors, cs, j + 1);
    }
  }

  /** Two lists that agree from position `i` on agree from `i + 1` on. */
  lemma SuffixShrinks<T>(a: seq<T>, b: seq<T>, i: nat)
    requires i < |a| == |b| && a[i..] == b[i..]
    ensures a[i + 1..] == b[i + 1..]
  {
    assert a[i + 1..] == a[i..][1..];
    assert b[i + 1..] == b[i..][1..];
  }

  /** The compare-and-swap of pair `(j, j+1)` changes nothing after `j+1`. */
  lemma CompareStepKeepsSuffix(s: seq<int>, cs: seq<Color>, j: nat)
    requires j + 1 < |s| == |cs|
    ensures Pass(s, cs, j + 1).values[j + 2..] == Pass(s, cs, j).values[j + 2..]
    ensures Pass(s, cs, j + 1).colors[j + 2..] == Pass(s, cs, j).colors[j + 2..]
  {
  }

  /** The pass carries the largest of `s[0..k]` up to position `k`. */
  lemma {:induction false} PassMax(s: seq<int>, cs: seq<Color>, k: nat)
    requires k < |s| == |cs|
    ensures forall i :: 0 <= i <= k ==> Pass(s, cs, k).values[i] <= Pass(s, cs, k).values[k]
  {
    if k > 0 {
      var j := k - 1;
      PassMax(s, cs, j);
    }
  }

  /** The pass exchanged the pair `(j, j+1)`. */
  predicate SwapsAt(s: seq<int>, cs: seq<Color>, j: nat)
    requires j + 1 < |s| == |cs|
  {
    Pass(s, cs, j).values[j] > Pass(s, cs, j).values[j + 1]
  }

  /** Every position the first `k` comparisons touched shows the outcome of
      the last comparison that touched it: red when that pair was swapped,
      green when it was already in order. */
  lemma {:induction false} PassColorsShowSwaps(s: seq<int>, cs: seq<Color>, k: nat)
    requires k < |s| == |cs|
    ensures forall j :: 0 <= j < k ==>
      Pass(s, cs, k).colors[j] == if SwapsAt(s, cs, j) then Red else Green
    ensures 0 < k ==>
      Pass(s, cs, k).colors[k] == if SwapsAt(s, cs, k - 1) then Red else Green
  {
    if k > 0 {
      var j := k - 1;
      PassColorsShowSwaps(s, cs, j);
    }
  }

  /** A full pass over `s[0..k]` puts there the maximum of that prefix,
      taken from that prefix, and only permutes the prefix. */
  lemma PassBubblesMax(s: seq<int>, cs: seq<Color>, k: nat)
    requires k < |s| == |cs|
    ensures var r := Pass(s, cs, k).values;
      r[k + 1..] == s[k + 1..] &&
      multiset(r[..k + 1]) == multiset(s[..k + 1]) &&
      r[k] in s[..k + 1] &&
      (forall i :: 0 <= i <= k ==> s[i] <= r[k]) &&
      (forall i :: 0 <= i <= k ==> r[i] <= r[k])
  {
    PassPermutes(s, cs, k);
    PassKeepsSuffix(s, cs, k);
    PassMax(s, cs, k);
    MaxOfPrefix(s, Pass(s, cs, k).values, k);
  }

  /** A permutation `r` of `s` that keeps `s[k+1..]` and has at `k` the
      largest of `r[0..k]` has there the largest of `s[0..k]`, taken from
      that prefix, and permutes only the prefix. */
  lemma MaxOfPrefix(s: seq<int>, r: seq<int>, k: nat)
    requires k < |s| == |r| && multiset(r) == multiset(s) && r[k + 1..] == s[k + 1..]
    requires forall i :: 0 <= i <= k ==> r[i] <= r[k]
    ensures multiset(r[..k + 1]) == multiset(s[..k + 1])
    ensures r[k] in s[..k + 1]
    ensures forall i :: 0 <= i <= k ==> s[i] <= r[k]
  {
    SlicePermutation(r, s, 0, k + 1);
    assert r[..k + 1] == r[0..k + 1] && s[..k + 1] == s[0..k + 1];
    assert r[k] in multiset(r[..k + 1]);
    forall i | 0 <= i <= k
      ensures s[i] <= r[k]
    {
      assert s[i] in multiset(r[..k + 1]);
    }
  }

  /** After `c` rounds the last `c` positions hold the largest values of the
      list, in order. */
  ghost predicate Settled(s: seq<int>, c: nat)
  {
    c <= |s| &&
    SortedBetween(s, |s| - c, |s|) &&
    forall i, j :: 0 <= i < |s| - c <= j < |s| ==> s[i] <= s[j]
  }

  /** One more pass, over the unsettled prefix `s[0..|s|-c-1]`, settles one
      more position. */
  lemma PassSettles(s: seq<int>, cs: seq<Color>, c: nat)
    requires Settled(s, c) && c + 1 < |s| == |cs|
    ensures Settled(Pass(s, cs, |s| - c - 1).values, c + 1)
  {
    PassBubblesMax(s, cs, |s| - c - 1);
    SettledByMax(s, Pass(s, cs, |s| - c - 1).values, c);
  }

  /** Moving the maximum of the unsettled prefix to its last position, while
      only permuting that prefix, settles one more position. */
  lemma SettledByMax(s: seq<int>, r: seq<int>, c: nat)
    requires Settled(s, c) && c + 1 < |s| == |r|
    requires var m := |s| - c - 1;
      r[m + 1..] == s[m + 1..] && r[m] in s[..m + 1] &&
      forall i :: 0 <= i <= m ==> r[i] <= r[m]
    ensures Settled(r, c + 1)
  {
    var m := |s| - c - 1;
    var w :| 0 <= w < m + 1 && s[..m + 1][w] == r[m];
    forall j | m < j < |s|
      ensures r[j] == s[j]
    {
      assert r[j] == r[m + 1..][j - m - 1];
    }
  }

  /** Settling every position but the first sorts the list. */
  lemma SettledSorted(s: seq<int>)
    requires |s| > 0 && Settled(s, |s| - 1)
    ensures Sorted(s)
  {
  }
}
