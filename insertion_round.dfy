/** One insertion-sort round: the element at the cursor is inserted into the
    prefix before it by shifting larger elements right (the body of
    `insertion_sort_step`). */
module InsertionRound {
  import opened Ordering

  /** Where the shifting loop started at `j` leaves the key: just right of the
      nearest position before `j` whose value does not exceed `key`, or 0
      when there is none. Every value it passes over is larger than the key. */
  function InsertPos(s: seq<int>, j: nat, key: int): (p: nat)
    requires j <= |s|
    ensures p <= j
    ensures forall k :: p <= k < j ==> s[k] > key
    ensures p == 0 || s[p - 1] <= key
    decreases j
  {
    if j == 0 then 0
    else if s[j - 1] > key then InsertPos(s, j - 1, key)
    else j
  }

  /** The shifting loop's stopping point is determined by the two facts that
      stop it: any `q <= j` with only larger values in `s[q..j-1]` and a value
      not above the key (or nothing) just before it is `InsertPos`. */
  lemma InsertPosUnique(s: seq<int>, j: nat, key: int, q: nat)
    requires j <= |s| && q <= j
    requires forall k :: q <= k < j ==> s[k] > key
    requires q == 0 || s[q - 1] <= key
    ensures q == InsertPos(s, j, key)
  {
  }

  /** The list after inserting `s[c]` into `s[0..c]`: the values it passed over
      move one place right, everything after position `c` stays. */
  function Insert(s: seq<int>, c: nat): seq<int>
    requires c < |s|
  {
    var p := InsertPos(s, c, s[c]);
    s[..p] + [s[c]] + s[p..c] + s[c + 1..]
  }

  /** Position by position: before the insertion point nothing moves, the key
      lands on it, the values it passed over move one place right, and
      everything after position `c` stays. */
  lemma InsertAt(s: seq<int>, c: nat, k: nat)
    requires k < |s| && c < |s|
    ensures var p := InsertPos(s, c, s[c]);
      |Insert(s, c)| == |s| &&
      Insert(s, c)[k] == if k < p then s[k] else if k == p then s[c] else if k <= c then s[k - 1] else s[k]
  {
  }

  /** Inserting permutes the list and keeps everything after position `c`. */
  lemma InsertPermutes(s: seq<int>, c: nat)
    requires c < |s|
    ensures |Insert(s, c)| == |s|
    ensures multiset(Insert(s, c)) == multiset(s)
    ensures Insert(s, c)[c + 1..] == s[c + 1..]
  {
    var p := InsertPos(s, c, s[c]);
    var front := s[..p] + [s[c]] + s[p..c];
    assert s == s[..p] + s[p..c] + [s[c]] + s[c + 1..];
    assert Insert(s, c) == front + s[c + 1..];
    assert |front| == c + 1;
  }

  /** Inserting into a sorted prefix `s[0..c-1]` gives a sorted prefix
      `s[0..c]`. */
  lemma InsertSortsPrefix(s: seq<int>, c: nat)
    requires c < |s| && SortedBetween(s, 0, c)
    ensures |Insert(s, c)| == |s| && SortedBetween(Insert(s, c), 0, c + 1)
  {
    var r := Insert(s, c);
    InsertAt(s, c, 0);
    forall i, j | 0 <= i < j < c + 1
      ensures r[i] <= r[j]
    {
      InsertAt(s, c, i);
      InsertAt(s, c, j);
    }
  }
}
