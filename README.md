# Sorting visualiser stepper, modelled in Dafny

`sortingAlgorithmsVisualizer.py` is a PyQt window that animates five sorting
algorithms on a bar chart. A timer fires `animate_step` periodically. That
calls the selected algorithm's `*_step` method. The method either finds its
progress cursor (`animation_step`) at the end and stops the timer, or it does
one round of the algorithm on `self.list` in place, recolours
`self.colors`, and advances the cursor.

This project models that stepper:

- `Visualizer.Stepper` is a class with the same state. Its fields are the bar
  values (`array<int>`), one colour per bar (`array<Color>`), the cursor, and
  whether the timer runs. It has one method per `*_step` method, plus
  `create_list`, `start_animation`, `stop_animation` and `reset`. The loops
  work in place as the Python ones do.
- Each step method is proved to produce exactly the state that a pure
  function of module `Steps` gives. Those are `BubbleStep`, `InsertionStep`,
  `SelectionStep`, `MergeStep` and `QuickStep`, over a `Snapshot` value.
- The per-round modules hold the algorithms and their properties:
  - `BubbleRound`: one outer pass.
  - `InsertionRound`: one insertion.
  - `SelectionRound`: the first minimum of the suffix.
  - `MergeRound`: `merge` and `merge_sort`, as recursive functions.
  - `QuickRound`: in-place `partition` and `quick_sort` methods.
- `Steps` proves what one tick does. `Runs` proves what a whole animation
  does. `Drive(alg, st, k)` is the state after `k` ticks.
- Colours are the datatype `Palette.Color`. The algorithm is the datatype
  `Steps.Algorithm`, in place of the combo-box string.

Proved about whole runs (`Runs.RunCompletes`): from the cursor each
`*_animation` method sets, the guard does not fire for a fixed number of
ticks, then fires and only stops the timer. By then the list is sorted and
still holds the elements it started with. The number of ticks is:

- bubble, selection and insertion: N−1;
- merge: N;
- quick: 1.

Behaviour taken from the code as written:

- `merge_sort_step` stops at `animation_step >= len(list)`
  (sortingAlgorithmsVisualizer.py:233), not at N−1. Merge sort therefore does
  N working ticks; the first one sorts a one-element prefix.
- `create_list` with size 0 is accepted. It yields an empty list and empty
  colours (`random.sample(range(1, 100), 0)` is `[]`). A size below 0 or
  above 99 makes `random.sample` raise `ValueError` before any field is
  assigned. `Stepper.CreateList` returns `created == false` then, and changes
  nothing.
- `create_list` does not touch the cursor or the timer.
- `quick_sort_step` finishes in one tick and sets the cursor to N
  (sortingAlgorithmsVisualizer.py:302).
- Ties in `merge` take the right-hand element (`left[i] < right[j]` is
  strict). Ties in the selection scan keep the earlier index.

## Model

| member | source | states |
|---|---|---|
| Ordering.Swap | sortingAlgorithmsVisualizer.py:182 | the tuple swap `list[i], list[j] = list[j], list[i]`, also at lines 223, 285 and 287; it keeps the length |
| Ordering.SwapPermutes | sortingAlgorithmsVisualizer.py:182 | exchanging two positions of the list, as lines 182, 223, 285 and 287 do, keeps the same elements |
| Ordering.SortedUnique | sortingAlgorithmsVisualizer.py:296 | two sorted lists with the same elements are equal, so the list quicksort leaves is the unique sorted permutation of the input |
| BubbleRound.Pass | sortingAlgorithmsVisualizer.py:180-185 | the inner `for` over pairs `(j, j+1)` for `j < k`: swap and paint red when out of order, paint green otherwise; it keeps the lengths of list and colours |
| BubbleRound.CompareStepPermutes | sortingAlgorithmsVisualizer.py:181-183 | one compare-and-swap of pair `(j, j+1)` keeps the same elements |
| BubbleRound.PassPermutes | sortingAlgorithmsVisualizer.py:180-185 | the inner loop of a pass only permutes the list |
| BubbleRound.CompareStepKeepsSuffix | sortingAlgorithmsVisualizer.py:181-185 | comparing pair `(j, j+1)` changes no value and no colour after `j+1` |
| BubbleRound.PassKeepsSuffix | sortingAlgorithmsVisualizer.py:180-185 | a pass up to pair `(k-1, k)` changes no value and no colour after `k` |
| BubbleRound.PassMax | sortingAlgorithmsVisualizer.py:180-183 | after pairs up to `(k-1, k)` are compared, position `k` holds the largest of positions `0..k` |
| BubbleRound.PassColorsShowSwaps | sortingAlgorithmsVisualizer.py:180-185 | every compared position is red when the last pair that touched it was swapped, and green when that pair was in order |
| BubbleRound.PassBubblesMax | sortingAlgorithmsVisualizer.py:180-183 | a pass over `list[0..k]` puts at `k` the maximum of the old prefix, taken from it, permutes only the prefix and keeps the rest |
| BubbleRound.PassSettles | sortingAlgorithmsVisualizer.py:180-185 | if the last `c` positions hold the largest values in order, one pass over the first `N-c` makes that true of the last `c+1` |
| BubbleRound.SettledSorted | sortingAlgorithmsVisualizer.py:176 | when all positions but the first are settled (where the guard `c >= N-1` fires), the list is sorted |
| InsertionRound.InsertPos | sortingAlgorithmsVisualizer.py:199-202 | the shifting loop stops at `p <= c`: every value it passed over is larger than the key, and the value before `p`, if any, is not |
| InsertionRound.InsertPosUnique | sortingAlgorithmsVisualizer.py:199-202 | those two stopping facts determine the stopping point uniquely |
| InsertionRound.Insert | sortingAlgorithmsVisualizer.py:198-204 | the list after the shifting loop and the key write: `list[c]` placed at the loop's stopping point, the values between shifted right by one |
| InsertionRound.InsertAt | sortingAlgorithmsVisualizer.py:198-204 | after the insertion each position holds, in turn, its old value, the key, or its left neighbour's old value, and positions after `c` keep theirs |
| InsertionRound.InsertPermutes | sortingAlgorithmsVisualizer.py:198-204 | the insertion keeps the length and the elements, and leaves `list[c+1..]` unchanged |
| InsertionRound.InsertSortsPrefix | sortingAlgorithmsVisualizer.py:198-204 | inserting `list[c]` into a sorted `list[0..c-1]` gives a sorted `list[0..c]` |
| SelectionRound.FirstMin | sortingAlgorithmsVisualizer.py:217-220 | the scan returns an index in `[c, N)` holding the minimum of `list[c..]`, and every earlier index in that range holds a larger value |
| SelectionRound.SelectExtends | sortingAlgorithmsVisualizer.py:217-224 | if `list[0..c-1]` is sorted and holds the `c` smallest values, swapping the first minimum of `list[c..]` to `c` makes that true of `list[0..c]` |
| SelectionRound.SelectedSorted | sortingAlgorithmsVisualizer.py:213 | once the first `N-1` positions are selected (where the guard `c >= N-1` fires), the list is sorted |
| MergeRound.Merge | sortingAlgorithmsVisualizer.py:237-252 | the merge holds exactly the elements of both inputs, so its length is the sum of theirs |
| MergeRound.MergeHead | sortingAlgorithmsVisualizer.py:240-247 | a non-empty merge starts with the head of one of its inputs |
| MergeRound.MergeSorted | sortingAlgorithmsVisualizer.py:237-252 | merging two sorted lists gives a sorted list |
| MergeRound.MergeSort | sortingAlgorithmsVisualizer.py:254-262 | `merge_sort` returns a sorted permutation of its input |
| MergeRound.SortPrefix | sortingAlgorithmsVisualizer.py:264-265 | `list[:c+1] = merge_sort(list[:c+1])`: the merge-sorted prefix followed by the unchanged rest; it keeps the length |
| MergeRound.SortPrefixFacts | sortingAlgorithmsVisualizer.py:264-265 | replacing `list[0..c]` by its merge sort leaves that prefix a sorted permutation of itself, keeps `list[c+1..]`, and permutes the whole list |
| QuickRound.Exchange | sortingAlgorithmsVisualizer.py:285-287 | the in-place swap exchanges exactly two cells and keeps the elements |
| QuickRound.Partition | sortingAlgorithmsVisualizer.py:278-288 | `low <= p <= high`; the old `arr[high]` ends at `p`; `arr[low..p-1]` is below it and `arr[p+1..high]` is not; cells outside `low..high` are unchanged; the elements are the same |
| QuickRound.QuickSort | sortingAlgorithmsVisualizer.py:290-294 | `arr[low..high]` ends sorted, cells outside it are unchanged, the elements are the same |
| QuickRound.BoundsKept | sortingAlgorithmsVisualizer.py:292-294 | sorting one side of the pivot keeps that side below (or not below) the pivot and leaves the pivot in place |
| Steps.Initial | sortingAlgorithmsVisualizer.py:134-157 | the cursor each `*_animation` method sets: 1 for insertion sort, 0 for the other four |
| Steps.Start | sortingAlgorithmsVisualizer.py:134-157 | starting an animation sets the cursor to `Initial` and starts the timer, keeping the bars and colours |
| Steps.Bound | sortingAlgorithmsVisualizer.py:176-178 | the cursor value at which a step's guard fires: N−1 for bubble (176) and selection (213), N for insertion (194), merge (233) and quick (274) |
| Steps.AtBound | sortingAlgorithmsVisualizer.py:176-178 | the guard `animation_step >= len(list) - 1` or `>= len(list)` of the chosen step (lines 176, 194, 213, 233, 274) |
| Steps.Halt | sortingAlgorithmsVisualizer.py:176-178 | `self.timer.stop()` then `return`, as at lines 177, 195, 214, 234 and 275: only the running flag changes |
| Steps.BubbleStep | sortingAlgorithmsVisualizer.py:175-191 | the bubble tick: halt at the guard, otherwise one pass over `list[0..N-c-1]`, yellow at `N-c-1` and cursor `c+1`; it keeps the length and one colour per bar |
| Steps.InsertionStep | sortingAlgorithmsVisualizer.py:193-210 | the insertion tick: halt at the guard, otherwise insert `list[c]` into the prefix, colour `c+1` bars pink then black and move the cursor to `c+1`; it keeps the length and one colour per bar |
| Steps.SelectionStep | sortingAlgorithmsVisualizer.py:212-230 | the selection tick: halt at the guard, otherwise swap `c` with the first minimum of `list[c..]` (on a swap both cells turn purple), then cyan at `c` and cursor `c+1`; it keeps the length and one colour per bar |
| Steps.MergeStep | sortingAlgorithmsVisualizer.py:232-271 | the merge tick: halt at the guard, otherwise replace `list[0..c]` by its merge sort, colour `c+1` bars gold then black and move the cursor to `c+1`; it keeps the length and one colour per bar |
| Steps.QuickStep | sortingAlgorithmsVisualizer.py:273-302 | the quick tick: halt at the guard, otherwise replace the list by its sorted permutation (unique by `Ordering.SortedUnique`, so named here by `MergeRound.MergeSort`), paint every bar green and set the cursor to N; it keeps the length and one colour per bar |
| Steps.Drive | sortingAlgorithmsVisualizer.py:20 | `k` timer ticks delivered to `animate_step` through the `timeout` connection, one `Step` each; they keep the length and one colour per bar |
| Steps.Step | sortingAlgorithmsVisualizer.py:159-173 | every tick keeps the list's length and one colour per bar |
| Steps.StepPermutes | sortingAlgorithmsVisualizer.py:159-173 | every tick, of every algorithm, leaves the list a permutation of what it was, with colours aligned |
| Steps.BubbleStepPermutes | sortingAlgorithmsVisualizer.py:175-191 | a bubble tick permutes the list |
| Steps.InsertionStepPermutes | sortingAlgorithmsVisualizer.py:193-210 | an insertion tick permutes the list |
| Steps.SelectionStepPermutes | sortingAlgorithmsVisualizer.py:212-230 | a selection tick permutes the list |
| Steps.MergeStepPermutes | sortingAlgorithmsVisualizer.py:232-271 | a merge tick permutes the list |
| Steps.StepCursor | sortingAlgorithmsVisualizer.py:175-302 | at or past the bound (N−1 for bubble and selection, N otherwise) a tick only stops the timer; below it the timer keeps running and the cursor moves up by one, or to N for quick sort |
| Steps.BubbleStepList | sortingAlgorithmsVisualizer.py:180-185 | after a working bubble tick, `list[N-c-1]` is the maximum of the old `list[0..N-c-1]`, taken from it, and later positions are unchanged |
| Steps.BubbleStepColors | sortingAlgorithmsVisualizer.py:180-190 | position `N-c-1` ends yellow, later colours are unchanged, earlier ones show red or green by whether their pair was swapped |
| Steps.BubbleStepSettles | sortingAlgorithmsVisualizer.py:180-191 | a settled, yellow suffix of length `c` becomes a settled, yellow suffix of length `c+1` |
| Steps.InsertionStepFacts | sortingAlgorithmsVisualizer.py:198-210 | with `list[0..c-1]` sorted, a working tick sorts `list[0..c]`, keeps `list[c+1..]`, colours `c+1` bars pink then black, and sets the cursor to `c+1` |
| Steps.SelectionStepFacts | sortingAlgorithmsVisualizer.py:217-230 | `list[c]` becomes the minimum of `list[c..]`, taken from its first occurrence `m`; only `c` and `m` change; `m` turns purple when it differs from `c`; `c` ends cyan; the cursor becomes `c+1` |
| Steps.SelectionStepSwaps | sortingAlgorithmsVisualizer.py:217-224 | a working selection tick swaps `c` with the first minimum of `list[c..]` |
| Steps.MergeStepList | sortingAlgorithmsVisualizer.py:264-265 | a working merge tick replaces `list[0..c]` by a sorted permutation of it and keeps `list[c+1..]` |
| Steps.MergeStepColors | sortingAlgorithmsVisualizer.py:270-271 | a working merge tick colours `c+1` bars gold then black and sets the cursor to `c+1` |
| Steps.QuickStepFacts | sortingAlgorithmsVisualizer.py:296-302 | a working quick tick leaves the list sorted, with the same elements, every bar green, and the cursor at N |
| Runs.WorkingSteps | sortingAlgorithmsVisualizer.py:134-157 | how many ticks work before the guard (lines 176, 194, 213, 233, 274) fires, counted from the cursor each animation starts at: N−1 for bubble, selection and insertion, N for merge, 1 for quick (0 on an empty list) |
| Runs.BubbleRun | sortingAlgorithmsVisualizer.py:134-137 | after `k < N` bubble ticks from cursor 0: cursor `k`, timer running, same elements, last `k` positions settled and yellow |
| Runs.InsertionRun | sortingAlgorithmsVisualizer.py:139-142 | after `k < N` insertion ticks from cursor 1: cursor `k+1`, timer running, same elements, `list[0..k]` sorted, and from the first tick `k+1` bars pink then black |
| Runs.SelectionRun | sortingAlgorithmsVisualizer.py:144-147 | after `k < N` selection ticks from cursor 0: cursor `k`, timer running, same elements, `list[0..k-1]` sorted and holding the `k` smallest values, those bars cyan |
| Runs.MergeRun | sortingAlgorithmsVisualizer.py:149-152 | after `k <= N` merge ticks from cursor 0: cursor `k`, timer running, same elements, `list[0..k-1]` sorted, and from the first tick `k` bars gold then black |
| Runs.RunCompletes | sortingAlgorithmsVisualizer.py:134-157 | from the start cursor, exactly N−1 (bubble, selection, insertion), N (merge) or 1 (quick) ticks work; then the guard fires and only stops the timer; the list is then sorted and a permutation of the start |
| Palette.Fill | sortingAlgorithmsVisualizer.py:105 | `[color] * n`, as in the blue list of line 105 and the colour lists of lines 209, 270 and 301 |
| Visualizer.IsSample | sortingAlgorithmsVisualizer.py:104 | what `random.sample(range(1, 100), size)` can return: `size` distinct values, each in 1..99 |
| Visualizer.Stepper.constructor | sortingAlgorithmsVisualizer.py:18-20 | a new stepper has no bars, cursor 0 and the timer stopped, on freshly allocated arrays |
| Visualizer.Stepper.CreateList | sortingAlgorithmsVisualizer.py:100-105 | a size in 0..99 replaces the bars by the sample, all blue, and keeps cursor and timer; any other size changes nothing and reports failure |
| Visualizer.Stepper.StartAnimation | sortingAlgorithmsVisualizer.py:118-157 | sets the cursor to 1 for insertion sort and 0 otherwise, and starts the timer |
| Visualizer.Stepper.StopAnimation | sortingAlgorithmsVisualizer.py:306-307 | stops the timer and changes nothing else |
| Visualizer.Stepper.Reset | sortingAlgorithmsVisualizer.py:309-313 | leaves no bars, cursor 0 and the timer stopped, whatever the state before, so a second reset changes nothing; the new empty lists are fresh arrays, shared with nothing |
| Visualizer.Stepper.Tick | sortingAlgorithmsVisualizer.py:159-173 | one timer tick of the chosen algorithm yields `Steps.Step` of the old state, in the same list array, with the colour array either kept or freshly allocated |
| Visualizer.Stepper.BubbleSortStep | sortingAlgorithmsVisualizer.py:175-191 | the in-place pass yields `Steps.BubbleStep` of the old state |
| Visualizer.Stepper.InsertionSortStep | sortingAlgorithmsVisualizer.py:193-210 | the in-place insertion yields `Steps.InsertionStep` of the old state; the list array is kept, the colour list is kept or a fresh array |
| Visualizer.Stepper.MinIndexFrom | sortingAlgorithmsVisualizer.py:217-220 | the scan returns the first index of the minimum of `list[c..]` |
| Visualizer.Stepper.SelectionSortStep | sortingAlgorithmsVisualizer.py:212-230 | the in-place selection yields `Steps.SelectionStep` of the old state |
| Visualizer.Stepper.MergeSortStep | sortingAlgorithmsVisualizer.py:232-271 | the slice assignment of the merge-sorted prefix yields `Steps.MergeStep` of the old state; the list array is kept, the colour list is kept or a fresh array |
| Visualizer.Stepper.QuickSortStep | sortingAlgorithmsVisualizer.py:273-302 | the in-place quicksort yields `Steps.QuickStep` of the old state; the list array is kept, the colour list is kept or a fresh array |
| Visualizer.InsertInPlace | sortingAlgorithmsVisualizer.py:198-204 | the shifting `while` loop and the final `list[j+1] = key` produce `InsertionRound.Insert` of the old list |
| Visualizer.InsertLands | sortingAlgorithmsVisualizer.py:199-204 | where the shifting loop stops, the shifted list it leaves is the inserted list |
| Visualizer.AssignPrefix | sortingAlgorithmsVisualizer.py:265 | the slice assignment overwrites the prefix and keeps the rest |
| Visualizer.PaintSplit | sortingAlgorithmsVisualizer.py:209 | `[front] * k + [back] * (n - k)` builds `k` front colours followed by `n-k` back colours |
| Visualizer.PaintAll | sortingAlgorithmsVisualizer.py:301 | `[color] * n` builds `n` copies of one colour |

## Left out

- Widget construction and layout: `__init__` apart from the timer, and the `create_*_panel` methods (sortingAlgorithmsVisualizer.py:11-94). They are user interface only.
- The `QTimer` itself and `update_animation_speed` (sortingAlgorithmsVisualizer.py:96-98). Only a `running` flag is kept: starting an animation sets it, and the step guards, `stop_animation` and `reset` (sortingAlgorithmsVisualizer.py:310) clear it. Ticks are delivered by calling `Tick`.
- `show_graph`, matplotlib and `QApplication.processEvents()`. Rendering is a foreign call, so only the state after each step is modelled, and the colours drawn mid-step are not: bubble, insertion, selection, merge and quick sort render before their final colour assignment. `processEvents` also dispatches pending user events in the middle of a tick, after rendering and before the final colour assignment and cursor update (sortingAlgorithmsVisualizer.py:187-191, 206-210, 226-230, 267-271, 298-302). A `reset` clicked there would run between the two halves of the tick; in a bubble tick, line 190 would then index an empty colour list and raise `IndexError`. The model treats each tick as atomic, so these interleavings are not modelled.
- `random.sample`: the sample is a parameter of `CreateList`, required to be `size` distinct values in 1..99. The random choice itself is not modelled.
- `int(self.size_input.text())` and the `QIntValidator`: the size arrives as an integer. The `ValueError` for text that is not a number is not modelled.
- The combo-box string dispatch and the `print` for an unknown name (sortingAlgorithmsVisualizer.py:119-132, 160-173). `Algorithm` has exactly the five algorithms, so that case cannot arise.
- What PyQt does with the exception `create_list` raises for a size outside 0..99 (report it, or end the application). The model keeps the state unchanged and returns `created == false`.
- Visualizer.Stepper.constructor: the Python object has no `list` or `colors` attribute until the first `create_list` or `reset`, and no `animation_step` until an animation is started or `reset` is called. Starting an animation before `create_list` only sets the cursor and starts the timer; the `AttributeError` comes at the first tick, when the step reads `len(self.list)` (sortingAlgorithmsVisualizer.py:176, 194, 213, 233, 274). The model's constructor starts instead from an empty list, cursor 0 and the timer stopped.
