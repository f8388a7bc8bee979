# Bar cutting allocation engine, modelled in Dafny

This project models the allocation engine of a one-dimensional cutting-stock
helper. A client asks for pieces: lengths with counts. The engine cuts them
from stock bars that all have the same length. It expands the request into a
pool with one entry per physical piece and sorts the pool in descending order.
It then cuts one bar at a time until the pool is empty. Each bar is filled as
fully as possible with a 0/1 subset-sum dynamic program. The program records
back-pointers; walking them recovers the pool positions used, and those
positions are popped from the pool from highest to lowest. The engine returns
the number of bars, each bar's composition and waste, and the total waste. A
reporting step groups identical bars into cutting patterns with counts.

Everything is modelled on the quantized integer lengths (lengths times the
scale, rounded), which the engine uses throughout. The modules follow the
engine's structure:

- `Pool` covers expansion of (length, count) pairs, the descending sort, and
  sums over sequences and multisets.
- `Selection` covers selections, meaning strictly decreasing lists of pool
  positions as the walk back produces them. It also covers `pop`, and a
  reference definition of removing a set of positions.
- `SubsetSum` covers filling the table, the largest reachable sum, and the
  walk back.
- `Allocator` covers one pass of the `while items` loop and the whole
  `allocate_bars`. It carries a ghost trace of the pool before each bar and
  of the positions each bar took.
- `Patterns` covers the pattern table of `format_instructions_grouped`.

## Model

| member | source | states |
|---|---|---|
| Pool.Copies | cut_problem.py:14 | `[x] * n` holds exactly max(n, 0) entries, all equal to x |
| Pool.ExpandCounts | cut_problem.py:12-14 | `Expand`, the pool built by the loop, holds one entry per requested piece: its size is the sum of the (non-negative parts of the) counts over the pairs `zip` visits, and each length occurs as often as the counts of the pairs naming it add up to |
| Pool.ExpandMembers | cut_problem.py:12-14 | every pooled piece comes from a visited pair with that length and a positive count |
| Pool.SortDesc | cut_problem.py:17 | the sorted pool is non-increasing and a permutation of the unsorted pool |
| Pool.SortedUnique | cut_problem.py:17 | two non-increasing orderings of the same multiset are equal, so any descending sort gives the same pool as the model |
| Pool.SortDescOfSorted | cut_problem.py:45 | sorting a list that is already descending leaves it unchanged |
| Pool.MSumOfSeq | cut_problem.py:44-47 | a bar's length total as a multiset of lengths equals the sum of the popped lengths, whatever their order |
| Selection.RemoveAtFacts | cut_problem.py:46 | `RemoveAt`, the model of `pop(i)`, shortens the pool by one, removes exactly the entry at i, leaves the entries below i in place, and keeps a descending pool descending |
| Selection.PopAll | cut_problem.py:44-47 | popping a descending list of positions one after another removes as many entries as positions, yields the entries at those positions of the original pool in that order, loses and invents nothing, and keeps the pool descending |
| Selection.RemoveAtWithout | cut_problem.py:45-46 | popping the highest position first agrees with removing it from the original pool, for any positions still to be removed below it |
| Selection.PopAllRemovesExactly | cut_problem.py:44-47 | the pool left after the pops is the original pool with exactly the chosen positions removed and every other entry in its original order |
| SubsetSum.ReachStep | cut_problem.py:29-31 | one step of the downward sweep over w marks w exactly when w becomes a sum using the current position, and disturbs no sum that does not yet use it |
| SubsetSum.LinkStep | cut_problem.py:30-33 | recording `prev_w[w] = w - p` and `prev_idx[w] = idx` keeps every pointer aimed at a reachable smaller sum that a strictly lower position reached |
| SubsetSum.Relax | cut_problem.py:28-33 | after one position's downward sweep, the table marks exactly the sums of sub-multisets of the positions so far, each item used at most once |
| SubsetSum.FillTable | cut_problem.py:23-33 | after all positions, `dp[w]` holds exactly when the recurrence reaches w; every sum of distinct pool positions that fits the capacity is marked; every marked sum other than 0 points at a positive piece at a lower position than the sum it extends, so walking back always ends at 0 |
| SubsetSum.SelectionReachable | cut_problem.py:28-33 | every set of distinct positions is reached by the table's recurrence (completeness) |
| SubsetSum.ReachableSelection | cut_problem.py:28-33 | every sum the recurrence reaches is the sum of some set of distinct positions (soundness) |
| SubsetSum.ReachableIffSelection | cut_problem.py:28-33 | the recurrence and "some set of distinct positions sums to w" agree in both directions |
| SubsetSum.LargestReachable | cut_problem.py:35 | `w_max` is a reachable sum and no larger sum up to the capacity is reachable |
| SubsetSum.Reconstruct | cut_problem.py:37-42 | walking the pointers back from `w_max` collects distinct positions in strictly decreasing order, each holding a positive piece, and their pieces sum to `w_max` |
| SubsetSum.PackBar | cut_problem.py:23-42 | one bar's positions sum to `w_max`, which is at most the capacity and at least every other sum of distinct positions that fits; no position is chosen exactly when every remaining piece is zero or longer than a bar |
| Allocator.SelectionSorted | cut_problem.py:45 | the walk back already lists positions in descending order |
| Allocator.PoolFits | cut_problem.py:12-17 | when every requested piece is positive and fits a bar, so does every entry of the sorted pool |
| Allocator.CutBar | cut_problem.py:23-55 | one pass cuts a maximally full bar from the pool at the positions it returns: the bar holds exactly the pieces there; the pool left is the old pool without those positions, still descending; the bar's pieces plus its waste equal the capacity; no position is taken exactly when no piece is positive and fits, and otherwise the waste is below the capacity |
| Allocator.OversizedStalls | cut_problem.py:22-42 | when every remaining piece is longer than a bar, a pass takes no position, leaves the pool unchanged and records an empty bar wasting the whole capacity, so the loop repeats the same pass forever |
| Allocator.HistoryExtend | cut_problem.py:52-55 | appending a bar cut from the current pool extends the record of which pool each bar was cut from |
| Allocator.AppendBar | cut_problem.py:50-55 | appending a bar adds its pieces to all pieces cut and its waste to the total waste |
| Allocator.InitialProgress | cut_problem.py:10-20 | before the first pass the sorted pool holds every requested piece, each fits a bar, and no bar or waste is recorded |
| Allocator.StepKeepsProgress | cut_problem.py:22-55 | a pass keeps the loop's facts (conservation, per-bar fit, waste total, bar count bound) and strictly shrinks the pool |
| Allocator.NextBar | cut_problem.py:22-55 | the loop body cuts one bar, strictly shrinks the pool, and keeps the loop's facts |
| Allocator.WasteAccounts | cut_problem.py:49-50 | when every bar fits, the total waste plus the total length of all pieces equals one capacity per bar |
| Allocator.Allocate | cut_problem.py:8-57 | the loop ends after at most one bar per piece; the bars together hold exactly the expanded pieces; every bar's pieces plus waste equal the capacity and the waste is below it; the total waste is `TotalWaste`, the bars' wastes added up as `total_waste += waste` does, and equals bars times capacity minus the total requested length; each bar was a fullest fill of the pool it was cut from |
| Patterns.Tally | cut_problem.py:70 | `patterns.get(key, 0) + 1` appends a new entry counting 1 when key is new, and otherwise keeps every pattern in place, bumps no entry but key's, and lowers no count |
| Patterns.TallyKeepsDistinct | cut_problem.py:69-70 | a tally keeps one entry per pattern and adds the key to the patterns seen |
| Patterns.TallyCounts | cut_problem.py:70 | a tally adds one to the key's count and leaves every other pattern's count unchanged |
| Patterns.TallySum | cut_problem.py:70 | a tally adds one to the total count |
| Patterns.GroupPatterns | cut_problem.py:63-70 | the pattern table has distinct keys, exactly the patterns of the bars; each pattern's count is the number of bars with that composition and waste; every count is positive; the counts add up to the number of bars |
| Patterns.GroupCountsBars | cut_problem.py:66-70 | the count on each entry of the table is the number of bars cut to that entry's pattern |
| Patterns.TallyOrder | cut_problem.py:70 | tallying the next bar keeps the table ordered by each pattern's first bar |
| Patterns.CompositionFixesWaste | cut_problem.py:67-69 | two bars cut to one capacity with the same pieces have the same waste, so the pattern key is decided by the composition alone |
| Patterns.GroupOrder | cut_problem.py:64-73 | the table lists patterns in the order their first bars were cut, the order in which an insertion-ordered dictionary is iterated |

## Left out

- Quantization (`int(round(x * scale))` of the bar length and each piece length, lines 9 and 13) is not modelled. Lengths and the capacity are integers already, so floating-point rounding is out of scope.
- The conversion back to real lengths is not modelled: `l / scale` for composition keys (line 53) and `(capacity - w_max) / scale` for the waste (line 49). Waste and total waste stay integers in quantized units; the total waste is the exact sum that the floating-point `total_waste` approximates.
- The `round(bar['waste'], 2)` in the grouping key (line 68) is not modelled, because the waste is already an exact integer.
- The grouping key is the bar itself (composition as a multiset of lengths, plus waste), not the sorted tuple of (length, count) pairs with the waste rounded to two decimals (lines 67-69). At a scale above 100 the rounding can give two different integer wastes the same key. Within one run the grouping still agrees, because a bar's composition fixes its waste (waste = capacity minus the sum of its pieces, `Patterns.CompositionFixesWaste`), so two bars get the same key exactly when their compositions are equal.
- The text rendering of the pattern table (lines 72-80) and the Streamlit user interface (lines 1-3 and 83-169) are not modelled. They are I/O and string formatting.
- Allocate: requires every piece with a positive count to have a length that is positive and at most the capacity. The code has no guard against such pieces. A zero-length piece is never chosen by the table, and a piece longer than a bar never fits, so either one keeps `while items` running forever. `SubsetSum.PackBar` states exactly when a pass makes no progress, and `Allocator.OversizedStalls` shows the stall. The code raises no error for such pieces; the model states the requirement rather than adding an error path.
- Negative lengths are excluded by the same requirement. In the code they would make the table be read past its end.
- Global optimality of the number of bars is not claimed. The engine is greedy: it makes each bar as full as possible. Only that per-bar maximality is proved.
- The order in which `bar_count` lists its keys is not modelled. A bar's composition is a multiset, which only the grouping step reads, and it reads it sorted.
- The `scale` parameter is not modelled; lengths arrive already scaled. The cost of the tables (capacity + 1 entries each, rebuilt on every pass, growing with the scale) is not modelled either; the code places no limit on the capacity, and integers are unbounded here.
