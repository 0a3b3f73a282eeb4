# Bin packing heuristics

`binPack.cpp` solves one-dimensional bin packing approximately. It takes a
list of item weights and a bin capacity `c`, and returns how many bins a
heuristic uses. Three heuristics share one piece of bookkeeping: a local
array `bin_rem` of remaining capacities, whose first `res` slots are the
open bins.

- **First-Fit** (`firstFit`) puts each item, in input order, into the
  lowest-numbered open bin with room. When no open bin has room, it opens a
  new bin.
- **First-Fit-Decreasing** (`firstFitDec`) sorts the caller's weight array
  in place into non-increasing order, then runs First-Fit on it.
- **Best-Fit** (`bestFit`) puts each item into the open bin that it leaves
  with the least room, the lowest-numbered such bin on a tie. It scans from
  a sentinel leftover `c + 1`. When the leftover is still the sentinel after
  the scan, it opens a new bin.

The project has four modules:

- **`Bins`** (`bins.dfy`) describes the bookkeeping as functions on
  sequences.
  - `Pack(rule, ws, c)` is the list of remaining capacities after the items
    `ws` have been placed one by one.
  - `FirstSlot` and `BestSlot` are the bin each rule chooses for the next
    item.
  - The module also proves what the heuristics guarantee about `Pack`.
- **`Ordering`** (`ordering.dfy`) defines non-increasing order.
  - `Descending` is a reference sort.
  - The module proves that a non-increasing permutation is unique.
- **`BinPack`** (`binpack.dfy`) holds the three routines as methods over
  arrays. The loop invariants tie the prefix `binRem[0..res)` to `Pack` on
  the items seen so far. As a result, every property proved of `Pack` holds
  of the bins the routines compute.
- **`Scenarios`** (`scenarios.dfy`) proves worked examples with capacity 10.

In the model, "valid input" means `c > 0` and every weight between 0 and
`c`. The routines themselves require nothing of the weights or the
capacity, because the code checks nothing. Only the lemmas whose property
depends on valid input require it.

Some behaviour of the code may be unexpected. The model follows the code
in each case:

- `firstFitDec` sorts the caller's array in place rather than a copy.
  `BinPack.FirstFitDec` states the new contents of the array.
- The code reports no errors and does not check its input. On weights
  outside `[0, c]`, Best-Fit's sentinel can make it skip a bin that has
  room. `Scenarios.SentinelSkipsRoomyBin` shows an example. `Bins.BestSlot`
  models exactly that behaviour.
- First-Fit-Decreasing does not always reach the counting bound. On the
  items 9, 8, 2, 2, 5, 4 with capacity 10 it uses four bins, not three.
  The 9 can share a bin with no other item, and the total of 30 would need
  three exactly full bins.

## Model

| member | source | states |
|---|---|---|
| Bins.FirstSlot | binPack.cpp:120-129 | the chosen bin has room for the item and every lower-numbered bin has less room than the item; it is the new bin only when no open bin has room |
| Bins.FirstSlotIs | binPack.cpp:122-128 | First-Fit's choice is unique: any bin, or the new bin, meeting "has room, every earlier bin too small" is the one chosen |
| Bins.BestSlot | binPack.cpp:199-214 | the chosen bin has room, its leftover is at most `c` (below the sentinel), no candidate leaves less room, and every earlier candidate leaves strictly more; the new bin is chosen exactly when no bin qualifies |
| Bins.BestSlotIs | binPack.cpp:205-213 | Best-Fit's choice is unique: the bin of least leftover that beats every earlier candidate strictly is the one chosen |
| Bins.Place | binPack.cpp:216-222 | the item goes into bin `k`, which loses its weight; when `k` is the number of open bins, a new bin with `c - w` left is appended after them, and only then does the number of bins grow |
| Bins.PlaceChangesOneBin | binPack.cpp:122-128 | placing an item changes only the chosen bin, which loses exactly the item's weight (a new bin starts from `c`); every other bin keeps its room |
| Bins.Pack | binPack.cpp:118-137 | at most one bin is opened per item, so there are at most as many bins as items, and there are no bins exactly when there are no items |
| Bins.PackSnoc | binPack.cpp:118-137 | the state after one more item is the state before it with that item placed in the chosen bin |
| Bins.OpensBinIff | binPack.cpp:131-136 | a new bin is opened if and only if no open bin has room for the item; otherwise the number of bins is unchanged (for Best-Fit, on valid input) |
| Bins.SentinelNeverBinds | binPack.cpp:201-220 | on valid input the sentinel `c + 1` never excludes a bin: Best-Fit opens a new bin exactly when no bin has room, and otherwise chooses a least-leftover bin among all bins with room, the earliest one on a tie |
| Bins.PackInRange | binPack.cpp:125-126 | on valid input every open bin keeps a remaining capacity between 0 and `c` |
| Bins.PackConserves | binPack.cpp:118-137 | weight is conserved: the sum over the bins of `c - remaining` equals the total weight of the items placed |
| Bins.CountLowerBound | binPack.cpp:108-140 | on valid input the bins used can hold all the weight: total weight is at most bins times `c` |
| Bins.PlaceNoTwoMergeable | binPack.cpp:131-136 | placing an item keeps every two bins unmergeable, provided a new bin is opened only when no bin has room |
| Bins.PackNoTwoMergeable | binPack.cpp:186-226 | on valid input, under either rule, any two open bins together hold more than `c` |
| Bins.MoreThanHalfFull | binPack.cpp:108-140 | two or more pairwise unmergeable bins are on average more than half full |
| Bins.LessThanTwiceLowerBound | binPack.cpp:108-140 | on valid input with two or more bins, First-Fit and Best-Fit use fewer than twice total weight over `c` bins |
| Bins.AllFullItems | binPack.cpp:131-136 | when every item weighs exactly `c`, each item gets its own bin and every bin is left with no room |
| Bins.SumPermutation | binPack.cpp:162 | the total weight does not depend on the order of the items |
| Bins.ValidInputPermutation | binPack.cpp:162 | reordering valid items keeps them valid |
| Ordering.Insert | binPack.cpp:162 | inserting an element gives one more element and the same multiset plus that element |
| Ordering.InsertSorted | binPack.cpp:162 | inserting into a non-increasing sequence keeps it non-increasing |
| Ordering.Descending | binPack.cpp:162 | the reference sort returns a non-increasing permutation of its input |
| Ordering.SortedUnique | binPack.cpp:162 | two non-increasing sequences with the same multiset of elements are equal |
| Ordering.DescendingIs | binPack.cpp:162 | any non-increasing permutation of the items is `Descending` of them |
| Ordering.DescendingIgnoresOrder | binPack.cpp:162 | the sorted order depends only on the multiset of items, not on their input order |
| BinPack.FirstFit | binPack.cpp:108-140 | returns the number of bins of `Pack(First, …)` on the first `n` weights, between 0 and `n` |
| BinPack.FirstFitItem | binPack.cpp:120-136 | one iteration: the open bins afterwards are the old ones with the item placed by First-Fit's rule, and the new count is their number |
| BinPack.FirstFitDec | binPack.cpp:159-166 | leaves the first `n` weights sorted non-increasingly, leaves the rest of the array unchanged, and returns First-Fit's bin count on the sorted items, between 0 and `n` |
| BinPack.SortDescending | binPack.cpp:162 | the first `n` elements end up non-increasing and a permutation of the old ones; the rest of the array is unchanged |
| BinPack.SinkLast | binPack.cpp:162 | extends a non-increasing prefix by one element, keeping the multiset of the first `n` elements |
| BinPack.ScanBest | binPack.cpp:199-214 | `min` stays at the sentinel exactly when Best-Fit's rule opens a new bin; otherwise `bi` is the bin Best-Fit's rule chooses and `min` is its leftover |
| BinPack.BestFit | binPack.cpp:186-226 | returns the number of bins of `Pack(Best, …)` on the first `n` weights, between 0 and `n` |
| BinPack.BestFitItem | binPack.cpp:199-222 | one iteration: the open bins afterwards are the old ones with the item placed by Best-Fit's rule, and the new count is their number |
| BinPack.FirstFitDecBounds | binPack.cpp:159-166 | on valid input First-Fit-Decreasing uses at least total weight over `c` bins and, from two bins on, fewer than twice that |
| BinPack.FirstFitDecIgnoresOrder | binPack.cpp:159-166 | First-Fit-Decreasing uses the same number of bins for any ordering of the same items |
| Scenarios.FirstFitTwoFullBins | binPack.cpp:108-140 | 4, 8, 1, 4, 2, 1 with capacity 10 fill two bins exactly under First-Fit |
| Scenarios.BestFitTwoFullBins | binPack.cpp:186-226 | the same items under Best-Fit also fill two bins exactly, with the 1 in the tighter bin |
| Scenarios.FirstFitFourBins | binPack.cpp:108-140 | 9, 8, 2, 2, 5, 4 with capacity 10 take four bins under First-Fit |
| Scenarios.DescendingExample | binPack.cpp:162 | 9, 8, 2, 2, 5, 4 sort to 9, 8, 5, 4, 2, 2 |
| Scenarios.FirstFitSortedFourBins | binPack.cpp:164-165 | First-Fit on 9, 8, 5, 4, 2, 2 ends with bins holding 1, 0, 1 and 8 units of room |
| Scenarios.FirstFitDecFourBins | binPack.cpp:159-166 | First-Fit-Decreasing on 9, 8, 2, 2, 5, 4 with capacity 10 takes four bins, one above the counting bound |
| Scenarios.SentinelSkipsRoomyBin | binPack.cpp:202-219 | with a weight of -5 then 0, Best-Fit opens a second bin because the leftover 15 is not below the sentinel 11, while First-Fit uses one bin |

## Left out

- `main` (binPack.cpp:34-89) is not modelled. It is file input and console output. Its read loop `j <= n` writes one element past the array. Its `eof` loop can repeat the test cases.
- The library sort (binPack.cpp:162) is replaced by an insertion sort, `BinPack.SortDescending`. Its contract fixes the result: a non-increasing permutation is unique (`Ordering.SortedUnique`). The library's own algorithm is not modelled.
- Machine integers are not modelled. Weights, capacities and counts are unbounded integers, so the overflow of `c + 1` or of `c - weight[i]` at the ends of the `int` range is not represented.
- `bin_rem` is a variable-length array on the stack in the source. The model allocates it as a fresh array of `n` elements.
- The order in which `main` evaluates the three calls is not modelled. It only matters because `firstFitDec` sorts the array that `firstFit` later reads.
- The model makes no claim that First-Fit-Decreasing uses at most as many bins as First-Fit. The code does not promise it, and it is false on some inputs.
- Bins.CountLowerBound: the counting bound is stated as "total weight is at most bins times `c`". That is the same as "bins is at least the total weight divided by `c`, rounded up" for `c > 0`, but it is not written with division.
- BinPack.ScanBest, BinPack.FirstFitItem, BinPack.BestFitItem: these split each outer loop of the source into a method per item. The statements and their order are unchanged.
