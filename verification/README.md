# Linear search and early-exit bubble sort

This project models the two array algorithms of `main.go` in Dafny and proves
what they compute.

- `LinearSearch` scans an integer slice from the front and returns the index of
  the first element equal to the target, or `-1` when there is none.
- `BubbleSort` sorts an integer slice in place into non-decreasing order. Each
  outer pass compares neighbours `j` and `j + 1` for `j < n - i - 1` and swaps
  them when the left one is larger. A pass that swaps nothing ends the sort
  early.

Go slices are modelled as `seq<int>` values. `BubbleSort` returns the contents
the caller's slice holds after the in-place sort. `LinearSearch` receives the
slice by value, so the model cannot change it: the "read only" promise holds by
construction. The inner loop of `BubbleSort` is its own method, `Bubble.Pass`,
and the compare-and-swap step inside it is `Bubble.CompareAndSwap`. Both keep
the Go loop bounds, the swap condition `arr[j] > arr[j+1]` and the `swap` flag.
The outer loop keeps the `break` on a pass without swaps.

Go's `int` is 64 bits wide, but neither function does arithmetic on element
values; they only compare them. Index arithmetic (`n - i - 1`, `j + 1`) stays
within the slice length. Unbounded `int` is therefore exact here.

Modules:

- `Ordering` (`ordering.dfy`): sortedness predicates and the facts about them.
- `Search` (`search.dfy`): `LinearSearch`.
- `Bubble` (`bubble.dfy`): the sort, its inner pass and the lemmas that carry
  its loop invariants.
- `Scenario` (`scenario.dfy`): the sort-then-search run at the end of
  `chapter2`.

## Model

| member | source | states |
|---|---|---|
| Search.LinearSearch | main.go:10-17 | The result is `-1` exactly when the target does not occur. Otherwise it is a valid index holding the target, and no earlier index holds it. |
| Bubble.CompareAndSwap | main.go:24-27 | It swaps exactly when the left neighbour is larger, and then exchanges the two values. Every other position is unchanged and the multiset is kept. Afterwards the pair is in order, and a running maximum at `j` moves to `j + 1`. |
| Bubble.Pass | main.go:22-28 | One inner pass keeps the multiset and every position past `bound`. It leaves the largest of the first `bound + 1` elements at `bound`. The swap flag is set exactly when the pass changed the slice, which is exactly when some compared neighbour pair of the input was out of order. |
| Bubble.PassGrowsSuffix | main.go:21-28 | After outer pass `i`, the last `i + 1` positions hold the largest elements in sorted order, provided the last `i` did before the pass. |
| Bubble.PrefixStaysBelow | main.go:23-27 | A pass that only rearranges the unplaced prefix keeps every prefix element at or below every placed element. |
| Bubble.NoSwapMeansSorted | main.go:29-31 | If a pass finds all neighbours of the unplaced prefix in order, the whole slice is sorted. This is why the early `break` is sound. |
| Ordering.AdjacentToSorted | main.go:24 | Order between every pair of neighbours in a prefix implies order between every pair of positions in it. |
| Ordering.PlacedSuffixSorts | main.go:21 | When the outer loop runs all `n - 1` passes, at most one unplaced position is left, so the slice is sorted. |
| Bubble.BubbleSort | main.go:19-33 | The result is sorted in non-decreasing order. It is a permutation of the input with the same multiset and length. |
| Ordering.SortedPermutationUnique | main.go:19-33 | Two sorted arrangements of the same multiset are equal. So the sort's result is fully determined by its input. |
| Scenario.Chapter2 | main.go:47-50 | Sorting `[64,34,25,12,22,11,90]` yields `[11,12,22,25,34,64,90]`. Searching that result for `90` returns `6`. |

## Left out

- `main` (main.go:58-73): JSON decoding through `encoding/json`, `log.Fatalf` and printing are I/O and library code outside this model.
- In-place mutation and slice aliasing (main.go:19-33): `BubbleSort` returns the sorted contents instead of writing them into the caller's backing array, so the effect on other slices sharing that array is not modelled.
- `Kid` (main.go:53-56): a JSON target with no behaviour.
- `chapter2`'s printing and its `float64` conversion (main.go:35-39): output and floating point are not modelled.
- The fixed-width overflow demonstrations (main.go:40-46): they show Go's `byte`, `int32` and `uint64` wrap-around, but no function computes with them.
