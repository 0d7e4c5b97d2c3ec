# cpp-sort fixed-size sorting networks: `sort2` and `sort31`

This project models two of cpp-sort's fixed-size sorting networks in Dafny and proves them correct.

- `sorting_network_sorter_impl<2u>` sorts two elements with a single `swap_if`.
- `sorting_network_sorter_impl<31u>` sorts 31 elements in three steps:
  - it sorts the first 16 elements with the 16-element network;
  - it sorts the next 15 with the 15-element network;
  - it merges the two sorted halves with 64 `swap_if` calls.

Both sorters receive an iterator `first`, an unnamed end iterator and a comparator `compare`. Neither one reads the end iterator.

How the model is laid out:

- `Order`: comparators. A comparator is a function `less(x, y)`. The C++ requirement on `Compare` (a strict weak ordering) is a precondition. Total orders appear only where a property needs one: an already-sorted input is left exactly as it is.
- `CompareSwap`: `swap_if`.
  - As a function on sequences: `CompareExchange`, which exchanges `s[i]` and `s[j]` when `less(s[j], s[i])`.
  - As a method on an array: `SwapIf`, whose postcondition ties the new contents to that function.
- `SortTwo`: `Sort2`, the two-element network, as a method on an array.
- `MergeNetwork`: the merge of `sort31`. The 64 calls are grouped into seven stage functions, in source order:
  - `Residue0`: the wires ≡ 0 (mod 4);
  - `Residue2`: the wires ≡ 2 (mod 4);
  - `EvenStride2`: the even wires at distance 2;
  - `Residue1` and `Residue3`: the wires ≡ 1 and ≡ 3 (mod 4);
  - `OddStride2`: the odd wires at distance 2;
  - `FinalAdjacent`: the last layer, pairs `(2k - 1, 2k)`.
- `ZeroOne`: the merge on zeros and ones. Each stage is proved to turn sorted runs of bits into the runs the next stage needs.
- `ZeroOnePrinciple`: the 0-1 principle for this merge. It carries the bit-level result over to every strict weak ordering.
- `SortThirtyOne`: `Sort31`, with the 64 `SwapIf` calls written out one by one in source order. It also holds `SortRange`, the stand-in for the 16- and 15-element networks.

## Model

| member | source | states |
|---|---|---|
| CompareSwap.SwapIf | include/cpp-sort/detail/sorting_network/sort2.h:47 | `swap_if` on two array elements: the new array contents are the compare-exchange of the old ones at `i` and `j` |
| CompareSwap.CompareExchangePermutes | include/cpp-sort/detail/sorting_network/sort2.h:47 | a `swap_if` only rearranges elements: the multiset is unchanged |
| CompareSwap.CompareExchangeFrame | include/cpp-sort/detail/sorting_network/sort2.h:47 | a `swap_if` writes no element other than its two operands |
| CompareSwap.CompareExchangeOrders | include/cpp-sort/detail/sorting_network/sort2.h:47 | under a strict weak ordering, after `swap_if(x, y)` the element at `y` is not less than the one at `x` |
| CompareSwap.CompareExchangeInOrder | include/cpp-sort/detail/sorting_network/sort2.h:47 | a pair already in order is left untouched, whatever the comparator |
| CompareSwap.CompareExchangeUnchangedIff | include/cpp-sort/detail/sorting_network/sort2.h:47 | a `swap_if` leaves the sequence unchanged if and only if its pair is already in order |
| CompareSwap.CompareExchangeIdempotent | include/cpp-sort/detail/sorting_network/sort2.h:47 | running the same `swap_if` twice gives the same result as running it once |
| SortTwo.Sort2 | include/cpp-sort/detail/sorting_network/sort2.h:44-48 | sorts `a[0], a[1]`: the pair ends ordered, is a permutation of the input pair, `a[2..]` is untouched, and an ordered pair is left as it was |
| MergeNetwork.Residue0Frame | include/cpp-sort/detail/sorting_network/sort31.h:50-58 | the first stage writes only wires 0, 4, ..., 28 |
| MergeNetwork.Residue2Frame | include/cpp-sort/detail/sorting_network/sort31.h:59-67 | the second stage writes only wires 2, 6, ..., 30 |
| MergeNetwork.EvenStride2Frame | include/cpp-sort/detail/sorting_network/sort31.h:68-74 | the third stage writes only the even wires 2..28 |
| MergeNetwork.Residue1Frame | include/cpp-sort/detail/sorting_network/sort31.h:75-83 | the fourth stage writes only wires 1, 5, ..., 29 |
| MergeNetwork.Residue3Frame | include/cpp-sort/detail/sorting_network/sort31.h:84-91 | the fifth stage writes only wires 3, 7, ..., 27 |
| MergeNetwork.OddStride2Frame | include/cpp-sort/detail/sorting_network/sort31.h:92-98 | the sixth stage writes only the odd wires 3..29 |
| MergeNetwork.FinalAdjacentFrame | include/cpp-sort/detail/sorting_network/sort31.h:99-113 | the last stage writes only wires 1..30 |
| MergeNetwork.Residue0Permutes | include/cpp-sort/detail/sorting_network/sort31.h:50-58 | the first stage is a permutation |
| MergeNetwork.Residue2Permutes | include/cpp-sort/detail/sorting_network/sort31.h:59-67 | the second stage is a permutation |
| MergeNetwork.EvenStride2Permutes | include/cpp-sort/detail/sorting_network/sort31.h:68-74 | the third stage is a permutation |
| MergeNetwork.Residue1Permutes | include/cpp-sort/detail/sorting_network/sort31.h:75-83 | the fourth stage is a permutation |
| MergeNetwork.Residue3Permutes | include/cpp-sort/detail/sorting_network/sort31.h:84-91 | the fifth stage is a permutation |
| MergeNetwork.OddStride2Permutes | include/cpp-sort/detail/sorting_network/sort31.h:92-98 | the sixth stage is a permutation |
| MergeNetwork.FinalAdjacentPermutes | include/cpp-sort/detail/sorting_network/sort31.h:99-113 | the last stage is a permutation |
| MergeNetwork.Residue0InOrder | include/cpp-sort/detail/sorting_network/sort31.h:50-58 | on wires already in order, the first stage changes nothing |
| MergeNetwork.Residue2InOrder | include/cpp-sort/detail/sorting_network/sort31.h:59-67 | on wires already in order, the second stage changes nothing |
| MergeNetwork.EvenStride2InOrder | include/cpp-sort/detail/sorting_network/sort31.h:68-74 | on wires already in order, the third stage changes nothing |
| MergeNetwork.Residue1InOrder | include/cpp-sort/detail/sorting_network/sort31.h:75-83 | on wires already in order, the fourth stage changes nothing |
| MergeNetwork.Residue3InOrder | include/cpp-sort/detail/sorting_network/sort31.h:84-91 | on wires already in order, the fifth stage changes nothing |
| MergeNetwork.OddStride2InOrder | include/cpp-sort/detail/sorting_network/sort31.h:92-98 | on wires already in order, the sixth stage changes nothing |
| MergeNetwork.FinalAdjacentInOrder | include/cpp-sort/detail/sorting_network/sort31.h:99-113 | on wires already in order, the last stage changes nothing |
| MergeNetwork.FinalAdjacentLayer | include/cpp-sort/detail/sorting_network/sort31.h:99-113 | the last stage compares only the neighbours `(2k - 1, 2k)`, k = 1..15: each pair becomes its smaller then its larger element, and wire 0 and everything from 31 on keep their values |
| MergeNetwork.MergePermutes | include/cpp-sort/detail/sorting_network/sort31.h:50-113 | the 64-comparison merge is a permutation |
| MergeNetwork.MergeFrame | include/cpp-sort/detail/sorting_network/sort31.h:50-113 | the merge leaves every element from index 31 on unchanged |
| MergeNetwork.MergeSortedUnchanged | include/cpp-sort/detail/sorting_network/sort31.h:50-113 | under any comparator, a range whose 31 elements are sorted goes through the merge unchanged |
| ZeroOne.Residue0Run | include/cpp-sort/detail/sorting_network/sort31.h:50-58 | on bits, the first stage merges the sorted class of wires 0, 4, 8, 12 with the sorted class of wires 16, 20, 24, 28 into one sorted class of eight wires |
| ZeroOne.Residue2Run | include/cpp-sort/detail/sorting_network/sort31.h:59-67 | on bits, the second stage merges the sorted classes of wires 2 + 4k and 18 + 4k into one sorted class |
| ZeroOne.EvenStride2Run | include/cpp-sort/detail/sorting_network/sort31.h:68-74 | on bits, the sorted class of wires 0 + 4k with `x` zeros and the sorted class of wires 2 + 4k with `y` zeros, where `y <= x <= y + 2` (the class of wire 0 has at least as many zeros, and at most two more), become one sorted run of `x + y` zeros over all 16 even wires |
| ZeroOne.Residue1Run | include/cpp-sort/detail/sorting_network/sort31.h:75-83 | on bits, the fourth stage merges the sorted classes of wires 1 + 4k and 17 + 4k into one sorted class |
| ZeroOne.Residue3Run | include/cpp-sort/detail/sorting_network/sort31.h:84-91 | on bits, the fifth stage merges the sorted class of wires 3 + 4k (four wires) with the class of wires 19 + 4k (three wires) into one sorted class of seven |
| ZeroOne.OddStride2Run | include/cpp-sort/detail/sorting_network/sort31.h:92-98 | on bits, the sorted class of wires 1 + 4k with `x` zeros and the sorted class of wires 3 + 4k with `y` zeros, where `y <= x <= y + 2`, become one sorted run of `x + y` zeros over all 15 odd wires |
| ZeroOne.FinalAdjacentRun | include/cpp-sort/detail/sorting_network/sort31.h:99-113 | on bits, sorted even wires with `x` zeros and sorted odd wires with `y` zeros, where `y <= x <= y + 2` (the even wires have at least as many zeros, and at most two more), come out of the last stage as one sorted run of `x + y` zeros over all 31 wires |
| ZeroOne.MergeSortsBits | include/cpp-sort/detail/sorting_network/sort31.h:50-113 | on bits, two sorted halves (16 and 15 wires) come out of the merge as 31 sorted wires |
| ZeroOnePrinciple.ThresholdCompareExchange | include/cpp-sort/detail/sorting_network/sort31.h:50 | comparing each element with a pivot commutes with one `swap_if`, under any strict weak ordering |
| ZeroOnePrinciple.ThresholdMerge | include/cpp-sort/detail/sorting_network/sort31.h:50-113 | comparing each element with a pivot commutes with the whole merge |
| ZeroOnePrinciple.MergeSortsThreshold | include/cpp-sort/detail/sorting_network/sort31.h:47-113 | against every pivot, the merge of two sorted halves gives a sorted sequence of bits |
| ZeroOnePrinciple.MergeSorts | include/cpp-sort/detail/sorting_network/sort31.h:50-113 | under any strict weak ordering, the merge sorts the first 31 elements of every input whose first 16 and next 15 elements are sorted |
| Order.SortedPermutationUnique | include/cpp-sort/detail/sorting_network/sort31.h:47-48 | under a total order, two sorted arrangements of the same elements are equal |
| SortThirtyOne.SortRange | include/cpp-sort/detail/sorting_network/sort31.h:47-48 | the 16- and 15-element sorters' contract: `a[lo..hi]` ends sorted and is a permutation of what it held, nothing outside the range changes, and under a total order a sorted range is left as it is |
| SortThirtyOne.HalvesSorted | include/cpp-sort/detail/sorting_network/sort31.h:47-48 | given the two half sorters' contracts, including the second sorter's frame (it leaves `a[..16]` as the first sorter left it): after both half sorts, both halves are sorted, the 31 elements are a permutation of the input's, and the rest is untouched |
| SortThirtyOne.HalvesUnchanged | include/cpp-sort/detail/sorting_network/sort31.h:47-48 | under a total order, the half sorts leave a sorted input as it is |
| SortThirtyOne.MergeCorrect | include/cpp-sort/detail/sorting_network/sort31.h:50-113 | from two sorted halves the merge produces 31 sorted elements, as a permutation of them, touching nothing beyond them |
| SortThirtyOne.Sort31 | include/cpp-sort/detail/sorting_network/sort31.h:44-113 | `a[..31]` ends sorted and is a permutation of what it held; `a[31..]` is untouched; under a total order a sorted input is left unchanged |

## Left out

- The end iterator of both sorters is unnamed in the source and never read. It therefore has no parameter in the model; the array only has to hold the 2 or 31 elements the network accesses.
- `swap_if` itself is not part of this model. Its observable behaviour is modelled instead: an exchange exactly when `compare(y, x)` holds. How that behaviour is obtained (branchless code for arithmetic types, `std::swap`) is out of scope, and so is any other performance concern.
- SortThirtyOne.SortRange: the 16- and 15-element networks are not part of this model. Dafny needs a body for every method, so `SortRange` stands in for them: an insertion network of neighbouring `SwapIf` calls that proves the contract the merge relies on. It does not reproduce those networks' actual comparison sequences.
- Projections, and comparators that are not strict weak orderings, are not modelled: every sorting contract requires `StrictWeakOrder(less)`.
- include/cpp-sort/detail/spreadsort/float_sort.h is not part of this model. It holds two things. `float_mem_cast` reinterprets a float as a same-size integer. Three `float_sort` overloads pass the float range unchanged to one of two engines, both included at float_sort.h:30-31: to `pdqsort` when it has fewer than `detail::min_sort_size` elements, and to the spreadsort engine `detail::float_sort` otherwise. Neither engine is part of this model, and floating point is out of scope.
- The test program under testsuite/ is not modelled, because it runs code and models nothing.
