# Vecchia nearest-neighbour search, modelled in Dafny

This project models the neighbour search that GPBoost uses to build the
Vecchia approximation of a Gaussian process
(`pkg/src/src/GPBoost/Vecchia_utils.cpp`). For every point i, the search
picks at most k of the points with a smaller index as its conditioning set.
The model has three parts:

- `sort_vectors_decreasing` is the bounded sorted buffer. It keeps k
  (squared distance, index) slots sorted ascending, whatever its name says.
  A candidate is offered by overwriting the last slot and re-running the
  insertion sort (module `SortedBuffer`).
- `find_nearest_neighbors_Veccia` is the exact finder. It reads a full
  distance matrix (module `ExactFinder`).
- `find_nearest_neighbors_Veccia_fast` is the fast finder (modules
  `Projection`, `FastSearch`, `NeighborDistances` and `FastFinder`). It:
  - orders the points by the sum of their coordinates (`sort_sum[r]` is
    the point of rank r);
  - inverts that order (`sort_inv_sum[p]` is the rank of point p);
  - gives the first k points all their predecessors;
  - runs a two-cursor search, with pruning, for every later point;
  - fills the distance row;
  - fills the symmetric matrix of distances between neighbours.
- `Common` holds the size-check outcome and `std::vector::resize`, which
  both finders use.
- `RankSearch` is the two-cursor search as evidently intended, walking the
  points in order of coordinate sum (see "## Findings").

Doubles become Dafny reals. The +infinity that the buffer starts from is a
separate value `Inf` of the key type `Ext`. A Euclidean distance (`sqrt`,
`lpNorm<2>`) is kept symbolically as `Root(sq)`, the root of its exact
squared distance. Arrays the source updates in place stay arrays, and its
vectors of vectors are arrays of sequences. A failed size `CHECK` returns
`CheckFailed` and writes nothing.

Where the documented behaviour and the code differ, the model follows the code:

- A point i with 0 < i <= k gets its predecessors `[0, ..., i - 1]` in index
  order, with i = k included. They are not sorted by distance.
- Slot 0 (point 0) is left exactly as the caller passed it. It is not
  emptied.
- `start_at` and `end_search_at` are not range-checked. Only the two size
  `CHECK`s are.
- An accepted offer re-runs the whole insertion sort over the buffer. On a
  sorted buffer this equals one backward pass of the new entry
  (`SortedBuffer.OfferOnSorted`).
- The two cursors do not walk the coordinate-sum order. They start at
  position `sort_sum[i]`, the point of rank i, and the candidate at
  position p is `sort_inv_sum[p]`, the rank of point p. So they walk the
  inverse permutation. Along it the sum gaps need not grow, and the pruning
  test can stop a direction before it reaches a nearer point. The model
  (`FastSearch`) follows the code. It proves that the result holds k
  distinct eligible points in ascending order of distance, not that they
  are the k nearest. `FastSearch.MissesNearest` gives an input where they
  are not.

## Model

| member | source | states |
|---|---|---|
| SortedBuffer.InsertBack | pkg/src/src/GPBoost/Vecchia_utils.cpp:22-28 | one pass of the inner `while`: the entry x, standing after t, moves left past every entry whose key is strictly larger, its index moving with it |
| SortedBuffer.InsertionSort | pkg/src/src/GPBoost/Vecchia_utils.cpp:21-29 | the outer `for`: that pass applied to each slot from the second on, left to right |
| SortedBuffer.Offer | pkg/src/src/GPBoost/Vecchia_utils.cpp:68-71 | a candidate whose key is below the last slot's overwrites that slot, key and index, and the buffer is sorted again; any other candidate leaves the buffer as it was |
| SortedBuffer.SortVectorsDecreasing | pkg/src/src/GPBoost/Vecchia_utils.cpp:18-30 | the first n (key, index) pairs become the insertion sort of the old pairs, the keys and indices moving together; slots from n on are untouched |
| SortedBuffer.InsertionPass | pkg/src/src/GPBoost/Vecchia_utils.cpp:22-28 | one pass of the inner `while` moves entry j left past every strictly larger key, which is one insertion step on the pairs |
| SortedBuffer.SwapDown | pkg/src/src/GPBoost/Vecchia_utils.cpp:24-26 | slots k - 1 and k of both arrays trade places and nothing else changes |
| SortedBuffer.InsertBackSplit | pkg/src/src/GPBoost/Vecchia_utils.cpp:23 | a pass leaves x at a split point: every key after it is strictly larger, and the key just before it is not |
| SortedBuffer.InsertBackStable | pkg/src/src/GPBoost/Vecchia_utils.cpp:23 | equal keys are never swapped: entries whose key is not above x's keep their slots, and x lands behind them |
| SortedBuffer.InsertBackSorted | pkg/src/src/GPBoost/Vecchia_utils.cpp:22-28 | on a sorted prefix, a pass gives a sorted sequence with the same pairs plus x |
| SortedBuffer.InsertionSortSorted | pkg/src/src/GPBoost/Vecchia_utils.cpp:18-30 | the sort's output is sorted, has the input's length, and is a permutation of the input pairs |
| SortedBuffer.InsertionSortOfSorted | pkg/src/src/GPBoost/Vecchia_utils.cpp:18-30 | sorting an already sorted buffer changes nothing |
| SortedBuffer.OfferOnSorted | pkg/src/src/GPBoost/Vecchia_utils.cpp:68-72 | on a sorted buffer, overwriting the last slot and re-sorting equals one backward pass of the new entry |
| SortedBuffer.OfferSplit | pkg/src/src/GPBoost/Vecchia_utils.cpp:68-72 | an accepted offer inserts x at a position p no later than the number of finite slots, drops the old last slot, and stays sorted |
| SortedBuffer.OfferFilled | pkg/src/src/GPBoost/Vecchia_utils.cpp:68-72 | an accepted finite offer keeps the buffer sorted, adds one finite slot unless the buffer was full, and never raises the last key |
| SortedBuffer.OfferMembers | pkg/src/src/GPBoost/Vecchia_utils.cpp:68-72 | after an accepted offer, x is among the finite slots and nothing else new is; only the old last entry can leave, and only from a full buffer; distinct indices stay distinct |
| SortedBuffer.OfferInPlace | pkg/src/src/GPBoost/Vecchia_utils.cpp:68-72 | the candidate is taken exactly when its key is below the last slot's, and the arrays then hold the buffer after the offer |
| Geometry.Sum | pkg/src/src/GPBoost/Vecchia_utils.cpp:96 | the sum of a point's coordinates |
| Geometry.SqDist | pkg/src/src/GPBoost/Vecchia_utils.cpp:157 | the squared Euclidean distance of two points, the sum of their squared coordinate differences (`squaredNorm`) |
| Geometry.Norm | pkg/src/src/GPBoost/Vecchia_utils.cpp:206 | the Euclidean distance of two points (`lpNorm<2>`), kept as the root of their squared distance |
| Geometry.SqDistNonNegative | pkg/src/src/GPBoost/Vecchia_utils.cpp:157 | a squared distance is never negative |
| Geometry.SqDistSymmetric | pkg/src/src/GPBoost/Vecchia_utils.cpp:157 | the squared distance from x to y equals the one from y to x |
| Geometry.SqDistSelf | pkg/src/src/GPBoost/Vecchia_utils.cpp:157 | a point is at squared distance zero from itself |
| Geometry.SumGapBound | pkg/src/src/GPBoost/Vecchia_utils.cpp:153 | the squared gap between two points' coordinate sums is at most the dimension times their squared distance (Cauchy-Schwarz), the bound the pruning test relies on |
| Geometry.NormFacts | pkg/src/src/GPBoost/Vecchia_utils.cpp:206 | the Euclidean distance is symmetric, zero from a point to itself, and the root of a non-negative square |
| Common.Iota | pkg/src/src/GPBoost/Vecchia_utils.cpp:39 | the list 0, 1, ..., n - 1 that `std::iota` writes, also the list of lines 51-54 and 111-112 |
| Common.IotaCount | pkg/src/src/GPBoost/Vecchia_utils.cpp:39 | `iota` lists each of 0 .. n - 1 exactly once and nothing else |
| Projection.PermutationFacts | pkg/src/src/GPBoost/Vecchia_utils.cpp:35-43 | a permutation of 0 .. n - 1 is in range, injective and onto |
| Projection.CoordinateSums | pkg/src/src/GPBoost/Vecchia_utils.cpp:93-97 | entry i is the sum of point i's coordinates |
| Projection.SortIndexes | pkg/src/src/GPBoost/Vecchia_utils.cpp:35-43 | the result is a permutation of 0 .. n - 1 along which the values do not decrease |
| Projection.Swap | pkg/src/src/GPBoost/Vecchia_utils.cpp:41-42 | two slots trade places; the rest and the multiset of contents are unchanged |
| Projection.SiftDown | pkg/src/src/GPBoost/Vecchia_utils.cpp:41-42 | one insertion step extends the ordered prefix by one slot, keeping the contents as a multiset |
| Projection.InvertPermutation | pkg/src/src/GPBoost/Vecchia_utils.cpp:100-104 | the result is the inverse permutation: inv[perm[r]] == r and perm[inv[p]] == p |
| Common.Resize | pkg/src/src/GPBoost/Vecchia_utils.cpp:57 | the list gets length m, keeping its first entries and padding with zeros |
| ExactFinder.ScanStep | pkg/src/src/GPBoost/Vecchia_utils.cpp:68-72 | offering candidate j keeps the scan invariant: candidates not held are no closer than the last slot of a full buffer |
| ExactFinder.ScanResult | pkg/src/src/GPBoost/Vecchia_utils.cpp:62-74 | a finished scan of point i > k yields k distinct predecessors, ascending by distance, none farther than an unchosen predecessor |
| ExactFinder.NearestPreceding | pkg/src/src/GPBoost/Vecchia_utils.cpp:63-73 | the buffer scan for one point i > k returns an exact k-nearest list among the points before i |
| ExactFinder.Prefix | pkg/src/src/GPBoost/Vecchia_utils.cpp:51-54 | the list becomes [0, 1, ..., i - 1] |
| ExactFinder.InitLists | pkg/src/src/GPBoost/Vecchia_utils.cpp:49-59 | list 0 is untouched, lists 0 < i <= k become [0 .. i), and later lists are resized to k |
| ExactFinder.SearchLists | pkg/src/src/GPBoost/Vecchia_utils.cpp:60-75 | every list of a point i > k becomes an exact k-nearest list; the others are untouched |
| ExactFinder.CollinearExample | pkg/src/src/GPBoost/Vecchia_utils.cpp:62-74 | for five collinear points 0 .. 4 and k = 2, the only exact 2-nearest list of point 4 is [3, 2] |
| ExactFinder.FindNearestNeighbors | pkg/src/src/GPBoost/Vecchia_utils.cpp:45-76 | the CHECKs pass exactly when the sizes agree, and otherwise nothing is written; slot 0 is kept, points up to k get all predecessors, and later points get exact k-nearest lists |
| FastSearch.Eligible | pkg/src/src/GPBoost/Vecchia_utils.cpp:151 | the candidate at a position may become a neighbour when its index is below i and not above end_search_at (also line 170) |
| FastSearch.Gap | pkg/src/src/GPBoost/Vecchia_utils.cpp:152 | `smd`, the squared difference between the candidate's coordinate sum and i's (also line 171) |
| FastSearch.Prunes | pkg/src/src/GPBoost/Vecchia_utils.cpp:153 | the pruning test `smd > dim_coords * nn_square_dist[k - 1]`, which cannot hold while that slot is +infinity (also line 172) |
| FastSearch.Step | pkg/src/src/GPBoost/Vecchia_utils.cpp:148-184 | one cursor step onto position q: an ineligible candidate `sort_inv_sum[q]` changes nothing, a candidate whose gap prunes stops the direction and changes nothing, any other is offered to the buffer; the buffer keeps its length |
| FastSearch.Walk | pkg/src/src/GPBoost/Vecchia_utils.cpp:139-186 | the buffer the `while (up || down)` loop ends with, from a buffer and a cursor state: each round first stops a cursor that stands at its end, then steps the live cursors, down before up; the buffer keeps its length |
| FastSearch.Query.Pos | pkg/src/src/GPBoost/Vecchia_utils.cpp:135-136 | both cursors start at position `sort_sum[i]`, the point of rank i read as a position, not at i's own rank `sort_inv_sum[i]` |
| FastSearch.Start | pkg/src/src/GPBoost/Vecchia_utils.cpp:128-131 | the buffer the search starts from: k slots, every key +infinity, the indices being the list the slot holds after its resize |
| FastSearch.Searches | pkg/src/src/GPBoost/Vecchia_utils.cpp:128-186 | the buffer the search for point i ends with: the walk from `Start`, both cursors at position `sort_sum[i]` and both directions live |
| FastSearch.VisitOffered | pkg/src/src/GPBoost/Vecchia_utils.cpp:151-163 | offering the eligible candidate at the position next to the visited range keeps the search invariant over the grown range |
| FastSearch.VisitTaken | pkg/src/src/GPBoost/Vecchia_utils.cpp:158-162 | an accepted offer keeps the search invariant, with one more finite slot unless the buffer was full |
| FastSearch.VisitRejected | pkg/src/src/GPBoost/Vecchia_utils.cpp:158 | an eligible candidate no nearer than the last slot leaves the buffer as it was, which can only happen once the buffer is full |
| FastSearch.VisitSkipped | pkg/src/src/GPBoost/Vecchia_utils.cpp:151 | skipping a candidate whose index is not below i, or is above end_search_at, keeps the search invariant over the grown range |
| FastSearch.PruneOnlyWhenFull | pkg/src/src/GPBoost/Vecchia_utils.cpp:153-155 | the pruning test can fire only when the buffer is full, because its last slot is +infinity until then |
| FastSearch.UnprunedScanVisitsAllOthers | pkg/src/src/GPBoost/Vecchia_utils.cpp:139-186 | once both cursors have run to the ends unpruned, every point c other than i was the candidate at exactly one visited position, `sort_sum[c]`, which is not the start; while the buffer is not full, every eligible such c is held |
| FastSearch.SearchFills | pkg/src/src/GPBoost/Vecchia_utils.cpp:139-186 | a finished search leaves the buffer full: a direction stops early only through pruning, which needs a full buffer, and a full scan meets all k eligible points 0 .. k - 1 |
| FastSearch.SearchResult | pkg/src/src/GPBoost/Vecchia_utils.cpp:188-192 | a full buffer gives k distinct neighbours, each below i and not above end_search_at, ascending by squared distance, with the distance row aligned to them |
| FastSearch.Consider | pkg/src/src/GPBoost/Vecchia_utils.cpp:151-163 | the direction is pruned exactly when the squared sum gap exceeds dim times a finite last key; otherwise the candidate's squared distance is offered to the buffer |
| FastSearch.Visit | pkg/src/src/GPBoost/Vecchia_utils.cpp:148-184 | one cursor step onto position q leaves the buffer unchanged when the candidate `sort_inv_sum[q]` is ineligible or prunes, and otherwise leaves the offer of that candidate; pruning happens only with a full buffer, and the search invariant holds over the grown range |
| FastSearch.DownPhase | pkg/src/src/GPBoost/Vecchia_utils.cpp:142-165 | the down cursor stops at position 0 or steps down and visits; the buffer is the step's result, the cursor moves by one, and a stopped direction was pruned or reached 0 |
| FastSearch.UpPhase | pkg/src/src/GPBoost/Vecchia_utils.cpp:145-184 | the up cursor stops at the last position or steps up and visits; the buffer is the step's result, the cursor moves by one, and a stopped direction was pruned or reached the end |
| FastSearch.StepLast | pkg/src/src/GPBoost/Vecchia_utils.cpp:148-184 | a cursor step never raises the buffer's last slot, and it stops its direction only on a candidate whose sum gap exceeds dim times that slot |
| FastSearch.RoundPrunedAt | pkg/src/src/GPBoost/Vecchia_utils.cpp:139-186 | after a round of the loop, every direction stopped by pruning, in this round or earlier, still stands on a gap that prunes against the new last slot |
| FastSearch.Round | pkg/src/src/GPBoost/Vecchia_utils.cpp:139-186 | one round keeps the loop state `ScanInv` (the search invariant, where the cursors stand, and why a stopped direction stopped), leaves the rest of the loop's walk on values unchanged, and shrinks the distance the cursors still have to go |
| FastSearch.Scan | pkg/src/src/GPBoost/Vecchia_utils.cpp:133-186 | the two cursors terminate; the buffer ends as the loop's walk on values says, full of eligible candidates in ascending order; `Stopped`: a direction not pruned ran to its end, and a pruned one stopped just past the visited range on a candidate whose sum gap exceeds dim times the final last slot |
| FastSearch.MissesNearest | pkg/src/src/GPBoost/Vecchia_utils.cpp:135-172 | for points at 0, 10, 1, 2 with k = 1, end_search_at = 2 and i = 3, the search as written returns [0], though the eligible point 2 is nearer to i than point 0 |
| FastSearch.DistanceRow | pkg/src/src/GPBoost/Vecchia_utils.cpp:189-192 | entry j of the row is the root of buffer key j |
| FastSearch.SearchNeighbors | pkg/src/src/GPBoost/Vecchia_utils.cpp:128-192 | the search for a point i > k returns k distinct neighbours, each below i and not above end_search_at, ascending by squared distance, and each row entry is the distance of its neighbour to i; the buffer it ends with is the loop's walk on values |
| RankSearch.GapBeyond | pkg/src/src/GPBoost/Vecchia_utils.cpp:152 | walking in sum order, a point beyond position d, as seen from i's position, has a sum at least as far from i's as the point at d |
| RankSearch.PruneBeats | pkg/src/src/GPBoost/Vecchia_utils.cpp:153 | walking in sum order, a gap that prunes at one position rules out every point beyond it: by Cauchy-Schwarz its squared distance exceeds the last slot |
| RankSearch.KeepsBeaten | pkg/src/src/GPBoost/Vecchia_utils.cpp:158-162 | an accepted offer keeps every point that could not improve the buffer in that state |
| RankSearch.StepBeats | pkg/src/src/GPBoost/Vecchia_utils.cpp:148-184 | a cursor step in sum order keeps the buffer sorted, never raises its last slot, keeps beaten points beaten, and beats the eligible candidate it visits |
| RankSearch.WalkBeats | pkg/src/src/GPBoost/Vecchia_utils.cpp:139-186 | the loop walking in sum order ends with every eligible point held or no nearer than the last slot |
| RankSearch.FindsNearestByRank | pkg/src/src/GPBoost/Vecchia_utils.cpp:133-186 | on the input of `MissesNearest`, the walk by rank returns [2], the nearest point |
| RankSearch.SearchNeighborsByRank | pkg/src/src/GPBoost/Vecchia_utils.cpp:128-192 | the search started at `sort_inv_sum[i]` and reading `sort_sum[p]` returns what the search as written promises, and no eligible point left out is nearer than the last one chosen |
| NeighborDistances.PairwiseFacts | pkg/src/src/GPBoost/Vecchia_utils.cpp:203-209 | the neighbour distance matrix is square and symmetric, with a zero diagonal and non-negative squares |
| NeighborDistances.FillUpper | pkg/src/src/GPBoost/Vecchia_utils.cpp:203-208 | the diagonal and the upper triangle hold the pair distances |
| NeighborDistances.MirrorUpper | pkg/src/src/GPBoost/Vecchia_utils.cpp:209 | the strict lower triangle becomes the transpose of the upper one, and the rest is unchanged |
| NeighborDistances.DistanceMatrix | pkg/src/src/GPBoost/Vecchia_utils.cpp:201-209 | entry (a, b) of the result is the distance between neighbours a and b |
| FastFinder.SearchEnd | pkg/src/src/GPBoost/Vecchia_utils.cpp:81-83 | a negative end_search_at means num_data - 2, and any other value is kept |
| FastFinder.ClippedNeighbors | pkg/src/src/GPBoost/Vecchia_utils.cpp:86-89 | the count is the smaller of the requested count and end_search_at + 1 |
| FastFinder.PrecedingRow | pkg/src/src/GPBoost/Vecchia_utils.cpp:111-113 | the distances from point i to each of the points 0 .. i - 1, in index order |
| FastFinder.Rank | pkg/src/src/GPBoost/Vecchia_utils.cpp:92-104 | entry p of the sums is point p's coordinate sum, sort_sum is a permutation of 0 .. n - 1 along which the sums do not decrease, and sort_inv_sum is its inverse in both directions |
| FastFinder.Bootstrap | pkg/src/src/GPBoost/Vecchia_utils.cpp:109-114 | a point 0 < i <= k gets [0 .. i) and the row of its distances to each of them |
| FastFinder.BootstrapAll | pkg/src/src/GPBoost/Vecchia_utils.cpp:107-119 | from start_at on, slot 0 is kept, points up to k are filled in, and later lists are resized to k |
| FastFinder.SearchAll | pkg/src/src/GPBoost/Vecchia_utils.cpp:122-196 | every point i > k from start_at on gets k distinct eligible neighbours ascending by squared distance and their distance row, and its list is exactly the one the walk as written (`Searches`) yields from the list it held; other slots are untouched |
| FastFinder.SearchPoint | pkg/src/src/GPBoost/Vecchia_utils.cpp:128-192 | the list and row stored for one point i > k: k distinct eligible neighbours ascending by squared distance, their distances, and exactly the list the walk as written yields from the slot's list |
| FastFinder.Lists | pkg/src/src/GPBoost/Vecchia_utils.cpp:107-196 | from start_at on: slot 0 is kept, a point 0 < i <= k gets [0 .. i) and its distances, a later point the searched list of its resized list and its distance row |
| FastFinder.AssembleAll | pkg/src/src/GPBoost/Vecchia_utils.cpp:198-210 | every slot of a point i > 0 gets the distance matrix of its neighbours; slot 0 and slots beyond the outputs are untouched |
| FastFinder.Run | pkg/src/src/GPBoost/Vecchia_utils.cpp:92-210 | once the sizes are checked and k clipped: the points are ranked by coordinate sum, every slot but point 0's holds its bootstrap or searched list, its distance row and its neighbour distance matrix, and every searched list is the walk as written |
| FastFinder.FindNearestNeighborsFast | pkg/src/src/GPBoost/Vecchia_utils.cpp:78-234 | end_search_at is defaulted and k clipped, with a notice flag; the CHECKs pass exactly when the sizes agree, and otherwise nothing is written; each slot then holds the bootstrap or searched neighbours, their distance row and their distance matrix, and each searched list is exactly the one the walk as written yields from the ranked sums |

## Findings

| source | as written | input that shows it | evidently intended | confidence | as-written member | corrected member |
|---|---|---|---|---|---|---|
| pkg/src/src/GPBoost/Vecchia_utils.cpp:135-172 | the cursors start at position `sort_sum[i]` and read point `sort_inv_sum[p]` at position p, so they walk the inverse permutation, along which the sum gaps need not grow, and the pruning test can stop a direction before a nearer point | one coordinate per point at 0, 10, 1 and 2, k = 1, end_search_at = 2, i = 3: the search returns [0], but point 2 is at squared distance 1 and point 0 at 4 | start at `sort_inv_sum[i]` and read `sort_sum[p]` at position p, so the walk follows the coordinate sums in order, pruning is sound by Cauchy-Schwarz, and the result is the k nearest | high; not executed | FastSearch.MissesNearest | RankSearch.SearchNeighborsByRank |

The finder (`FastFinder`) keeps the code as written. Its contract states
that each searched list holds k distinct eligible points in ascending order
of distance, and that it is exactly the list the walk as written
(`FastSearch.Searches`) yields, so the discrepancy reaches the top level. The
corrected search is the same loop with the two orders exchanged,
`SearchNeighbors` called with `sort_inv_sum` and `sort_sum`, so both go
through one definition.

## Left out

- OpenMP parallelism (`#pragma omp parallel for`). The loops run sequentially. Iterations write disjoint slots, so the result is the same.
- Floating point. Keys are exact reals with a separate +infinity. Rounding, NaN and overflow are not modelled, and square roots stay symbolic as `Root(sq)`.
- `Log::Info` on clipping. It is reduced to the returned `clipped` flag.
- The algorithm of `std::sort` inside `sort_indexes`. An insertion sort by key stands in for it. No order among equal sums is promised, because `std::sort` is not stable.
- `pow(x, 2)` is modelled as `x * x`.
- FastSearch.SearchNeighbors: promises k distinct eligible neighbours in ascending order of distance, not the k nearest, because the walk as written can prune past a nearer point (see "## Findings"). The exact k nearest are proved for the walk by rank, `RankSearch.SearchNeighborsByRank`.
- The commented-out debug logging after the last loop.
- `ExactFinder.FindNearestNeighbors` requires `numNeighbors >= 1`, which the source does not check. A negative count reaches `resize` at line 57 for point 0, where it becomes a huge unsigned size and `resize` throws `std::length_error`. A count of 0 makes the scan read `nn_dist[-1]` at line 68, which is undefined behaviour.
- `FastFinder.FindNearestNeighborsFast` requires `numNeighbors >= 1`, `start_at >= 0`, and distance-row and matrix vectors at least `num_data - start_at` long. The documented interface asks for a start_at in [0, num_data) and for outputs sized for the points searched, but the source checks none of these. A negative count passes the clipping and makes `resize` at line 117 throw `std::length_error`. A count of 0 makes the search read `nn_square_dist[-1]` at line 153, and vectors that are too short are written out of bounds at lines 110, 190 and 202. Both are undefined behaviour. A negative `start_at` does run: the bootstrap skips the points below 1, and the assembly loop starts at `first_i = start_at` (line 198). The slots of the points start_at .. 0 then receive the distance matrix of whatever list the caller left there. The model does not cover that case.
- The search writes into `nearest_neighbors[i - start_at]` in place. The model runs it on a local buffer whose indices start as that list, then stores the result into the slot. The final contents are the same.
- Eigen's `resize` of a matrix leaves its entries unspecified. The model allocates the distance row and the neighbour matrix fresh, and the contract covers every entry after filling.
