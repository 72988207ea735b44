# Branch-and-bound knapsack and column-generation skeleton, in Dafny

This project models the two C++ kernels of the repository and proves what they compute.

**`branch-and-bound.cpp`** solves the 0/1 knapsack problem by breadth-first branch and bound:

- `cmp` and `sort` order the items by non-increasing value/weight ratio.
- `bound` gives a node's fractional (Dantzig) upper bound: whole items while they fit, then a fraction of the first item that does not.
- `knapsack` pops nodes from a FIFO queue. For each popped node it builds a child that takes the next item and a child that leaves it. It updates the incumbent `maxProfit` and queues each child whose bound beats the incumbent.

The model keeps that shape:

- `SortByRatio` is an in-place sort of an `array<Item>`.
- `ComputeBound` is the `while` loop of `bound`.
- `Explore` is the queue loop, over a `seq<Node>` used as the FIFO queue. The body for one popped node is `Branch`, which uses `Offer` for each child's "compute bound, push if it beats `maxProfit`" step.
- `Knapsack` sorts the caller's array, then explores.

The specification side lives in module `KnapsackSpec`:

- selections (`seq<bool>`, one decision per item) with their value and weight;
- the ratio order;
- the greedy fractional fill `Greedy`, with Dantzig's theorem `GreedyDominates`.

A ghost list of decision paths runs alongside the queue. The loop invariant `Searching` says:

- every queued node is the outcome of its path;
- when all values are non-negative, every packing worth more than `maxProfit` extends a queued path or a pending one (a path whose node was popped but whose children are not yet queued or pruned);
- `maxProfit` is the value of a packing that fits, whenever `maxProfit` > 0 or W ≥ 0 (for W < 0 no packing fits and `maxProfit` stays 0).

From this the search is proved sound and, for non-negative values, optimal. A potential argument bounds the nodes ever enqueued by 2^(n+1) - 1. On the instance in the comment of `main`, the result is 220.

**`column_generation.cpp`** is a cutting-stock column-generation skeleton:

- `solveRMP` sums every pattern's cut counts weighted by the duals.
- `generatePattern` is a greedy pricing step. Each item with a positive dual that still has room for one piece gets floor(dual) pieces.
- The loop in `main` appends the priced pattern while its reduced cost is below -epsilon.

Each loop is a Dafny method proved equal to a recursive specification function, with lemmas about those functions. The duals are never updated, so every round prices the same pattern. `GenerateColumns` proves that the loop either stops in its first round or never stops. `RunHardCoded` proves that on the hard-coded data it never stops: the pattern [1, 1, 0] with usage 65 has reduced cost -63 and is appended in every round. `GreedyOverfills` shows that the one-piece room check lets a pattern overrun the roll once floor(dual) is 2 or more; `GreedyFits` proves the pattern fits when every floor is at most 1.

Floating-point values (`float`, `double`) are exact `real`s. `int` values are unbounded.

## Model

| member | source | states |
|---|---|---|
| KnapsackSpec.Cmp | branch-and-bound.cpp:20-24 | `cmp(a, b)` holds exactly when a's value/weight ratio is strictly larger than b's; equivalently a.value·b.weight > b.value·a.weight |
| KnapsackSpec.GreedyDominates | branch-and-bound.cpp:26-43 | with items sorted by ratio, positive weights and non-negative values, the greedy fractional fill of capacity cap is worth at least any 0/1 selection that fits in cap (Dantzig's bound) |
| KnapsackSpec.GreedyExchange | branch-and-bound.cpp:33-40 | with items sorted by ratio, positive weights and non-negative values, the exchange inequality behind the bound: value(s) - ρ·weight(s) ≤ Greedy - ρ·cap, for the ratio ρ of the item the greedy fill cuts |
| KnapsackSpec.TransferSelection | branch-and-bound.cpp:46 | reordering the items (as the in-place sort does) keeps every packing: a selection over the old order has a counterpart over the new one with the same value and weight |
| KnapsackSpec.ValueAtMostRatioTimesWeight | branch-and-bound.cpp:20-24 | when no item's ratio exceeds ρ, a selection's value is at most ρ times its weight |
| BranchAndBound.ComputeBound | branch-and-bound.cpp:26-43 | `bound` returns 0 when u.weight ≥ W, and otherwise u.profit plus the greedy fractional fill of the items after u.level in the remaining capacity |
| BranchAndBound.BoundDominatesCompletions | branch-and-bound.cpp:26-43 | with items sorted by ratio, positive weights and non-negative values: for a node that is not full, the bound is at least u.profit plus the value of any 0/1 completion by the later items that fits in W |
| BranchAndBound.SortByRatio | branch-and-bound.cpp:46 | after sorting in place, the array is a permutation of its input and no item has a larger ratio than one before it |
| BranchAndBound.Sink | branch-and-bound.cpp:46 | one insertion step keeps the array's multiset, extends the sorted prefix by one item and leaves the items after position i untouched |
| BranchAndBound.QueuedNotFull | branch-and-bound.cpp:27-28 | a node whose bound exceeds maxProfit ≥ 0 weighs strictly less than W |
| BranchAndBound.ChildSettled | branch-and-bound.cpp:68-69 | with items sorted by ratio, positive weights and non-negative values: a child that is not queued (bound ≤ maxProfit) and, if it fits, is worth at most maxProfit, has no completion worth more than maxProfit |
| BranchAndBound.SearchRaise | branch-and-bound.cpp:65-66 | a child that fits and beats maxProfit becomes the new incumbent, and the queue invariant still holds for the larger incumbent |
| BranchAndBound.SearchEnqueue | branch-and-bound.cpp:68-69 | pushing a child (one that, if it fits, is worth at most maxProfit) whose bound beats maxProfit keeps the queue invariant, for items with positive weights |
| BranchAndBound.SearchDiscard | branch-and-bound.cpp:68-69 | with sorted items and positive weights, dropping a child (one that, if it fits, is worth at most maxProfit) whose bound does not beat maxProfit keeps the queue invariant |
| BranchAndBound.SearchLeaf | branch-and-bound.cpp:59-60 | a popped node at level n-1 is dropped without breaking the invariant |
| BranchAndBound.SearchPop | branch-and-bound.cpp:55-56 | popping the front node keeps the invariant, with its path pending |
| BranchAndBound.Offer | branch-and-bound.cpp:68-69 | the child gets bound NodeBound; it is pushed at the back exactly when that bound exceeds maxProfit; the invariant and the potential account for it |
| BranchAndBound.TakeChild | branch-and-bound.cpp:62-66 | the taking child has level u.level + 1 and u's profit and weight plus the next item's value and weight; maxProfit becomes its profit exactly when it fits and beats the old value; the invariant is kept |
| BranchAndBound.Branch | branch-and-bound.cpp:62-76 | the taking child is (u.level + 1, u.profit + value, u.weight + weight) and the leaving child copies u's profit and weight; each gets bound NodeBound; maxProfit is raised by the taking child when it fits and beats it; the queue becomes Q, then the taking child if its bound beats the new maxProfit, then the leaving child if its bound does; the invariant is kept and the potential falls |
| BranchAndBound.Explore | branch-and-bound.cpp:47-79 | the result is ≥ 0; it is the value of a packing that fits whenever the result is positive or W ≥ 0; with non-negative values no packing is worth more; at most 2^(n+1) - 1 nodes are ever enqueued |
| BranchAndBound.Knapsack | branch-and-bound.cpp:45-80 | the caller's array ends up a ratio-sorted permutation of itself; the result is ≥ 0, achievable whenever the result is positive or W ≥ 0, and (with non-negative values) optimal with respect to the items as passed |
| BranchAndBound.NegativeValuePrunesOptimum | branch-and-bound.cpp:62-76 | on the sorted items (1,10), (1,10), (1,-15) with W = 3, the root's children get bounds 5 and -5, neither above the incumbent 10 set by the taking child, while taking the first two items fits and is worth 20 |
| BranchAndBound.ExampleOptimum | branch-and-bound.cpp:105-106 | on (10,60), (20,100), (30,120) with W = 50, taking the second and third items gives 220 and nothing that fits gives more |
| BranchAndBound.KnapsackExample | branch-and-bound.cpp:105-107 | `knapsack` returns 220 on that instance |
| ColumnGeneration.SolveRMP | column_generation.cpp:19-36 | the result is the sum over all patterns of Σ_j cuts[j]·dual[j] (RmpObjective); patterns and duals are not modified |
| ColumnGeneration.RmpObjectiveAppend | column_generation.cpp:27-33 | appending a pattern raises the objective by exactly that pattern's dual worth |
| ColumnGeneration.RmpObjectivePrefix | column_generation.cpp:27-33 | the objective over the first m patterns depends on those patterns only |
| ColumnGeneration.RmpObjectiveNonNegative | column_generation.cpp:27-33 | with non-negative cut counts and duals the objective is non-negative |
| ColumnGeneration.GeneratePattern | column_generation.cpp:38-53 | the pattern is the greedy one (Greedy): all-zero cuts of length numItems, then floor(dual) pieces for each admitted item in order, with the usage accumulated |
| ColumnGeneration.GreedyPrefix | column_generation.cpp:45-50 | later items never change the cut counts already chosen for earlier items |
| ColumnGeneration.GreedyCut | column_generation.cpp:45-48 | cuts[i] is floor(dual[i]) when dual[i] > 0 and one piece fits on the usage reached before item i, and 0 otherwise |
| ColumnGeneration.GreedyCutsNonNegative | column_generation.cpp:46-47 | every cut count is ≥ 0, and it is 0 when the dual is not positive |
| ColumnGeneration.GreedyUsage | column_generation.cpp:42-48 | the returned rollUsage is Σ cuts[i]·length[i] |
| ColumnGeneration.GreedyFits | column_generation.cpp:46-48 | when every floor(dual) is at most 1, the usage is at most rollWidth (or 0, if nothing is cut) |
| ColumnGeneration.GreedyOverfills | column_generation.cpp:46-48 | one item of length 60 with dual 2.0 on a roll of 100 gets 2 pieces and usage 120: the room check covers one piece only |
| ColumnGeneration.ReducedCost | column_generation.cpp:66-70 | the reduced cost is Σ cuts[i]·dual[i] − rollUsage |
| ColumnGeneration.NoPositiveDual | column_generation.cpp:45-50 | with no positive dual the priced pattern is all zeros with usage 0 and reduced cost 0 |
| ColumnGeneration.GenerateColumns | column_generation.cpp:63-76 | existing patterns are kept; every appended pattern is the greedy one; the loop stops exactly when the greedy pattern's reduced cost is ≥ -epsilon, which can only happen in the first round; otherwise all fuel rounds append it |
| ColumnGeneration.HardCodedPricing | column_generation.cpp:56-59 | on the hard-coded data (roll 110, lengths 20, 45, 50, unit duals) the priced pattern is [1, 1, 0] with usage 65 and reduced cost -63 |
| ColumnGeneration.RunHardCoded | column_generation.cpp:56-76 | `main`'s loop on its own data never stops: after fuel rounds there are 3 + fuel patterns, each new one [1, 1, 0] / 65, and the master objective is 9 + 2·fuel |

## Left out

- `main` of `branch-and-bound.cpp` (lines 82-109) reads `input_data.txt` and `input_max_cap.txt` and prints. File and console I/O are not modelled; only the commented instance is.
- The printing in `column_generation.cpp` (lines 77-84) is not modelled.
- `prep/column-gen/main.py` and `run_branch_price_cpp.py` are not part of this model. The first is a script over an external linear-programming library; the second only launches the compiled binary.
- IEEE rounding of `float` and `double` is not modelled: bounds, ratios, duals and reduced costs are exact reals. The `float` bound and its comparison with the `int` incumbent are therefore exact.
- 32-bit `int` overflow of profits, weights, cut counts and usages is not modelled: integers are unbounded. The conversion of `floor(dual)` to `int` is likewise exact.
- Items with weight 0 or a negative weight are excluded by precondition (`PositiveWeights`) from ComputeBound, SortByRatio, Explore and Knapsack. The source divides by the weight in `cmp` and `bound`, so weight 0 is undefined there. It accepts negative weights without error, but a weight is a size, and the ratio order and Dantzig's bound both need weights > 0.
- SortByRatio: `std::sort` is modelled as an insertion sort with the same comparison. The proved result (a ratio-sorted permutation) is what `std::sort` promises; the order it leaves among items of equal ratio is not modelled.
- Explore: optimality is stated only for non-negative values. Dantzig's bound needs them, and with a negative value the pruning can drop the optimal packing (NegativeValuePrunesOptimum gives an instance). Soundness (the result is the value of a packing that fits) is proved for all values.
- Explore: achievability is stated only when the result is positive or W ≥ 0. For W < 0 the source returns 0 although no packing fits.
- Knapsack: achievability carries the same condition as Explore's, because for W < 0 the result 0 is not the value of any packing that fits.
- Explore: the uninitialised `bound` of the root node and the dead store `v.level = 0` have no observable effect. The root gets bound 0.0 and the store is kept as written.
- GenerateColumns: the `while (true)` loop runs for at most `fuel` rounds. The contract says what happens for every fuel, so non-termination is stated as "with a reduced cost below -epsilon, every round appends and none stops".
- SolveRMP: the unused local `dualVars`, and the objective value `main` computes but never reads, are not modelled beyond the call.
- The `demand` of a cutting-stock item is carried but never read by the source, so no property mentions it.
