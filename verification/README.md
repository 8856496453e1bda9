# Balance: the weighing enumerator and its partition bookkeeping, in Dafny

This project models the core of the coin-weighing solver wihd/Balance. A **partition** is the
list of coin counts in the groups of coins that the weighings so far cannot tell apart. A
**weighing** takes `left[i]` coins of part `i` for the left pan and `right[i]` coins for the right
pan.

The centre of the model is the enumerator of `Balance/Weighing.cpp`. It visits every weighing
that satisfies these conditions:

- `left[i] + right[i] <= p[i]`;
- both pans hold the same number of coins, and at least one;
- the right pan is not lexicographically above the left pan.

It visits them in a fixed order:

1. pans of one coin first, then two, and so on;
2. within a pan size, the left pan from the lexicographically largest down;
3. for each left pan, the right pan from the largest down.

The model proves the following about the enumerator:

- The constructor produces the first weighing.
- Each step produces the next weighing, or the end sentinel when none is left.
- The whole run emits every weighing exactly once, in that order.
- Pan sizes never decrease along the run.
- No weighing is emitted together with its mirror image.
- The hand proof in the header comment of `Weighing.cpp` (the "monotonicity argument") holds. It says that once a left pan has no right pan, no lexicographically smaller left pan of the same size has one. This is what lets `advance` jump to the next pan size.
  - The proof goes through a closed form `Phi` for the largest right pan.
  - It shows that a right pan exists exactly when `2 N <= Phi(x)`.
  - It shows that `Phi` does not grow as the left pan steps down.

Around the enumerator, the model covers:

- the constructor of `Balance/Partition.cpp`, which rebuilds the part sizes of a child partition from a provenance, a weighing and the base partition;
- `Generator` of `Balance2/Partition2.cpp`, which turns a weighing into a sorted child partition and its provenance;
- the value-keyed caches `Partition2::get_instance` and `Weighing2::get_instance`;
- `PartitionCache::get_root` and `get_weighings`;
- the find-majority problem of both program versions: the constructor, `make_root_data` / `make_root`, `is_majority`, `is_resolved`, `is_impossible`, and the order on states.

Modelling choices:

- `uint8_t` counts are `nat`. A partition holds at most 255 coins (`Pans.IsPartition`). `uint8_t` wrap-around can matter in four places, and each is written out:
  - the running `base_count` of the `Partition` constructor (Balance/Partition.cpp:20-38), modelled modulo 256 by `Partition.ByteSub`;
  - the running `h_count` of `is_majority` (Balance/ProblemFindMajority.hpp:64-81), modelled modulo 256 in `FindMajority.IsMajority`;
  - `Partition2::coin_count`, a `std::reduce` into `uint8_t` (Balance2/Partition2.hpp:54), modelled as the sum modulo 256 by `Partition2.CoinCount`;
  - the `uint8_t` loop counter of `make_root_data` (Balance/ProblemFindMajority.cpp:32-41), which never passes 255; this is why `FindMajority.MakeRootData` requires `maximum_count < 255`.
- A pointer into a `std::set` or `std::map` keyed by value is a handle, that is, an index into an append-only `Intern.Cache`.
- The C++ member functions of `Weighing` become methods on value sequences. Each returns the pans that the C++ member leaves in `left` and `right`.

Files, one module each:

| file | module | models |
|---|---|---|
| sums.dfy | Sums | prefix and range sums of count vectors |
| lex.dfy | Lex | lexicographic order of vectors (`std::vector` `<=>`) |
| selection.dfy | Selection | greedy fills and the "next smaller selection of the same size" step shared by `fill_left`/`fill_right` and `advance_left`/`advance_right` |
| pans.dfy | Pans | weighings as values, the enumerator's order and conditions |
| monotone.dfy | Monotone | the monotonicity argument of `Weighing.cpp` |
| weighing.dfy | Enumerator | `Weighing` constructor, `select_right`, `advance_left`, `advance_right`, `fill_left`, `fill_right`, `advance`, and the whole run |
| provenance.dfy | Provenance | placements, provenances, and the part-by-part item layout |
| partition.dfy | Partition | the `Partition(provenance, weighing, base)` constructor |
| intern.dfy | Intern | value-keyed caches of unique instances |
| partition2.dfy | Partition2 | `Partition2` and `Generator` |
| weighing2.dfy | Weighing2 | `Weighing2` and its cache |
| partition_cache.dfy | PartitionCache | `PartitionCache` |
| find_majority.dfy | FindMajority | `ProblemFindMajority` |
| find_majority2.dfy | FindMajority2 | `ProblemFindMajority2` and its `StateType` |

## Model

| member | source | states |
|---|---|---|
| Enumerator.StartLeft | Balance/Weighing.cpp:106-108 | The constructor's left pan holds one coin and fits the partition. It is the lexicographically largest one-coin left pan. |
| Enumerator.StartRight | Balance/Weighing.cpp:106-116 | The constructor's weighing is a weighing of p. Its right pan (part 0 when that part has two coins, else part 1) is the largest admissible right pan for its left pan. |
| Enumerator.StartIsFirst | Balance/Weighing.cpp:99-118 | The constructor's weighing precedes every other weighing of the partition in the enumeration order. |
| Selection.Fill | Balance/Weighing.cpp:358-363 | The greedy loop shared by fill_left and fill_right. Parts before the start index keep their values. Every later part stays within its room and is filled greedily. The loop places min(count, room) coins, and the leftover count is what it could not place. |
| Selection.GreedyIsLexMax | Balance/Weighing.cpp:353-365 | Every selection that agrees before the start index, fits the room and places the same count is lexicographically not above the greedy one. |
| Selection.GreedyHighest | Balance/Weighing.cpp:353-365 | A greedy fill from part 0 is the lexicographically largest selection of its size. |
| Enumerator.FillLeft | Balance/Weighing.cpp:353-365 | fill_left places exactly count coins from index on, keeps the parts before index, and stays within the partition. The result is the largest left pan with those constraints. |
| Enumerator.FillRight | Balance/Weighing.cpp:367-379 | fill_right places exactly count coins from index on, using only the coins left beside the left pan, and keeps the parts before index. The result is the largest right pan with those constraints. |
| Enumerator.SelectRight | Balance/Weighing.cpp:158-249 | On true, the right pan is the largest admissible right pan for the left pan. On false, no admissible right pan exists. When every part has room for twice the left pan's coins, the call succeeds with right == left. |
| Enumerator.SelectRightFrom | Balance/Weighing.cpp:172-243 | From the first part that cannot match the left pan, the rest of select_right either finds the largest admissible right pan or returns false only when none exists. |
| Enumerator.FirstFillBest | Balance/Weighing.cpp:187-191 | When the greedy fill after the first unmatched part places all coins, the result is admissible and no admissible right pan is larger. |
| Enumerator.FirstPassRest | Balance/Weighing.cpp:175-197 | The coins the greedy fill after part k cannot place are exactly the missing slack beyond k. |
| Enumerator.SelectRightBack | Balance/Weighing.cpp:197-243 | The backward walk of select_right either finds the largest admissible right pan or returns false only when none exists. |
| Enumerator.SelectRightRetry | Balance/Weighing.cpp:210-240 | Once the walk places every coin from part b on, taking one coin fewer in the last non-empty earlier part yields the largest admissible right pan. Without such a part there is none. |
| Enumerator.TakeOneFewer | Balance/Weighing.cpp:214-234 | One coin fewer in part m, then a greedy fill after m of the remaining count, is the largest admissible right pan. |
| Enumerator.RetryRoom | Balance/Weighing.cpp:223-233 | The spare room after m takes every coin of the left pan after m, plus one, so the refill after the decrement cannot run short. |
| Enumerator.BackFillAdmissible | Balance/Weighing.cpp:219-233 | The pan built after backtracking fits beside the left pan, has its size, and is lexicographically below it. |
| Enumerator.BackFillBest | Balance/Weighing.cpp:213-234 | That pan is the largest admissible right pan, given that no slack is left after the non-empty parts of the left pan between m and k. |
| Pans.NoRightPan | Balance/Weighing.cpp:238-243 | When part k cannot match the left pan and no earlier non-empty part leaves slack after it, no admissible right pan exists. This is the false return of select_right. |
| Selection.StepDown | Balance/Weighing.cpp:260-289 | The search shared by advance_left and advance_right. On success the result is the next selection of the same size, lexicographically below the input within the room. On failure, no smaller selection of that size exists and the passed-over count is the whole size. |
| Selection.StepDownNext | Balance/Weighing.cpp:283-287 | Taking one coin from the last non-empty part before the last part with room, then refilling greedily after it, gives the next smaller selection. |
| Selection.LexMinimal | Balance/Weighing.cpp:291-292 | A selection that is empty before j and full after j is the smallest of its size. |
| Enumerator.AdvanceRight | Balance/Weighing.cpp:306-351 | advance_right gives the next smaller right pan of the same size within the coins the left pan leaves, or returns false exactly when the current right pan is the smallest. |
| Enumerator.AdvanceLeft | Balance/Weighing.cpp:251-304 | Like the source, it assumes the left pan leaves some part with spare coins (lines 253-254 and 268-271). advance_left gives the next smaller left pan of the same size. When the pan is the smallest of its size, it gives the largest left pan with one coin more. It returns false only when the pan is smallest and 2 (size + 1) exceeds the coin count. |
| Enumerator.WeighingLeavesRoom | Balance/Weighing.cpp:253-254 | The left pan of every weighing leaves coins in some part, because its right pan is non-empty. So advance's call to advance_left always meets that assumption. |
| Enumerator.GrownFeasible | Balance/Weighing.cpp:148-152 | The largest left pan of a size with 2 N <= coin count has a right pan, so the select_right at line 152 succeeds. |
| Enumerator.SkipInfeasible | Balance/Weighing.cpp:136-141 | When the next left pan has no right pan, no smaller left pan of the same size has one. This justifies the jump. |
| Enumerator.NextSameLeft | Balance/Weighing.cpp:127 | A successful advance_right gives the next weighing. |
| Enumerator.NextOtherLeft | Balance/Weighing.cpp:130-136 | When the right pans run out, the next left pan with its largest right pan is the next weighing. |
| Enumerator.NextBiggerSize | Balance/Weighing.cpp:142-153 | After the jump, the largest left pan of the next size with its largest right pan is the next weighing. |
| Enumerator.LastAtSize | Balance/Weighing.cpp:143-147 | When no left pan of the current size remains and the next size needs too many coins, no weighing follows. |
| Enumerator.Advance | Balance/Weighing.cpp:120-156 | From a weighing, advance yields the next weighing, or the sentinel exactly when the weighing is the last. The sentinel stays the sentinel. |
| Enumerator.Enumerate | Balance/Weighing.cpp:11-17 | The run from the constructor to the sentinel emits only weighings, every weighing, and each exactly once, in strictly increasing enumeration order. Pan sizes never decrease, and no weighing is emitted together with its mirror. |
| Pans.NoMirror | Balance/Weighing.cpp:15-17 | A weighing and its mirror image are both weighings only when the two pans are equal. |
| Pans.PrecedesTransitive | Balance/Weighing.cpp:12-17 | The enumeration order is transitive. |
| Pans.PrecedesTotal | Balance/Weighing.cpp:12-17 | Any two distinct weighings are ordered one way or the other. |
| Pans.PrecedesIrreflexive | Balance/Weighing.cpp:12-17 | No weighing precedes itself. |
| Pans.FitsIffPlaceable | Balance/Weighing.cpp:29 | Taking the right pan from the coins the left pan leaves is the same as left[i] + right[i] <= p[i] part by part. |
| Pans.PanBound | Balance/Weighing.cpp:143 | Two pans that fit hold at most the coin count together. |
| Monotone.FeasibleIffPhi | Balance/Weighing.cpp:33 | A right pan for x exists exactly when the largest right pan Y = Phi(x) - N is at least N. |
| Monotone.PhiUpper | Balance/Weighing.cpp:36-60 | No right pan that fits beside x and is not lexicographically above it holds more than Phi(x) - N coins. |
| Monotone.PhiReach | Balance/Weighing.cpp:36-90 | Some right pan of exactly Phi(x) - N coins fits beside x and is not above it (cases A, B and C of the argument). |
| Monotone.PhiMonotone | Balance/Weighing.cpp:34-35 | Y does not grow when x steps down at a fixed size. |
| Monotone.NoneBelow | Balance/Weighing.cpp:19-22 | No right pan for x means no right pan for any lexicographically smaller left pan of the same size. |
| Partition.Derive | Balance/Partition.cpp:13-48 | The constructor yields one part per provenance entry. A left-pan entry gets the left count of its part and a right-pan entry the right count. |
| Partition.DeriveFromPans | Balance/Partition.cpp:32-39 | Pan entries take their sizes from the weighing, whatever state the loop is in. |
| Partition.DeriveAppend | Balance/Partition.cpp:20-44 | Reading a provenance in two pieces gives the concatenated parts. The second piece starts from the state the first leaves. |
| Partition.ByteSub | Balance/Partition.cpp:34 | The uint8_t subtraction stays within a byte, and is ordinary subtraction when it does not underflow. |
| Partition.DeriveCanonical | Balance/Partition.cpp:22-47 | On the part-by-part provenance layout, a set-aside entry gets the base count less both pans, every size matches the weighing, and the child holds as many coins as the base (the assert at line 47). |
| Partition.DeriveLaid | Balance/Partition.cpp:20-47 | For every provenance in which each base part's entries are adjacent, no placement repeats, the set-aside entry comes last (the assumption stated at line 22), and every non-empty group of coins has its entry: a set-aside entry gets the base count less both pans, and the child holds as many coins as the base (the assert at line 47). Pan entries may come in either order. |
| Partition.LaidOf | Balance/Partition.cpp:22 | The index-based statement of that layout implies the entry-by-entry one that the loop's proof follows. |
| Partition.DeriveEntries | Balance/Partition.cpp:20-44 | From any loop state that is either inside the first part's entries or clear of every part named later, the set-aside entries get what the pans leave. The parts sum to the named base parts plus the base_count carried in. |
| Partition.MixedLayout | Balance/Partition.cpp:22 | A provenance with part 1 first and part 0's right pan before its left pan meets the layout and coverage hypotheses of DeriveLaid. |
| Partition.MixedLayoutDerive | Balance/Partition.cpp:20-44 | On that provenance, for base [4, 3] and pans [1, 1] / [2, 0], the constructor yields [1, 2, 2, 1, 1]. |
| Provenance.PartItems | Balance2/Partition2.cpp:78-95 | Each input part with coins yields one to three items, all naming that part and all non-empty. |
| Provenance.PartItemsSum | Balance2/Partition2.cpp:80-94 | The items of one input part hold exactly its coins. |
| Provenance.ItemsFrom | Balance2/Partition2.cpp:78-95 | Every item names an input part and holds the count its placement receives. |
| Provenance.ItemsSum | Balance2/Partition2.cpp:78-95 | The items of all parts hold exactly the input's coins. |
| Provenance.ItemsFromCover | Balance2/Partition2.cpp:78-95 | Every input part with coins appears among the items. |
| Partition2.NewGenerator | Balance2/Partition2.cpp:29-45 | The Generator starts at the first weighing of the input, one coin in each pan. |
| Partition2.ItemLessEqTransitive | Balance2/Partition2.cpp:60-72 | The item order (size, then input part, then placement) is a total preorder. |
| Partition2.Insert | Balance2/Partition2.cpp:98 | An insertion step of the sort keeps the items as a multiset. |
| Partition2.InsertSorted | Balance2/Partition2.cpp:98 | Inserting into a sorted list keeps it sorted. |
| Partition2.Sort | Balance2/Partition2.cpp:98 | Sorting permutes the items. |
| Partition2.SortSorted | Balance2/Partition2.cpp:98 | After sorting no item is less than one before it. |
| Partition2.SortSum | Balance2/Partition2.cpp:98 | Sorting keeps the total size. |
| Partition2.Get | Balance2/Partition2.cpp:101-108 | The output parts and provenances have the same length. |
| Partition2.GetSameItem | Balance2/Partition2.cpp:101-108 | Index k of the output parts and of the provenances describe the same item, which is one of the weighing's items. |
| Partition2.GetCoinCount | Balance2/Partition2.cpp:80-94 | The child partition has as many coins as the input. |
| Partition2.GetNonDecreasing | Balance2/Partition2.cpp:97-98 | The child's parts are non-decreasing. |
| Partition2.GetValid | Balance2/Partition2.hpp:26 | A child of a valid partition is valid: positive, non-decreasing parts and more than two coins. |
| Partition2.GetInterned | Balance2/Partition2.cpp:110-115 | get returns cached instances equal to the computed provenance and part list, and keeps both caches duplicate-free. |
| Partition2.Single | Balance2/Partition2.hpp:46 | Partition2(count) has one part of size count. |
| Partition2.CoinCount | Balance2/Partition2.hpp:54 | coin_count is the sum of the parts as a byte, exactly the sum when it fits. |
| Partition2.SingleValid | Balance2/Partition2.hpp:26 | A one-part partition of 3 to 255 coins satisfies the documented invariant. |
| Partition2.LessStrictTotal | Balance2/Partition2.hpp:48-49 | The order of partitions is a strict total order whose equivalence is equality of the part vectors. |
| Partition2.GetInstance | Balance2/Partition2.cpp:131-149 | A hit returns the cached value-equal instance and leaves the cache alone. A miss appends exactly the probe. The handle's value is the probe. |
| Weighing2.GetInstance | Balance2/Weighing2.cpp:14-32 | As for partitions, for provenance vectors. |
| Weighing2.PartLessStrictTotal | Balance2/Weighing2.hpp:35 | The defaulted order of Weighing2::Part (part, then placement) is a strict total order. |
| Weighing2.LessStrictTotal | Balance2/Weighing2.hpp:40 | The defaulted order of Weighing2 is a strict total order whose equivalence is equality. |
| Intern.GetInstance | Balance2/Partition2.cpp:131-149 | The lookup-or-insert of a value-keyed cache. |
| Intern.Find | Balance2/Partition2.cpp:135 | find returns the position of an equal value, or end exactly when there is none. |
| Intern.FindUnique | Balance2/Partition2.cpp:135-140 | In a duplicate-free cache, find returns the one handle holding the value. |
| Intern.GetInstanceIdempotent | Balance2/Partition2.cpp:135-140 | A second get_instance with the same value returns the same handle and cache. |
| Intern.GetInstanceKeepsHandles | Balance2/Partition2.cpp:143-147 | Inserting keeps every earlier handle and its value. |
| Intern.HandleEqIffValueEq | Balance2/Partition2.hpp:31-33 | In a duplicate-free cache, two handles are equal exactly when their values are. |
| Intern.SameHandleIffSameValue | Balance2/Weighing2.cpp:14-32 | Two successive get_instance calls return the same handle exactly when the values are equal. |
| PartitionCache.AddPartition | Balance/PartitionCache.cpp:77-78 | try_emplace of a child partition returns the handle of the equal cached partition. A new one is added with an empty Item, and an existing entry is left alone. |
| PartitionCache.GetRoot | Balance/PartitionCache.cpp:11-23 | get_root returns a partition of one part of coin_count coins, records it as the root for that count, and stores a new one with an empty Item. |
| PartitionCache.GetRootStable | Balance/PartitionCache.cpp:14-22 | A second get_root for the same count returns the same handle and changes nothing. |
| PartitionCache.LookupWeighingAsWritten | Balance/PartitionCache.cpp:39-51 | As written, a miss in the weighing cache reaches the read of `*end()`. The model answers None exactly on a miss. |
| PartitionCache.AsWrittenFirstLookupFails | Balance/PartitionCache.cpp:39-43 | The first get_weighings on a new cache misses on the very first weighing. |
| PartitionCache.InternWeighing | Balance/PartitionCache.cpp:39-51 | Corrected: the handle of the cached weighing equal to w, a copy being cached on a miss. Cached values are kept. |
| PartitionCache.Step | Balance/PartitionCache.cpp:38-78 | One pass of the loop returns handles whose values are the weighing, its provenance and the derived child partition. It keeps the cache valid and earlier Items intact. |
| PartitionCache.RecordedStep | Balance/PartitionCache.cpp:44-78 | Each pass appends one entry to each of the three lists, keeping them parallel and correct for all earlier weighings. |
| PartitionCache.Collect | Balance/PartitionCache.cpp:36-79 | The loop records every weighing of the list with its provenance and child partition, and leaves other Items untouched. |
| PartitionCache.GetWeighings | Balance/PartitionCache.cpp:25-82 | get_weighings computes only when the Item is empty; a second call changes nothing. The Item lists every weighing of the partition once, in enumeration order, with its provenance and child partition, and no other Item changes. |
| FindMajority.NewProblem | Balance/ProblemFindMajority.cpp:13-30 | threshold is the least majority of the odd coin count. The range of H coins is [1, c-1] by default and [threshold-1, threshold] when almost balanced. |
| FindMajority.IsMajority | Balance/ProblemFindMajority.hpp:64-81 | is_majority is false for the empty distribution. It is true exactly when the distribution holds at least threshold H coins; the early exit does not change the answer. |
| FindMajority.IsResolved | Balance/ProblemFindMajority.cpp:64-101 | An empty state is resolved. Otherwise the state is resolved exactly when all distributions agree on is_majority. |
| FindMajority.IsImpossible | Balance/ProblemFindMajority.hpp:43 | A state is impossible exactly when it holds no distribution. |
| FindMajority.MakeRootData | Balance/ProblemFindMajority.cpp:32-41 | The root state holds exactly the one-part distributions [i] for minimum_count <= i <= maximum_count, in ascending order. |
| FindMajority2.MakeRoot | Balance2/ProblemFindMajority2.cpp:57-67 | make_root pairs the given one-part partition with exactly the distributions [min] .. [max], in ascending order. |
| FindMajority2.ScoreIgnored | Balance2/ProblemFindMajority2.hpp:60-64 | Changing the score changes neither equality nor order. |
| FindMajority2.LessTotalOrder | Balance2/ProblemFindMajority2.hpp:65-74 | The order on states is irreflexive, transitive and total with respect to ==, and equal states are not ordered. |

## Left out

- Output, `Output2` and `Partition::write`: console and file formatting only.
- `main.cpp`, `Manager.hpp` and `Manager2.hpp`: entry points and a search engine that is a stub.
- `WeighingIterator`: the file is a stub whose constructor throws. The `for (auto& weighing : *partition)` of `get_weighings` is modelled as the run of the constructor and `advance` up to the sentinel (`Enumerator.Enumerate`).
- `Weighing::compute_provenance` is not part of this model. `get_weighings` takes it as a parameter (`provenanceOf`). The constructor's comment at Balance/Partition.cpp:22 only asks that the entries of a base part be adjacent and end with the set-aside entry. `Partition.DeriveLaid` proves the constructor's promises for every provenance of that shape that lists each non-empty group once. `Partition.DeriveCanonical` covers the one part-by-part layout that `Generator::get` of Balance2/Partition2.cpp also builds.
- `Partition2::get_children`: the body builds a Generator and never fills the list.
- `apply_weighing`, `simplify_state` and the join functions: only declared, or returning empty outcomes.
- The float `score` of `StateType`: carried as a `real` that the comparisons ignore.
- Object identity and ownership (`unique_ptr`, pointer comparators): handles into append-only caches stand in for pointers.
- Header and source disagree in places. The model follows the .cpp bodies:
  - the three-argument constructor of ProblemFindMajority2.hpp;
  - `PartitionCache::Item`, which in the header has no provenance list while the .cpp fills one.
- The dangling `roots[coin_count]` reference of `get_root` does not arise with values. `PartitionCache.GetRoot` records the handle directly.
- FindMajority.IsMajority: the contract states the answer only for distributions of at most 255 coins. Beyond that the uint8_t running sum wraps. The body models the wrap, but the contract says nothing about it.
- FindMajority.IsResolved: exact only when every distribution holds at most 255 coins, for the same reason.
- FindMajority.MakeRootData: requires maximum_count < 255, since with 255 the uint8_t loop counter never exceeds the bound. Every problem the constructor builds meets this.
- FindMajority2.MakeRoot: requires maximum_count < 255, for the same reason.
- FindMajority2: the constructor and `is_majority` of ProblemFindMajority2.cpp are the same code as in ProblemFindMajority and are modelled once, by `FindMajority.NewProblem` and `FindMajority.IsMajority`.
- Partition2.Valid: the documented invariant includes "c > 2", so a one-part partition of 1 or 2 coins is not valid even though `Partition2(count)` builds it.
- Counts are `nat` bounded by 255 through `Pans.IsPartition` rather than a byte type. The enumerator's own arithmetic stays within a byte for such partitions.

## Findings

| source | as written | input that shows it | evidently intended | confidence | as-written member | corrected member |
|---|---|---|---|---|---|---|
| Balance/PartitionCache.cpp:43 | On a miss in `weighings_cache` the code copies `**weighing_entry`, but `weighing_entry` is `end()` there, so it reads through the end iterator. | The first `get_weighings` on a new cache, for any partition of at least two coins (e.g. `[2]`): the very first weighing misses. | Cache a copy of the current `weighing`: `std::make_unique<Weighing>(weighing)`. | not executed | PartitionCache.LookupWeighingAsWritten, with PartitionCache.AsWrittenFirstLookupFails | PartitionCache.InternWeighing |
