# Stable microservice grouping, modelled in Dafny

The repository groups microservices by their load time series so that the
summed load of every group is as flat as possible. Flatness is measured by
the coefficient of variation (CV, standard deviation over mean, in percent)
of the group's per-slot load sums. The Dafny project models the following.

- **The incremental grouper (`group_finder.py`).**
  - It tries every combination of 2, then 3, … microservices and keeps those whose CV is below a threshold.
  - Among these it picks greedily, lowest CV first, with no overlaps.
  - It splits every microservice left over into a *base* series (capped at the largest load outside its extreme region) and a *peak* series (the excess over that cap).
  - It groups the bases again and appends the leftover bases and the peaks as singleton groups.
  - `deprecated/split_extreme_loads.py` is an identical copy of the splitter (`group_finder.py:540-653`). The `Splitter` module covers both.
- **The knapsack grouper (`main.py`).**
  - Each microservice's weight is its mean load and its value is `100 / CV`.
  - Items are sorted by value/weight and placed worst-fit into `num_knapsacks` knapsacks of equal capacity.
  - Then pairwise exchanges that lower the summed CV of two knapsacks are repeated until a round finds none.
- **The output helpers of `shared/db_output.py`.**
  - Standard, min-max and robust normalisation.
  - Conversion of CPU, RAM and CHANNEL metrics to percentages.
  - The decoding of the grouper's index encoding, and the number of rows `save_grouping_results` writes. Original microservices keep their index, bases are `1000 + i` and peaks are `-i`.

## Modules

| module | contents |
|---|---|
| `SeqUtil` | Index-list helpers: `Distinct`, `Range`, `Flat`, `Without`. |
| `Stats` | Per-slot load sums and the CV. `Cv = Infinite \| Finite(key)`, where `key = cv·|cv|` is an order-preserving image of the CV that needs no square root. |
| `Candidates` | Combinations, the stable sort by CV, and `generate_stable_groups`. |
| `Greedy` / `GreedyProps` | The greedy pass over group sizes. The caller-owned output lists are a class `GroupLists` whose fields the methods append to. |
| `Splitter` | `split_microservice_load` and `process_unassigned_microservices`. |
| `Pipeline` / `PipelineProps` / `GroupFinder` | `form_multiple_knapsack_groups` of `group_finder.py` and its phases, whole-pipeline properties, and the entry point with the promises about its result. |
| `Scenarios` | The stability cases of the unit tests. |
| `Knapsack` | `main.py`. `remaining_capacities` is an `array<real>` updated in place. Knapsacks are `seq<seq<int>>` values. |
| `DbOutput` | The normalisation and output logic of `shared/db_output.py`. |

## Model

| member | source | states |
|---|---|---|
| Stats.CalculateLoadSum | group_finder.py:34-54 | Computes `LoadSum`: no services give `[]`; otherwise there is one total per time slot of the first series. |
| Stats.LoadSumPair | group_finder.py:44-51 | For two series of equal length, the slot sums are their pointwise sums. |
| Stats.LoadSumSingleton | group_finder.py:34-54 | The slot sums of a one-member group are that member's series. |
| Stats.CalculateStability | group_finder.py:4-32 | Returns `Stability(group)`. It is `Infinite` when the mean slot sum is 0 and otherwise the CV in its order-preserving encoding. |
| Stats.CvKeyIsSignedSquare | group_finder.py:23-32 | For any `σ ≥ 0` with `σ² = variance`, the key equals `SignedSquare(100·σ/mean)`. So it is the percentage CV the source returns, under `x ↦ x·|x|`. |
| Stats.SignedSquareMonotone | group_finder.py:85-89 | `x ↦ x·|x|` preserves and reflects `<`, so threshold tests and the sort by CV are exact on keys. |
| Stats.BelowIsExact | group_finder.py:85 | A CV's key is below the threshold exactly when `cv < stability_threshold`. |
| Stats.StabilityCases | group_finder.py:23-32 | Infinite ⟺ total load 0. CV = 0 ⟺ nonzero total and all slot sums equal. Negative CV ⟺ negative total with unequal slots. |
| Scenarios.FlatPairHasZeroCv | tests.py:9-14 | Two mirrored ramps sum to a constant, so their CV is exactly 0. |
| Scenarios.SpikyPairIsAboveFifty | tests.py:16-21 | The spiky pair has a finite CV above 50 %. |
| Scenarios.ZeroLoadIsInfinite | tests.py:23-28 | An all-zero group has infinite CV. |
| Scenarios.SingleRisingSeriesIsNotFlat | tests.py:30-32 | A single rising series does not have CV 0. |
| Candidates.CombosSound | group_finder.py:75 | Every generated combination is a strictly increasing list of `k` positions in range. |
| Candidates.CombosComplete | group_finder.py:75 | Every strictly increasing list of `k` positions in range is generated. |
| Candidates.CombinationsExact | group_finder.py:75 | `c` is generated ⟺ `c` has length `k`, is strictly increasing and lies in `[0, m)`, as with `itertools.combinations`. |
| Candidates.SortByCvProperties | group_finder.py:88-89 | The sort by CV is ascending and a permutation. It is stable: for every key, the candidates with that key keep their input order. |
| Candidates.GenerateStableGroups | group_finder.py:56-89 | Returns `StableCandidates` for the available indices, size and threshold. |
| Candidates.StableCandidatesExact | group_finder.py:72-89 | The result is sorted by CV. `x` is in it ⟺ `x` comes from some combination whose group has a CV below the threshold. |
| Candidates.CandidateShape | group_finder.py:75-86 | Each candidate has `size` indices, all drawn from `available_indices`, distinct when those are. Its group is exactly those series, its CV is below the threshold, and its stored key is its CV. |
| Candidates.IsGroupAvailable | group_finder.py:91-102 | True ⟺ no index of the group is in the used set. |
| SeqUtil.Without | group_finder.py:250 | Keeps exactly the indices that are not used, in their order. It never grows the list and keeps it duplicate-free. |
| Greedy.AcceptFacts | group_finder.py:230-245 | Accepted groups are pairwise disjoint and avoid the indices used before. Every candidate not accepted overlaps the used set or an accepted group. |
| Greedy.AcceptGroups | group_finder.py:233-245 | Appends exactly the accepted candidates' groups, index lists and slot sums to the output lists. Returns the used set grown by their indices. |
| Greedy.TrySize | group_finder.py:211-256 | One group size: the rest of the pass is what this size takes, followed by the pass from the next size on what is left. The output lists grow by what was taken. |
| Greedy.GroupOriginalMicroservices | group_finder.py:189-258 | The available list returned and the groups appended are exactly the outcome of the pass over sizes 2 to `min(max_group_size, n)`. |
| Greedy.GroupBaseComponents | group_finder.py:338-408 | The same pass over the base components, appended to the temporary lists. |
| GreedyProps.AcceptedGood | group_finder.py:217-245 | Every group accepted at size `s` has `s` distinct in-range members drawn from the available ones, is their series, and has a CV below the threshold. |
| GreedyProps.EscalateFacts | group_finder.py:209-256 | Over the whole pass, the members of the accepted groups and the remaining indices partition the available ones. No index is in two groups. Every group is good, and group sizes never decrease. |
| GreedyProps.EscalateFactsAt | group_finder.py:209-256 | The same facts, for a pass that has not yet reached its stop size. |
| Splitter.SplitMicroserviceLoad | group_finder.py:540-620 | Returns `Split(s, threshold_std)`, the base and peak series. |
| Splitter.ExceedsExact | group_finder.py:562-573 | The root-free extreme test agrees with `x > mean + t·std` for the true standard deviation. |
| Splitter.LeftStart | group_finder.py:580-587 | The region extends left over exactly the maximal run of values above the mean. |
| Splitter.RightEnd | group_finder.py:590-597 | The region extends right over exactly the maximal run of values above the mean. |
| Splitter.ExtendLeft | group_finder.py:580-587 | The leftward scan loop computes `LeftStart`. |
| Splitter.ExtendRight | group_finder.py:590-597 | The rightward scan loop computes `RightEnd`. |
| Splitter.Mask | group_finder.py:602-604 | The mask is true exactly at the positions outside the extended extreme region. |
| Splitter.MaxWhere | group_finder.py:606-612 | `None` ⟺ the mask is empty. Otherwise the result is the largest masked value and is attained. |
| Splitter.SplitReconstructs | group_finder.py:614-620 | `base + peak == series` pointwise, with `peak ≥ 0` and `base ≤ series`. |
| Splitter.SplitOutsideRegion | group_finder.py:600-618 | Base never exceeds the cap. Outside the region the base equals the series and the peak is 0. The cap is attained outside the region, or else the whole series is the region and the cap is the mean. |
| Splitter.ClipExcess | group_finder.py:614-618 | The clipped and excess parts add up to the load. The excess is never negative, the clipped part never exceeds the load or the cap, and a load at or below the cap is kept whole. |
| Splitter.CapFacts | group_finder.py:606-612 | The cap bounds every load outside the region. It is one of those loads, or the mean when there is none. |
| Splitter.ExtremeAboveCap | group_finder.py:566-612 | For a non-negative threshold, every extreme load is strictly above the cap. |
| Splitter.ExtremeHasPeak | group_finder.py:566-618 | Every extreme point has a strictly positive peak. |
| Splitter.PeakIffExtreme | group_finder.py:566-618 | Some peak value is positive ⟺ the series has an extreme point. |
| Splitter.ProcessUnassignedMicroservices | group_finder.py:622-653 | Returns `SplitAll` of the unassigned indices. |
| Splitter.SplitAllBases | group_finder.py:640-646 | There is one base per unassigned index, in order, each the base half of that series' split. |
| Splitter.SplitAllPeaks | group_finder.py:648-651 | The peak indices are, in order, exactly the unassigned indices whose series has an extreme point (`WithExtreme`). Each peak is the peak half of that series' split. |
| Splitter.WithExtremeExact | group_finder.py:648-651 | An index is in `WithExtreme` ⟺ it is unassigned and its series has an extreme point. |
| Pipeline.Pass | group_finder.py:139-150 | The first pass is the greedy pass from `range(n)`. What remains is duplicate-free and in range. |
| Pipeline.Leftover | group_finder.py:159-161 | The bases and peaks of the leftovers are `SplitAll`. The bases are well formed and indexed by the leftovers themselves. |
| Pipeline.ProcessPeakComponents | group_finder.py:261-278 | Appends one singleton group per peak, indexed `[-idx]`, with its slot sums. |
| Pipeline.AppendBaseGroups | group_finder.py:317-325 | Appends the temporary base groups, re-indexed as `1000 + original index`. |
| Pipeline.AddUngroupedBaseComponents | group_finder.py:411-433 | Appends every ungrouped base as its own group, indexed `1000 + original index`. |
| Pipeline.ProcessBaseComponents | group_finder.py:281-335 | Appends the base phase: the grouped bases, then the ungrouped ones. |
| Pipeline.FinalizeResults | group_finder.py:436-461 | Appends the peak triples, truncated to the shortest of the three lists as `zip` does. |
| Pipeline.GroupBases | group_finder.py:166-183 | Runs the base phase when there are bases, then the singleton fallback when nothing was grouped. |
| Pipeline.GroupLeftover | group_finder.py:157-176 | Splits the leftovers, stores their peaks and groups their bases. |
| GroupFinder.FormMultipleKnapsackGroups | group_finder.py:104-186 | Returns `FormGroups(series, max_group_size, threshold)`, and every slot-sum list is the load sum of its group. For at most 1000 microservices the index lists read as `Roles`. Before the peak components, each microservice occurs exactly once: as `i` if the first pass grouped it, as `1000 + i` if it was left over. After them comes one `[-i]` per leftover with an extreme, in order. Every group of two or more has a CV below the threshold and every other group is a single series (`MeetsThreshold`). For at most 1000 microservices, each group before the peak components holds exactly the loads its indices name (`Denotes`): microservice `i` under `i`, its base component under `1000 + i`. |
| PipelineProps.PassPartition | group_finder.py:139-150 | The first pass's groups and leftovers together are a duplicate-free listing of `0..n-1`. Every group is good, and sizes ascend. |
| PipelineProps.PassGroups | group_finder.py:139-150 | Each first-pass group has between 2 and `max_group_size` distinct in-range members and a CV below the threshold. An index is grouped ⟺ it is not left over. |
| PipelineProps.BasePhasePartition | group_finder.py:281-335 | The base phase lists every base exactly once, as `1000 + original index`. |
| PipelineProps.BasePhaseNonEmpty | group_finder.py:167-183 | A non-empty base list always produces at least one group. |
| PipelineProps.FallbackUnreachable | group_finder.py:178-183 | The result equals the pipeline without the singleton fallback, so that branch never changes the output. |
| PipelineProps.FormGroupsParts | group_finder.py:157-186 | The result is the groups of the two passes (`MainPart`) followed by the peak components (`PeakPart`), in every case. |
| PipelineProps.MainRoles | group_finder.py:139-176 | For at most 1000 microservices, the joined index lists before the peaks are duplicate-free. They hold `p` ⟺ the first pass grouped `p`, and `1000 + p` ⟺ `p` was left over. Exactly one of `p` and `1000 + p` occurs. |
| PipelineProps.PeakRoles | group_finder.py:159-164 | The peak part is one `[-p]` per entry of `WithExtreme` over the leftovers, in order. Those entries are distinct and are exactly the leftovers whose load has an extreme. |
| PipelineProps.WithExtremeDistinct | group_finder.py:640-651 | Distinct leftovers give distinct peak indices. |
| PipelineProps.RolePartition | group_finder.py:104-186 | For at most 1000 microservices, the index lists of `FormGroups` satisfy `Roles`: the partition of the main part followed by one `[-p]` per leftover with an extreme. |
| PipelineProps.GroupsMeetThreshold | group_finder.py:85 | Whatever path `form_multiple_knapsack_groups` takes, every returned group of two or more members is shaped, non-empty and has a CV below the threshold; the others are single series. For at most 1000 microservices, each group before the peak components holds exactly the series its indices name. |
| PipelineProps.FirstMeets | group_finder.py:234-242 | The groups kept by the first pass meet the threshold and hold `microservices[i]` for each listed `i`. |
| PipelineProps.BaseMeets | group_finder.py:382-390 | The groups kept by the second pass meet the threshold, computed over the base components, and under `1000 + i` hold the base component of microservice `i`. |
| PipelineProps.BaseMembers | group_finder.py:318-324 | A base group listed as `[1000 + base_indices[idx] …]` holds, at each position, the base component of the microservice that index names. |
| PipelineProps.UngroupedMeets | group_finder.py:425-431 | Each ungrouped base component is a group of one, listed as `[1000 + real_idx]` and holding that microservice's base component. |
| PipelineProps.PeakComponents | group_finder.py:159-164 | The peak groups are exactly the peaks of the leftovers that have an extreme, each as `[peak]` with index `[-idx]`. |
| PipelineProps.SlotSumsMatchGroups | group_finder.py:104-186 | Every output slot-sum list equals the load sum of its group. |
| DbOutput.NormalizeData | shared/db_output.py:54-95 | Fails only for min-max on an empty list; the source also fails for robust scaling on an empty list, which is listed under Left out. Otherwise the result has the input's length. An unknown method returns the input. |
| DbOutput.StandardScores | shared/db_output.py:67-73 | `std = 0` ⟺ all values equal the mean, and then the input is returned. Otherwise the z-scores sum to 0. |
| DbOutput.ShiftedSumZero | shared/db_output.py:67-73 | Centred on the mean, the values sum to 0 whatever the nonzero scale. |
| DbOutput.ShiftInverse | shared/db_output.py:73-91 | Each scaling `(v - c) / s` is undone by `· s + c`. |
| DbOutput.MinMaxScaled | shared/db_output.py:75-81 | The result lies in `[0, 1]`. It is 0 exactly at the minimum and 1 exactly at the maximum, and it preserves order. |
| DbOutput.RobustCentresMedian | shared/db_output.py:83-91 | With a nonzero IQR, a value equal to the median maps to 0. |
| DbOutput.NormalizeToPercentage | shared/db_output.py:267-313 | `max_ram_kb` defaults to `DefaultMaxRamKb` (2097152). Fails ⟺ RAM with `max_ram_kb ≤ 0`, CHANNEL on an empty list, or an unknown metric. Otherwise every value is in `[0, 100]` and the length is kept. |
| DbOutput.CpuIdempotent | shared/db_output.py:283-285 | CPU values already in `[0, 100]` are unchanged, and normalising twice is normalising once. |
| DbOutput.DefaultRamHalf | shared/db_output.py:267-293 | With the default `max_ram_kb` of 2097152 KB, 1048576 KB of RAM reads as 50 percent. |
| DbOutput.RamShare | shared/db_output.py:287-293 | Within `[0, max_ram_kb]` a RAM value becomes its exact percentage of `max_ram_kb`. It saturates at 100 above and at 0 below. |
| DbOutput.ChannelShare | shared/db_output.py:295-305 | With a positive maximum, the maximum maps to 100 and each non-negative value to its share of the maximum. |
| DbOutput.ChannelSilent | shared/db_output.py:301-305 | When no value is positive, every CHANNEL percentage is 0. |
| DbOutput.Decode | shared/db_output.py:186-198 | Encoding the decoded role and index gives back the stored index. Originals are below 1000 and peaks positive. |
| DbOutput.RoleRoundTrip | shared/db_output.py:188-198 | Decoding an encoded `(role, i)` returns it ⟺ an original has `i < 1000` and a peak has `i > 0`. |
| DbOutput.PeakOfZeroReadsAsOriginal | shared/db_output.py:192-198 | The peak of microservice 0 is stored as 0 and read back as original microservice 0. |
| DbOutput.RowsLayout | shared/db_output.py:184-214 | One row per member of each group, in order, with the 1-based group id, the decoded name and the component type. |
| DbOutput.CommittedCount | shared/db_output.py:174-219 | The count is 0 for no groups or a name lookup that fails (rolled back). Otherwise it is the total number of members of the zipped groups. |
| DbOutput.SaveGroupingResults | shared/db_output.py:159-224 | Returns the committed rows and their number. |
| Knapsack.CvValueAgrees | main.py:1-29 | `main.py`'s CV is infinite ⟺ `group_finder.py`'s is. With a true square root its value has the same key. |
| Knapsack.ItemsOf | main.py:74-88 | The weight of each microservice is its mean load. Its value is `inf` for CV 0, `0` for infinite CV, and `100 / CV` otherwise. |
| Knapsack.SortItems | main.py:133-135 | The order is a permutation of the item indices, descending by value/weight, with equal keys in ascending index order (Python's stable sort with `reverse=True`). |
| Knapsack.Choice | main.py:143-151 | `-1` ⟺ no knapsack fits the item. Otherwise the chosen knapsack fits, has the largest remaining capacity among those that fit, and is the first such. |
| Knapsack.WorstFit | main.py:144-151 | The scan over `remaining_capacities` returns `Choice`. |
| Knapsack.FirstPassLoop | main.py:137-156 | The first-pass loop produces exactly the specified first-pass state. |
| Knapsack.FirstPassAccounted | main.py:142-156 | After the first pass each remaining capacity is its capacity minus the load of its knapsack. Every non-empty knapsack fits its capacity. |
| Knapsack.RemainingNonNegative | main.py:148-156 | A remaining capacity is negative only for an untouched knapsack with a negative capacity. With non-negative capacities none is negative. |
| Knapsack.FirstPassBag | main.py:142-156 | No item is placed more often than it appears in the order. |
| Knapsack.FirstPassDistinct | main.py:142-156 | For a duplicate-free order, no item is in two knapsacks or twice in one, and every placed item comes from the order. |
| Knapsack.SwapBag | main.py:199-200 | Exchanging two items keeps the multiset of placed items. |
| Knapsack.SwapKeeps | main.py:197-204 | An exchange keeps capacities accounted, knapsack count and sizes, and the multiset of placed items. |
| Knapsack.TryPair | main.py:166-207 | Either nothing changes and no exchange the loops try is feasible and improving, or the exchange made is the first feasible, improving one in scan order (`FirstSwap`). The loops try every `(a, b)` when `improved` is unset on entry, and only `a = 0` once it is set. |
| Knapsack.Sweep | main.py:163-210 | All pairs `(i, j > i)` are tried. If nothing improved, nothing changed and no pair `(i, j)` has an improving exchange. |
| Knapsack.Round | main.py:161-210 | A round keeps accounting, sizes and contents. A round without improvement leaves the knapsacks locally optimal. |
| Knapsack.SwapPhase | main.py:158-210 | The exchange phase keeps accounting, sizes and contents. When it stops on its own, no feasible improving exchange remains. |
| Knapsack.SolveMultipleKnapsack | main.py:117-212 | There is one knapsack per capacity. Each holds the first pass's items up to exchanges, no item is in two knapsacks, and every non-empty knapsack is within its capacity. When `while improved` ends by itself (`converged`), the result is `LocallyOptimal` with its remaining capacities. |
| Knapsack.CollectAligned | main.py:108-113 | Each output group is non-empty, is its knapsack's series, and has their slot sums. |
| Knapsack.CollectFrom | main.py:108-113 | Every output index list is one of the knapsacks, and there are no more groups than knapsacks. |
| Knapsack.CollectFlat | main.py:108-113 | Skipping empty knapsacks loses no item: the concatenated indices are unchanged. |
| Knapsack.Convert | main.py:103-115 | The conversion loop produces `Collect` of the knapsacks. |
| Knapsack.FormKnapsackGroups | main.py:53-115 | Fails (`ZeroDivisionError`) ⟺ no `max_capacity` and zero knapsacks. Otherwise the groups are aligned and duplicate-free, there are no more groups than knapsacks, and each group's load is within the capacity. The grouped microservices are exactly those the worst-fit first pass placed, over the items in key order and the `Capacities`. |
| Knapsack.Capacities | main.py:91-98 | One common capacity per knapsack: `max_capacity`, or 1.2 times the total weight per knapsack. There are none when the count is not positive. |

## Left out

- The numeric value of a square root. `group_finder.py` compares CVs through the root-free key `cv·|cv|`. `main.py` adds CVs, so `Knapsack` takes the square root as a function parameter `root`, and `CvValueAgrees` ties it to the key when `root` is a true square root. The standard-score branch of `normalize_data` receives the standard deviation as an argument constrained by `std² = variance`.
- IEEE-754 floating point (rounding, NaN, overflow). All arithmetic is on `real`.
- `np.round(…, 2)` in `normalize_to_percentage`. The model returns the unrounded percentages.
- `np.median` and `np.percentile` in robust scaling. They are parameters (`median`, `q1`, `q3`) of `NormalizeData`.
- DbOutput.NormalizeData: robust scaling of an empty list raises in NumPy (`np.median` and `np.percentile`, shared/db_output.py:85-87). The model treats the median and the quartiles as given parameters, so it returns the empty list there; only the min-max error is modelled.
- `max_channel_kb` is accepted but never read by the source. The model ignores it too.
- Database and file I/O, `print` output, the UI, the HTTP API, data generation and randomness. `save_grouping_results` is modelled as the list of rows it inserts. A cursor failure is modelled only as an out-of-range name lookup.
- Candidates.WellFormed: the grouping entry points require all series to have one common, positive length. The source indexes `service[t]` for the slots of the first series, which fails or reads only a prefix for other shapes.
- Knapsack.SwapPhase: the source's `while improved` is bounded by a `fuel` parameter. Running out of fuel returns `converged = false`, without the local-optimality guarantee.
- Knapsack: the lists `knapsacks[i]` are `seq` values reassigned whole, not Python lists mutated in place (nothing aliases them). `remaining_capacities` is an array updated in place.
- Knapsack.SortItems: Python's `list.sort` is a library call. It is modelled as a stable insertion sort on the key (`Ext` covers `inf`), not as Timsort.
- GroupFinder.FormMultipleKnapsackGroups: the role partition is promised only for at most 1000 microservices. From 1001 on, original index 1000 and the base component of microservice 0 are both listed as 1000. Independently of the count, the peak component of microservice 0 is listed as `-0`, the same integer as original 0 (see `DbOutput.PeakOfZeroReadsAsOriginal`); `Roles` keeps the peak part apart, so the partition itself is unaffected.
- Knapsack.SolveMultipleKnapsack: the knapsacks after the swap phase are described by what every round keeps (items, sizes, capacities) and by local optimality on convergence, not by a function that replays every round. Each single exchange is pinned down by `TryPair` as the first improving one in scan order.
- Knapsack.TryPair: after an improving exchange, `if improved: break` applies to every later pair in the same round, and the model keeps that. Later pairs try only the first item of knapsack `i`. This is why only a round *without* improvement is proved locally optimal.
- Splitter: the three index lists of `split_microservice_load` and their sorted union are modelled as one membership predicate, `InRegion`. The lists are the above-mean run left of the first extreme, the extremes, and the above-mean run right of the last extreme. Non-extreme slots between the first and the last extreme are outside it. Only membership reaches the mask, so the order of the lists is not modelled.
- DbOutput.Decode: an original index of 1000 or more cannot be told apart from a base and decodes as base. An original index written as `-0` (the peak of microservice 0) decodes as original 0.
