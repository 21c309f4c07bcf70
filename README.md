# Delay-sequence search, modelled in Dafny

The tool picks programmable delay-cell settings whose measured rise and fall delays
(in picoseconds) climb in roughly equal steps. Its core is
`find_best_sequence_greedy` in `scripts/find_delay_sequence.py`, which runs in three parts.

1. **Rise index.** The catalog is grouped by exact rise value into buckets that keep
   catalog order. The distinct rise values are then sorted in ascending order.
2. **Sequence builder.** Given a start rise and a step, the builder seeds a chain with the
   first catalog entry of that rise. For positions `i = 1 .. 99` it targets
   `(start + i·step, seedFall + i·step)`. It scans the buckets whose rise lies within
   `max_distance` of the target, in ascending rise order and catalog order within a bucket,
   and accepts the first entry of least combined distance `|Δrise| + |Δfall|` that is at most
   `2·max_distance`. The chain stops for good at the first position where nothing is
   accepted.
3. **Search driver.** It tries every start rise in ascending order with every step from
   `min_step` to `max_step`. A chain replaces the best one only when it is strictly longer,
   so the first longest chain in that order wins.

The model has five modules, one file each:

- `Catalog` (`catalog.dfy`) holds the entry and chain-step records and the distance measure.
- `RiseIndex` (`rise_index.dfy`) holds the bucket and key-order functions and `BuildRiseIndex`,
  the loop that builds the index.
- `SequenceBuilder` (`sequence_builder.dfy`) holds the greedy scan `Nearest` and the chain
  `Chain`. It also has the methods `FindNearest`, `BuildChain` and `GrowChain`, which run the
  source's loops and are proved equal to those functions.
- `SearchDriver` (`search_driver.dfy`) holds the selection functions, the lemmas about them
  and the method `FindBestSequenceGreedy` with its loops.
- `Scenarios` (`scenarios.dfy`) works out two searches on concrete catalogs.

Each loop of the source is a Dafny method whose postcondition equates its result with a
pure function that defines what the loop computes. The lemmas then state what the source promises about those
functions.

Python's integers are unbounded, so plain `int` models them. Python's `abs` is `Abs`.
`float('inf')`, the scan's initial best distance, becomes `None` of an `Option`.

Two consequences of the code are worth stating, because they are easy to get wrong:

- **One-entry catalog.** A one-entry catalog gives a chain of exactly one step only when
  `|step| > max_distance`. With a smaller step in either direction, the lone entry stays within
  the rise tolerance of the next targets and is accepted again. `Scenarios.LoneChainSingle`
  proves this condition in both directions for the catalog `[X(20, 20)]` with tolerance 3.
  `Scenarios.LoneEntryRepeats` proves that the same catalog with step 1 gives four steps.
- **Non-empty catalog.** A non-empty catalog gives a result of at least one step only when
  `min_step <= max_step` (`SearchDriver.NonEmptyResult`). With an empty step range the result
  is empty (`SearchDriver.EmptyStepRange`).

## Model

| member | source | states |
|---|---|---|
| Catalog.Distance | scripts/find_delay_sequence.py:89 | the combined distance is zero exactly when rise and fall both hit the target, and never less than the rise deviation |
| RiseIndex.BuildRiseIndex | scripts/find_delay_sequence.py:47-53 | the loop builds a map whose keys are exactly the catalog's rises, each mapped to its bucket, plus a key list that is strictly ascending, holds exactly those keys and equals `RiseValues` |
| RiseIndex.BucketMembers | scripts/find_delay_sequence.py:48-51 | an entry is in the bucket of `r` iff it is in the catalog and its rise is `r` |
| RiseIndex.BucketCount | scripts/find_delay_sequence.py:48-51 | each entry appears in the bucket of its own rise as many times as in the catalog, and in no other bucket |
| RiseIndex.BucketFirst | scripts/find_delay_sequence.py:63-66 | the head of a bucket is the first catalog entry with that rise, and no earlier entry has that rise |
| RiseIndex.HasRiseBucket | scripts/find_delay_sequence.py:63-68 | a rise that occurs in the catalog has a non-empty bucket headed by a catalog entry of that rise, so the seed lookup never comes back empty |
| RiseIndex.DistinctRisesSpec | scripts/find_delay_sequence.py:48-50 | the keys in first-appearance order are exactly the catalog's rises, with no repeats |
| RiseIndex.Insert | scripts/find_delay_sequence.py:53 | inserting into an ascending list keeps it ascending and adds exactly that one value |
| RiseIndex.Sort | scripts/find_delay_sequence.py:53 | the sort result is ascending and is a permutation of its input |
| RiseIndex.SortSorted | scripts/find_delay_sequence.py:53 | sorting an already ascending list returns it unchanged |
| RiseIndex.SortedDistinct | scripts/find_delay_sequence.py:53 | sorting a list without repeats gives a strictly ascending list |
| RiseIndex.RiseValuesSpec | scripts/find_delay_sequence.py:53 | the rise values are strictly ascending and are exactly the rises of the catalog |
| RiseIndex.RiseListed | scripts/find_delay_sequence.py:53 | every catalog entry's rise is among the rise values |
| SequenceBuilder.TargetIsProgression | scripts/find_delay_sequence.py:79-80 | the target at position `p` is `base + p·step` |
| SequenceBuilder.ScanFindsNothing | scripts/find_delay_sequence.py:88-94 | a scan from the infinite best accepts nothing iff every candidate is farther than `2·max_distance` |
| SequenceBuilder.ScanFirstMinimum | scripts/find_delay_sequence.py:88-92 | a successful scan returns a candidate at its own distance, at most `2·max_distance`, no farther than any candidate, with every earlier candidate strictly farther (first minimum under the strict `<`) |
| SequenceBuilder.ScanFromAppend | scripts/find_delay_sequence.py:85-92 | scanning two candidate lists one after the other equals scanning their concatenation, so the best carries over from bucket to bucket |
| SequenceBuilder.NearestScansWindow | scripts/find_delay_sequence.py:85-92 | the nested rise-then-bucket scan equals one scan of the flattened window of candidates |
| SequenceBuilder.WindowMembers | scripts/find_delay_sequence.py:85-88 | the window holds exactly the catalog entries whose rise is listed and within `max_distance` of the target |
| SequenceBuilder.WindowAscending | scripts/find_delay_sequence.py:85-88 | over ascending rise values the window is ordered by rise |
| SequenceBuilder.WindowOfCatalog | scripts/find_delay_sequence.py:85-88 | over the catalog's own rise values the window is exactly the entries within the rise tolerance |
| SequenceBuilder.NearestNone | scripts/find_delay_sequence.py:85-95 | no entry is accepted iff every entry within the rise tolerance is farther than `2·max_distance` |
| SequenceBuilder.NearestSpec | scripts/find_delay_sequence.py:85-92 | an accepted entry comes from the catalog, lies within the rise tolerance, carries its true distance (at most `2·max_distance`) and is no farther than any entry within the tolerance |
| SequenceBuilder.NearestCatalogOrder | scripts/find_delay_sequence.py:85-92 | every catalog entry before the accepted one with the same rise is strictly farther from the target |
| SequenceBuilder.WindowBucket | scripts/find_delay_sequence.py:85-88 | for a listed rise within the tolerance, the window's entries of that rise are exactly that rise's bucket, in catalog order |
| SequenceBuilder.FirstToBucket | scripts/find_delay_sequence.py:48-51 | an entry with every earlier same-rise entry strictly farther is, within its bucket, preceded only by strictly farther entries |
| SequenceBuilder.FirstFromBucket | scripts/find_delay_sequence.py:48-51 | the converse: first within the bucket at that distance means first among the catalog's entries of that rise |
| RiseIndex.BucketAppend | scripts/find_delay_sequence.py:48-51 | the bucket of a concatenation is the concatenation of the buckets |
| RiseIndex.BucketOfBucket | scripts/find_delay_sequence.py:48-51 | re-bucketing a bucket by its own rise returns it, and by any other rise returns nothing |
| SequenceBuilder.NearestTieBreak | scripts/find_delay_sequence.py:85-90 | among entries within the tolerance at the accepted distance, the accepted one has the least rise; among catalog entries of that rise, every earlier one is strictly farther, so the first in catalog order wins (strict `<`) |
| SequenceBuilder.ExtendTargets | scripts/find_delay_sequence.py:78-80 | position `k` of the chain tail begun at `i` targets progression position `i + k` in rise and fall |
| SequenceBuilder.ExtendTargetAt | scripts/find_delay_sequence.py:79-80 | the same targets in closed form, `start + (i+k)·step` and `seedFall + (i+k)·step` |
| SequenceBuilder.ExtendEnds | scripts/find_delay_sequence.py:78-95 | the tail ends at position 100 at the latest, and earlier only at a position whose target has no accepted entry |
| SequenceBuilder.ExtendMatched | scripts/find_delay_sequence.py:94-102 | every recorded tail step holds what the scan accepted for its target |
| SequenceBuilder.ExtendNext | scripts/find_delay_sequence.py:94-102 | breaking on no match leaves the chain complete, and appending the match leaves the rest to the next position |
| SequenceBuilder.ChainSeed | scripts/find_delay_sequence.py:63-75 | for a start rise in the catalog, the seed is the first catalog entry with that rise and the chain opens with it at distance 0 |
| SequenceBuilder.ChainWithoutSeed | scripts/find_delay_sequence.py:68-69 | a start rise absent from the catalog gives no chain |
| SequenceBuilder.ChainTargets | scripts/find_delay_sequence.py:78-80 | position `k` of a chain targets `start + k·step` in rise and `seedFall + k·step` in fall |
| SequenceBuilder.ChainMatched | scripts/find_delay_sequence.py:82-102 | every non-seed step holds what the scan accepted for its target |
| SequenceBuilder.ExtendStops | scripts/find_delay_sequence.py:94-95 | where the tail stops before the cap, no catalog entry is acceptable for the next target |
| SequenceBuilder.ChainStops | scripts/find_delay_sequence.py:78-95 | a chain has between 1 and 100 steps and, if shorter than 100, nothing is acceptable at the next position (no gaps) |
| SequenceBuilder.ChainAccepted | scripts/find_delay_sequence.py:82-102 | every non-seed step is a catalog entry within the rise tolerance, with distance equal to the deviation sum and at most `2·max_distance`, the least among entries within the tolerance, with ties going to the least rise and, within that rise, to the first entry in catalog order |
| SequenceBuilder.FindNearest | scripts/find_delay_sequence.py:82-92 | the nested scan loops compute `Nearest` |
| SequenceBuilder.BuildChain | scripts/find_delay_sequence.py:59-102 | the builder's loops compute `Chain`, with the empty chain when the start rise has no bucket |
| SequenceBuilder.GrowChain | scripts/find_delay_sequence.py:71-102 | the extension loop computes the seed step followed by the tail from position 1 |
| SearchDriver.StepsDominate | scripts/find_delay_sequence.py:105-106 | after the step loop the best is at least as long as the best before it and as every chain tried |
| SearchDriver.StepsFirst | scripts/find_delay_sequence.py:105-106 | after the step loop the best is unchanged, or it is the first tried chain that beats every earlier one and the prior best |
| SearchDriver.StartsDominate | scripts/find_delay_sequence.py:57-58 | the search result is at least as long as the chain of every (start, step) pair tried |
| SearchDriver.StartsFirst | scripts/find_delay_sequence.py:57-106 | the result is empty or the chain of a pair tried that is strictly longer than the chain of every earlier pair in enumeration order |
| SearchDriver.StartsWithoutSteps | scripts/find_delay_sequence.py:58 | with an empty step range nothing is ever selected |
| SearchDriver.EmptyCatalog | scripts/find_delay_sequence.py:47-57 | an empty catalog gives the empty result |
| SearchDriver.EmptyStepRange | scripts/find_delay_sequence.py:58 | `min_step > max_step` gives the empty result |
| SearchDriver.SearchFindsSeed | scripts/find_delay_sequence.py:57-75 | over a non-empty catalog's rise values with a non-empty step range, the result has at least one step |
| SearchDriver.NonEmptyResult | scripts/find_delay_sequence.py:57-75 | a non-empty catalog with `min_step <= max_step` gives a result of length at least 1 |
| SearchDriver.ResultIsLongest | scripts/find_delay_sequence.py:105-106 | no chain for any start rise in the catalog and any step in range is longer than the result |
| SearchDriver.SearchFirstLongest | scripts/find_delay_sequence.py:57-106 | over rise values in ascending order, the result is the chain of some pair in range, and every pair before it (smaller start, or same start and smaller step) gives a strictly shorter chain |
| SearchDriver.ResultIsFirstLongest | scripts/find_delay_sequence.py:57-106 | the search result is the first longest chain in enumeration order: a chain of some pair in range whose every predecessor pair is strictly shorter |
| SearchDriver.TryChain | scripts/find_delay_sequence.py:59-102 | one builder call yields the chain of that (start, step) pair |
| SearchDriver.TrySteps | scripts/find_delay_sequence.py:58-106 | the step loop for one start rise computes the selection over steps `min_step .. max_step` |
| SearchDriver.FindBestSequenceGreedy | scripts/find_delay_sequence.py:36-108 | the whole search (index, both loops, strict-longer selection) computes `BestSequence`; the parameters default to steps 8 to 30 and tolerance 3 |
| Scenarios.SampleRises | scripts/find_delay_sequence.py:47-53 | the sample catalog's rise values are `[10, 18, 26, 50]` |
| Scenarios.SampleBuckets | scripts/find_delay_sequence.py:47-51 | each of the sample's rise values has a bucket of exactly its one entry |
| Scenarios.SampleNearest | scripts/find_delay_sequence.py:82-92 | targets (18,20) and (26,28) accept B at 0 and C at 1; targets (34,36), (34,37) and (58,1007) accept nothing |
| Scenarios.SampleChains | scripts/find_delay_sequence.py:59-102 | with step 8 and tolerance 3 the chain from 10 is A, B, C (C at distance 1), and the chains from 18, 26 and 50 have lengths 2, 1 and 1 |
| Scenarios.SampleStarts | scripts/find_delay_sequence.py:57-106 | selection over starts 10, 18, 26, 50 with chain lengths 3, 2, 1, 1 keeps the first |
| Scenarios.SampleSearch | scripts/find_delay_sequence.py:36-108 | the search over the sample with step 8..8 and tolerance 3 returns `[(10,12,10,12,A,0), (18,20,18,20,B,0), (26,28,26,29,C,1)]` |
| Scenarios.TwinRiseTie | scripts/find_delay_sequence.py:85-92 | for `[P(20,10), Q(20,14)]`, target (20,12) and tolerance 3, both cells are at distance 2 and P, the first in catalog order, is accepted |
| Scenarios.LoneChainSingle | scripts/find_delay_sequence.py:59-102 | the one-entry catalog `[X(20,20)]` with tolerance 3 gives a one-step chain iff the step's absolute value exceeds 3 |
| Scenarios.LoneEntryRepeats | scripts/find_delay_sequence.py:36-108 | the one-entry catalog `[X(20,20)]` with step 1 and tolerance 3 gives four steps, all X, at distances 0, 2, 4 and 6 |

## Left out

- `load_delays` (CSV reading) is file input. The model takes the catalog as a sequence.
- `print_sequence` and `main` are not modelled. They cover argument parsing, the unused
  `--length` option and printing, which are I/O around the core.
- `float('inf')` as the scan's starting best distance is modelled as `None`. No floating
  point is involved.
- `sorted` is modelled as an insertion sort, `Sort`. Only its result matters (ascending, a
  permutation), and Python's sort delivers the same list for integers.
- Python's dict is modelled as a Dafny `map` plus a list of keys in order of first insertion,
  which is the dict's key order. Only the sorted key list is observable.
- `BuildChain`: the source `continue`s past a start rise without a bucket. The model returns
  the empty chain instead. The empty chain never replaces the best one under the strict
  comparison, so the search result is the same (`SearchDriver.TrySteps` relies on this).
  The case cannot arise anyway, because start rises come from the index's own keys.
- `enumerate`'s unused index `start_idx` is not modelled.
