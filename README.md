# Millennium Falcon odds: a Dafny model of the route-risk pipeline

The repository computes the odds that the Millennium Falcon reaches its
arrival planet before the Empire's countdown runs out. The core is the
`Galaxy.py` module. It ships in two editions:

- **Classic**: `Galaxy.py`, and its byte-identical copy `Giskard-solution/Galaxy.py`.
- **Refactored**: `Millennium-falcon-solution/Galaxy.py`.

Both editions run the same four steps, and every model function takes an
`Edition` argument where they differ:

1. **Feasibility** (`find_feasible_paths`). Each candidate path is walked hop
   by hop into an itinerary: the list of stops and the list of cumulative days.
   - A hop is kept only if its travel time is within the ship's full autonomy.
   - A hop that uses all of the autonomy adds a refuel stop: the same planet again, one day later.
   - Itineraries are keyed `path_1 … path_n` in the order the paths are enumerated.
2. **Deadline** (`find_acceptable_paths`). Keeps the itineraries whose last day
   is at most the countdown. Order and values are kept.
3. **Rest variants** (`find_alternative_paths`). An itinerary with at least one
   day to spare gets one variant per distinct non-final stop. Variant number
   `idx+1` takes its stop from the enumeration of `set(path[:-1])`. It inserts a
   rest stop at list index `idx+1`, on day `days[idx]+1`, and moves every later day
   one day on. So `idx` is an enumeration index, not the stop's own position.
   The editions differ in two names:
   - **Rest label.** Classic inserts the bare planet name (`stop*1` repeats the string once). Refactored inserts `"<stop>*1"`.
   - **Variant key.** Classic uses `key + str(n)`, which can equal another path key (`path_1` + `1` is `path_11`). Refactored uses `key_n`, which never clashes.
4. **Scoring** (`give_me_the_odds`).
   - With no itinerary meeting the deadline, the answer is `(0, [])`.
   - Otherwise the accepted items and the variants are merged as Python dicts (`{**a, **b}`).
   - Each itinerary's encounters are counted: the (stop index, bounty hunter) pairs whose planet and day both match.
   - The first itinerary with the fewest encounters gives the path.
   - Its count k gives the odds: 100 when k = 0, otherwise 100·(1 − (0.1 + Σ_{j=1}^{k−1} 9^j/10^{j+1})). That equals 100·0.9^k.

Modules:

- `Dict` (`dict.dfy`): a Python dict as the list of its items in insertion order.
  - `Put` is `d[k] = v`: an existing key keeps its place; a new key is appended.
  - `Merge` is `{**d, **items}`.
- `Decimal`, `Naming`: `str(n)`, path keys, variant keys and rest labels for both editions.
- `Entities`: the bounty hunter, mission and itinerary records.
- `Feasibility`: the hop-by-hop walk.
  - `Hop`, `Walk` and `Feasible` are its specification.
  - `SimulatePath` and `FindFeasiblePaths` are the source's loops, proved equal to it.
- `Deadline`: the comprehension of `find_acceptable_paths`.
- `RestVariants`: the copy, insert and shift of one variant, and the loops that generate all variants.
- `Scoring`: encounter counting, first minimum, and the probability series with its closed form.
- `Galaxy`: the pipeline (`GiveMeTheOdds`) and properties of the merged pool.

The order in which Python enumerates `set(path[:-1])` is unspecified. The
model therefore takes it as a parameter `order`. `ValidOrder` says that `order`
maps every list to a duplicate-free listing of its elements. Every property is
proved for every such order.

## Model

| member | source | states |
|---|---|---|
| Dict.Put | Galaxy.py:106 | `d[k] = v`. An existing key keeps its position and only its value changes. A new key is appended. Other items are untouched. No key occurs twice afterwards. |
| Dict.Merge | Galaxy.py:125 | `{**a, **b}` keeps all of `a`'s keys in their positions. Every resulting item comes from `a` or `b`. Keys stay distinct. |
| Dict.MergeAppend | Galaxy.py:125 | Merging `x + y` is merging `x` and then `y`, as when a dict is filled in two loops. |
| Dict.MergeKeepsUntouched | Galaxy.py:125 | An item of `a` whose key does not occur in `b` is kept unchanged at its position. |
| Dict.MergeLaterWins | Galaxy.py:125 | When `b` has distinct keys, every item of `b` is in the merge: `b` wins on a collision. |
| Dict.MergeFresh | Millennium-falcon-solution/Galaxy.py:164 | When no key repeats across `a` and `b`, the merge is just `a + b`. |
| Decimal.Str | Galaxy.py:78 | `str(n)` is a non-empty string of decimal digits, one digit long exactly when n < 10. |
| Decimal.StrInjective | Galaxy.py:78 | `str(m) == str(n)` exactly when m == n. |
| Naming.PathKey | Galaxy.py:78 | `'path_' + str(n)` is a path key: "path_" followed by no further underscore. |
| Naming.PathKeyInjective | Millennium-falcon-solution/Galaxy.py:111 | Distinct path numbers give distinct keys, and equal numbers give equal keys. |
| Naming.VariantKey | Galaxy.py:106 | A variant key extends the key it was made from. An underscore follows that key exactly in the Refactored edition (`f"{key}_{idx + 1}"`, Millennium-falcon-solution/Galaxy.py:146). Every character after the key, and after that underscore in Refactored, is a digit. |
| Naming.RestLabel | Millennium-falcon-solution/Galaxy.py:139 | The inserted rest label starts with the planet name. It is exactly the planet name in the Classic edition, where `stop*rest` with `rest = 1` repeats the string once (Galaxy.py:103), and never in the Refactored edition, which writes `"<stop>*1"`. |
| Naming.ClassicVariantKeyIsPathKey | Galaxy.py:106 | A Classic variant key `key + str(n)` is again a path key, so it can clash with another itinerary's key. |
| Naming.ClassicKeysCollide | Galaxy.py:106 | The first Classic variant of `path_1` is keyed exactly `path_11`. |
| Naming.RefactoredVariantKey | Millennium-falcon-solution/Galaxy.py:146 | A Refactored variant key is never a path key, and the key it was made from can be read back from it. |
| Naming.RefactoredVariantKeysDistinct | Millennium-falcon-solution/Galaxy.py:146 | Two variants of one itinerary get equal Refactored keys exactly when their numbers are equal. |
| Feasibility.Hop | Galaxy.py:68-77 | One hop keeps stops and days in lockstep. What it appends is stated by `HopEffect`. |
| Feasibility.HopEffect | Galaxy.py:68-77 | A hop only appends, and only the planet reached. An over-range hop (time above the full autonomy) changes nothing. A kept hop appends one entry on day `LastDay + w`, plus a refuel entry one day later exactly when `w` equals the autonomy. The last day becomes `LastDay + w`, plus 1 on a refuel. |
| Feasibility.Walk | Galaxy.py:63-77 | After any number of hops the itinerary is well formed and starts at (departure, day 0). |
| Feasibility.Simulate | Galaxy.py:63-77 | A whole path's itinerary is well formed and starts at (departure, 0). Its arrival day is the kept travel time plus one per refuel. Its stop count is 1 + kept hops + refuels. |
| Feasibility.Feasible | Galaxy.py:62-78 | There is one itinerary per candidate path. Each is well formed and starts at (departure, 0). |
| Feasibility.WalkTotals | Galaxy.py:67-77 | The arrival day is the total time of the kept hops plus one per exact-autonomy hop. The stop count is 1 + kept hops + refuels. |
| Feasibility.WalkDaysNonDecreasing | Galaxy.py:67-77 | With non-negative travel times the days never decrease. |
| Feasibility.WalkWithinRange | Galaxy.py:67-77 | For a path that starts at the departure and whose every hop is strictly within the autonomy, the stops are the path itself and day i is the travel time of the first i hops. |
| Feasibility.SimulatePath | Galaxy.py:63-77 | The source's append loop, with its counters, yields exactly the specified walk. |
| Feasibility.FindFeasiblePaths | Galaxy.py:51-79 | The enumerate loop builds exactly the feasible dict, keyed `path_1 … path_n` in path order. |
| Feasibility.FeasibleKeys | Millennium-falcon-solution/Galaxy.py:90-111 | The feasible dict has no key twice, and every key is a path key. |
| Feasibility.FeasibleDaysNonDecreasing | Millennium-falcon-solution/Galaxy.py:96-109 | With non-negative travel times every feasible itinerary has non-decreasing days. |
| Deadline.Acceptable | Galaxy.py:84 | An item is kept iff it is in the feasible dict and its last day is at most the countdown. The kept items stay in their original order, as a subsequence. |
| Deadline.SubsequenceMembers | Millennium-falcon-solution/Galaxy.py:118-122 | A filtered dict holds only items of the dict it was filtered from. |
| Deadline.SubsequenceDistinctKeys | Millennium-falcon-solution/Galaxy.py:118-122 | A filtered dict has no key twice. |
| RestVariants.EnumerationLength | Galaxy.py:100 | `set(path[:-1])` has one element per distinct non-final stop, so at most `len(path) - 1`. |
| RestVariants.InsertRest | Galaxy.py:101-105 | A variant is well formed, one entry longer than its itinerary, and arrives exactly one day later. Its shape element by element is stated by `RestVariantShape`. |
| RestVariants.RestVariantShape | Galaxy.py:101-105 | Both lists grow by one. Entries up to idx are kept. The marker and `days[idx]+1` sit at idx+1. Every later entry moves one place on, and its day is one later. The arrival is one day later. |
| RestVariants.RestVariantInvariants | Millennium-falcon-solution/Galaxy.py:137-144 | A variant still starts at (departure, 0), and keeps non-decreasing days non-decreasing. |
| RestVariants.RestVariantNonDecreasing | Millennium-falcon-solution/Galaxy.py:140-144 | Inserting `days[idx]+1` after `days[idx]` and shifting the rest keeps the days in order. |
| RestVariants.RestVariant | Galaxy.py:101-105 | The copy, the two inserts and the shift of later days produce exactly the specified variant. The original lists are not modified. |
| RestVariants.VariantsOf | Galaxy.py:96-106 | One item has at most one variant per non-final stop, and variants only when it has at least one day to spare. `VariantsOfFacts` states the rest. |
| RestVariants.VariantsOfAt | Galaxy.py:96-106 | With a day to spare, variant q is keyed with q+1 and rests at the q-th enumerated stop, inserted at index q+1. |
| RestVariants.PutVariantsOf | Millennium-falcon-solution/Galaxy.py:130-146 | One item's turn of the loop puts its variants, in order, into the alternative dict. |
| RestVariants.FindAlternativePaths | Galaxy.py:88-108 | The nested loops build exactly the dict of all variants, in generation order, with later keys overwriting earlier ones. |
| RestVariants.VariantsOfFacts | Galaxy.py:96-106 | Variants exist only with at least one day to spare, one per distinct non-final stop. Each arrives exactly one day later, so still by the countdown. Each starts where its itinerary starts and keeps its days in order. |
| RestVariants.AllVariantsSound | Millennium-falcon-solution/Galaxy.py:129-146 | Every variant is well formed, starts at the departure and arrives by the countdown. With ordered days in, the days are ordered out. |
| RestVariants.RefactoredVariantKeysOfItem | Millennium-falcon-solution/Galaxy.py:146 | One itinerary's Refactored variant keys are distinct, none is a path key, and each names the itinerary. |
| RestVariants.RefactoredVariantKeysOf | Millennium-falcon-solution/Galaxy.py:129-146 | No Refactored variant key repeats across itineraries. Each names an accepted itinerary. |
| RestVariants.RefactoredKeysAllDistinct | Millennium-falcon-solution/Galaxy.py:164 | No accepted key equals a Refactored variant key, and no two of all these keys are equal. |
| Scoring.Encounters | Galaxy.py:131-136 | The encounter count of an itinerary is at most (number of stops) × (number of hunters): each pair meets at most once. |
| Scoring.EncountersZero | Galaxy.py:133-136 | An itinerary has no encounter exactly when no bounty hunter is at any of its stops on that stop's day. |
| Scoring.CountEncounters | Galaxy.py:131-137 | The nested loop counts exactly the (stop index, hunter) pairs that match on planet and day. |
| Scoring.FirstMinimum | Galaxy.py:140-141 | `min` then `index`: the value is a smallest element, and the position is the first place it occurs. |
| Scoring.SeriesTerm | Galaxy.py:146 | The term `9^j / 10^(j+1)` is a tenth of 0.9^j. |
| Scoring.CaptureSeries | Galaxy.py:143-146 | The capture probability `0.1 + Σ 9^j/10^(j+1)` for k ≥ 1 encounters is 1 − 0.9^k. |
| Scoring.OddsFor | Galaxy.py:143-149 | The loop gives 100 for no encounter and `100*(1-prob)` otherwise, which is 100·0.9^k. |
| Scoring.SuccessOddsBounds | Millennium-falcon-solution/Galaxy.py:187-193 | The odds lie in (0, 100] and are 100 exactly when k = 0. |
| Scoring.SuccessOddsDecreasing | Millennium-falcon-solution/Galaxy.py:187-193 | Fewer encounters give strictly better odds. |
| Scoring.SuccessOddsExamples | Galaxy.py:143-147 | One encounter gives 90 and two give 81, both in closed form and by the source's series. |
| Galaxy.Accepted | Galaxy.py:81-85 | `find_acceptable_paths`: exactly the feasible items arriving by the countdown. |
| Galaxy.FindAcceptablePaths | Millennium-falcon-solution/Galaxy.py:115-122 | Simulating and then filtering gives exactly the accepted items. |
| Galaxy.Pool | Galaxy.py:122-125 | The merged pool is at least as long as the accepted dict. Every itinerary in it is well formed, starts at the departure and arrives by the countdown. |
| Galaxy.FirstFewestUnique | Galaxy.py:140-141 | The first itinerary with the fewest encounters is unique. |
| Galaxy.EncounterTable | Galaxy.py:128-138 | The table loop gives each pool itinerary's encounter count and path, in pool order. |
| Galaxy.FewestGivesOdds | Millennium-falcon-solution/Galaxy.py:184-193 | The first minimum of the table is the first fewest-encounter itinerary. Its odds are in (0, 100], and 100 exactly when some itinerary meets no hunter. |
| Galaxy.GiveMeTheOdds | Galaxy.py:111-150 | The answer is `(0, [])` exactly when no feasible itinerary meets the countdown. Otherwise the path is the first pool itinerary with the fewest encounters, and the odds are 100·0.9^k for its k encounters. The odds are in (0, 100], and 100 exactly when some itinerary is encounter-free. |
| Galaxy.RefactoredPoolIsConcatenation | Millennium-falcon-solution/Galaxy.py:162-164 | In the Refactored edition the merge overwrites nothing. The pool is the accepted items followed by all their variants. |
| Galaxy.PoolDaysNonDecreasing | Galaxy.py:122-125 | With non-negative travel times every itinerary of the pool has non-decreasing days. |

## Left out

- Reading the routes from SQLite (`read_ROUTES` / `read_routes`): this is I/O.
  - The graph is instead an input map from (origin, destination) to travel time.
  - A caller supplies both orientations of each undirected edge.
- Building the networkx graph and `all_simple_paths`: these are library calls.
  - The candidate paths are an input list.
  - The model requires only that each consecutive pair is an edge.
  - "No repeated planet" and "ends at the arrival" are not needed by any proof, so they are not assumed.
  - "Starts at the departure" is assumed by one lemma only, `Feasibility.WalkWithinRange`. The walk itself always starts its itinerary at the departure, whatever the path's first planet is, as the source does.
- The iteration order of `set(path[:-1])`: Python does not specify it. It is a parameter, constrained by `ValidOrder`.
- Floating point: `prob` and the odds are exact reals.
  - The following contracts hold in exact arithmetic only:
    - Scoring.OddsFor: odds of 100·0.9^k.
    - Scoring.SuccessOddsDecreasing: the odds strictly decrease in k.
    - Scoring.SuccessOddsBounds: the odds lie in (0, 100].
    - Galaxy.GiveMeTheOdds: the odds are positive, and they are 0 exactly when nothing meets the countdown.
  - Why the source's float odds can differ:
    - The source sums `prob` in doubles, so `1 - prob` loses relative precision as 0.9^k shrinks.
    - Once a term 9^j/10^(j+1) falls below half an ulp of 1 (around j = 334), adding it no longer changes `prob`. From a few hundred encounters on, the source's odds are one constant float and stop decreasing.
    - By then the rounding of the earlier additions is as large as the true gap 0.9^k. The sign of that constant is not determined: `prob` may reach 1.0 or exceed it, which would give odds of 0 or below with a non-empty path.
  - `%.1f` display formatting is left out.
- Galaxy.GiveMeTheOdds: returns a `real`. The source returns the integers `0` and `100` on two of its paths and a float otherwise.
- Galaxy.GiveMeTheOdds: runs the feasibility walk and the deadline filter twice, as the source does: once for its emptiness check and once through `find_acceptable_paths`.
  - The source runs them a third time inside `find_alternative_paths`. The model does not: `RestVariants.FindAlternativePaths` takes the accepted dict as an argument.
  - Each source run reads the database anew. With an unchanged database every run gives the same dict, and the model relies on that.
- Lists are values, so aliasing is not modelled. The source copies `path` and `day` before inserting, so no original list is changed in the source either.
- Logging, the `__main__` blocks, the command-line front ends and both web front ends (Flask, Streamlit).
- Bounty hunters are records `(planet, day)`. The source reads them from JSON dicts with keys `planet` and `day`.
