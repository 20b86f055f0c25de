# Distributed NYC: nearest-county population accumulator in Dafny

The program is an interactive map of US counties. When the mouse hovers over
a county, it ranks all counties by distance from it. It then walks that
ranking and sums populations until the sum would exceed the population of
New York City (8,336,817). The counties taken before that point are
highlighted, and a sentence reports their total population with thousands
separators. The repository holds two versions of this logic:

- the current one, `src/index.js`;
- an earlier one, `index.js`. It uses a target of 10,000,000 and ranks only
  counties that intersect a 1000-mile buffer. Its running sum uses plain `+=`.

This project models both versions as pure functions over sequences and proves
what they compute.

- `regions.dfy` (`Regions`): county ids, the population table (a map from id
  to population; an absent id is JavaScript `undefined`), features, and the
  ranked record `{geoId, summable, distance}`.
- `sorted_insert.dfy` (`SortedInsert`): d3's `bisector(d => d.distance).right`
  as the binary search it is, and `insertIntoSorted` as a splice at that index.
- `ranking.dfy` (`Ranking`): `_checkIntersect`. It inserts every feature whose
  id differs from the query's, then inserts the query last at distance 0. The
  earlier version's buffer-intersection test is the predicate `inBuffer`; the
  current version passes `Everything`.
- `accumulation.dfy` (`Accumulation`): `checkIntersect`. Both versions run one
  `Walk` over the ranked list. Its `MissingPolicy` parameter selects
  `Number.isFinite` skipping (current) or plain `+=` with NaN poisoning
  (earlier). JavaScript numbers are `Finite(int) | NaN`, so `targetSum -
  summable` and NaN comparisons are exact.
- `query.dfy` (`Query`): ranking followed by accumulation, end to end.
- `commas.dfy` (`Commas`): `numberWithCommas`. The regular expression
  `\B(?=(\d{3})+(?!\d))` is modelled position by position (`\B`, the look-ahead,
  the global replace). Its result is proved to be the unique comma-grouped
  rendering of the decimal digits.

Distances are inputs: each `Feature` carries the distance from the query's
centroid to its own representative point. Only comparisons between distances
are used.

The code makes these choices, and the model keeps them:

- The crossing entry is excluded, and `numPop` is the sum before it.
- Equal distances keep insertion order; there is no tie-break by id.
- The query is inserted last at distance 0, so any other county at distance 0
  ranks ahead of it.
- A sum that never exceeds the target gives `undefined` (`None`).

## Model

| member | source | states |
|---|---|---|
| `SortedInsert.Bisect` | src/index.js:131 | `bisect.right` on the window `[lo, hi)`: the result stays inside the window; its partition property is `BisectPartition` |
| `SortedInsert.BisectRight` | src/index.js:131-134 | `bisect.right` over the whole array returns an index no greater than its length; see `BisectRightIsPartitionPoint` |
| `SortedInsert.BisectRightIsPartitionPoint` | src/index.js:131-134 | on a list sorted by distance, `bisect.right` returns the index before which every distance is `<=` the key and from which every distance is `>` the key |
| `SortedInsert.BisectPartition` | index.js:73-76 | the halving search keeps the invariant "left of `lo` is `<=` key, from `hi` on is `>` key" and ends on the partition point |
| `SortedInsert.InsertIntoSorted` | src/index.js:133-136 | the splice yields the old list with exactly `obj` added (multiset of old entries plus one `obj`), one longer |
| `SortedInsert.InsertKeepsSorted` | index.js:75-78 | inserting at the bisect-right index into an ascending list leaves it ascending |
| `SortedInsert.InsertStable` | src/index.js:131-135 | at every distance the existing entries keep their order and the new entry is placed after all entries of equal distance |
| `Ranking.RankLoop` | src/index.js:143-155 | the feature loop never shortens the list and adds at most one entry per feature; which entries and in what order are `RankLoopSorted` and `RankLoopStable` |
| `Ranking.Rank` | src/index.js:138-162 | `_checkIntersect` returns a non-empty list with at most one entry per feature plus the query's own; sortedness, contents and order are `RankSortedPermutation`, `RankMembership` and `RankStable` |
| `Ranking.RankLoopSorted` | index.js:86-97 | the feature loop keeps the list sorted, and what it adds is exactly the kept candidates' entries (as a multiset) |
| `Ranking.RankLoopStable` | src/index.js:143-155 | after the feature loop, the entries at each distance appear in feature order |
| `Ranking.RankSortedPermutation` | src/index.js:138-162 | the ranked list is ascending by distance and is a permutation of the candidates' entries plus the query's own distance-0 entry |
| `Ranking.RankStable` | src/index.js:156-160 | equal-distance entries keep feature order, and the query's entry is the last of all distance-0 entries |
| `Ranking.RankMembership` | src/index.js:143-160 | an entry is ranked iff it is the query's entry or `{id, pop[id], distance}` of a feature with a different id that passes the filter; every ranked entry's `summable` is `pop[geoId]` |
| `Ranking.RankOwnOnce` | src/index.js:144-147 | the query's entry occurs exactly once and no other ranked entry carries the query's id |
| `Ranking.RankIncludesIff` | index.js:86-98 | a county other than the query is ranked iff some feature has its id and it meets the buffer-intersection test |
| `Ranking.RankSelfFirst` | src/index.js:156-161 | when every other ranked county lies at a positive distance, the query's entry is at index 0 |
| `Accumulation.AddPopulation` | src/index.js:123 | the running sum becomes NaN exactly when it was NaN or plain `+=` meets a missing population (index.js:64); otherwise it grows by the population, a missing one counting 0 |
| `Accumulation.Walk` | src/index.js:121-128 | a returned crossing has a finite running sum strictly above the target, and the ids it returns extend those taken so far by fewer entries than remain |
| `Accumulation.AddStep` | src/index.js:123 | adding an entry to the prefix sum yields the next prefix sum of finite populations (a missing population adds 0 when skipped) |
| `Accumulation.PrefixSumMonotone` | src/index.js:121-124 | the running sum of finite populations never decreases along the ranking |
| `Accumulation.CrossingIsLongestPrefix` | src/index.js:119-127 | the crossing entry ends the longest prefix whose finite sum stays `<=` the target (every longer prefix exceeds it) and is unique |
| `Accumulation.FindCrossing` | src/index.js:121-127 | a ranking whose finite total exceeds the target has an entry at which the running sum first exceeds it |
| `Accumulation.CrossingExists` | src/index.js:121-129 | a crossing entry exists iff the whole ranking's finite sum exceeds the target |
| `Accumulation.WalkReachesCrossing` | src/index.js:121-127 | up to the crossing entry the loop carries the prefix sum and the prefix's ids, and stops at the crossing entry with the sum through it |
| `Accumulation.WalkRunsOut` | index.js:62-71 | when the finite total is `<=` the target the loop runs off the end (result `undefined`) under either policy |
| `Accumulation.WalkFromNaN` | index.js:64-65 | once the sum is NaN, `targetSum > TARGET_POP` never holds again and the result is `undefined` |
| `Accumulation.WalkPoisoned` | index.js:62-70 | with plain `+=`, a missing population met before the sum exceeds the target makes the loop run off the end |
| `Accumulation.CheckIntersect` | src/index.js:117-129 | a defined result has a finite `numPop` (`targetSum - summable` is never NaN) of at most 8,336,817; the exact result is `CheckIntersectAtCrossing` and `CheckIntersectUndefined` |
| `Accumulation.LegacyCheckIntersect` | index.js:57-71 | a returned array is shorter than the ranking (the crossing entry is never pushed); the exact result is `LegacyAtCrossing` and `LegacyDefinedIff` |
| `Accumulation.CheckIntersectAtCrossing` | src/index.js:117-129 | at crossing index k the result is `geos` = ids of the first k entries, `numPop` = their finite sum (`<=` 8,336,817 while adding entry k exceeds it), `numCounties` = `geos.size` |
| `Accumulation.CheckIntersectUndefined` | src/index.js:119-129 | the current version returns `undefined` iff the ranking's finite total is `<=` 8,336,817 |
| `Accumulation.LegacyAtCrossing` | index.js:57-71 | with all populations up to the crossing present, the earlier version returns the ids before the crossing entry, element i being the id of ranked entry i |
| `Accumulation.LegacyPoisoned` | index.js:63-65 | a missing population met while the sum is `<=` 10,000,000 makes the earlier version return `undefined` |
| `Accumulation.LegacyDefinedIff` | index.js:59-71 | the earlier version returns an array iff the sum crosses 10,000,000 and every population through the crossing entry is present; it returns `undefined` whenever the total is `<=` 10,000,000 |
| `Accumulation.LegacySkippingSpec` | index.js:62-69 | the earlier loop with missing populations skipped returns `undefined` iff the finite total is `<=` 10,000,000, and otherwise the ids before the crossing entry |
| `Accumulation.LegacyMissingPopulationExample` | index.js:64 | a missing population ranked first, ahead of a county above the target: the earlier version returns `undefined`, the skipping loop returns the first id |
| `Query.NearestCounties` | src/index.js:117-129 | `checkIntersect(poly)` end to end: a defined result's `numPop` is finite and at most 8,336,817 |
| `Query.LegacyNearestCounties` | index.js:57-71 | the earlier `checkIntersect(poly)` end to end: it returns no more ids than there are features; `LegacyQueryMissingPopulation` is an end-to-end case |
| `Query.LegacyQueryMissingPopulation` | index.js:57-71 | in the earlier variant, a query county missing from the population table with no other ranked county at distance 0 is ranked first and makes the result `undefined` |
| `Query.QueryAloneExceedsTarget` | src/index.js:117-162 | a query county whose own population exceeds 8,336,817, with no other county at distance 0, yields an empty `geos`, `numPop` 0 and `numCounties` 0 |
| `Query.QuerySelectsItself` | src/index.js:118-128 | with no other county at distance 0 and the query's population missing or `<=` the target, a defined result contains the query's id |
| `Commas.Decimal` | src/index.js:34 | `toString` of a natural gives a non-empty digit string whose first digit is `0` only for 0 |
| `Commas.DecimalRoundTrip` | src/index.js:34 | the decimal digits denote the number they were produced from |
| `Commas.TriplesOfDigits` | src/index.js:34 | on digits, `(\d{3})+(?!\d)` matches at the start iff a positive multiple of three digits remains |
| `Commas.CommaPositions` | src/index.js:34 | in a digit string the pattern matches exactly at interior positions with a positive multiple of three digits to their right |
| `Commas.ReplaceIsGroup` | src/index.js:34 | on digits, the replace writes a comma exactly before each interior position with a multiple of three digits after it |
| `Commas.GroupGroups` | src/index.js:34 | on a non-empty digit string the comma placement gives a grouped string whose digits, commas removed, are the input |
| `Commas.Replace` | src/index.js:34 | the global replace only inserts commas into a digit string (removing them gives the input back), and on a non-empty one the result is comma-grouped |
| `Commas.GroupedUnique` | src/index.js:33-35 | two comma-grouped strings with the same digits are equal |
| `Commas.NumberWithCommas` | src/index.js:33-35 | `numberWithCommas(x)` has a first group of 1-3 digits and every later group of exactly 3, and gives back `x.toString()` with commas removed |
| `Commas.NumberWithCommasUnique` | src/index.js:33-35 | `numberWithCommas(x)` is the only comma-grouped string whose digits are `x.toString()` |

## Findings

| source | as written | input that shows it | evidently intended | confidence | as-written member | corrected member |
|---|---|---|---|---|---|---|
| index.js:64 | `targetSum += summable` adds `undefined` for a county missing from the population table; the sum becomes NaN, `targetSum > TARGET_POP` can never hold again, and `undefined` is returned | ranking `[A: no population, distance 0; B: 20,000,000, distance 1]` returns `undefined` although the sum crosses 10,000,000 at B | skip the missing population, as `src/index.js:123` later does, returning `["A"]` | medium, not executed | `Accumulation.LegacyMissingPopulationExample` | `Accumulation.LegacySkippingSpec` |

## Left out

- Geometry: `turf.centroid`, `turf.center`, `turf.distance`, `turf.buffer` and `turf.intersect` are library calls over floating point. Distances are inputs on each `Feature`, and the buffer test is the predicate `inBuffer`. Whether the centroid or the centre is used does not change the model.
- NaN distances: d3's `bisectRight` has a guard for a NaN key, and the model's distances are reals, so that guard is not modelled.
- Floating point: populations are naturals and sums are exact integers. The real sums stay far below 2^53, where doubles are exact.
- `numberWithCommas` is modelled for natural numbers. `toString` of numbers of 10^21 or more, of negative numbers and of fractions (exponent, sign, decimal point) is not modelled.
- Logging: the earlier version prints `console.log('Found', targetSum, 'over', geos.length)` when it finds the crossing entry (index.js:66). It is output only and changes no result, so it is not modelled.
- Population values other than numbers or absence (JSON `null`, strings) are not modelled. The table maps an id to a natural, or omits it.
- Rendering and UI wiring are not modelled: `App`, `Map`, the colour callbacks, `handleResize`, the LA County message and the `handleHover` state setters. They only display the core's result. `handleHover` destructures the result of `checkIntersect`, and that step is not modelled either, including what happens when the result is `undefined`.
- `population.js` (a browser audio demo) and `preprocess/process.py` (file I/O around a commented-out neighbour loop) are not part of this model.
- The JSON assets `counties.json` and `county-populations.json` become inputs: the feature sequence and the population table.
