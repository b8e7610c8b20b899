# Penguin data analysis: verified model of the aggregation pipeline

This project models the core of `main.py`, a small penguin-survey analysis
script, in Dafny and proves what each of its steps computes.

- **The loader's row coercion** (`load_csv`). Each CSV row, as `csv.DictReader`
  yields it, becomes one record:
  - columns headed `''` or `None` are dropped;
  - the four measurement columns become a float or None;
  - `year` becomes an int or None;
  - every other column becomes its text, or `""` when missing.
- **`count_island_gender`.** Counts, per island, the records whose sex is
  `male` or `female` in any letter case.
- **`calculate_ratio`.** Gives each island's male:female quotient rounded to
  two places, or the sentinel `"No data"` or `"No females"`.
- **`calculate_body_weights`.** Groups body masses by species, island and sex,
  then averages each group.
- **`count_total_penguins` and `count_species_by_island`.** The second gives,
  per species (name stripped of whitespace), a total and a count per stripped
  island name.

Each source function that builds a dictionary in a loop is a Dafny `method`
with a `while` loop, proved against a specification of its result.
- `count_island_gender`, `calculate_body_weights` and
  `count_species_by_island` are each proved against a ghost predicate that
  states the result outright. For example, `Tallied(s, counts)` says `counts`
  has an entry for exactly the islands some counted record names, and each
  entry holds the number of such records of each sex.
- `CalculateRatio` states each island's entry directly in its `ensures`,
  with no separate predicate.
- The loop body of `count_island_gender` is the method `CountOne`, whose
  contract is the step function `Counted`, and the loop is proved equal to
  the fold `TallyOf` of that step.
- `count_total_penguins` has no loop (it is `len`), so `CountTotalPenguins`
  is a function, and `TotalCountsEveryRecord` states what it counts.

Further lemmas about those specifications prove the properties the script's tests and design call for:
- order independence of the island counts;
- bounds;
- "total = sum of per-island counts = number of contributing records";
- "the `No data` branch of the averages cannot be reached";
- the pinned test values.

Python dictionaries are Dafny `map`s and lists are `seq`s. Nested
dictionaries that the source updates in place become nested map values, and
the model reassigns them. A record is a `map<string, Value>`. As in the
source, the getters read a missing column as `""` (text) or `None`
(measurements). The aggregators only read their input, which is an immutable
value here. Each method's result is pinned down by its input: the island
counts, the first body-weight pass and the species tally are each proved equal
to a fold over the records, and `TalliedUnique` shows the island counts need
no more than their predicate to be fixed. The body of the island-count loop
and the two inner loops of the averaging pass are methods of their own.

So the island counts, the species tally and the final body-weight averages
(`WeightStatsUnique`) are each fixed by the records alone, and the ratios are
fixed entry by entry by `CalculateRatio`'s `ensures`.

Whitespace-only cells are treated differently by column. The measurement and
`year` columns test `value.strip()` for emptiness (main.py:42, 47). A text
column tests only `value` itself and whether its stripped, upper-cased form
is `NA` (main.py:52). So a whitespace-only text cell is non-empty and not
`NA`, and it is stored verbatim, spaces and all. `Loader.BlankTextKept`
states this.

## Model

| member | source | states |
|---|---|---|
| Text.TrimStartSuffix | main.py:42 | the left half of `strip()` keeps a suffix of the text |
| Text.TrimStartDropsSpace | main.py:42 | what the left half drops is all whitespace |
| Text.TrimStartBoundary | main.py:42 | what the left half keeps is empty or starts with a non-space |
| Text.TrimStartShape | main.py:42 | the left half of `strip()` keeps a suffix; what it drops is all whitespace, and what it keeps is empty or starts with a non-space |
| Text.TrimEndPrefix | main.py:42 | the right half of `strip()` keeps a prefix of the text |
| Text.TrimEndDropsSpace | main.py:42 | what the right half drops is all whitespace |
| Text.TrimEndBoundary | main.py:42 | what the right half keeps is empty or ends with a non-space |
| Text.TrimEndShape | main.py:42 | the right half keeps a prefix; what it drops is all whitespace, and what it keeps is empty or ends with a non-space |
| Text.StripShape | main.py:176-177 | `strip()` cuts a string into whitespace, a middle part and whitespace; the middle neither starts nor ends with whitespace |
| Text.Strip | main.py:176-177 | `str.strip()` for the whitespace the model knows; its properties are stated by `StripShape`, `StripEmptyIff` and `StripPadded` |
| Text.StripEmptyIff | main.py:42 | a string strips to `""` exactly when it is whitespace only |
| Text.StripPadded | test_penguins.py:335-349 | a name padded with spaces strips back to the name, so `" Torgersen "` is counted as `Torgersen` |
| Text.Upper | main.py:42 | `upper()` keeps the length and maps every character through the ASCII upper-casing |
| Text.Lower | main.py:85-87 | `lower()` keeps the length and maps every character through the ASCII lower-casing |
| Text.UpperIsNA | main.py:42 | a stripped cell upper-cases to `NA` exactly when it is one of `na`, `nA`, `Na`, `NA` |
| Rounding.Round2 | main.py:114 | `round(x, 2)` gives a value with at most two decimals, within 0.005 of `x` |
| Rounding.Round2OfCents | main.py:114 | a value that already has two decimals is unchanged by rounding |
| Rounding.Round2HalfToEven | main.py:114 | exact halves go to the even neighbour: 0.125 gives 0.12 and 0.375 gives 0.38 |
| Counting.Count | main.py:86-88 | the number of elements satisfying a condition is at most the length of the sequence |
| Counting.CountSnoc | main.py:86 | one more element adds one to the count exactly when it satisfies the condition |
| Counting.CountAppend | main.py:78-89 | counting is additive over concatenation |
| Counting.RemoveLast | main.py:78-89 | taking one equal element out of two reorderings of the same elements leaves reorderings of each other |
| Counting.CountPermutation | main.py:78-89 | two sequences with the same elements in any order have the same count |
| Counting.CountZeroIff | main.py:83-84 | the count is zero exactly when no element satisfies the condition |
| Counting.CountDisjointBound | main.py:85-88 | two exclusive conditions that both imply a third count together at most as many as the third |
| Records.Text | main.py:79-80 | `penguin.get(key, '')` for a text column: the stored text, or `""` when the column is absent; on a loaded record this is exactly the cell `load_csv` stored (`ConvertedIsWellTyped`) |
| Records.Measurement | main.py:135 | `penguin.get(key)` for a measurement column: the stored number, or None when the column is absent or None |
| Loader.KeptKeysSnoc | main.py:36-40 | one more cell adds its header to the record's headers exactly when the header is kept |
| Loader.ConvertRow | main.py:34-56 | a row converts exactly when every kept cell coerces. The record has exactly the kept headers, each holding its coerced cell. Otherwise the error is that of the first cell `float()` or `int()` rejects |
| Loader.LoadCsv | main.py:29-61 | a missing file gives no records. Otherwise the load succeeds exactly when every row converts, with one record per row in row order, or it fails with the first failing row's error |
| Loader.ConvertedIsWellTyped | main.py:41-55 | a loaded record holds a float or None under each measurement column, an int or None under `year`, and text elsewhere |
| Loader.NumberMissingIff | main.py:41-50 | a measurement or `year` cell is stored as None exactly when it is absent, whitespace only, or some spelling of `NA` once stripped |
| Loader.MeasurementParsed | main.py:41-45 | any other measurement cell is whatever `float()` makes of the unstripped text, or a parse error naming the column and text |
| Loader.YearParsed | main.py:46-50 | any other `year` cell is whatever `int()` makes of the unstripped text, or a parse error naming the column and text |
| Loader.TextCell | main.py:51-55 | a text cell never fails. It is `""` exactly when absent, empty or some spelling of `NA` once stripped, and kept verbatim otherwise |
| Loader.BlankTextKept | main.py:52-53 | a whitespace-only text cell is stored as it is, not as `""` |
| Loader.CoerceCell | main.py:41-55 | the coercion of one kept cell by its column; its properties are stated by `NumberMissingIff`, `MeasurementParsed`, `YearParsed`, `TextCell` and `ConvertedIsWellTyped` |
| IslandGender.SexedIslandsSnoc | main.py:81-84 | one more record adds its island to the key set exactly when its island and sex are non-empty |
| IslandGender.TalliedSnoc | main.py:79-88 | counting one more record creates its island's entry at (0, 0) if absent and bumps the male or female count by the lower-cased sex; nothing else changes |
| IslandGender.CountedKeys | main.py:81-84 | after one more record the islands are the old ones plus its own if it is counted |
| IslandGender.CountedAt | main.py:83-88 | after one more record each island's entry holds the male and female counts of its records |
| IslandGender.TallyOfTallied | main.py:76-89 | the loop's fold over the records yields exactly the island tallies |
| IslandGender.TallyStep | main.py:78-88 | the fold over one more record is the old fold updated by that record alone |
| IslandGender.CountOne | main.py:79-88 | the loop body for one record: skip it when island or sex is empty, otherwise create the island's entry at (0, 0) if absent and bump the count its lower-cased sex names |
| IslandGender.CountIslandGender | main.py:66-89 | the result is the fold over the records, and has an entry for exactly the islands some record names with a non-empty sex, holding the number of that island's records whose sex lower-cases to `male` and to `female` |
| IslandGender.TalliedUnique | main.py:76-89 | the result is determined by the records |
| IslandGender.TalliedKeys | main.py:81-84 | an island has an entry exactly when some record names it with a non-empty sex, even a sex that is neither male nor female |
| IslandGender.TalliedBound | main.py:85-88 | male + female is at most the number of that island's counted records, of which there is at least one |
| IslandGender.TalliedPermutation | main.py:78-89 | the counts do not depend on the order of the records |
| IslandGender.TalliedEmpty | test_penguins.py:142-144 | no records give no islands |
| IslandGender.PinnedSexSpellings | test_penguins.py:131-157 | `Male` and `male` count as male, `FEMALE` as female |
| IslandGender.OtherIsNeitherSex | test_penguins.py:131-157 | `other` counts as neither male nor female |
| Ratio.CalculateRatio | main.py:92-116 | the result has the same islands. `No data` exactly when both counts are 0; `No females` exactly when there are no females but some males; otherwise the rounded quotient male/female |
| Ratio.PinnedRatios | test_penguins.py:165-200 | 100:50 gives 2.0, 30:40 gives 0.75, 25:25 and 1:1 give 1.0, 0:100 gives 0.0 |
| Ratio.NoDataMeansUnrecognisedSex | main.py:107-109 | for island counts, `No data` marks exactly the islands whose counted records all have a sex that is neither male nor female |
| BodyWeights.WeighedSpeciesSnoc | main.py:137-141 | one more record adds its species to the species keys exactly when it contributes |
| BodyWeights.WeighedIslandsSnoc | main.py:137-143 | one more record adds its island to its species' islands exactly when it contributes |
| BodyWeights.WeighedSexesSnoc | main.py:137-145 | one more record adds its sex to its island's sexes exactly when it contributes |
| BodyWeights.WeighedNested | main.py:140-145 | a species no record contributes to has no islands, and an island none contributes to has no sexes |
| BodyWeights.MassesSnoc | main.py:147 | one more record appends its mass to its own group's list only |
| BodyWeights.MassesAbsent | main.py:144-145 | a group no record has joined has no masses |
| BodyWeights.GroupedSkip | main.py:137-138 | a record with an empty species, island or sex, or no body mass, changes nothing |
| BodyWeights.SkippedSexes | main.py:137-138 | a skipped record leaves every island's sexes as its contributing records name them |
| BodyWeights.SkippedMasses | main.py:137-138 | a skipped record leaves every group's masses as its contributing records give them |
| BodyWeights.GroupedAdd | main.py:140-147 | a contributing record appends its mass to its own group, creating the species, island and sex entries on first sight |
| BodyWeights.AddedIslands | main.py:140-143 | after the append, each species' islands are those its contributing records name |
| BodyWeights.AddedSexes | main.py:142-145 | after the append, each island's sexes are those its contributing records name |
| BodyWeights.AddedMasses | main.py:144-147 | after the append, each group's list is the masses of its contributing records |
| BodyWeights.GroupsOfGrouped | main.py:129-147 | the first pass builds exactly the groups some record contributes to, each with the masses of its records in record order |
| BodyWeights.GroupMasses | main.py:129-147 | the first-pass loop yields the fold over the records, and so exactly the groups with their masses |
| BodyWeights.AverageSexes | main.py:153-159 | the innermost loop keeps an island's sexes and replaces each list by its rounded mean, or `No data` when empty |
| BodyWeights.AverageIslands | main.py:151-159 | the middle loop keeps a species' islands and averages each of them |
| BodyWeights.AverageGroups | main.py:149-160 | the second pass keeps the three-level shape and replaces each list by its rounded mean, or `No data` when empty |
| BodyWeights.MassesPresent | main.py:140-147 | every group that exists has at least one mass, one per contributing record, so the `No data` branch is unreachable |
| BodyWeights.MassesLength | main.py:147 | a group's list holds one mass per contributing record |
| BodyWeights.MassesContents | main.py:137-147 | a group's list holds exactly the masses of its contributing records |
| BodyWeights.CalculateBodyWeights | main.py:119-161 | the result has exactly the species, islands and sexes some record contributes to; each leaf is the rounded mean of that group's masses, never `No data` |
| BodyWeights.WeightStatsEmpty | test_penguins.py:234-236 | no records give an empty result |
| BodyWeights.WeightStatsUnique | main.py:149-160 | two results that both meet the body-weight specification for the same records are equal, so the averages are fixed by the records |
| BodyWeights.MeanWithin | main.py:156-157 | the mean of masses in [lo, hi] is in [lo, hi] |
| BodyWeights.AverageWithin | main.py:156-158 | the rounded average of masses in [lo, hi] is within 0.005 of that range |
| BodyWeights.RoundedWithin | main.py:158 | rounding a value in [lo, hi] lands within 0.005 of that range |
| BodyWeights.QuotientWithin | main.py:157 | dividing a sum bounded by lo·n and hi·n by n gives a value in [lo, hi] |
| BodyWeights.SumWithin | main.py:157 | the sum of n masses in [lo, hi] is between lo·n and hi·n |
| BodyWeights.PinnedAverages | test_penguins.py:208-231 | 4000, 4100, 4200 average to 4100.0; 5000, 5200 to 5100.0; a lone 3600 to 3600.0 |
| Tallies.TotalCountsEveryRecord | main.py:166-168 | the total counts every record, with no filter |
| Tallies.CountTotalPenguins | main.py:166-168 | `len(penguins)`; `TotalCountsEveryRecord` states that it counts every record |
| Tallies.CountSpeciesByIsland | main.py:171-188 | the result is the fold over the records. It has an entry for exactly the stripped species of records whose stripped species and island are non-empty; its total is the number of such records, and its islands are those they name, each with its count |
| Tallies.DistributionStep | main.py:174-186 | the tally of one more record is the old tally updated by that record alone |
| Tallies.LocatedSpeciesSnoc | main.py:176-182 | one more record adds its stripped species to the species keys exactly when it is counted |
| Tallies.LocatedIslandsSnoc | main.py:176-186 | one more record adds its stripped island to its species' islands exactly when it is counted |
| Tallies.DistributedSkip | main.py:179-180 | a record whose stripped species or island is empty changes nothing |
| Tallies.SkippedKeys | main.py:179-180 | a skipped record leaves the species keys and each species' island keys as the counted records name them |
| Tallies.SkippedTotal | main.py:179-180 | a skipped record leaves every species' total equal to its count of counted records |
| Tallies.SkippedIsland | main.py:179-180 | a skipped record leaves every island count equal to its count of counted records |
| Tallies.DistributedAdd | main.py:182-186 | a counted record adds one to its species' total and to its island's count, creating both on first sight |
| Tallies.TalliedKeys | main.py:182-183 | after the step the species keys are those of the counted records |
| Tallies.TalliedTotal | main.py:182-185 | after the step each species' total is the number of its counted records |
| Tallies.TalliedIslands | main.py:182-186 | after the step each species' islands are those its counted records name |
| Tallies.LocatedIslandsOfLocatedSpecies | main.py:182-186 | a species no counted record names has no islands |
| Tallies.TalliedIsland | main.py:186 | after the step each island count matches its counted records |
| Tallies.DistributionOfDistributed | main.py:171-188 | the fold counts every species and each of its islands |
| Tallies.SumOverRemove | main.py:185-186 | helper of `TotalIsIslandSum`: a sum over a map's values can take any key out first |
| Tallies.SumOverFrame | main.py:185-186 | helper of `TotalIsIslandSum`: values outside the summed keys do not matter |
| Tallies.SumValuesUpdate | main.py:185-186 | setting one key replaces its old value (0 if absent) in the sum |
| Tallies.TotalIsIslandSum | main.py:185-186 | every species' total is the sum of its per-island counts |
| Tallies.TotalsCountLocated | main.py:176-186 | the totals of all species add up to the number of counted records, so each counted record falls under exactly one species |
| Tallies.LocatedWithinTotal | main.py:166-188 | the counted records are at most all the records |

The loops' step functions have no rows of their own: `IslandGender.Counted` is
stated by the `CountOne` and `TalliedSnoc` rows, `BodyWeights.AddMass` by the
`GroupedAdd` row, `BodyWeights.AverageOf` by the `AverageSexes`, `AverageWithin` and `PinnedAverages` rows, and
`Tallies.Tally` by the `DistributedAdd` row.

## Left out

- File access in `load_csv` (main.py:29-31, 58-59) is left out: `open`, the CSV splitting and quoting of `csv.DictReader`, and the printed message. The rows arrive already split, as (header, cell) pairs, or the file is reported as not found, which gives no records.
- `float()` and `int()` (main.py:43, 48) are Python's. They are parameters of the model: total functions that give either a number or a rejection, standing for the `ValueError` the loader lets escape.
- Floating point is left out. Masses and quotients are exact reals, and the sum in `sum(weights)/len(weights)` has no rounding error. Python's `float()` also accepts `nan`, `inf` and `infinity` (main.py:43); a real cannot hold these, so the model reads such a cell as whatever the `toFloat` parameter gives for it, a rejection (`ParseError`) or some real.
- Rounding.Round2: does not model how Python rounds the binary double nearest the quotient. It rounds the exact real to the nearest hundredth with exact halves to even. The two agree whenever the quotient is a double exactly, as in every pinned test value.
- Text.Upper and Text.Lower map only the ASCII letters; Python's full Unicode case mapping is left out. They are only used to compare cells with `NA`, `male` and `female`.
- Records.Text and Records.Measurement: the aggregators' contracts match Python only for records whose values have their column's type. That covers every record the loader builds (`Loader.ConvertedIsWellTyped`) and every record the tests build. Other records differ as follows:
  - A non-text `island`, `species` or `sex` reads as `""`, so the model skips the record. In `count_island_gender` and `calculate_body_weights` Python skips it too when the value is falsy (`None`, `0`, `0.0`; main.py:81, 137). When it is truthy, Python uses the value itself as a dictionary key there (main.py:79-84, 132-147).
  - `.lower()` fails for a truthy non-text sex (main.py:85). `.strip()` fails for every non-text species or island, falsy ones included, because it runs before the emptiness test (main.py:176-177). The model fails in neither case.
  - A text `body_mass_g` reads as None, so the record is skipped. Python appends it and then fails in `sum` (main.py:157).
  - An int `body_mass_g` is read as its value, as Python's arithmetic uses it.
- `write_to_file` and `write_comprehensive_results` (main.py:193-288) are output formatting and file writing, and are not part of this model.
- The test harness `test_penguins.py` is not part of this model. Its assertions appear as the pinned lemmas above. The species-distribution tests (test_penguins.py:295-349) are covered by the general lemmas and `Text.StripPadded`, not by a concrete pinned lemma.
- `avg_bill_length` is imported by the tests but not defined in `main.py`, so there is nothing to model.
- Key order of the result dictionaries is not modelled: maps are unordered here.
