# DnDGen selectors: collection tables, rarity weighting, percentile tables

This project models the selectors that DnDGen generators use to pick things
from data tables:

- **CollectionSelector** (DnDGen.Infrastructure). A collection table maps
  collection names to lists of entries. The selector looks a collection up,
  picks a random entry from it, and finds the first (optionally filtered)
  collection that contains an entry. It also explodes a collection
  recursively into the entries of its sub-collections, either as a list or
  as a set. Its weighting engine merges four rarity tiers (common, uncommon,
  rare, very rare) into one flat collection, repeating each tier by an
  integer multiplier, so that a uniform pick over the result approximates
  the intended drop rates.
- **PercentileSelector** (DnDGen.Core). A percentile table maps each roll
  of a hundred-sided die to a result. The selector returns the result for
  one roll, all distinct results, or a true/false roll against a chance.
- **PercentileMapperCachingProxy** (DnDGen.Infrastructure). It loads each
  percentile table through an inner mapper once, under the key "assembly
  full name + table name", and serves later requests from its cache.

How the model represents things:

- A .NET `Dictionary` is a sequence of (key, value) pairs in enumeration
  order (`Dictionaries.Dict`).
- An `ArgumentException` is `Results.Failure` carrying the exception's
  message text.
- The injected `Dice` is a function from a number of sides to the value
  shown; every rolling operation also reports the dice it rolled
  (`Dice.Rolled`).
- The weighting arithmetic that DnDGen's C# selector does in `double` is done on exact
  reals. The rounding is modelled as in the C# code: `Math.Round(x, 3)`
  with ties to even, then `Math.Ceiling`.
- The explosion is an imperative recursive method with a loop. It is
  proved against a ghost specification function (`Explosion.Exploded`).
- The caching proxy is a class with a map field. Its `Map` method is
  proved to keep an invariant: every cached key was loaded exactly once,
  and holds what the inner mapper returned for it.

Files: `results.dfy`, `dictionaries.dfy`, `numerals.dfy` (integer
formatting for messages), `dice.dfy`, `weighting.dfy`,
`collection_selector.dfy`, `explosion.dfy`, `explosion_fixtures.dfy`,
`percentile_selector.dfy`, `percentile_cache.dfy`.

## Model

| member | source | states |
|---|---|---|
| Dictionaries.IndexOf | DnDGen.Infrastructure/Selectors/Collections/CollectionSelector.cs:68-72 | the position of the first pair with the key, or -1 exactly when no pair has it: the lookup behind `ContainsKey` and the indexer |
| Dictionaries.GetOfUniqueKey | DnDGen.Infrastructure/Selectors/Collections/CollectionSelector.cs:27 | in a dictionary with unique keys, the indexer on any pair's key returns that pair's value |
| Dictionaries.Values | DnDGen.Core/Selectors/Percentiles/PercentileSelector.cs:51 | `Values` has one value per pair, in enumeration order |
| Dictionaries.Distinct | DnDGen.Core/Selectors/Percentiles/PercentileSelector.cs:51 | `Distinct` has no duplicates, drops no element of the input and adds none |
| Dictionaries.DistinctKeepsFirstOccurrenceOrder | DnDGen.Core/Selectors/Percentiles/PercentileSelector.cs:51 | `Distinct` lists the elements in the order of their first occurrence in the input |
| Numerals.NatToString | DnDGen.Infrastructure/Selectors/Collections/CollectionSelector.cs:61 | the decimal text of a count is non-empty, all digits, with no leading zero |
| Numerals.NatToStringRoundTrip | DnDGen.Infrastructure/Selectors/Collections/CollectionSelector.cs:61 | reading the digits back gives the number: the formatted count is exact |
| Numerals.NatToStringInjective | DnDGen.Infrastructure/Selectors/Collections/CollectionSelector.cs:61 | different counts give different messages |
| Numerals.IntToString | DnDGen.Core/Selectors/Percentiles/PercentileSelector.cs:37 | the text of a roll starts with '-' exactly when the roll is negative; the rest is decimal digits without leading zeros that read back as the roll's magnitude |
| CollectionSelector.IsCollection | DnDGen.Infrastructure/Selectors/Collections/CollectionSelector.cs:68-72 | a name is a collection exactly when some pair of the table has it as key |
| CollectionSelector.SelectFrom | DnDGen.Infrastructure/Selectors/Collections/CollectionSelector.cs:21-28 | succeeds exactly for a collection name, returning the list of the first pair with that key; otherwise fails with "{name} is not a valid collection in the table {table}" |
| CollectionSelector.SelectFromStoredList | DnDGen.Infrastructure/Selectors/Collections/CollectionSelector.cs:21-28 | with unique keys, SelectFrom on a pair's key returns that pair's list |
| CollectionSelector.SelectRandomFrom | DnDGen.Infrastructure/Selectors/Collections/CollectionSelector.cs:41-49 | an empty collection fails with "Cannot select random from an empty collection" and rolls nothing; otherwise one die with as many sides as elements is rolled and the element at roll - 1, a member of the collection, is returned |
| CollectionSelector.SelectRandomFromTable | DnDGen.Infrastructure/Selectors/Collections/CollectionSelector.cs:35-39 | a name that is no collection fails with the lookup message and rolls nothing; an empty collection fails with the empty-collection message; otherwise one die with as many sides as entries is rolled and the entry at roll - 1 is returned |
| CollectionSelector.SecondOfThreePicked | DnDGen.Infrastructure.Tests.Unit/Selectors/Collections/CollectionSelectorTests.cs:68-76 | a roll of 2 on a three-item collection of the table picks its second item, rolling one d3 |
| CollectionSelector.SelectRandomFromTiers | DnDGen.Infrastructure/Selectors/Collections/CollectionSelector.cs:214-220 | fails exactly when all four tiers are empty, without rolling; otherwise one die with as many sides as the weighted collection is rolled and the pick is the weighted collection's element at roll - 1, an item of one of the tiers |
| CollectionSelector.TierOfPick | DnDGen.Infrastructure/Selectors/Collections/CollectionSelector.cs:111-133 | for any non-empty tiers, a roll in the very rare prefix picks that very rare item, and a roll in a tier's block of copies picks the item at the roll's offset into the block, modulo the tier's size |
| CollectionSelector.WeightedItemFromTiers | DnDGen.Infrastructure/Selectors/Collections/CollectionSelector.cs:111-133 | every item of the weighted collection comes from one of the four tiers |
| CollectionSelector.OneOfEachTierPick | DnDGen.Infrastructure/Selectors/Collections/CollectionSelector.cs:214-220 | with one distinct item per tier, one d100 roll picks the very rare item on 1, the rare on 2-10, the uncommon on 11-40 and the common on 41-100, each in both directions |
| CollectionSelector.WithoutCommonPick | DnDGen.Infrastructure.Tests.Unit/Selectors/Collections/CollectionSelectorTests.cs:1230-1233 | with no common tier, one d100 roll picks the very rare item on 1, the rare on 2-10 and the uncommon on 11-100, each in both directions |
| CollectionSelector.FirstCandidate | DnDGen.Infrastructure/Selectors/Collections/CollectionSelector.cs:63 | the first pair, in enumeration order, that passes the filter and contains the entry, or -1 when there is none |
| CollectionSelector.FindCollectionOf | DnDGen.Infrastructure/Selectors/Collections/CollectionSelector.cs:51-66 | on success, the key of the first filtered pair containing the entry; fails exactly when no filtered pair contains it. When no collection at all contains it the message is "No collection in {table} contains {entry}"; otherwise it reports the number of filters |
| CollectionSelector.FindCollectionOfUnfiltered | DnDGen.Infrastructure/Selectors/Collections/CollectionSelector.cs:58 | with no filter names, FindCollectionOf fails exactly when no collection contains the entry |
| CollectionSelector.FindCollectionOfIgnoresUnknownFilter | DnDGen.Infrastructure/Selectors/Collections/CollectionSelector.cs:58-65 | adding a name that is no collection to a non-empty filter list changes neither success nor the collection found |
| CollectionSelector.CandidatesAgree | DnDGen.Infrastructure/Selectors/Collections/CollectionSelector.cs:63 | two filter lists that admit the same pairs find the same first pair |
| Explosion.ExplodeRecursive | DnDGen.Infrastructure/Selectors/Collections/CollectionSelector.cs:83-109 | fails exactly when the name is no collection, with the lookup message; otherwise returns the specified explosion `Exploded` together with its set of items |
| Explosion.Explode | DnDGen.Infrastructure/Selectors/Collections/CollectionSelector.cs:74 | fails exactly for a name that is no collection; otherwise returns the set of items of the explosion |
| Explosion.ExplodeAndPreserveDuplicates | DnDGen.Infrastructure/Selectors/Collections/CollectionSelector.cs:81 | fails exactly for a name that is no collection; otherwise returns every item of the explosion, in order, duplicates kept |
| Explosion.CollectionRanksBelow | DnDGen.Infrastructure/Selectors/Collections/CollectionSelector.cs:91-93 | when the explosion of a collection is ranked, every other collection its entries name ranks below it and is ranked in turn: the recursion goes down |
| Explosion.RankedByRanksFrom | DnDGen.Infrastructure/Selectors/Collections/CollectionSelector.cs:91-93 | a ranking of every collection of the table ranks the explosion of each of them |
| Explosion.ExpandEntriesSnoc | DnDGen.Infrastructure/Selectors/Collections/CollectionSelector.cs:88-103 | one more entry appends its expansion: the sub-collection's explosion for an entry naming another collection, the entry itself otherwise |
| Explosion.ExpandEntriesWithoutSubCollections | DnDGen.Infrastructure/Selectors/Collections/CollectionSelector.cs:98-102 | entries naming no other collection are kept unchanged and in order |
| Explosion.ExplodedWithoutSubCollections | DnDGen.Infrastructure.Tests.Unit/Selectors/Collections/CollectionSelectorTests.cs:189-196 | a collection without sub-collections explodes to its own entries |
| Explosion.InExpandEntries | DnDGen.Infrastructure/Selectors/Collections/CollectionSelector.cs:90-103 | an item is in the explosion exactly when some entry is kept as that item, or names another collection whose explosion holds it |
| Explosion.ExplodedItems | DnDGen.Infrastructure/Selectors/Collections/CollectionSelector.cs:92-102 | every item of an explosion is either no collection, or a collection that lists itself among its own entries |
| Explosion.ExpandedItems | DnDGen.Infrastructure/Selectors/Collections/CollectionSelector.cs:90-103 | the same, for any prefix of a collection's entries |
| ExplosionFixtures.SharedTableFacts | DnDGen.Infrastructure.Tests.Unit/Selectors/Collections/CollectionSelectorTests.cs:213-218 | in the test's table with two sub-collections sharing an item, the lookups give the listed entries and the rank orders the nesting |
| ExplosionFixtures.ExplodeSharedSubItem | DnDGen.Infrastructure.Tests.Unit/Selectors/Collections/CollectionSelectorTests.cs:344-361 | two sub-collections sharing sub1 explode to five items in order, sub1 twice, for any seven distinct names |
| ExplosionFixtures.ExplodeSharedSubItemDistinct | DnDGen.Infrastructure.Tests.Unit/Selectors/Collections/CollectionSelectorTests.cs:213-229 | the same table's exploded set is the four items first, sub1, sub2, sub3 |
| ExplosionFixtures.SelfListedTableFacts | DnDGen.Infrastructure.Tests.Unit/Selectors/Collections/CollectionSelectorTests.cs:249-255 | in the test's self-listing table, the lookups give the listed entries and the rank orders the nesting |
| ExplosionFixtures.ExplodeSelfListed | DnDGen.Infrastructure.Tests.Unit/Selectors/Collections/CollectionSelectorTests.cs:249-262 | a collection listing itself keeps its own name: first, sub1, sub2, entry, four distinct items |
| ExplosionFixtures.NestedTableFacts | DnDGen.Infrastructure.Tests.Unit/Selectors/Collections/CollectionSelectorTests.cs:363-370 | in the test's nested table, the lookups give the listed entries and the rank orders the nesting |
| ExplosionFixtures.ExplodeNestedThird | DnDGen.Infrastructure.Tests.Unit/Selectors/Collections/CollectionSelectorTests.cs:366-368 | a collection naming another one explodes through it |
| ExplosionFixtures.ExplodeNestedRepeats | DnDGen.Infrastructure.Tests.Unit/Selectors/Collections/CollectionSelectorTests.cs:363-382 | nested sub-collections and repeated top-level items explode to the eight listed items, in order |
| ExplosionFixtures.ExplodeBesideCycle | DnDGen.Infrastructure/Selectors/Collections/CollectionSelector.cs:89-93 | a cycle between two collections the exploded one never names is never entered: ranking the root alone suffices, and the root explodes to its own item |
| ExplosionFixtures.CycleAdmitsNoRank | DnDGen.Infrastructure/Selectors/Collections/CollectionSelector.cs:89-93 | the explosion of a collection on a two-collection cycle has no rank, and neither has the whole table |
| ExplosionFixtures.ExplodeNestedRepeatsCounts | DnDGen.Infrastructure.Tests.Unit/Selectors/Collections/CollectionSelectorTests.cs:363-382 | in that explosion sub1 occurs three times, sub2 and sub3 twice each, with four distinct items |
| Weighting.Round3 | DnDGen.Infrastructure/Selectors/Collections/CollectionSelector.cs:203 | the result is a whole number of thousandths within half a thousandth of the value, an exact tie going to the even one: the nearest thousandth, as `Math.Round(x, 3)` |
| Weighting.Ceiling | DnDGen.Infrastructure/Selectors/Collections/CollectionSelector.cs:204 | the least integer not below the value |
| Weighting.RoundMultiplier | DnDGen.Infrastructure/Selectors/Collections/CollectionSelector.cs:201-207 | the multiplier is within rounding tolerance of at least the raw value and below it plus one; a raw value of at least 1 gives at least 1 |
| Weighting.Round3OfInteger | DnDGen.Infrastructure/Selectors/Collections/CollectionSelector.cs:203 | an integer is kept by rounding to three decimals |
| Weighting.RoundMultiplierOfInteger | DnDGen.Infrastructure/Selectors/Collections/CollectionSelector.cs:201-207 | an integer raw value is its own multiplier |
| Weighting.RoundMultiplierMonotonic | DnDGen.Infrastructure/Selectors/Collections/CollectionSelector.cs:201-207 | rounding never reverses an order |
| Weighting.RoundMultiplierOfRatio | DnDGen.Infrastructure/Selectors/Collections/CollectionSelector.cs:201-207 | for a ratio n / d with 0 < d < 2000 the rounded multiplier is the exact ceiling of n / d |
| Weighting.RoundMultiplierCovers | DnDGen.Infrastructure/Selectors/Collections/CollectionSelector.cs:201-207 | a multiplier rounded from at least n / d (0 < d < 2000) copies d items at least n times |
| Weighting.RareTarget | DnDGen.Infrastructure/Selectors/Collections/CollectionSelector.cs:137-142 | the rare target is the larger of 1 and, for a non-empty rare tier, 9 times very rare over rare |
| Weighting.GetRareMultiplier | DnDGen.Infrastructure/Selectors/Collections/CollectionSelector.cs:135-145 | the rare multiplier is at least 1, and exactly 1 for an empty rare tier; its exact value otherwise is `Weighting.RareMultiplierRatio` |
| Weighting.CommonDivisor | DnDGen.Infrastructure/Selectors/Collections/CollectionSelector.cs:155 | the divisor is 3 exactly when there is a common tier, and 1 otherwise |
| Weighting.UncommonTarget | DnDGen.Infrastructure/Selectors/Collections/CollectionSelector.cs:149-168 | the uncommon target is the largest of 1 and, for a non-empty uncommon tier, its three ratio targets: at least each, and equal to one of them |
| Weighting.GetUncommonMultiplier | DnDGen.Infrastructure/Selectors/Collections/CollectionSelector.cs:147-171 | the uncommon multiplier is at least 1, and exactly 1 for an empty uncommon tier; its exact value otherwise is `Weighting.UncommonMultiplierExact` |
| Weighting.UncommonMultiplierExact | DnDGen.Infrastructure/Selectors/Collections/CollectionSelector.cs:147-171 | for a non-empty uncommon tier with CommonDivisor × uncommon below 2000 the uncommon multiplier is exactly the largest of 1, ceil(3 amount / uncommon), ceil(9 amount / d) and ceil((99 veryRare - rareAmount) / d), where amount is the rare and very rare copies and d the divisor times uncommon |
| Weighting.CommonTarget | DnDGen.Infrastructure/Selectors/Collections/CollectionSelector.cs:175-196 | the common target is the largest of 1 and, for a non-empty common tier, its three ratio targets: at least each, and equal to one of them |
| Weighting.GetCommonMultiplier | DnDGen.Infrastructure/Selectors/Collections/CollectionSelector.cs:173-199 | the common multiplier is at least 1, and exactly 1 for an empty common tier; its exact value otherwise is `Weighting.CommonMultiplierExact` |
| Weighting.CommonMultiplierExact | DnDGen.Infrastructure/Selectors/Collections/CollectionSelector.cs:173-199 | for 0 < common < 2000 the common multiplier is exactly the largest of 1, ceil(2 uncommonAmount / common), ceil((9 (rareAmount + veryRare) - uncommonAmount) / common) and ceil((99 veryRare - rareAmount - uncommonAmount) / common) |
| Weighting.MultipliersOfEmptyTier | DnDGen.Infrastructure/Selectors/Collections/CollectionSelector.cs:135-199 | an empty rare, uncommon or common tier gets multiplier 1, whatever the other tiers hold |
| Weighting.Duplicate | DnDGen.Infrastructure/Selectors/Collections/CollectionSelector.cs:209-212 | quantity copies back to back: position i holds the original list's item i modulo its length, and the length and every item's count are multiplied by the quantity |
| Weighting.DuplicateOne | DnDGen.Infrastructure/Selectors/Collections/CollectionSelector.cs:209-212 | copies of a one-item list hold that item at every position |
| Weighting.CreateWeighted | DnDGen.Infrastructure/Selectors/Collections/CollectionSelector.cs:111-133 | the very rare tier comes first, once and in order, followed by one block each of the rare, uncommon and common copies, in that order, each block holding its tier cyclically; every item's count is its tier's counts times the tier's multiplier; the length is the sum; the result is empty exactly when all tiers are |
| Weighting.TiersLaidOut | DnDGen.Infrastructure/Selectors/Collections/CollectionSelector.cs:118-132 | the concatenation of the very rare tier and the multiplied tiers has that layout and those counts, for any multipliers of at least 1 |
| Weighting.TiersInOrder | DnDGen.Infrastructure/Selectors/Collections/CollectionSelector.cs:118-130 | in the concatenation, each tier's copies form one block starting where the previous tier's end, holding the tier cyclically |
| Weighting.MultipliersOfEmptyTiers | DnDGen.Infrastructure/Selectors/Collections/CollectionSelector.cs:135-199 | with every tier empty, all three multipliers are 1 |
| Weighting.RareMultiplierRatio | DnDGen.Infrastructure/Selectors/Collections/CollectionSelector.cs:135-145 | for 0 < rare < 2000 the rare multiplier is max(1, ceil(9 veryRare / rare)), so the rare copies make up at least 90% of rare plus very rare |
| Weighting.UncommonMultiplierRatio | DnDGen.Infrastructure/Selectors/Collections/CollectionSelector.cs:147-171 | for a non-empty uncommon tier with CommonDivisor × uncommon below 2000 the uncommon copies are at least 3 times the rare and very rare copies, at least 9 / divisor times them, and at least (99 veryRare - rareAmount) / divisor |
| Weighting.UncommonShareWithoutCommon | DnDGen.Infrastructure/Selectors/Collections/CollectionSelector.cs:147-171 | without a common tier, for 0 < uncommon < 2000, the uncommon copies make up at least 90% of the weighted collection |
| Weighting.CommonMultiplierRatio | DnDGen.Infrastructure/Selectors/Collections/CollectionSelector.cs:173-199 | for 0 < common < 2000 the common copies are at least twice the uncommon copies, bring uncommon plus common to at least 9 times rare plus very rare, and all but very rare to at least 99 times very rare |
| Weighting.RareMultiplierBeyondTolerance | DnDGen.Infrastructure/Selectors/Collections/CollectionSelector.cs:140-144 | with 2002 rare and 445 very rare items, rounding to three decimals gives multiplier 2, and the rare copies fall short of 9 times the very rare items |
| Weighting.OneOfEachTier | DnDGen.Infrastructure.Tests.Unit/Selectors/Collections/CollectionSelectorTests.cs:552-572 | one distinct item per tier gives counts 1, 9, 30 and 60, 100 items in all |
| Weighting.OneOfEachTierMultipliers | DnDGen.Infrastructure.Tests.Unit/Selectors/Collections/CollectionSelectorTests.cs:552-572 | with one item per tier the multipliers are 9, 30 and 60 |
| Weighting.OneOfEachTierLayout | DnDGen.Infrastructure/Selectors/Collections/CollectionSelector.cs:118-132 | with one item per tier, position 0 is very rare, 1-9 rare, 10-39 uncommon and 40-99 common |
| Weighting.OneOfEachWithoutCommon | DnDGen.Infrastructure.Tests.Unit/Selectors/Collections/CollectionSelectorTests.cs:595-612 | with no common tier the counts are 1, 9 and 90, 100 items in all |
| Weighting.WithoutCommonMultipliers | DnDGen.Infrastructure.Tests.Unit/Selectors/Collections/CollectionSelectorTests.cs:595-612 | with no common tier the multipliers are 9, 90 and 1 |
| Weighting.OneOfEachWithoutCommonLayout | DnDGen.Infrastructure/Selectors/Collections/CollectionSelector.cs:118-132 | with no common tier, position 0 is very rare, 1-9 rare and 10-99 uncommon |
| PercentileSelector.SelectFrom | DnDGen.Core/Selectors/Percentiles/PercentileSelector.cs:30-41 | one d100 roll; succeeds exactly when the table has an entry for the roll, returning the first such entry's result; otherwise fails with "{roll} is not a valid entry in the table {table}" |
| PercentileSelector.SelectFromCompleteTable | DnDGen.Core/Selectors/Percentiles/PercentileSelector.cs:30-41 | a table with an entry for every roll 1-100 never fails |
| PercentileSelector.SelectAllFrom | DnDGen.Core/Selectors/Percentiles/PercentileSelector.cs:48-52 | every result of the table, each once, in order of first occurrence, and nothing else |
| PercentileSelector.SelectFromChance | DnDGen.Core/Selectors/Percentiles/PercentileSelector.cs:54-63 | a chance of at least 1 is true and at most 0 false, both without rolling; otherwise one d100 roll is true exactly when the roll is at most floor(100 chance) |
| PercentileSelector.ChanceHitThreshold | DnDGen.Core/Selectors/Percentiles/PercentileSelector.cs:61-62 | roll / 100 <= chance exactly when roll <= floor(100 chance) |
| PercentileSelector.HitCountBelow | DnDGen.Core/Selectors/Percentiles/PercentileSelector.cs:61-62 | of the rolls 1..n, exactly those up to floor(100 chance) hit |
| PercentileSelector.ChanceHitsOfHundred | DnDGen.Core/Selectors/Percentiles/PercentileSelector.cs:54-63 | for 0 < chance < 1 exactly floor(100 chance) of the hundred rolls hit, so the result is true with that probability over 100 |
| PercentileMappers.CacheKey | DnDGen.Infrastructure/Mappers/Percentiles/PercentileMapperCachingProxy.cs:25 | the key is the assembly's full name followed directly by the table name |
| PercentileMappers.CacheKeyInjectiveForAssembly | DnDGen.Infrastructure/Mappers/Percentiles/PercentileMapperCachingProxy.cs:25 | within one assembly, different table names never share a cache key |
| PercentileMappers.CacheKeysOfDifferentPairsCollide | DnDGen.Infrastructure/Mappers/Percentiles/PercentileMapperCachingProxy.cs:25 | across assemblies the key is ambiguous: ("ab", "c") and ("a", "bc") share one |
| PercentileMappers.PercentileMapperCachingProxy.constructor | DnDGen.Infrastructure/Mappers/Percentiles/PercentileMapperCachingProxy.cs:13-20 | a new proxy has an empty cache, has loaded nothing, and keeps the inner mapper |
| PercentileMappers.PercentileMapperCachingProxy.LoadCount | DnDGen.Infrastructure/Mappers/Percentiles/PercentileMapperCachingProxy.cs:27-34 | the inner mapper was asked for a key at most once, and exactly once for every cached key |
| PercentileMappers.PercentileMapperCachingProxy.Map | DnDGen.Infrastructure/Mappers/Percentiles/PercentileMapperCachingProxy.cs:22-37 | the key is cached afterwards and its table returned; a cached key changes nothing and loads nothing; a new key loads the inner mapper's table for the table name once, adds exactly that entry and logs exactly that load |
| PercentileMappers.LoadedOnce | DnDGen.Infrastructure/Mappers/Percentiles/PercentileMapperCachingProxy.cs:29-33 | a load log without repeats holds each key at most once |
| PercentileMappers.MapTwice | DnDGen.Infrastructure/Mappers/Percentiles/PercentileMapperCachingProxy.cs:22-37 | mapping the same table twice gives the same table and loads the inner mapper at most once |
| PercentileMappers.MapSameKey | DnDGen.Infrastructure/Mappers/Percentiles/PercentileMapperCachingProxy.cs:25-36 | two (assembly, table) pairs with the same concatenation are served the table loaded for the first request, and the inner mapper runs once |

## Left out

- `CollectionSelector.SelectAllFrom` (CollectionSelector.cs:30-33) only returns the collection mapper's table. The mapper, with its file and assembly-resource loading, is not part of this model: every operation takes the mapped table as a parameter. `IsCollection`, `SelectFrom`, `FindCollectionOf` and the explosion each call the mapper again, and the model assumes every call returns the same table.
- `Flatten` (CollectionSelector.cs:76-79) delegates to `CollectionHelper.FlattenCollection`, which is not part of this model.
- The assembly loader is left out. The running assembly's full name becomes the `assemblyName` parameter of `PercentileMapperCachingProxy.Map`.
- The inner mapper becomes a fixed function from table names to tables. The model assumes loading a table has no other effect.
- A failing load is not modelled. If the inner mapper's `Map` throws (PercentileMapperCachingProxy.cs:32), the C# proxy caches nothing and passes the exception on, so a later `Map` loads again; `PercentileMapperCachingProxy.LoadCount`'s "at most once" is about successful loads.
- The proxy's `lock` is left out because there is no concurrency in the model. The model also assumes no other thread changes the cache between the check and the read.
- `Convert.ChangeType` and the generic `T` of `PercentileSelector` are left out. Results are strings, and the conversion is the identity on them.
- Null tier arguments (`common ??= Enumerable.Empty<T>()`, CollectionSelector.cs:113-116) cannot be expressed, since Dafny sequences cannot be null. Passing `[]` is the same case.
- IEEE doubles are replaced by exact reals. No double rounding error is modelled, and a midpoint in `Math.Round(x, 3)` is an exact real tie.
- Int32 overflow is left out: `9 * veryRare.Count()`, the tier amounts and `Convert.ToInt32` never overflow in the model.
- Weighting.RareMultiplierRatio: holds only for fewer than 2000 rare items. Beyond that, rounding to three decimals can drop the multiplier below the exact ratio (`Weighting.RareMultiplierBeyondTolerance`).
- Weighting.UncommonMultiplierRatio: proved while CommonDivisor × uncommon stays below 2000, i.e. at most 666 uncommon items with a common tier and fewer than 2000 without, so that every denominator stays below 2000, where the rounding tolerance cannot hide a ceiling.
- Weighting.CommonMultiplierRatio: holds only for fewer than 2000 common items.
- Weighting.UncommonMultiplierExact: proved while CommonDivisor × uncommon stays below 2000, i.e. at most 666 uncommon items with a common tier and fewer than 2000 without, for the same reason as Weighting.UncommonMultiplierRatio.
- Weighting.UncommonShareWithoutCommon: proved only for fewer than 2000 uncommon items, the bound of Weighting.UncommonMultiplierRatio without a common tier.
- Weighting.CommonMultiplierExact: holds only for fewer than 2000 common items.
- Explosion.ExplodeRecursive: requires a rank on the collections the explosion reaches, strictly decreasing from a collection to any other collection it names. Collections the explosion never reaches need no rank, so a cycle among them is allowed (`ExplosionFixtures.ExplodeBesideCycle`). A cycle through two or more reached collections admits no rank (`ExplosionFixtures.CycleAdmitsNoRank`); there the C# code recurses until the stack overflows, and that non-terminating case is not modelled.
- Explosion.Explode: in set mode the C# selector's inner calls return sets, and the outer call adds their items to a list it then discards. Only the returned set matters, and it equals the set of the items of the list explosion; the model builds the list in both modes.
- CollectionSelector.SelectRandomFrom: `ToArray()` and the `array[index]` bounds check are not modelled separately. A die that honours its contract always gives an index in range.
- Dictionary enumeration order is taken to be the order of the pairs in the model's sequence. The model states no particular order beyond that.
- Several unit tests pin behaviour of a different version of the selector; their signatures differ from the C# code's. They expect a weighted pick with the common tier first, and a percentile chance through `AsTrueOrFalse`. The model follows the C# code as written: very rare first, and `roll / 100 <= chance`. The tests with the common tier left out (CollectionSelectorTests.cs:1230-1233) agree with it (`CollectionSelector.WithoutCommonPick`).
