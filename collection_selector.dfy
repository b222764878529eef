/** CollectionSelector's lookups and random picks over one collection table:
    a table maps collection names to ordered lists of entries, in the
    dictionary's enumeration order. The table is the one the collection
    mapper returns for the table name; the name is kept for error messages. */
module CollectionSelector {

  import opened Results
  import opened Dictionaries
  import opened Dice
  import opened Numerals
  import opened Weighting

  type Table = Dict<string, seq<string>>

  /** IsCollection: a name is a collection exactly when it is a key of the table. */
  predicate IsCollection(table: Table, collectionName: string)
    ensures IsCollection(table, collectionName) <==> exists i :: 0 <= i < |table| && table[i].0 == collectionName
  {
    ContainsKey(table, collectionName)
  }

  function NotACollectionMessage(tableName: string, collectionName: string): string
  {
    collectionName + " is not a valid collection in the table " + tableName
  }

  /** SelectFrom: the entries of a collection, or the C# selector's ArgumentException when the name is no key. */
  function SelectFrom(table: Table, tableName: string, collectionName: string): (r: Result<seq<string>>)
    ensures r.Success? <==> IsCollection(table, collectionName)
    ensures r.Success? ==>
      exists i :: 0 <= i < |table| && table[i] == (collectionName, r.value) &&
        forall j :: 0 <= j < i ==> table[j].0 != collectionName
    ensures r.Failure? ==> r.message == NotACollectionMessage(tableName, collectionName)
  {
    if !IsCollection(table, collectionName) then Failure(NotACollectionMessage(tableName, collectionName))
    else Success(Get(table, collectionName))
  }

  /** With unique keys, SelectFrom returns the one list stored under the name. */
  lemma SelectFromStoredList(table: Table, tableName: string, i: int)
    requires UniqueKeys(table)
    requires 0 <= i < |table|
    ensures SelectFrom(table, tableName, table[i].0) == Success(table[i].1)
  {
    GetOfUniqueKey(table, i);
  }

  const EmptyCollectionMessage: string := "Cannot select random from an empty collection"

  /** SelectRandomFrom over a collection: an empty one fails without rolling;
      otherwise one die with as many sides as elements is rolled and the
      element at (roll - 1) returned. */
  function SelectRandomFrom<T>(collection: seq<T>, die: nat -> int): (r: Rolled<Result<T>>)
    requires IsDie(die)
    ensures collection == [] ==> r == Rolled(Failure(EmptyCollectionMessage), [])
    ensures collection != [] ==>
      && r.rolls == [|collection|]
      && r.value.Success?
      && r.value.value == collection[die(|collection|) - 1]
    ensures r.value.Success? ==> r.value.value in collection
  {
    if |collection| == 0 then Rolled(Failure(EmptyCollectionMessage), [])
    else
      var index := die(|collection|) - 1;
      Rolled(Success(collection[index]), [|collection|])
  }

  /** SelectRandomFrom(tableName, collectionName): the collection's lookup error,
      the empty-collection error, or one roll over the collection's entries. */
  function SelectRandomFromTable(table: Table, tableName: string, collectionName: string, die: nat -> int)
    : (r: Rolled<Result<string>>)
    requires IsDie(die)
    ensures !IsCollection(table, collectionName) ==>
      r == Rolled(Failure(NotACollectionMessage(tableName, collectionName)), [])
    ensures IsCollection(table, collectionName) ==>
      var entries := Get(table, collectionName);
      && (entries == [] ==> r == Rolled(Failure(EmptyCollectionMessage), []))
      && (entries != [] ==>
            && r.rolls == [|entries|]
            && r.value.Success?
            && r.value.value == entries[die(|entries|) - 1]
            && r.value.value in entries)
  {
    var collection := SelectFrom(table, tableName, collectionName);
    if collection.Failure? then Rolled(Failure(collection.message), [])
    else SelectRandomFrom(collection.value, die)
  }

  /** A roll of 2 on a three-item collection picks its second item. */
  lemma SecondOfThreePicked(entry: string, tableName: string, item1: string, item2: string, item3: string,
                            die: nat -> int)
    requires IsDie(die)
    requires die(3) == 2
    ensures SelectRandomFromTable([(entry, [item1, item2, item3])], tableName, entry, die) == Rolled(Success(item2), [3])
  {
    assert IndexOf([(entry, [item1, item2, item3])], entry) == 0;
  }

  /** SelectRandomFrom over four rarity tiers: build the weighted collection,
      then pick from it. Only four empty tiers fail; otherwise one die with as
      many sides as the weighted collection is rolled, the pick is the weighted
      collection's element at (roll - 1), and so an item of one of the tiers. */
  function SelectRandomFromTiers<T(!new)>(common: seq<T>, uncommon: seq<T>, rare: seq<T>, veryRare: seq<T>,
                                         die: nat -> int): (r: Rolled<Result<T>>)
    requires IsDie(die)
    ensures r.value.Failure? <==> common == [] && uncommon == [] && rare == [] && veryRare == []
    ensures r.value.Failure? ==> r == Rolled(Failure(EmptyCollectionMessage), [])
    ensures r.value.Success? ==>
      && var w := CreateWeighted(common, uncommon, rare, veryRare);
         && 0 < |w|
         && r.rolls == [|w|]
         && r.value.value == w[die(|w|) - 1]
         && r.value.value in common + uncommon + rare + veryRare
  {
    var weighted := CreateWeighted(common, uncommon, rare, veryRare);
    WeightedEmpty(common, uncommon, rare, veryRare);
    var selected := SelectRandomFrom(weighted, die);
    if selected.value.Success? then
      WeightedItemFromTiers(common, uncommon, rare, veryRare, selected.value.value);
      selected
    else
      selected
  }

  /** The weighted collection is empty exactly when every tier is. */
  lemma WeightedEmpty<T(!new)>(common: seq<T>, uncommon: seq<T>, rare: seq<T>, veryRare: seq<T>)
    ensures CreateWeighted(common, uncommon, rare, veryRare) == [] <==>
              common == [] && uncommon == [] && rare == [] && veryRare == []
  {
  }

  /** Every item of the weighted collection comes from one of the tiers. */
  lemma WeightedItemFromTiers<T(!new)>(common: seq<T>, uncommon: seq<T>, rare: seq<T>, veryRare: seq<T>, x: T)
    requires x in CreateWeighted(common, uncommon, rare, veryRare)
    ensures x in common + uncommon + rare + veryRare
  {
    var w := CreateWeighted(common, uncommon, rare, veryRare);
    assert multiset(w)[x] > 0;
    var all := common + uncommon + rare + veryRare;
    assert multiset(all) == multiset(common) + multiset(uncommon) + multiset(rare) + multiset(veryRare);
  }

  /** The roll decides the tier for any tiers: with w the weighted collection
      and k the roll less one, the pick is the very rare item k when k falls in
      the very rare prefix, and otherwise the item at k's offset, modulo the
      tier's size, in whichever tier's block of copies k falls. */
  lemma TierOfPick<T(!new)>(common: seq<T>, uncommon: seq<T>, rare: seq<T>, veryRare: seq<T>, die: nat -> int)
    requires IsDie(die)
    requires common != [] || uncommon != [] || rare != [] || veryRare != []
    ensures var w := CreateWeighted(common, uncommon, rare, veryRare);
            var pick := SelectRandomFromTiers(common, uncommon, rare, veryRare, die);
            var k := die(|w|) - 1;
            var uncommonStart := |veryRare| + GetRareMultiplier(|rare|, |veryRare|) * |rare|;
            var commonStart := uncommonStart + GetUncommonMultiplier(|common|, |uncommon|, |rare|, |veryRare|) * |uncommon|;
            && pick.value.Success?
            && 0 <= k < |w|
            && (k < |veryRare| ==> pick.value.value == veryRare[k])
            && (|veryRare| <= k < uncommonStart ==> pick.value.value == rare[(k - |veryRare|) % |rare|])
            && (uncommonStart <= k < commonStart ==> pick.value.value == uncommon[(k - uncommonStart) % |uncommon|])
            && (commonStart <= k ==> pick.value.value == common[(k - commonStart) % |common|])
  {
    var w := CreateWeighted(common, uncommon, rare, veryRare);
    var k := die(|w|) - 1;
    if k < |veryRare| {
      assert w[..|veryRare|][k] == w[k];
    }
  }

  /** The roll decides the tier in a one-item-per-tier pick: roll 1 is the
      very rare item, 2..10 the rare, 11..40 the uncommon and 41..100 the
      common item (very rare first, as the weighted collection is laid out). */
  lemma OneOfEachTierPick<T(!new)>(c: T, u: T, r: T, v: T, die: nat -> int)
    requires IsDie(die)
    requires c != u && c != r && c != v && u != r && u != v && r != v
    ensures var pick := SelectRandomFromTiers([c], [u], [r], [v], die);
            && pick.rolls == [100]
            && pick.value.Success?
            && (pick.value.value == v <==> die(100) == 1)
            && (pick.value.value == r <==> 2 <= die(100) <= 10)
            && (pick.value.value == u <==> 11 <= die(100) <= 40)
            && (pick.value.value == c <==> 41 <= die(100) <= 100)
  {
    OneOfEachTierLayout(c, u, r, v);
    var w := CreateWeighted([c], [u], [r], [v]);
    var roll := die(100);
    assert 1 <= roll <= 100;
    assert SelectRandomFromTiers([c], [u], [r], [v], die).value.value == w[roll - 1];
  }

  /** With the common tier left out: roll 1 is the very rare item, 2..10 the
      rare and 11..100 the uncommon item. */
  lemma WithoutCommonPick<T(!new)>(u: T, r: T, v: T, die: nat -> int)
    requires IsDie(die)
    requires u != r && u != v && r != v
    ensures var pick := SelectRandomFromTiers([], [u], [r], [v], die);
            && pick.rolls == [100]
            && pick.value.Success?
            && (pick.value.value == v <==> die(100) == 1)
            && (pick.value.value == r <==> 2 <= die(100) <= 10)
            && (pick.value.value == u <==> 11 <= die(100) <= 100)
  {
    OneOfEachWithoutCommonLayout(u, r, v);
    var w := CreateWeighted([], [u], [r], [v]);
    var roll := die(100);
    assert 1 <= roll <= 100;
    assert SelectRandomFromTiers([], [u], [r], [v], die).value.value == w[roll - 1];
  }

  function NoCollectionMessage(tableName: string, entry: string): string
  {
    "No collection in " + tableName + " contains " + entry
  }

  function NoFilteredCollectionMessage(filterCount: nat, tableName: string, entry: string): string
  {
    "No collection from the " + NatToString(filterCount) + " filters in " + tableName + " contains " + entry
  }

  /** A key passes the filter when no filter names are given, or it is one of them. */
  predicate PassesFilter(filteredCollectionNames: seq<string>, key: string)
  {
    |filteredCollectionNames| == 0 || key in filteredCollectionNames
  }

  /** The pair at `i` is one FindCollectionOf may return. */
  predicate Candidate(table: Table, entry: string, filteredCollectionNames: seq<string>, i: int)
    requires 0 <= i < |table|
  {
    PassesFilter(filteredCollectionNames, table[i].0) && entry in table[i].1
  }

  /** Position of the first candidate pair at or after `from`, or -1. */
  function FirstCandidate(table: Table, entry: string, filteredCollectionNames: seq<string>, from: nat): (i: int)
    requires from <= |table|
    ensures i == -1 || from <= i < |table|
    ensures 0 <= i ==> Candidate(table, entry, filteredCollectionNames, i)
    ensures 0 <= i ==> forall j :: from <= j < i ==> !Candidate(table, entry, filteredCollectionNames, j)
    ensures i < 0 ==> forall j :: from <= j < |table| ==> !Candidate(table, entry, filteredCollectionNames, j)
    decreases |table| - from
  {
    if from == |table| then -1
    else if Candidate(table, entry, filteredCollectionNames, from) then from
    else FirstCandidate(table, entry, filteredCollectionNames, from + 1)
  }

  /** FindCollectionOf: the first key, in table order, among the filtered
      collections whose list contains the entry. It fails when no collection at
      all contains the entry (checked first, filters or not), and otherwise
      when no filtered collection does, reporting the number of filters. */
  function FindCollectionOf(table: Table, tableName: string, entry: string, filteredCollectionNames: seq<string>)
    : (r: Result<string>)
    ensures r.Success? ==>
      exists i :: 0 <= i < |table| && table[i].0 == r.value && Candidate(table, entry, filteredCollectionNames, i) &&
        forall j :: 0 <= j < i ==> !Candidate(table, entry, filteredCollectionNames, j)
    ensures r.Failure? <==> forall i :: 0 <= i < |table| ==> !Candidate(table, entry, filteredCollectionNames, i)
    ensures (forall i :: 0 <= i < |table| ==> entry !in table[i].1) ==>
      r == Failure(NoCollectionMessage(tableName, entry))
    ensures (exists i :: 0 <= i < |table| && entry in table[i].1) && r.Failure? ==>
      r == Failure(NoFilteredCollectionMessage(|filteredCollectionNames|, tableName, entry))
  {
    if !exists i :: 0 <= i < |table| && entry in table[i].1 then
      Failure(NoCollectionMessage(tableName, entry))
    else
      var i := FirstCandidate(table, entry, filteredCollectionNames, 0);
      if i < 0 then Failure(NoFilteredCollectionMessage(|filteredCollectionNames|, tableName, entry))
      else Success(table[i].0)
  }

  /** Without filters, every collection counts: FindCollectionOf fails only
      when no collection contains the entry. */
  lemma FindCollectionOfUnfiltered(table: Table, tableName: string, entry: string)
    ensures var r := FindCollectionOf(table, tableName, entry, []);
            r.Failure? <==> forall i :: 0 <= i < |table| ==> entry !in table[i].1
  {
    forall i | 0 <= i < |table|
      ensures Candidate(table, entry, [], i) == (entry in table[i].1)
    {
    }
  }

  /** Filter names that are no key of the table are ignored: adding one to a
      non-empty filter list changes no found collection and no failure into a
      success. */
  lemma FindCollectionOfIgnoresUnknownFilter(table: Table, tableName: string, entry: string,
                                             filteredCollectionNames: seq<string>, unknown: string)
    requires |filteredCollectionNames| > 0
    requires !IsCollection(table, unknown)
    ensures var before := FindCollectionOf(table, tableName, entry, filteredCollectionNames);
            var after := FindCollectionOf(table, tableName, entry, filteredCollectionNames + [unknown]);
            && before.Success? == after.Success?
            && (before.Success? ==> before.value == after.value)
  {
    var extended := filteredCollectionNames + [unknown];
    forall i | 0 <= i < |table|
      ensures Candidate(table, entry, filteredCollectionNames, i) == Candidate(table, entry, extended, i)
    {
      assert table[i].0 in extended <==> table[i].0 in filteredCollectionNames || table[i].0 == unknown;
    }
    CandidatesAgree(table, entry, filteredCollectionNames, extended, 0);
  }

  /** Two filter lists that admit the same pairs find the same first pair. */
  lemma {:induction false} CandidatesAgree(table: Table, entry: string, f: seq<string>, g: seq<string>, from: nat)
    requires from <= |table|
    requires forall i :: 0 <= i < |table| ==> Candidate(table, entry, f, i) == Candidate(table, entry, g, i)
    ensures FirstCandidate(table, entry, f, from) == FirstCandidate(table, entry, g, from)
    decreases |table| - from
  {
    if from < |table| && !Candidate(table, entry, f, from) {
      CandidatesAgree(table, entry, f, g, from + 1);
    }
  }
}
