/** Explosions of the tables in the selector's unit tests, stated for any
    pairwise distinct names in place of the tests' "entry", "first",
    "second", "third", "sub 1", "sub 2" and "sub 3". */
module ExplosionFixtures {

  import opened Dictionaries
  import opened CollectionSelector
  import opened Explosion

  /** Seven names, pairwise different. */
  predicate Distinct7(a: string, b: string, c: string, d: string, e: string, f: string, g: string)
  {
    && a != b && a != c && a != d && a != e && a != f && a != g
    && b != c && b != d && b != e && b != f && b != g
    && c != d && c != e && c != f && c != g
    && d != e && d != f && d != g
    && e != f && e != g
    && f != g
  }

  /** entry lists first, second and third; second and third share sub1. */
  function SharedTable(entry: string, first: string, second: string, third: string,
                       sub1: string, sub2: string, sub3: string): Table
  {
    [(entry, [first, second, third]), (second, [sub1, sub2]), (third, [sub1, sub3])]
  }

  /** entry lists first, second and itself. */
  function SelfListedTable(entry: string, first: string, second: string, sub1: string, sub2: string): Table
  {
    [(entry, [first, second, entry]), (second, [sub1, sub2])]
  }

  /** entry lists first, second, third, sub1 and sub3; third lists second. */
  function NestedTable(entry: string, first: string, second: string, third: string,
                       sub1: string, sub2: string, sub3: string): Table
  {
    [(entry, [first, second, third, sub1, sub3]), (second, [sub1, sub2]), (third, [second, sub3])]
  }

  /** Lookups in a three-collection table whose keys differ from four other names. */
  lemma ThreeKeyLookups(t: Table, k0: string, k1: string, k2: string, n1: string, n2: string, n3: string, n4: string)
    requires |t| == 3 && t[0].0 == k0 && t[1].0 == k1 && t[2].0 == k2
    requires Distinct7(k0, n1, k1, k2, n2, n3, n4)
    ensures IndexOf(t, k0) == 0 && IndexOf(t, k1) == 1 && IndexOf(t, k2) == 2
    ensures !ContainsKey(t, n1) && !ContainsKey(t, n2) && !ContainsKey(t, n3) && !ContainsKey(t, n4)
  {
  }

  lemma SharedTableFacts(entry: string, first: string, second: string, third: string,
                         sub1: string, sub2: string, sub3: string)
    requires Distinct7(entry, first, second, third, sub1, sub2, sub3)
    ensures var t := SharedTable(entry, first, second, third, sub1, sub2, sub3);
            && ContainsKey(t, second) && ContainsKey(t, third)
            && !ContainsKey(t, first) && !ContainsKey(t, sub1) && !ContainsKey(t, sub2) && !ContainsKey(t, sub3)
            && ContainsKey(t, entry) && Get(t, entry) == [first, second, third]
            && Get(t, second) == [sub1, sub2] && Get(t, third) == [sub1, sub3]
            && RankedBy(t, map[entry := 1, second := 0, third := 0])
  {
    var t := SharedTable(entry, first, second, third, sub1, sub2, sub3);
    ThreeKeyLookups(t, entry, second, third, first, sub1, sub2, sub3);
  }

  /** Two sub-collections sharing an item: the list keeps sub1 twice. */
  lemma ExplodeSharedSubItem(entry: string, first: string, second: string, third: string,
                             sub1: string, sub2: string, sub3: string)
    requires Distinct7(entry, first, second, third, sub1, sub2, sub3)
    ensures var table := SharedTable(entry, first, second, third, sub1, sub2, sub3);
            var rank := map[entry := 1, second := 0, third := 0];
            && RankedFrom(table, entry, rank)
            && Exploded(table, entry, rank) == [first, sub1, sub2, sub1, sub3]
  {
    SharedTableFacts(entry, first, second, third, sub1, sub2, sub3);
    var t := SharedTable(entry, first, second, third, sub1, sub2, sub3);
    var r := map[entry := 1, second := 0, third := 0];
    RankedByRanksFrom(t, r, entry);
    RankedByRanksFrom(t, r, third);
    ExplodedWithoutSubCollections(t, third, r);
    CollectionRanksBelow(t, entry, r);
    assert [first, second] + [third] == [first, second, third];
    ExpandEntriesSnoc(t, entry, [first, second], third, r);
    SharedPrefix(entry, first, second, third, sub1, sub2, sub3);
  }

  /** The first two entries of the shared table's collection. */
  lemma SharedPrefix(entry: string, first: string, second: string, third: string,
                     sub1: string, sub2: string, sub3: string)
    requires Distinct7(entry, first, second, third, sub1, sub2, sub3)
    ensures var table := SharedTable(entry, first, second, third, sub1, sub2, sub3);
            var rank := map[entry := 1, second := 0, third := 0];
            && RanksBelow(table, entry, [first, second], rank)
            && ExpandEntries(table, entry, [first, second], rank) == [first, sub1, sub2]
  {
    SharedTableFacts(entry, first, second, third, sub1, sub2, sub3);
    var t := SharedTable(entry, first, second, third, sub1, sub2, sub3);
    var r := map[entry := 1, second := 0, third := 0];
    RankedByRanksFrom(t, r, second);
    ExplodedWithoutSubCollections(t, second, r);
    var p0: seq<string> := [];
    assert [first] + [second] == [first, second];
    assert p0 + [first] == [first];
    ExpandEntriesSnoc(t, entry, [first], second, r);
    ExpandEntriesSnoc(t, entry, p0, first, r);
  }

  /** ... and the set holds sub1 once: four items in all. */
  lemma ExplodeSharedSubItemDistinct(entry: string, first: string, second: string, third: string,
                                     sub1: string, sub2: string, sub3: string)
    requires Distinct7(entry, first, second, third, sub1, sub2, sub3)
    ensures var table := SharedTable(entry, first, second, third, sub1, sub2, sub3);
            var rank := map[entry := 1, second := 0, third := 0];
            && RankedFrom(table, entry, rank)
            && Elements(Exploded(table, entry, rank)) == {first, sub1, sub2, sub3}
  {
    ExplodeSharedSubItem(entry, first, second, third, sub1, sub2, sub3);
    var items := [first, sub1, sub2, sub1, sub3];
    assert Elements(items) == {first, sub1, sub2, sub3};
  }

  lemma SelfListedTableFacts(entry: string, first: string, second: string, sub1: string, sub2: string)
    requires entry != first && entry != second && entry != sub1 && entry != sub2
    requires first != second && first != sub1 && first != sub2
    requires second != sub1 && second != sub2 && sub1 != sub2
    ensures var t := SelfListedTable(entry, first, second, sub1, sub2);
            && ContainsKey(t, second) && ContainsKey(t, entry)
            && !ContainsKey(t, first) && !ContainsKey(t, sub1) && !ContainsKey(t, sub2)
            && Get(t, entry) == [first, second, entry] && Get(t, second) == [sub1, sub2]
            && RankedBy(t, map[entry := 1, second := 0])
  {
  }

  /** A collection listing itself keeps its own name as an item. */
  lemma ExplodeSelfListed(entry: string, first: string, second: string, sub1: string, sub2: string)
    requires entry != first && entry != second && entry != sub1 && entry != sub2
    requires first != second && first != sub1 && first != sub2
    requires second != sub1 && second != sub2 && sub1 != sub2
    ensures var table := SelfListedTable(entry, first, second, sub1, sub2);
            var rank := map[entry := 1, second := 0];
            && RankedFrom(table, entry, rank)
            && Exploded(table, entry, rank) == [first, sub1, sub2, entry]
            && Elements(Exploded(table, entry, rank)) == {first, sub1, sub2, entry}
  {
    SelfListedTableFacts(entry, first, second, sub1, sub2);
    var t := SelfListedTable(entry, first, second, sub1, sub2);
    var r := map[entry := 1, second := 0];
    RankedByRanksFrom(t, r, entry);
    CollectionRanksBelow(t, entry, r);
    assert [first, second] + [entry] == [first, second, entry];
    ExpandEntriesSnoc(t, entry, [first, second], entry, r);
    SelfListedPrefix(entry, first, second, sub1, sub2);
    assert Elements([first, sub1, sub2, entry]) == {first, sub1, sub2, entry};
  }

  /** The first two entries of the self-listing collection. */
  lemma SelfListedPrefix(entry: string, first: string, second: string, sub1: string, sub2: string)
    requires entry != first && entry != second && entry != sub1 && entry != sub2
    requires first != second && first != sub1 && first != sub2
    requires second != sub1 && second != sub2 && sub1 != sub2
    ensures var table := SelfListedTable(entry, first, second, sub1, sub2);
            var rank := map[entry := 1, second := 0];
            && RanksBelow(table, entry, [first, second], rank)
            && ExpandEntries(table, entry, [first, second], rank) == [first, sub1, sub2]
  {
    SelfListedTableFacts(entry, first, second, sub1, sub2);
    var t := SelfListedTable(entry, first, second, sub1, sub2);
    var r := map[entry := 1, second := 0];
    RankedByRanksFrom(t, r, second);
    ExplodedWithoutSubCollections(t, second, r);
    var p0: seq<string> := [];
    assert [first] + [second] == [first, second];
    assert p0 + [first] == [first];
    ExpandEntriesSnoc(t, entry, [first], second, r);
    ExpandEntriesSnoc(t, entry, p0, first, r);
  }

  lemma NestedTableFacts(entry: string, first: string, second: string, third: string,
                         sub1: string, sub2: string, sub3: string)
    requires Distinct7(entry, first, second, third, sub1, sub2, sub3)
    ensures var t := NestedTable(entry, first, second, third, sub1, sub2, sub3);
            && ContainsKey(t, second) && ContainsKey(t, third)
            && !ContainsKey(t, first) && !ContainsKey(t, sub1) && !ContainsKey(t, sub2) && !ContainsKey(t, sub3)
            && ContainsKey(t, entry) && Get(t, entry) == [first, second, third, sub1, sub3]
            && Get(t, second) == [sub1, sub2] && Get(t, third) == [second, sub3]
            && RankedBy(t, map[entry := 2, second := 0, third := 1])
  {
    var t := NestedTable(entry, first, second, third, sub1, sub2, sub3);
    ThreeKeyLookups(t, entry, second, third, first, sub1, sub2, sub3);
  }

  /** The nested table's third collection explodes through second. */
  lemma ExplodeNestedThird(entry: string, first: string, second: string, third: string,
                           sub1: string, sub2: string, sub3: string)
    requires Distinct7(entry, first, second, third, sub1, sub2, sub3)
    ensures var table := NestedTable(entry, first, second, third, sub1, sub2, sub3);
            var rank := map[entry := 2, second := 0, third := 1];
            && ContainsKey(table, second) && ContainsKey(table, third)
            && RankedFrom(table, second, rank) && RankedFrom(table, third, rank)
            && Exploded(table, second, rank) == [sub1, sub2]
            && Exploded(table, third, rank) == [sub1, sub2, sub3]
  {
    NestedTableFacts(entry, first, second, third, sub1, sub2, sub3);
    var t := NestedTable(entry, first, second, third, sub1, sub2, sub3);
    var r := map[entry := 2, second := 0, third := 1];
    RankedByRanksFrom(t, r, second);
    RankedByRanksFrom(t, r, third);
    ExplodedWithoutSubCollections(t, second, r);
    var p0: seq<string> := [];
    CollectionRanksBelow(t, third, r);
    assert [second] + [sub3] == [second, sub3];
    assert p0 + [second] == [second];
    ExpandEntriesSnoc(t, third, [second], sub3, r);
    ExpandEntriesSnoc(t, third, p0, second, r);
    assert ExpandEntries(t, third, [second], r) == [sub1, sub2];
  }

  /** Nested sub-collections and items repeated at the top level: eight items. */
  lemma ExplodeNestedRepeats(entry: string, first: string, second: string, third: string,
                             sub1: string, sub2: string, sub3: string)
    requires Distinct7(entry, first, second, third, sub1, sub2, sub3)
    ensures var table := NestedTable(entry, first, second, third, sub1, sub2, sub3);
            var rank := map[entry := 2, second := 0, third := 1];
            && RankedFrom(table, entry, rank)
            && Exploded(table, entry, rank) == [first, sub1, sub2, sub1, sub2, sub3, sub1, sub3]
  {
    NestedTableFacts(entry, first, second, third, sub1, sub2, sub3);
    var t := NestedTable(entry, first, second, third, sub1, sub2, sub3);
    var r := map[entry := 2, second := 0, third := 1];
    RankedByRanksFrom(t, r, entry);
    CollectionRanksBelow(t, entry, r);
    assert [first, second, third, sub1] + [sub3] == [first, second, third, sub1, sub3];
    assert [first, second, third] + [sub1] == [first, second, third, sub1];
    ExpandEntriesSnoc(t, entry, [first, second, third, sub1], sub3, r);
    ExpandEntriesSnoc(t, entry, [first, second, third], sub1, r);
    NestedPrefix(entry, first, second, third, sub1, sub2, sub3);
    assert ExpandEntries(t, entry, [first, second, third, sub1], r) == [first, sub1, sub2, sub1, sub2, sub3, sub1];
  }

  /** The first three entries of the nested table's collection. */
  lemma NestedPrefix(entry: string, first: string, second: string, third: string,
                     sub1: string, sub2: string, sub3: string)
    requires Distinct7(entry, first, second, third, sub1, sub2, sub3)
    ensures var table := NestedTable(entry, first, second, third, sub1, sub2, sub3);
            var rank := map[entry := 2, second := 0, third := 1];
            && RanksBelow(table, entry, [first, second, third], rank)
            && ExpandEntries(table, entry, [first, second, third], rank) == [first, sub1, sub2, sub1, sub2, sub3]
  {
    NestedTableFacts(entry, first, second, third, sub1, sub2, sub3);
    var t := NestedTable(entry, first, second, third, sub1, sub2, sub3);
    var r := map[entry := 2, second := 0, third := 1];
    RankedByRanksFrom(t, r, entry);
    CollectionRanksBelow(t, entry, r);
    assert [first, second, third, sub1, sub3][..3] == [first, second, third];
    assert [first, second] + [third] == [first, second, third];
    ExpandEntriesSnoc(t, entry, [first, second], third, r);
    ExplodeNestedThird(entry, first, second, third, sub1, sub2, sub3);
    NestedPairPrefix(entry, first, second, third, sub1, sub2, sub3);
  }

  /** The first two entries of the nested table's collection. */
  lemma NestedPairPrefix(entry: string, first: string, second: string, third: string,
                         sub1: string, sub2: string, sub3: string)
    requires Distinct7(entry, first, second, third, sub1, sub2, sub3)
    ensures var table := NestedTable(entry, first, second, third, sub1, sub2, sub3);
            var rank := map[entry := 2, second := 0, third := 1];
            && RanksBelow(table, entry, [first, second], rank)
            && ExpandEntries(table, entry, [first, second], rank) == [first, sub1, sub2]
  {
    NestedTableFacts(entry, first, second, third, sub1, sub2, sub3);
    var t := NestedTable(entry, first, second, third, sub1, sub2, sub3);
    var r := map[entry := 2, second := 0, third := 1];
    RankedByRanksFrom(t, r, second);
    ExplodedWithoutSubCollections(t, second, r);
    var p0: seq<string> := [];
    assert [first] + [second] == [first, second];
    assert p0 + [first] == [first];
    ExpandEntriesSnoc(t, entry, [first], second, r);
    ExpandEntriesSnoc(t, entry, p0, first, r);
  }

  /** ... sub1 three times, sub2 and sub3 twice each, four distinct items. */
  lemma ExplodeNestedRepeatsCounts(entry: string, first: string, second: string, third: string,
                                   sub1: string, sub2: string, sub3: string)
    requires Distinct7(entry, first, second, third, sub1, sub2, sub3)
    ensures var table := NestedTable(entry, first, second, third, sub1, sub2, sub3);
            var rank := map[entry := 2, second := 0, third := 1];
            && RankedFrom(table, entry, rank)
            && var items := Exploded(table, entry, rank);
               && multiset(items)[sub1] == 3 && multiset(items)[sub2] == 2 && multiset(items)[sub3] == 2
               && Elements(items) == {first, sub1, sub2, sub3}
  {
    ExplodeNestedRepeats(entry, first, second, third, sub1, sub2, sub3);
    NestedItemsCounted(first, sub1, sub2, sub3);
  }

  lemma NestedItemsCounted(first: string, sub1: string, sub2: string, sub3: string)
    requires first != sub1 && first != sub2 && first != sub3 && sub1 != sub2 && sub1 != sub3 && sub2 != sub3
    ensures var items := [first, sub1, sub2, sub1, sub2, sub3, sub1, sub3];
            && multiset(items)[sub1] == 3 && multiset(items)[sub2] == 2 && multiset(items)[sub3] == 2
            && Elements(items) == {first, sub1, sub2, sub3}
  {
    var items := [first, sub1, sub2, sub1, sub2, sub3, sub1, sub3];
    assert multiset(items) == multiset{first, sub1, sub2, sub1, sub2, sub3, sub1, sub3};
    assert Elements(items) == {first, sub1, sub2, sub3};
  }

  /** A cycle between two collections that the exploded one never names. */
  function UnreachableCycleTable(root: string, item: string, left: string, right: string): Table
  {
    [(root, [item]), (left, [right]), (right, [left])]
  }

  /** The cycle is never entered: ranking the root alone is enough, and the
      root explodes to its one item, as the C# code's recursion does. */
  lemma ExplodeBesideCycle(root: string, item: string, left: string, right: string)
    requires root != item && root != left && root != right && item != left && item != right && left != right
    ensures var table := UnreachableCycleTable(root, item, left, right);
            var rank := map[root := 0];
            && RankedFrom(table, root, rank)
            && ContainsKey(table, root)
            && Exploded(table, root, rank) == [item]
  {
    var t := UnreachableCycleTable(root, item, left, right);
    var r := map[root := 0];
    assert IndexOf(t, root) == 0;
    assert !ContainsKey(t, item);
    assert Get(t, root) == [item];
    ExplodedWithoutSubCollections(t, root, r);
  }

  /** The explosion of a collection on the cycle admits no rank at all (the
      C# code recurses without end there), and neither does the whole table. */
  lemma CycleAdmitsNoRank(root: string, item: string, left: string, right: string, rank: map<string, nat>)
    requires root != item && root != left && root != right && item != left && item != right && left != right
    ensures var table := UnreachableCycleTable(root, item, left, right);
            && !RankedFrom(table, left, rank)
            && !RankedBy(table, rank)
  {
    var t := UnreachableCycleTable(root, item, left, right);
    assert |t| == 3 && t[0].0 == root && t[1].0 == left && t[2].0 == right;
    assert IndexOf(t, left) == 1 && IndexOf(t, right) == 2;
    assert Get(t, left) == [right] && Get(t, right) == [left];
    assert right in Get(t, left) && left in Get(t, right);
    if RankedBy(t, rank) {
      assert false;
    }
  }
}
