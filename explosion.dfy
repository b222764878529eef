/** CollectionSelector's explosion of a collection: every entry that names
    another collection of the same table is replaced, recursively, by that
    collection's explosion; any other entry (including the collection's own
    name) is kept as it is. */
module Explosion {

  import opened Results
  import opened Dictionaries
  import opened CollectionSelector

  /** What one explosion gathers: every item in order, and the set of them. */
  datatype Explosion = Explosion(items: seq<string>, unique: set<string>)

  /** `rank` orders the collections the explosion of `name` reaches: every
      entry of a reached collection that names another collection names one
      of lower rank, and that one is ranked in turn. Collections the explosion
      never reaches need no rank, so a cycle among them does not matter; a
      cycle through two or more reached collections admits no rank, and
      there the C# code's recursion never ends. */
  ghost predicate RankedFrom(table: Table, name: string, rank: map<string, nat>)
    decreases if name in rank then rank[name] else 0
  {
    && name in rank
    && (ContainsKey(table, name) ==>
          forall e :: e in Get(table, name) && Expands(table, name, e) ==>
            e in rank && rank[e] < rank[name] && RankedFrom(table, e, rank))
  }

  /** `rank` orders every collection of the table the same way; a sufficient
      condition for RankedFrom, which is easier to state for a given table. */
  ghost predicate RankedBy(table: Table, rank: map<string, nat>)
  {
    && (forall i :: 0 <= i < |table| ==> table[i].0 in rank)
    && (forall i, j ::
          (0 <= i < |table| && 0 <= j < |table[i].1| && ContainsKey(table, table[i].1[j]) && table[i].1[j] != table[i].0)
          ==> table[i].1[j] in rank && rank[table[i].1[j]] < rank[table[i].0])
  }

  /** The entry `e` of the collection `owner` is replaced by its own explosion. */
  predicate Expands(table: Table, owner: string, e: string)
  {
    ContainsKey(table, e) && e != owner
  }

  /** Entries that the collection `owner` may expand all rank below it, and
      are ranked from in turn. */
  ghost predicate RanksBelow(table: Table, owner: string, entries: seq<string>, rank: map<string, nat>)
  {
    && owner in rank
    && forall j :: 0 <= j < |entries| && Expands(table, owner, entries[j]) ==>
         entries[j] in rank && rank[entries[j]] < rank[owner] && RankedFrom(table, entries[j], rank)
  }

  lemma CollectionRanksBelow(table: Table, name: string, rank: map<string, nat>)
    requires RankedFrom(table, name, rank)
    requires ContainsKey(table, name)
    ensures RanksBelow(table, name, Get(table, name), rank)
  {
    var entries := Get(table, name);
    forall j | 0 <= j < |entries| && Expands(table, name, entries[j])
      ensures entries[j] in rank && rank[entries[j]] < rank[name] && RankedFrom(table, entries[j], rank)
    {
      assert entries[j] in entries;
    }
  }

  /** A ranking of the whole table ranks the explosion of each of its collections. */
  lemma {:induction false} RankedByRanksFrom(table: Table, rank: map<string, nat>, name: string)
    requires RankedBy(table, rank)
    requires ContainsKey(table, name)
    ensures RankedFrom(table, name, rank)
    decreases if name in rank then rank[name] else 0
  {
    var i := IndexOf(table, name);
    assert table[i].0 == name;
    forall e | e in Get(table, name) && Expands(table, name, e)
      ensures e in rank && rank[e] < rank[name] && RankedFrom(table, e, rank)
    {
      var j :| 0 <= j < |table[i].1| && table[i].1[j] == e;
      RankedByRanksFrom(table, rank, e);
    }
  }

  /** The explosion of the collection `name`, as a list with duplicates. */
  ghost function Exploded(table: Table, name: string, rank: map<string, nat>): seq<string>
    requires RankedFrom(table, name, rank)
    requires ContainsKey(table, name)
    decreases rank[name], 1, 0
  {
    CollectionRanksBelow(table, name, rank);
    ExpandEntries(table, name, Get(table, name), rank)
  }

  /** The entries of `owner`'s collection, each expanded in turn. */
  ghost function ExpandEntries(table: Table, owner: string, entries: seq<string>, rank: map<string, nat>): seq<string>
    requires RanksBelow(table, owner, entries, rank)
    decreases rank[owner], 0, |entries|
  {
    if |entries| == 0 then []
    else
      var last := entries[|entries| - 1];
      ExpandEntries(table, owner, entries[..|entries| - 1], rank) +
        (if Expands(table, owner, last) then Exploded(table, last, rank) else [last])
  }

  /** ExplodeRecursive: the collection's lookup error, or the explosion of its
      entries, both as the list of all items and as their set. The C# code keeps
      both and returns one of them; which one only its flag decides. */
  method ExplodeRecursive(table: Table, tableName: string, collectionName: string, ghost rank: map<string, nat>)
    returns (r: Result<Explosion>)
    requires RankedFrom(table, collectionName, rank)
    ensures r.Success? <==> IsCollection(table, collectionName)
    ensures r.Failure? ==> r.message == NotACollectionMessage(tableName, collectionName)
    ensures r.Success? ==>
      && r.value.items == Exploded(table, collectionName, rank)
      && r.value.unique == Elements(r.value.items)
    decreases if collectionName in rank then rank[collectionName] else 0
  {
    var root := SelectFrom(table, tableName, collectionName);
    if root.Failure? {
      return Failure(root.message);
    }
    var entries := root.value;
    CollectionRanksBelow(table, collectionName, rank);
    var items: seq<string> := [];
    var unique: set<string> := {};
    var i := 0;
    while i < |entries|
      invariant 0 <= i <= |entries|
      invariant items == ExpandEntries(table, collectionName, entries[..i], rank)
      invariant unique == Elements(items)
    {
      var entry := entries[i];
      assert entries[..i + 1][..i] == entries[..i];
      if IsCollection(table, entry) && entry != collectionName {
        var sub := ExplodeRecursive(table, tableName, entry, rank);
        items := items + sub.value.items;
        unique := unique + sub.value.unique;
      } else {
        items := items + [entry];
        unique := unique + {entry};
      }
      i := i + 1;
    }
    assert entries[..i] == entries;
    return Success(Explosion(items, unique));
  }

  /** Explode: the distinct items of the explosion. */
  method Explode(table: Table, tableName: string, collectionName: string, ghost rank: map<string, nat>)
    returns (r: Result<set<string>>)
    requires RankedFrom(table, collectionName, rank)
    ensures r.Success? <==> IsCollection(table, collectionName)
    ensures r.Failure? ==> r.message == NotACollectionMessage(tableName, collectionName)
    ensures r.Success? ==> r.value == Elements(Exploded(table, collectionName, rank))
  {
    var exploded := ExplodeRecursive(table, tableName, collectionName, rank);
    if exploded.Failure? {
      return Failure(exploded.message);
    }
    return Success(exploded.value.unique);
  }

  /** ExplodeAndPreserveDuplicates: every item of the explosion, in order. */
  method ExplodeAndPreserveDuplicates(table: Table, tableName: string, collectionName: string, ghost rank: map<string, nat>)
    returns (r: Result<seq<string>>)
    requires RankedFrom(table, collectionName, rank)
    ensures r.Success? <==> IsCollection(table, collectionName)
    ensures r.Failure? ==> r.message == NotACollectionMessage(tableName, collectionName)
    ensures r.Success? ==> r.value == Exploded(table, collectionName, rank)
  {
    var exploded := ExplodeRecursive(table, tableName, collectionName, rank);
    if exploded.Failure? {
      return Failure(exploded.message);
    }
    return Success(exploded.value.items);
  }

  /** Appending one entry to a collection's list appends its expansion. */
  lemma ExpandEntriesSnoc(table: Table, owner: string, front: seq<string>, e: string, rank: map<string, nat>)
    requires RanksBelow(table, owner, front + [e], rank)
    ensures RanksBelow(table, owner, front, rank)
    ensures Expands(table, owner, e) ==> RankedFrom(table, e, rank)
    ensures ExpandEntries(table, owner, front + [e], rank) ==
      ExpandEntries(table, owner, front, rank) + (if Expands(table, owner, e) then Exploded(table, e, rank) else [e])
  {
    assert (front + [e])[..|front|] == front;
    assert (front + [e])[|front|] == e;
    assert forall j :: 0 <= j < |front| ==> front[j] == (front + [e])[j];
  }

  /** Entries that name no other collection are kept unchanged, in order. */
  lemma {:induction false} ExpandEntriesWithoutSubCollections(table: Table, owner: string, entries: seq<string>,
                                                            rank: map<string, nat>)
    requires RanksBelow(table, owner, entries, rank)
    requires forall j :: 0 <= j < |entries| ==> !Expands(table, owner, entries[j])
    ensures ExpandEntries(table, owner, entries, rank) == entries
  {
    if |entries| > 0 {
      ExpandEntriesWithoutSubCollections(table, owner, entries[..|entries| - 1], rank);
    }
  }

  /** A collection without sub-collections explodes to itself. */
  lemma ExplodedWithoutSubCollections(table: Table, name: string, rank: map<string, nat>)
    requires RankedFrom(table, name, rank)
    requires ContainsKey(table, name)
    requires forall j :: 0 <= j < |Get(table, name)| ==> !Expands(table, name, Get(table, name)[j])
    ensures Exploded(table, name, rank) == Get(table, name)
  {
    CollectionRanksBelow(table, name, rank);
    ExpandEntriesWithoutSubCollections(table, name, Get(table, name), rank);
  }

  /** One level of the explosion, both ways: an item comes either from an
      entry kept as it is or from the explosion of an entry naming another
      collection. */
  lemma {:induction false} InExpandEntries(table: Table, owner: string, entries: seq<string>,
                                         rank: map<string, nat>, x: string)
    requires RanksBelow(table, owner, entries, rank)
    ensures x in ExpandEntries(table, owner, entries, rank) <==>
      exists j :: 0 <= j < |entries| &&
        if Expands(table, owner, entries[j]) then x in Exploded(table, entries[j], rank) else x == entries[j]
  {
    if |entries| > 0 {
      var front := entries[..|entries| - 1];
      InExpandEntries(table, owner, front, rank, x);
      assert forall j :: 0 <= j < |front| ==> front[j] == entries[j];
    }
  }

  /** Every item of an explosion is either no collection at all, or a
      collection that lists itself among its own entries. */
  lemma {:induction false} ExplodedItems(table: Table, name: string, rank: map<string, nat>, x: string)
    requires RankedFrom(table, name, rank)
    requires ContainsKey(table, name)
    requires x in Exploded(table, name, rank)
    ensures !ContainsKey(table, x) || x in Get(table, x)
    decreases rank[name], 1, 0
  {
    CollectionRanksBelow(table, name, rank);
    ExpandedItems(table, name, Get(table, name), rank, x);
  }

  lemma {:induction false} ExpandedItems(table: Table, owner: string, entries: seq<string>,
                                       rank: map<string, nat>, x: string)
    requires RanksBelow(table, owner, entries, rank)
    requires ContainsKey(table, owner)
    requires |entries| <= |Get(table, owner)| && entries == Get(table, owner)[..|entries|]
    requires x in ExpandEntries(table, owner, entries, rank)
    ensures !ContainsKey(table, x) || x in Get(table, x)
    decreases rank[owner], 0, |entries|
  {
    var last := entries[|entries| - 1];
    var front := entries[..|entries| - 1];
    assert front == Get(table, owner)[..|front|];
    assert last == Get(table, owner)[|entries| - 1];
    if x in ExpandEntries(table, owner, front, rank) {
      ExpandedItems(table, owner, front, rank, x);
    } else if Expands(table, owner, last) {
      ExplodedItems(table, last, rank, x);
    } else {
      assert x == last;
    }
  }
}
