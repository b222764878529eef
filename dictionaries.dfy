/** A .NET Dictionary seen through its enumeration order: a sequence of
    (key, value) pairs. Lookups find the first pair with the key; a
    dictionary built by the runtime never holds a key twice (UniqueKeys). */
module Dictionaries {

  type Dict<K, V> = seq<(K, V)>

  /** Position of the first pair whose key is `k`, or -1 when there is none. */
  function IndexOf<K(==), V>(d: Dict<K, V>, k: K): (i: int)
    ensures -1 <= i < |d|
    ensures 0 <= i ==> d[i].0 == k && forall j :: 0 <= j < i ==> d[j].0 != k
    ensures i < 0 ==> forall j :: 0 <= j < |d| ==> d[j].0 != k
  {
    if d == [] then -1
    else if d[0].0 == k then 0
    else
      var j := IndexOf(d[1..], k);
      if j < 0 then -1 else j + 1
  }

  /** Dictionary.ContainsKey. */
  predicate ContainsKey<K(==), V>(d: Dict<K, V>, k: K)
  {
    0 <= IndexOf(d, k)
  }

  /** The indexer d[k], defined only for a present key. */
  function Get<K(==), V>(d: Dict<K, V>, k: K): V
    requires ContainsKey(d, k)
  {
    d[IndexOf(d, k)].1
  }

  ghost predicate UniqueKeys<K, V>(d: Dict<K, V>)
  {
    forall i, j :: 0 <= i < j < |d| ==> d[i].0 != d[j].0
  }

  /** Dictionary.Values, in enumeration order. */
  function Values<K, V>(d: Dict<K, V>): (vs: seq<V>)
    ensures |vs| == |d|
    ensures forall i :: 0 <= i < |d| ==> vs[i] == d[i].1
  {
    seq(|d|, i requires 0 <= i < |d| => d[i].1)
  }

  /** In a dictionary with unique keys, looking up the key of any pair gives that pair's value. */
  lemma GetOfUniqueKey<K, V>(d: Dict<K, V>, i: int)
    requires UniqueKeys(d)
    requires 0 <= i < |d|
    ensures ContainsKey(d, d[i].0) && Get(d, d[i].0) == d[i].1
  {
    assert 0 <= IndexOf(d, d[i].0);
  }

  ghost predicate NoDuplicates<T>(s: seq<T>)
  {
    forall i, j :: 0 <= i < j < |s| ==> s[i] != s[j]
  }

  ghost function Elements<T>(s: seq<T>): set<T>
  {
    set x | x in s
  }

  /** Enumerable.Distinct: the first occurrence of every element, in order. */
  function Distinct<T(==)>(s: seq<T>): (r: seq<T>)
    ensures NoDuplicates(r)
    ensures forall i :: 0 <= i < |r| ==> r[i] in s
    ensures forall i :: 0 <= i < |s| ==> s[i] in r
    ensures |r| <= |s|
  {
    if s == [] then []
    else
      var front := Distinct(s[..|s| - 1]);
      var last := s[|s| - 1];
      assert s == s[..|s| - 1] + [last];
      if last in front then front else front + [last]
  }

  /** Position of the first occurrence of `x` in `s`. */
  function Position<T(==)>(s: seq<T>, x: T): (i: nat)
    requires x in s
    ensures i < |s| && s[i] == x && forall j :: 0 <= j < i ==> s[j] != x
  {
    if s[0] == x then 0 else 1 + Position(s[1..], x)
  }

  /** Every element of `r` occurs in `s`, and earlier in `r` means first occurring earlier in `s`. */
  ghost predicate InFirstOccurrenceOrder<T>(s: seq<T>, r: seq<T>)
  {
    && (forall i :: 0 <= i < |r| ==> r[i] in s)
    && forall i, j :: 0 <= i < j < |r| && r[i] in s && r[j] in s ==> Position(s, r[i]) < Position(s, r[j])
  }

  /** Distinct lists the elements in the order of their first occurrences. */
  lemma {:induction false} DistinctKeepsFirstOccurrenceOrder<T>(s: seq<T>)
    ensures InFirstOccurrenceOrder(s, Distinct(s))
  {
    if s != [] {
      var front := s[..|s| - 1];
      var last := s[|s| - 1];
      DistinctKeepsFirstOccurrenceOrder(front);
      var f := Distinct(front);
      var r := Distinct(s);
      assert s == front + [last];
      assert r == if last in f then f else f + [last];
      forall i, j | 0 <= i < j < |r|
        ensures Position(s, r[i]) < Position(s, r[j])
      {
        assert r[i] == f[i] && r[i] in front;
        PositionInPrefix(front, [last], r[i]);
        if j < |f| {
          assert r[j] == f[j] && r[j] in front;
          PositionInPrefix(front, [last], r[j]);
          assert f[i] in front && f[j] in front;
          assert Position(front, f[i]) < Position(front, f[j]);
        } else {
          assert r[j] == last && last !in front;
          assert Position(s, last) == |s| - 1;
          assert Position(front, r[i]) < |front|;
        }
      }
    }
  }

  lemma {:induction false} PositionInPrefix<T>(a: seq<T>, b: seq<T>, x: T)
    requires x in a
    ensures Position(a + b, x) == Position(a, x)
  {
    if a[0] != x {
      assert (a + b)[1..] == a[1..] + b;
      PositionInPrefix(a[1..], b, x);
    }
  }
}
