/** PercentileMapperCachingProxy: a percentile mapper that loads each table
    through an inner mapper once and serves later requests from a cache keyed
    by the running assembly's full name followed by the table name. */
module PercentileMappers {

  import opened PercentileSelector

  /** The cache key: the assembly's full name, then the table name, with no separator. */
  function CacheKey(assemblyName: string, tableName: string): (key: string)
    ensures |key| == |assemblyName| + |tableName|
    ensures key[..|assemblyName|] == assemblyName && key[|assemblyName|..] == tableName
  {
    assemblyName + tableName
  }

  /** Within one assembly, different tables never share a key. */
  lemma CacheKeyInjectiveForAssembly(assemblyName: string, t1: string, t2: string)
    requires CacheKey(assemblyName, t1) == CacheKey(assemblyName, t2)
    ensures t1 == t2
  {
    assert t1 == CacheKey(assemblyName, t1)[|assemblyName|..];
  }

  /** Across assemblies the key is ambiguous: ("ab", "c") and ("a", "bc") share it. */
  lemma CacheKeysOfDifferentPairsCollide()
    ensures ("ab", "c") != ("a", "bc") && CacheKey("ab", "c") == CacheKey("a", "bc")
  {
  }

  class PercentileMapperCachingProxy {

    /** The wrapped mapper, seen as the table it maps each table name to. */
    const innerMapper: string -> PercentileTable
    var cachedTables: map<string, PercentileTable>

    /** Keys loaded through the inner mapper, in order, and the table name each was loaded for. */
    ghost var loadLog: seq<string>
    ghost var sources: map<string, string>

    /** Every cached key was loaded exactly once, and holds what the inner
        mapper gave for its table name. */
    ghost predicate Valid()
      reads this
    {
      && (forall i, j :: 0 <= i < j < |loadLog| ==> loadLog[i] != loadLog[j])
      && (forall k :: k in cachedTables <==> k in loadLog)
      && sources.Keys == cachedTables.Keys
      && (forall k :: k in cachedTables ==> cachedTables[k] == innerMapper(sources[k]))
    }

    constructor (innerMapper: string -> PercentileTable)
      ensures Valid()
      ensures this.innerMapper == innerMapper
      ensures cachedTables == map[] && loadLog == []
    {
      this.innerMapper := innerMapper;
      cachedTables := map[];
      loadLog := [];
      sources := map[];
    }

    /** How many times the inner mapper was asked for the table under `key`: never more than once. */
    ghost function LoadCount(key: string): (n: nat)
      reads this
      requires Valid()
      ensures n <= 1
      ensures n == 1 <==> key in cachedTables
    {
      LoadedOnce(loadLog, key);
      multiset(loadLog)[key]
    }

    /** Map(tableName): load the table through the inner mapper when its key is
        not cached yet, then return the cached table. */
    method Map(assemblyName: string, tableName: string) returns (table: PercentileTable)
      requires Valid()
      modifies this
      ensures Valid()
      ensures var key := CacheKey(assemblyName, tableName);
              && key in cachedTables && table == cachedTables[key]
              && table == innerMapper(sources[key])
      ensures var key := CacheKey(assemblyName, tableName);
              key in old(cachedTables) ==>
                cachedTables == old(cachedTables) && loadLog == old(loadLog) && sources == old(sources)
      ensures var key := CacheKey(assemblyName, tableName);
              key !in old(cachedTables) ==>
                && table == innerMapper(tableName)
                && cachedTables == old(cachedTables)[key := table]
                && loadLog == old(loadLog) + [key]
                && sources == old(sources)[key := tableName]
    {
      var key := CacheKey(assemblyName, tableName);
      if key !in cachedTables {
        var mappedTable := innerMapper(tableName);
        cachedTables := cachedTables[key := mappedTable];
        loadLog := loadLog + [key];
        sources := sources[key := tableName];
      }
      table := cachedTables[key];
    }
  }

  /** A sequence without repeats holds each element at most once. */
  lemma {:induction false} LoadedOnce(log: seq<string>, key: string)
    requires forall i, j :: 0 <= i < j < |log| ==> log[i] != log[j]
    ensures multiset(log)[key] == if key in log then 1 else 0
  {
    if |log| > 0 {
      var front := log[..|log| - 1];
      LoadedOnce(front, key);
      assert log == front + [log[|log| - 1]];
      assert multiset(log) == multiset(front) + multiset{log[|log| - 1]};
    }
  }

  /** Mapping the same table twice gives the same table and loads it at most once. */
  method MapTwice(proxy: PercentileMapperCachingProxy, assemblyName: string, tableName: string)
    returns (first: PercentileTable, second: PercentileTable)
    requires proxy.Valid()
    modifies proxy
    ensures proxy.Valid()
    ensures first == second
    ensures |proxy.loadLog| <= |old(proxy.loadLog)| + 1
    ensures proxy.LoadCount(CacheKey(assemblyName, tableName)) == 1
  {
    first := proxy.Map(assemblyName, tableName);
    second := proxy.Map(assemblyName, tableName);
  }

  /** Two (assembly, table) pairs whose concatenations agree are served the same
      cached table, loaded for whichever table name came first. */
  method MapSameKey(proxy: PercentileMapperCachingProxy, a1: string, t1: string, a2: string, t2: string)
    returns (first: PercentileTable, second: PercentileTable)
    requires proxy.Valid()
    requires CacheKey(a1, t1) == CacheKey(a2, t2)
    requires CacheKey(a1, t1) !in proxy.cachedTables
    modifies proxy
    ensures proxy.Valid()
    ensures first == second == proxy.innerMapper(t1)
    ensures proxy.loadLog == old(proxy.loadLog) + [CacheKey(a1, t1)]
  {
    first := proxy.Map(a1, t1);
    second := proxy.Map(a2, t2);
  }
}
