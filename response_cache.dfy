/**
 * The TTL response cache: a table from file name to the hosts that served
 * it, each entry stamped with an absolute expiration time, pruned lazily
 * from `Query` at most once per pruning interval after `lastPruning`.
 *
 * The clock (`time(NULL)`) is an explicit `now` parameter; the process-wide
 * instance and its mutex are not modelled.
 */
module ResponseCacheModel {
  import opened HostOrder

  /** Lifetime of every entry, `m_lifetime_seconds`: 15 minutes. */
  const LifetimeSeconds: int := 15 * 60

  /** `Prune` does nothing until this many seconds have passed since `lastPruning`. */
  const PruneIntervalSeconds: int := 60

  /**
   * A cached answer: its own copy of the host set and the instant at which
   * it stops being valid.  Immutable once made, so a value.
   */
  datatype CacheEntry = CacheEntry(filename: string, hosts: set<string>, expiration: int)
  {
    /** `CacheEntry::getSet`. */
    function GetSet(): set<string>
    {
      hosts
    }

    /** `CacheEntry::isValid`. */
    predicate IsValid(now: int)
    {
      now < expiration
    }
  }

  /**
   * An entry made at `stamped` is valid from then on for exactly the
   * lifetime, and is already invalid at its expiration instant.
   */
  lemma EntryLifetime(filename: string, hosts: set<string>, stamped: int, now: int)
    ensures CacheEntry(filename, hosts, stamped + LifetimeSeconds).IsValid(now) <==> now - stamped < 900
    ensures !CacheEntry(filename, hosts, stamped + LifetimeSeconds).IsValid(stamped + LifetimeSeconds)
  {
  }

  /** `f` has an entry in `m` that is still valid at `now`. */
  predicate Hit(m: map<string, CacheEntry>, f: string, now: int)
  {
    f in m && m[f].IsValid(now)
  }

  /** The table after a sweep at `now`: the entries still valid then. */
  function Sweep(m: map<string, CacheEntry>, now: int): map<string, CacheEntry>
  {
    map f | f in m && m[f].IsValid(now) :: m[f]
  }

  /**
   * What a sweep at `now` leaves, spelled out for readers of `Prune`'s
   * contract: exactly the entries valid at `now`, each as it was.  A second
   * sweep at the same instant changes nothing, and a later sweep keeps no
   * name that an earlier one dropped.
   */
  lemma SweepDropsExactlyExpired(m: map<string, CacheEntry>, now: int, later: int)
    ensures forall f :: f in Sweep(m, now) <==> Hit(m, f, now)
    ensures forall f :: f in Sweep(m, now) ==> Sweep(m, now)[f] == m[f]
    ensures Sweep(Sweep(m, now), now) == Sweep(m, now)
    ensures now <= later ==> Sweep(m, later).Keys <= Sweep(m, now).Keys
  {
  }

  /**
   * The requested names that `Query` sends back for resolution: those
   * absent from `m` or expired at `now`, in request order.
   */
  function Misses(m: map<string, CacheEntry>, files: seq<string>, now: int): (r: seq<string>)
    ensures |r| <= |files|
    ensures forall f :: f in r <==> f in files && !Hit(m, f, now)
    decreases |files|
  {
    if files == [] then []
    else
      var last := files[|files| - 1];
      var init := Misses(m, files[..|files| - 1], now);
      assert files == files[..|files| - 1] + [last];
      if Hit(m, last, now) then init else init + [last]
  }

  /** The union of the host sets of every requested name with a valid entry. */
  function HitHosts(m: map<string, CacheEntry>, files: seq<string>, now: int): (r: set<string>)
    ensures forall h :: h in r <==> exists f :: f in files && Hit(m, f, now) && h in m[f].hosts
    decreases |files|
  {
    if files == [] then {}
    else
      var last := files[|files| - 1];
      var init := HitHosts(m, files[..|files| - 1], now);
      assert files == files[..|files| - 1] + [last];
      if Hit(m, last, now) then init + m[last].hosts else init
  }

  /** Misses distributes over concatenation: the order of the request is kept. */
  lemma {:induction false} MissesAppend(m: map<string, CacheEntry>, a: seq<string>, b: seq<string>, now: int)
    ensures Misses(m, a + b, now) == Misses(m, a, now) + Misses(m, b, now)
    decreases |b|
  {
    if b != [] {
      var b' := b[..|b| - 1];
      assert (a + b)[..|a + b| - 1] == a + b';
      MissesAppend(m, a, b', now);
    } else {
      assert a + b == a;
    }
  }

  /**
   * Every requested name is either a hit, whose hosts all reach the result,
   * or a miss sent back for resolution; never both.
   */
  lemma RequestPartition(m: map<string, CacheEntry>, files: seq<string>, now: int, f: string)
    requires f in files
    ensures f in Misses(m, files, now) <==> !Hit(m, f, now)
    ensures Hit(m, f, now) ==> m[f].hosts <= HitHosts(m, files, now)
  {
  }

  /**
   * Sweeping at `now` is invisible to a lookup at the same `now`: it only
   * drops entries that would have been reported as misses anyway.
   */
  lemma {:induction false} SweepInvisibleToLookup(m: map<string, CacheEntry>, files: seq<string>, now: int)
    ensures Misses(Sweep(m, now), files, now) == Misses(m, files, now)
    ensures HitHosts(Sweep(m, now), files, now) == HitHosts(m, files, now)
    decreases |files|
  {
    if files != [] {
      SweepInvisibleToLookup(m, files[..|files| - 1], now);
      var last := files[|files| - 1];
      assert Hit(Sweep(m, now), last, now) <==> Hit(m, last, now);
    }
  }

  /** How `Misses` and `HitHosts` grow when the lookup moves past `files[i]`. */
  lemma LookupStep(m: map<string, CacheEntry>, files: seq<string>, i: int, now: int)
    requires 0 <= i < |files|
    ensures Misses(m, files[..i + 1], now)
      == Misses(m, files[..i], now) + (if Hit(m, files[i], now) then [] else [files[i]])
    ensures HitHosts(m, files[..i + 1], now)
      == HitHosts(m, files[..i], now) + (if Hit(m, files[i], now) then m[files[i]].hosts else {})
  {
    assert files[..i + 1][..i] == files[..i];
  }

  /** A ClassAd list value, shared by pointer and extended in place; elements are host names. */
  class ExprList {
    var items: seq<string>

    constructor ()
      ensures items == []
    {
      items := [];
    }
  }

  class ResponseCache {
    /** `m_response_map`: file name to its entry. */
    var responseMap: map<string, CacheEntry>
    /** `m_last_pruning`: set when the cache is made and never again. */
    var lastPruning: int

    /** A cache made at `now` is empty and counts its pruning interval from `now`. */
    constructor (now: int)
      ensures responseMap == map[]
      ensures lastPruning == now
    {
      responseMap := map[];
      lastPruning := now;
    }

    /**
     * Records that `filename` is served by `hosts` as of `now`, replacing
     * any earlier entry for it; every other entry stays as it was.
     */
    method Insert(filename: string, hosts: set<string>, now: int)
      modifies this
      ensures responseMap == old(responseMap)[filename := CacheEntry(filename, hosts, now + LifetimeSeconds)]
      ensures lastPruning == old(lastPruning)
    {
      var entry := CacheEntry(filename, hosts, now + LifetimeSeconds);
      responseMap := responseMap[filename := entry];
    }

    /**
     * Within the pruning interval after `lastPruning` nothing happens;
     * otherwise every entry invalid at `now` is removed and every valid
     * one kept.  `lastPruning` itself is never moved.
     */
    method Prune(now: int)
      modifies this
      ensures lastPruning == old(lastPruning)
      ensures now - lastPruning < PruneIntervalSeconds ==> responseMap == old(responseMap)
      ensures now - lastPruning >= PruneIntervalSeconds ==> responseMap == Sweep(old(responseMap), now)
    {
      if now - lastPruning < PruneIntervalSeconds {
        return;
      }
      ghost var before := responseMap;
      var unvisited := responseMap.Keys;
      while unvisited != {}
        invariant unvisited <= before.Keys
        invariant forall f :: f in responseMap <==> f in before && (f in unvisited || before[f].IsValid(now))
        invariant forall f :: f in responseMap ==> responseMap[f] == before[f]
        invariant lastPruning == old(lastPruning)
        decreases unvisited
      {
        var f :| f in unvisited;
        if !responseMap[f].IsValid(now) {
          responseMap := responseMap - {f};
        }
        unvisited := unvisited - {f};
      }
      assert responseMap == Sweep(before, now);
    }

    /**
     * Prunes at `now`, then answers `filenames` from the table: the sorted
     * union of the hosts of every valid entry, while every name absent or
     * expired is appended to `filesRemaining`, in request order.
     */
    method Query(filenames: seq<string>, filesRemaining: seq<string>, now: int)
      returns (list: ExprList, remaining: seq<string>)
      modifies this
      ensures fresh(list)
      ensures lastPruning == old(lastPruning)
      ensures now - lastPruning < PruneIntervalSeconds ==> responseMap == old(responseMap)
      ensures now - lastPruning >= PruneIntervalSeconds ==> responseMap == Sweep(old(responseMap), now)
      ensures remaining == filesRemaining + Misses(old(responseMap), filenames, now)
      ensures StrictlyAscending(list.items)
      ensures forall h :: h in list.items <==> h in HitHosts(old(responseMap), filenames, now)
      ensures |list.items| == |HitHosts(old(responseMap), filenames, now)|
    {
      Prune(now);
      var table := responseMap;
      var hosts: set<string> := {};
      remaining := filesRemaining;
      var i := 0;
      while i < |filenames|
        invariant 0 <= i <= |filenames|
        invariant remaining == filesRemaining + Misses(table, filenames[..i], now)
        invariant hosts == HitHosts(table, filenames[..i], now)
        invariant responseMap == table && lastPruning == old(lastPruning)
      {
        var f := filenames[i];
        LookupStep(table, filenames, i, now);
        if f !in table {
          remaining := remaining + [f];
        } else if !table[f].IsValid(now) {
          remaining := remaining + [f];
        } else {
          hosts := hosts + table[f].GetSet();
        }
        i := i + 1;
      }
      assert filenames[..i] == filenames;
      if now - lastPruning >= PruneIntervalSeconds {
        SweepInvisibleToLookup(old(responseMap), filenames, now);
      }
      list := GetList(hosts);
    }

    /** A new list holding each host once, in ascending order. */
    static method GetList(hosts: set<string>) returns (list: ExprList)
      ensures fresh(list)
      ensures StrictlyAscending(list.items)
      ensures forall h :: h in list.items <==> h in hosts
      ensures |list.items| == |hosts|
    {
      list := new ExprList();
      AddToList(hosts, list);
    }

    /**
     * Appends each host once, in ascending order, after what `list` already
     * holds, which stays in front untouched.
     */
    static method AddToList(hosts: set<string>, list: ExprList)
      modifies list
      ensures |list.items| == |old(list.items)| + |hosts|
      ensures list.items[..|old(list.items)|] == old(list.items)
      ensures StrictlyAscending(list.items[|old(list.items)|..])
      ensures forall h :: h in list.items[|old(list.items)|..] <==> h in hosts
    {
      ghost var prefix := list.items;
      var rest := hosts;
      while rest != {}
        invariant |prefix| <= |list.items|
        invariant list.items[..|prefix|] == prefix
        invariant StrictlyAscending(list.items[|prefix|..])
        invariant forall h :: h in hosts <==> h in list.items[|prefix|..] || h in rest
        invariant forall h :: h in list.items[|prefix|..] ==> h !in rest
        invariant forall i, h :: |prefix| <= i < |list.items| && h in rest ==> Less(list.items[i], h)
        decreases rest
      {
        var h := Least(rest);
        ghost var added := list.items[|prefix|..];
        list.items := list.items + [h];
        assert list.items[|prefix|..] == added + [h];
        rest := rest - {h};
      }
      AscendingLength(list.items[|prefix|..], hosts);
    }
  }

  /**
   * A name inserted at `stamped` and asked for while its entry lives is a
   * hit: nothing is sent back for resolution and the answer holds exactly
   * the inserted hosts, whatever else the table held.
   */
  method InsertThenQuery(cache: ResponseCache, f: string, hosts: set<string>, stamped: int, now: int)
      returns (list: ExprList, remaining: seq<string>)
    requires now < stamped + LifetimeSeconds
    modifies cache
    ensures remaining == []
    ensures StrictlyAscending(list.items)
    ensures forall h :: h in list.items <==> h in hosts
  {
    cache.Insert(f, hosts, stamped);
    list, remaining := cache.Query([f], [], now);
  }

  /**
   * Once its lifetime is over a name is sent back for resolution and
   * contributes no hosts, whether or not the query also pruned.
   */
  method InsertThenQueryExpired(cache: ResponseCache, f: string, hosts: set<string>, stamped: int, now: int)
      returns (list: ExprList, remaining: seq<string>)
    requires now >= stamped + LifetimeSeconds
    modifies cache
    ensures remaining == [f]
    ensures list.items == []
  {
    cache.Insert(f, hosts, stamped);
    list, remaining := cache.Query([f], [], now);
  }

  /** Inserting a name twice leaves only the second host set and stamp for it. */
  method InsertTwice(cache: ResponseCache, f: string, first: set<string>, second: set<string>, t1: int, t2: int)
    modifies cache
    ensures cache.responseMap == old(cache.responseMap)[f := CacheEntry(f, second, t2 + LifetimeSeconds)]
    ensures cache.responseMap[f].GetSet() == second
  {
    cache.Insert(f, first, t1);
    cache.Insert(f, second, t2);
  }

  /**
   * `lastPruning` never moves after construction, so once the first pruning
   * interval is over every query sweeps: two queries one second apart both
   * remove an entry that expired in between.
   */
  method SweepsOneSecondApart(start: int) returns (afterFirst: map<string, CacheEntry>, afterSecond: map<string, CacheEntry>)
    ensures afterFirst.Keys == {"b"}
    ensures afterSecond == map[]
  {
    var cache := new ResponseCache(start);
    cache.Insert("a", {"host1"}, start + 100);
    cache.Insert("b", {"host2"}, start + 101);
    var list, remaining := cache.Query([], [], start + 1000);
    afterFirst := cache.responseMap;
    list, remaining := cache.Query([], [], start + 1001);
    afterSecond := cache.responseMap;
  }
}
