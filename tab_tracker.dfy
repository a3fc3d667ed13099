/**
 * EnhancedTabTracker: the engine's mutable bookkeeping. Two id sets (tabs
 * being closed, tabs being handled), two timestamp maps and the pattern
 * cache, each updated in place by the methods below. `Date.now()` is the
 * `now` parameter; the periodic `setInterval(cleanup)` is reduced to a flag
 * saying whether it is armed.
 */
module Tracker {
  import opened Wrappers
  import opened UrlPatterns
  import opened PatternCache
  import opened Tabs

  /** CONFIG.COMPLETION_TIMEOUT: timestamps older than five minutes are dropped by cleanup. */
  const COMPLETION_TIMEOUT: int := 300000

  /** The entries of `m` that a cleanup with this cutoff keeps: those stamped at or after it. */
  function Retained(m: map<int, int>, cutoff: int): (r: map<int, int>)
    ensures forall id :: id in r <==> id in m && m[id] >= cutoff
    ensures forall id <- r :: r[id] == m[id]
  {
    map id | id in m && m[id] >= cutoff :: m[id]
  }

  /** A map that keeps exactly the unexpired entries, unchanged, is the retained map. */
  lemma RetainedExactly(m: map<int, int>, cutoff: int, r: map<int, int>)
    requires r.Keys <= m.Keys
    requires forall id <- r :: r[id] == m[id] && r[id] >= cutoff
    requires forall id <- m :: m[id] >= cutoff ==> id in r
    ensures r == Retained(m, cutoff)
  {
    var k := Retained(m, cutoff);
    forall id ensures id in r <==> id in k {
      if id in r {
        assert r[id] == m[id];
      }
    }
    assert r.Keys == k.Keys;
    assert forall id <- r :: r[id] == k[id];
  }

  /** A non-empty set has an element to visit next. */
  lemma NonEmptyHasElement(s: set<int>)
    requires s != {}
    ensures exists id :: id in s
  {
    if forall id :: id !in s {
      assert false;
    }
  }

  /**
   * One of cleanup's two loops: walk the map and delete every entry stamped
   * before the cutoff. Deleting the entry just visited does not disturb a
   * Map iteration, so visiting the keys in any order gives the same result.
   */
  method DropExpired(m: map<int, int>, cutoff: int) returns (r: map<int, int>)
    ensures r.Keys <= m.Keys
    ensures forall id <- r :: r[id] == m[id] && r[id] >= cutoff
    ensures forall id <- m :: m[id] >= cutoff ==> id in r
  {
    r := m;
    var toVisit := m.Keys;
    while toVisit != {}
      invariant toVisit <= m.Keys
      invariant r.Keys <= m.Keys
      invariant forall id <- r :: r[id] == m[id]
      invariant forall id <- m :: id !in toVisit && m[id] < cutoff ==> id !in r
      invariant forall id <- m :: id in toVisit || m[id] >= cutoff ==> id in r
      decreases toVisit
    {
      NonEmptyHasElement(toVisit);
      var id :| id in toVisit;
      if r[id] < cutoff {
        r := r - {id};
      }
      toVisit := toVisit - {id};
    }
  }

  class EnhancedTabTracker {
    /** Tabs this engine is closing; scans skip them. */
    var ignoredTabs: set<int>
    /** Tab id to the time its load last completed. */
    var completionTimes: map<int, int>
    /** Tabs whose duplicate handling is in progress. */
    var processingTabs: set<int>
    /** Tab id to the time it was created. */
    var creationTimes: map<int, int>
    /** The pattern cache, in iteration order. */
    var patternCache: Cache
    /** Whether the periodic cleanup timer is armed. */
    var cleanupScheduled: bool

    /** The cache is a Map (each key once) and never exceeds its bound. */
    ghost predicate Valid()
      reads this`patternCache
    {
      KeysDistinct(patternCache) && |patternCache| <= MAX_CACHE_SIZE
    }

    /** Both timestamp maps, as getCompletionTime reads them. */
    function Stamps(): Tabs.Stamps
      reads this`completionTimes, this`creationTimes
    {
      Tabs.Stamps(completionTimes, creationTimes)
    }

    constructor ()
      ensures Valid()
      ensures ignoredTabs == {} && processingTabs == {}
      ensures completionTimes == map[] && creationTimes == map[]
      ensures patternCache == [] && cleanupScheduled
    {
      ignoredTabs := {};
      completionTimes := map[];
      processingTabs := {};
      creationTimes := map[];
      patternCache := [];
      cleanupScheduled := true;
    }

    method Ignore(tabId: int)
      modifies this`ignoredTabs
      ensures ignoredTabs == old(ignoredTabs) + {tabId}
      ensures IsIgnored(tabId)
    {
      ignoredTabs := ignoredTabs + {tabId};
    }

    /** isIgnored: whether the tab is flagged as being closed by the engine. */
    predicate IsIgnored(tabId: int): (r: bool)
      reads this`ignoredTabs
      ensures r <==> tabId in ignoredTabs
    {
      tabId in ignoredTabs
    }

    /** isProcessing: whether a single-tab run for the tab is under way. */
    predicate IsProcessing(tabId: int): (r: bool)
      reads this`processingTabs
      ensures r <==> tabId in processingTabs
    {
      tabId in processingTabs
    }

    method SetProcessing(tabId: int, processing: bool)
      modifies this`processingTabs
      ensures processingTabs == if processing then old(processingTabs) + {tabId} else old(processingTabs) - {tabId}
      ensures IsProcessing(tabId) == processing
    {
      if processing {
        processingTabs := processingTabs + {tabId};
      } else {
        processingTabs := processingTabs - {tabId};
      }
    }

    method MarkCompleted(tabId: int, now: int)
      modifies this`completionTimes
      ensures completionTimes == old(completionTimes)[tabId := now]
      ensures Stamps().Of(tabId) == if now != 0 || tabId !in creationTimes then now else creationTimes[tabId]
    {
      completionTimes := completionTimes[tabId := now];
    }

    method MarkCreated(tabId: int, now: int)
      modifies this`creationTimes
      ensures creationTimes == old(creationTimes)[tabId := now]
    {
      creationTimes := creationTimes[tabId := now];
    }

    /** getCompletionTime: the completion stamp, else the creation stamp, else 0. */
    function GetCompletionTime(tabId: int): (t: int)
      reads this`completionTimes, this`creationTimes
      ensures tabId in completionTimes && completionTimes[tabId] != 0 ==> t == completionTimes[tabId]
      ensures t == 0 || t in completionTimes.Values || t in creationTimes.Values
    {
      Stamps().Of(tabId)
    }

    /**
     * cachePattern: a missing record is not cached; otherwise the record is
     * stamped `now` and stored under `key`, and an overflow keeps only the
     * most recently used entries.
     */
    method CachePattern(key: string, patternData: Option<PatternData>, now: int)
      requires Valid()
      modifies this`patternCache
      ensures Valid()
      ensures patternCache == if patternData.Some? then Store(old(patternCache), key, patternData.value, now) else old(patternCache)
    {
      if patternData.Some? {
        StoreBounded(patternCache, key, patternData.value, now);
        var entries := Put(patternCache, CacheSlot(key, patternData.value, now));
        if |entries| > MAX_CACHE_SIZE {
          SortByRecencyCorrect(entries);
          entries := SortByRecency(entries)[..CLEANUP_RETENTION_SIZE];
        }
        patternCache := entries;
      }
    }

    /**
     * getCachedPattern: the entry stored under `key`, if any, and its
     * `lastUsed` moves to `now`. The returned entry carries the new stamp,
     * since the source hands back the very object it updated.
     */
    method GetCachedPattern(key: string, now: int) returns (pattern: Option<CacheSlot>)
      requires Valid()
      modifies this`patternCache
      ensures Valid()
      ensures patternCache == Refresh(old(patternCache), key, now)
      ensures pattern == match Lookup(old(patternCache), key)
        case None => None
        case Some(s) => Some(s.(lastUsed := now))
      ensures pattern == Lookup(patternCache, key)
    {
      pattern := Lookup(patternCache, key);
      RefreshLookup(patternCache, key, now);
      if pattern.Some? {
        pattern := Some(pattern.value.(lastUsed := now));
      }
      patternCache := Refresh(patternCache, key, now);
    }

    /** The tab is gone: forget it everywhere except the pattern cache. */
    method Remove(tabId: int)
      modifies this`ignoredTabs, this`completionTimes, this`processingTabs, this`creationTimes
      ensures ignoredTabs == old(ignoredTabs) - {tabId}
      ensures completionTimes == old(completionTimes) - {tabId}
      ensures processingTabs == old(processingTabs) - {tabId}
      ensures creationTimes == old(creationTimes) - {tabId}
    {
      ignoredTabs := ignoredTabs - {tabId};
      completionTimes := completionTimes - {tabId};
      processingTabs := processingTabs - {tabId};
      creationTimes := creationTimes - {tabId};
    }

    /**
     * cleanup: drop timestamps older than COMPLETION_TIMEOUT, then, when the
     * cache holds more than half its bound, keep its CLEANUP_RETENTION_SIZE
     * most recently INSERTED entries.
     */
    method Cleanup(now: int)
      requires Valid()
      modifies this`completionTimes, this`creationTimes, this`patternCache
      ensures Valid()
      ensures completionTimes == Retained(old(completionTimes), now - COMPLETION_TIMEOUT)
      ensures creationTimes == Retained(old(creationTimes), now - COMPLETION_TIMEOUT)
      ensures patternCache == TrimToLatestInserted(old(patternCache))
    {
      var cutoff := now - COMPLETION_TIMEOUT;
      var oldCompletion, oldCreation := completionTimes, creationTimes;
      completionTimes := DropExpired(completionTimes, cutoff);
      RetainedExactly(oldCompletion, cutoff, completionTimes);
      creationTimes := DropExpired(creationTimes, cutoff);
      RetainedExactly(oldCreation, cutoff, creationTimes);
      if |patternCache| > MAX_CACHE_SIZE / 2 {
        patternCache := patternCache[|patternCache| - CLEANUP_RETENTION_SIZE..];
      }
    }

    /** destroy: stop the timer and empty every collection. */
    method Destroy()
      modifies this
      ensures Valid()
      ensures ignoredTabs == {} && processingTabs == {}
      ensures completionTimes == map[] && creationTimes == map[]
      ensures patternCache == [] && !cleanupScheduled
    {
      cleanupScheduled := false;
      ignoredTabs := {};
      completionTimes := map[];
      processingTabs := {};
      creationTimes := map[];
      patternCache := [];
    }
  }
}
