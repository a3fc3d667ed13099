/**
 * The pattern cache of the tab tracker. In the source it is a JavaScript
 * `Map` from canonical key to pattern record; a `Map` iterates in insertion
 * order, and both eviction rules depend on that order, so the cache is
 * modelled as the sequence of its entries in iteration order, with distinct
 * keys. The functions here are the specifications of the tracker's methods
 * that change the cache (EnhancedTabTracker in tab_tracker.dfy).
 */
module PatternCache {
  import opened Wrappers
  import opened UrlPatterns

  /** CONFIG.MAX_CACHE_SIZE */
  const MAX_CACHE_SIZE: nat := 1000
  /** CONFIG.CLEANUP_RETENTION_SIZE */
  const CLEANUP_RETENTION_SIZE: nat := 250

  /** One entry: the key, the pattern record and the `lastUsed` stamp the tracker adds to it. */
  datatype CacheSlot = CacheSlot(key: string, data: PatternData, lastUsed: int)

  type Cache = seq<CacheSlot>

  /** A Map holds each key at most once. */
  predicate KeysDistinct(c: Cache) {
    forall i, j :: 0 <= i < j < |c| ==> c[i].key != c[j].key
  }

  /** The position of `key` in iteration order; `|c|` when it is absent. */
  function IndexOf(c: Cache, key: string): (i: nat)
    ensures i <= |c|
    ensures i < |c| ==> c[i].key == key
    ensures forall j :: 0 <= j < i ==> c[j].key != key
  {
    if c == [] then 0
    else if c[0].key == key then 0
    else 1 + IndexOf(c[1..], key)
  }

  /** `Map.prototype.get`. */
  function Lookup(c: Cache, key: string): (r: Option<CacheSlot>)
    ensures r.Some? <==> exists i :: 0 <= i < |c| && c[i].key == key
    ensures r.Some? ==> r.value in c && r.value.key == key
  {
    var i := IndexOf(c, key);
    if i < |c| then Some(c[i]) else None
  }

  /** With distinct keys, the lookup of a key finds exactly the entry holding it. */
  lemma LookupByMembership(c: Cache, k: string, s: CacheSlot)
    requires KeysDistinct(c)
    ensures Lookup(c, k) == Some(s) <==> s in c && s.key == k
  {
    if s in c && s.key == k {
      var j :| 0 <= j < |c| && c[j] == s;
      var i := IndexOf(c, k);
      assert i <= j;
    }
  }

  /** `Map.prototype.set`: an existing key keeps its place, a new key goes last. */
  function Put(c: Cache, slot: CacheSlot): (r: Cache)
    requires KeysDistinct(c)
    ensures KeysDistinct(r)
    ensures |r| == if Lookup(c, slot.key).Some? then |c| else |c| + 1
    ensures slot in r
    ensures forall s <- r :: s == slot || s in c
    ensures forall s <- c :: s.key != slot.key ==> s in r
    ensures Lookup(c, slot.key).Some? ==> forall i :: 0 <= i < |c| ==> r[i] == (if c[i].key == slot.key then slot else c[i])
    ensures Lookup(c, slot.key).None? ==> r[..|c|] == c && r[|c|] == slot
  {
    var i := IndexOf(c, slot.key);
    if i < |c| then
      var r := c[i := slot];
      assert r[i] == slot && c[i].key == slot.key;
      assert forall s <- c :: s.key != slot.key ==> s in r by {
        forall s <- c | s.key != slot.key ensures s in r {
          var j :| 0 <= j < |c| && c[j] == s;
          assert r[j] == s;
        }
      }
      assert forall s <- r :: s == slot || s in c by {
        forall s <- r ensures s == slot || s in c {
          var j :| 0 <= j < |r| && r[j] == s;
          if j != i { assert c[j] == s; }
        }
      }
      assert KeysDistinct(r) by {
        forall a, b | 0 <= a < b < |r| ensures r[a].key != r[b].key {
          if a != i && b != i { assert r[a] == c[a] && r[b] == c[b]; }
        }
      }
      r
    else
      c + [slot]
  }

  /** After a set, the key maps to the new entry and every other key to what it did. */
  lemma PutLookup(c: Cache, slot: CacheSlot, k: string)
    requires KeysDistinct(c)
    ensures Lookup(Put(c, slot), slot.key) == Some(slot)
    ensures k != slot.key ==> Lookup(Put(c, slot), k) == Lookup(c, k)
  {
    var r := Put(c, slot);
    LookupByMembership(r, slot.key, slot);
    if k != slot.key {
      match Lookup(c, k)
      case Some(s) =>
        LookupByMembership(c, k, s);
        LookupByMembership(r, k, s);
      case None =>
        match Lookup(r, k)
        case Some(s) =>
          LookupByMembership(r, k, s);
          LookupByMembership(c, k, s);
        case None =>
    }
  }

  /**
   * The side effect of getCachedPattern: the entry for `key`, if any, gets
   * `lastUsed := now`; nothing else changes.
   */
  function Refresh(c: Cache, key: string, now: int): (r: Cache)
    ensures |r| == |c|
    ensures forall i :: 0 <= i < |c| ==> r[i].key == c[i].key && r[i].data == c[i].data
    ensures forall i :: 0 <= i < |c| ==> r[i].lastUsed == if c[i].key == key && i == IndexOf(c, key) then now else c[i].lastUsed
  {
    var i := IndexOf(c, key);
    if i < |c| then c[i := c[i].(lastUsed := now)] else c
  }

  /**
   * After a refresh the cache still holds each key once, the refreshed key
   * maps to its old entry stamped `now`, and every other key maps to what it did.
   */
  lemma RefreshLookup(c: Cache, key: string, now: int)
    requires KeysDistinct(c)
    ensures KeysDistinct(Refresh(c, key, now))
    ensures Lookup(Refresh(c, key, now), key) == match Lookup(c, key)
      case None => None
      case Some(s) => Some(s.(lastUsed := now))
    ensures forall k :: k != key ==> Lookup(Refresh(c, key, now), k) == Lookup(c, k)
  {
    var r := Refresh(c, key, now);
    forall k ensures IndexOf(r, k) == IndexOf(c, k) {
      IndexOfSameKeys(c, r, k);
    }
  }

  /** IndexOf depends only on the keys. */
  lemma {:induction false} IndexOfSameKeys(c: Cache, d: Cache, k: string)
    requires |c| == |d| && forall i :: 0 <= i < |c| ==> c[i].key == d[i].key
    ensures IndexOf(c, k) == IndexOf(d, k)
  {
    if c != [] && c[0].key != k {
      IndexOfSameKeys(c[1..], d[1..], k);
    }
  }

  // ---------------------------------------------------------------------------
  // `entries.sort((a, b) => b[1].lastUsed - a[1].lastUsed)`: a stable sort,
  // most recently used first.

  predicate SortedByRecency(s: Cache) {
    forall i, j :: 0 <= i < j < |s| ==> s[i].lastUsed >= s[j].lastUsed
  }

  /** Inserts `x` after every entry used at least as recently (keeps the sort stable). */
  function InsertByRecency(sorted: Cache, x: CacheSlot): Cache {
    if sorted == [] then [x]
    else if sorted[0].lastUsed < x.lastUsed then [x] + sorted
    else [sorted[0]] + InsertByRecency(sorted[1..], x)
  }

  function SortByRecency(c: Cache): Cache {
    if c == [] then [] else InsertByRecency(SortByRecency(c[..|c| - 1]), c[|c| - 1])
  }

  lemma {:induction false} InsertByRecencyPermutes(sorted: Cache, x: CacheSlot)
    ensures multiset(InsertByRecency(sorted, x)) == multiset(sorted) + multiset{x}
  {
    if sorted != [] && sorted[0].lastUsed >= x.lastUsed {
      InsertByRecencyPermutes(sorted[1..], x);
      assert sorted == [sorted[0]] + sorted[1..];
    }
  }

  lemma {:induction false} InsertByRecencySorted(sorted: Cache, x: CacheSlot)
    requires SortedByRecency(sorted)
    ensures SortedByRecency(InsertByRecency(sorted, x))
  {
    if sorted != [] && sorted[0].lastUsed >= x.lastUsed {
      var rest := InsertByRecency(sorted[1..], x);
      var r := [sorted[0]] + rest;
      InsertByRecencySorted(sorted[1..], x);
      InsertByRecencyMembers(sorted[1..], x);
      forall i, j | 0 <= i < j < |r| ensures r[i].lastUsed >= r[j].lastUsed {
        var s := rest[j - 1];
        assert r[j] == s;
        if i == 0 {
          assert s == x || s in sorted[1..];
        } else {
          assert r[i] == rest[i - 1];
        }
      }
      assert InsertByRecency(sorted, x) == r;
    }
  }

  /** Every entry of the insertion's result is the inserted one or an old one. */
  lemma InsertByRecencyMembers(sorted: Cache, x: CacheSlot)
    ensures forall s <- InsertByRecency(sorted, x) :: s == x || s in sorted
  {
    InsertByRecencyPermutes(sorted, x);
    forall s <- InsertByRecency(sorted, x) ensures s == x || s in sorted {
      assert s in multiset(InsertByRecency(sorted, x));
    }
  }

  lemma {:induction false} InsertByRecencyKeysDistinct(sorted: Cache, x: CacheSlot)
    requires KeysDistinct(sorted) && forall s <- sorted :: s.key != x.key
    ensures KeysDistinct(InsertByRecency(sorted, x))
  {
    if sorted != [] && sorted[0].lastUsed >= x.lastUsed {
      var rest := InsertByRecency(sorted[1..], x);
      InsertByRecencyKeysDistinct(sorted[1..], x);
      InsertByRecencyMembers(sorted[1..], x);
      forall s <- rest ensures s.key != sorted[0].key {
        assert s == x || s in sorted[1..];
      }
      assert InsertByRecency(sorted, x) == [sorted[0]] + rest;
    }
  }

  /** The sort returns a permutation of its input, most recently used first. */
  lemma SortByRecencyCorrect(c: Cache)
    ensures SortedByRecency(SortByRecency(c))
    ensures multiset(SortByRecency(c)) == multiset(c)
    ensures |SortByRecency(c)| == |c|
    ensures KeysDistinct(c) ==> KeysDistinct(SortByRecency(c))
  {
    SortByRecencyPermutes(c);
    SortByRecencySorted(c);
    if KeysDistinct(c) {
      SortByRecencyKeysDistinct(c);
    }
  }

  lemma {:induction false} SortByRecencyPermutes(c: Cache)
    ensures multiset(SortByRecency(c)) == multiset(c)
    ensures |SortByRecency(c)| == |c|
  {
    if c != [] {
      var init, last := c[..|c| - 1], c[|c| - 1];
      SortByRecencyPermutes(init);
      InsertByRecencyPermutes(SortByRecency(init), last);
      assert c == init + [last];
      assert |multiset(SortByRecency(c))| == |multiset(c)|;
    }
  }

  lemma {:induction false} SortByRecencySorted(c: Cache)
    ensures SortedByRecency(SortByRecency(c))
  {
    if c != [] {
      SortByRecencySorted(c[..|c| - 1]);
      InsertByRecencySorted(SortByRecency(c[..|c| - 1]), c[|c| - 1]);
    }
  }

  lemma {:induction false} SortByRecencyKeysDistinct(c: Cache)
    requires KeysDistinct(c)
    ensures KeysDistinct(SortByRecency(c))
  {
    if c != [] {
      var init, last := c[..|c| - 1], c[|c| - 1];
      SortByRecencyKeysDistinct(init);
      SortByRecencyPermutes(init);
      forall s <- SortByRecency(init) ensures s.key != last.key {
        assert s in multiset(init);
      }
      InsertByRecencyKeysDistinct(SortByRecency(init), last);
    }
  }

  /** The entries stamped `t`, in order. */
  function WithStamp(s: Cache, t: int): Cache {
    if s == [] then [] else (if s[0].lastUsed == t then [s[0]] else []) + WithStamp(s[1..], t)
  }

  lemma {:induction false} WithStampAppend(a: Cache, b: Cache, t: int)
    ensures WithStamp(a + b, t) == WithStamp(a, t) + WithStamp(b, t)
  {
    if a == [] {
      assert a + b == b;
    } else {
      var ab := a + b;
      assert ab[0] == a[0] && ab[1..] == a[1..] + b;
      WithStampAppend(a[1..], b, t);
      var head := if a[0].lastUsed == t then [a[0]] else [];
      assert WithStamp(ab, t) == head + (WithStamp(a[1..], t) + WithStamp(b, t));
    }
  }

  lemma {:induction false} WithStampNone(s: Cache, t: int)
    requires forall e <- s :: e.lastUsed != t
    ensures WithStamp(s, t) == []
  {
    if s != [] {
      assert s[0] in s;
      WithStampNone(s[1..], t);
    }
  }

  /** Inserting into a sorted cache puts `x` after every entry with its stamp. */
  lemma {:induction false} InsertByRecencyStable(sorted: Cache, x: CacheSlot, t: int)
    requires SortedByRecency(sorted)
    ensures WithStamp(InsertByRecency(sorted, x), t) == WithStamp(sorted, t) + (if x.lastUsed == t then [x] else [])
  {
    if sorted == [] {
    } else if sorted[0].lastUsed < x.lastUsed {
      if x.lastUsed == t {
        forall e <- sorted ensures e.lastUsed != t {
          var i :| 0 <= i < |sorted| && sorted[i] == e;
          assert sorted[0].lastUsed >= sorted[i].lastUsed;
        }
        WithStampNone(sorted, t);
      }
      assert ([x] + sorted)[1..] == sorted;
    } else {
      var rest := InsertByRecency(sorted[1..], x);
      InsertByRecencyStable(sorted[1..], x, t);
      var head := if sorted[0].lastUsed == t then [sorted[0]] else [];
      assert ([sorted[0]] + rest)[1..] == rest;
      assert WithStamp(sorted, t) == head + WithStamp(sorted[1..], t);
      assert WithStamp([sorted[0]] + rest, t) == head + WithStamp(rest, t);
    }
  }

  /**
   * The sort is stable: the entries sharing any one `lastUsed` stamp come out
   * in the order they went in.
   */
  lemma {:induction false} SortByRecencyStable(c: Cache, t: int)
    ensures WithStamp(SortByRecency(c), t) == WithStamp(c, t)
  {
    if c != [] {
      var init, last := c[..|c| - 1], c[|c| - 1];
      SortByRecencyStable(init, t);
      SortByRecencySorted(init);
      InsertByRecencyStable(SortByRecency(init), last, t);
      WithStampAppend(init, [last], t);
      assert c == init + [last];
    }
  }

  // ---------------------------------------------------------------------------
  // The two eviction rules

  /**
   * cachePattern: set the entry (stamped `now`); when that takes the cache
   * over MAX_CACHE_SIZE, keep the CLEANUP_RETENTION_SIZE most recently used.
   */
  function Store(c: Cache, key: string, data: PatternData, now: int): Cache
    requires KeysDistinct(c)
  {
    var entries := Put(c, CacheSlot(key, data, now));
    SortByRecencyCorrect(entries);
    if |entries| > MAX_CACHE_SIZE then SortByRecency(entries)[..CLEANUP_RETENTION_SIZE] else entries
  }

  /**
   * cleanup: when the cache holds more than MAX_CACHE_SIZE / 2 entries, keep
   * the CLEANUP_RETENTION_SIZE entries LAST in iteration order, whatever their
   * `lastUsed`.
   */
  function TrimToLatestInserted(c: Cache): (r: Cache)
    ensures |c| > MAX_CACHE_SIZE / 2 ==> |r| == CLEANUP_RETENTION_SIZE
    ensures |c| <= MAX_CACHE_SIZE / 2 ==> r == c
    ensures r == c[|c| - |r|..]
    ensures KeysDistinct(c) ==> KeysDistinct(r)
  {
    if |c| > MAX_CACHE_SIZE / 2 then c[|c| - CLEANUP_RETENTION_SIZE..] else c
  }

  /** After cachePattern the cache holds at most MAX_CACHE_SIZE entries, each key once. */
  lemma StoreBounded(c: Cache, key: string, data: PatternData, now: int)
    requires KeysDistinct(c)
    ensures KeysDistinct(Store(c, key, data, now))
    ensures |Store(c, key, data, now)| <= MAX_CACHE_SIZE
  {
    var entries := Put(c, CacheSlot(key, data, now));
    SortByRecencyCorrect(entries);
  }

  /**
   * Below the bound, cachePattern is a plain set: the key now maps to the
   * new record stamped `now`, and every other key maps to what it did.
   */
  lemma StoreWithoutOverflow(c: Cache, key: string, data: PatternData, now: int)
    requires KeysDistinct(c)
    requires |Put(c, CacheSlot(key, data, now))| <= MAX_CACHE_SIZE
    ensures Lookup(Store(c, key, data, now), key) == Some(CacheSlot(key, data, now))
    ensures forall k :: k != key ==> Lookup(Store(c, key, data, now), k) == Lookup(c, k)
  {
    PutLookup(c, CacheSlot(key, data, now), key);
    forall k | k != key ensures Lookup(Store(c, key, data, now), k) == Lookup(c, k) {
      PutLookup(c, CacheSlot(key, data, now), k);
    }
  }

  /**
   * When the insertion overflows the cache, exactly CLEANUP_RETENTION_SIZE
   * entries remain, all taken from the cache as it was after the insertion,
   * and no dropped entry was used more recently than any kept one.
   */
  lemma {:induction false} StoreOverflowKeepsMostRecent(c: Cache, key: string, data: PatternData, now: int)
    requires KeysDistinct(c)
    requires |Put(c, CacheSlot(key, data, now))| > MAX_CACHE_SIZE
    ensures |Store(c, key, data, now)| == CLEANUP_RETENTION_SIZE
    ensures forall s <- Store(c, key, data, now) :: s in Put(c, CacheSlot(key, data, now))
    ensures forall x <- Put(c, CacheSlot(key, data, now)), y <- Store(c, key, data, now) ::
      x !in Store(c, key, data, now) ==> x.lastUsed <= y.lastUsed
  {
    var entries := Put(c, CacheSlot(key, data, now));
    var sorted := SortByRecency(entries);
    SortByRecencyCorrect(entries);
    var kept := sorted[..CLEANUP_RETENTION_SIZE];
    assert Store(c, key, data, now) == kept;
    forall s <- kept ensures s in entries {
      assert s in multiset(sorted);
    }
    forall x <- entries, y <- kept | x !in kept ensures x.lastUsed <= y.lastUsed {
      assert x in multiset(sorted);
      var j :| 0 <= j < |sorted| && sorted[j] == x;
      var i :| 0 <= i < |kept| && kept[i] == y;
      assert j >= CLEANUP_RETENTION_SIZE;
    }
  }

  /**
   * With a clock that has moved on since every stored stamp, the entry just
   * stored survives even an overflow: it is the most recently used.
   */
  lemma {:induction false} StoreKeepsNewest(c: Cache, key: string, data: PatternData, now: int)
    requires KeysDistinct(c)
    requires forall s <- c :: s.lastUsed < now
    ensures Lookup(Store(c, key, data, now), key) == Some(CacheSlot(key, data, now))
  {
    var slot := CacheSlot(key, data, now);
    var entries := Put(c, slot);
    if |entries| > MAX_CACHE_SIZE {
      var sorted := SortByRecency(entries);
      SortByRecencyCorrect(entries);
      assert slot in multiset(sorted);
      var j :| 0 <= j < |sorted| && sorted[j] == slot;
      assert sorted[0] in multiset(entries);
      assert sorted[0].lastUsed >= now;
      assert sorted[0] == slot;
      var kept := sorted[..CLEANUP_RETENTION_SIZE];
      assert kept[0] == slot;
      LookupByMembership(kept, key, slot);
    } else {
      PutLookup(c, slot, key);
    }
  }
}
