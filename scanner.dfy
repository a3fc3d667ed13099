/**
 * The two duplicate searches of DuplicateTabManager, stated as functions of
 * their inputs: the single-tab search (findDuplicatesForSingleTab), which
 * tries the coarse host-query patterns one after another and stops at the
 * first that yields a match, and the bulk grouping (findAllDuplicates),
 * which buckets every eligible tab by its canonical key. The methods of
 * manager.dfy are proved against these.
 */
module Scanner {
  import opened Wrappers
  import opened UrlPatterns
  import opened Tabs

  // ---------------------------------------------------------------------------
  // Single-tab search

  /** What one single-tab search is looking for. */
  datatype Search = Search(parse: Parser, url: Option<string>, targetId: int, ignored: set<int>)

  /** The `filter` callback: another tab, not being closed, processable, and a duplicate of the URL. */
  predicate IsMatch(s: Search, t: Tab) {
    t.id != s.targetId &&
    t.id !in s.ignored &&
    ShouldProcessURL(s.parse, t.url) &&
    AreDuplicates(s.parse, s.url, t.url)
  }

  /** The filtered answer to one query: exactly the matching tabs, in the order the browser listed them. */
  function Matches(s: Search, tabs: seq<Tab>): (r: seq<Tab>)
    ensures forall t <- r :: t in tabs && IsMatch(s, t)
    ensures forall t <- tabs :: IsMatch(s, t) ==> t in r
    ensures |r| <= |tabs|
  {
    if tabs == [] then []
    else (if IsMatch(s, tabs[0]) then [tabs[0]] else []) + Matches(s, tabs[1..])
  }

  /** Matches as a function value: the filter applied to every query answer. */
  function MatchesOf(s: Search): seq<Tab> -> seq<Tab> {
    tabs => Matches(s, tabs)
  }

  /** The outcome of a sequential scan: the duplicates found and how many queries were issued. */
  datatype ScanOutcome = ScanOutcome(found: seq<Tab>, queried: nat)

  /**
   * Query the patterns in order, filter each answer, and stop at the first
   * whose filtered answer is non-empty. Nothing is found exactly when every
   * query was issued and came back without a match; otherwise the result is
   * the filtered answer of the last query issued, and every earlier query
   * matched nothing.
   */
  function FirstMatch(filter: seq<Tab> -> seq<Tab>, query: string -> seq<Tab>, patterns: seq<string>): (r: ScanOutcome)
    ensures r.queried <= |patterns|
    ensures r.found == [] <==>
      r.queried == |patterns| && forall j :: 0 <= j < |patterns| ==> filter(query(patterns[j])) == []
    ensures r.found != [] ==> 0 < r.queried && r.found == filter(query(patterns[r.queried - 1]))
    ensures forall j :: 0 <= j < r.queried - 1 ==> filter(query(patterns[j])) == []
  {
    if patterns == [] then ScanOutcome([], 0)
    else
      var m := filter(query(patterns[0]));
      if m != [] then ScanOutcome(m, 1)
      else
        var rest := FirstMatch(filter, query, patterns[1..]);
        ScanOutcome(rest.found, rest.queried + 1)
  }

  /**
   * The scan is determined by where the first matching pattern sits: at `k`,
   * the result is that pattern's matches after `k + 1` queries.
   */
  lemma FirstMatchAt(filter: seq<Tab> -> seq<Tab>, query: string -> seq<Tab>, patterns: seq<string>, k: nat)
    requires k < |patterns| && filter(query(patterns[k])) != []
    requires forall j :: 0 <= j < k ==> filter(query(patterns[j])) == []
    ensures FirstMatch(filter, query, patterns) == ScanOutcome(filter(query(patterns[k])), k + 1)
  {
    var r := FirstMatch(filter, query, patterns);
    assert r.found != [];
    assert !(r.queried - 1 < k);
    assert !(k < r.queried - 1);
  }

  // ---------------------------------------------------------------------------
  // Bulk grouping

  /**
   * The key findAllDuplicates files a tab under, or `None` when it skips the
   * tab: blank, browser-internal, being closed, not processable, or without
   * a key.
   */
  function BulkKey(parse: Parser, ignored: set<int>, t: Tab): Option<string> {
    if IsBlankURL(t.url) || IsBrowserURL(t.url) || t.id in ignored || !ShouldProcessURL(parse, t.url) then None
    else GetNormalizedKey(parse, t.url)
  }

  /** BulkKey as a function value, so that the grouping below can be stated once for any key. */
  function BulkKeyOf(parse: Parser, ignored: set<int>): Tab -> Option<string> {
    t => BulkKey(parse, ignored, t)
  }

  /** The tabs filed under `key`, in list order. */
  function TabsWithKey(keyOf: Tab -> Option<string>, tabs: seq<Tab>, key: string): (r: seq<Tab>)
    ensures forall t <- r :: t in tabs && keyOf(t) == Some(key)
    ensures forall t <- tabs :: keyOf(t) == Some(key) ==> t in r
    ensures |r| <= |tabs|
  {
    if tabs == [] then []
    else
      var last := tabs[|tabs| - 1];
      TabsWithKey(keyOf, tabs[..|tabs| - 1], key) + (if keyOf(last) == Some(key) then [last] else [])
  }

  /** One entry of the result map: a key and its tabs. */
  datatype Group = Group(key: string, tabs: seq<Tab>)

  predicate GroupKeysDistinct(groups: seq<Group>) {
    forall i, j :: 0 <= i < j < |groups| ==> groups[i].key != groups[j].key
  }

  /** The position of the first tab filed under `key`; `|tabs|` when there is none. */
  function FirstKeyAt(keyOf: Tab -> Option<string>, tabs: seq<Tab>, key: string): (i: nat)
    ensures i <= |tabs|
    ensures i < |tabs| ==> keyOf(tabs[i]) == Some(key)
    ensures forall j :: 0 <= j < i ==> keyOf(tabs[j]) != Some(key)
  {
    if tabs == [] then 0
    else if keyOf(tabs[0]) == Some(key) then 0
    else 1 + FirstKeyAt(keyOf, tabs[1..], key)
  }

  /**
   * The groups come in the order in which their keys first occur in the
   * list: the insertion order of the `Map` they are collected in.
   */
  predicate FirstSeenOrder(keyOf: Tab -> Option<string>, tabs: seq<Tab>, groups: seq<Group>) {
    forall i, j :: 0 <= i < j < |groups| ==> FirstKeyAt(keyOf, tabs, groups[i].key) < FirstKeyAt(keyOf, tabs, groups[j].key)
  }

  /** A key occurs in the list exactly when some tab is filed under it. */
  lemma FirstKeyAtPresent(keyOf: Tab -> Option<string>, tabs: seq<Tab>, key: string)
    ensures FirstKeyAt(keyOf, tabs, key) < |tabs| <==> TabsWithKey(keyOf, tabs, key) != []
  {
    var i := FirstKeyAt(keyOf, tabs, key);
    if i < |tabs| {
      assert tabs[i] in tabs;
    }
    if TabsWithKey(keyOf, tabs, key) != [] {
      var t := TabsWithKey(keyOf, tabs, key)[0];
      assert t in TabsWithKey(keyOf, tabs, key);
      var j :| 0 <= j < |tabs| && tabs[j] == t;
      assert keyOf(tabs[j]) == Some(key);
    }
  }

  /** Appending a tab moves no key's first occurrence. */
  lemma {:induction false} FirstKeyAtSnoc(keyOf: Tab -> Option<string>, prefix: seq<Tab>, tab: Tab, key: string)
    ensures FirstKeyAt(keyOf, prefix + [tab], key) ==
      if FirstKeyAt(keyOf, prefix, key) < |prefix| then FirstKeyAt(keyOf, prefix, key)
      else if keyOf(tab) == Some(key) then |prefix| else |prefix| + 1
  {
    var next := prefix + [tab];
    if prefix == [] {
      assert next == [tab] && next[1..] == [];
    } else {
      assert next[0] == prefix[0] && next[1..] == prefix[1..] + [tab];
      FirstKeyAtSnoc(keyOf, prefix[1..], tab, key);
    }
  }

  /** The bucket contents of `urlGroups` after the tabs of `prefix` were filed: one bucket (each key once) for every key some tab of the prefix has, holding those tabs in order. */
  ghost predicate BucketContents(keyOf: Tab -> Option<string>, prefix: seq<Tab>, buckets: seq<Group>) {
    GroupKeysDistinct(buckets) &&
    (forall g <- buckets :: g.tabs == TabsWithKey(keyOf, prefix, g.key) && |g.tabs| > 0) &&
    (forall k :: |TabsWithKey(keyOf, prefix, k)| > 0 ==> exists g <- buckets :: g.key == k)
  }

  /** `urlGroups` after the tabs of `prefix` were filed: the bucket contents, with the buckets in first-seen order. */
  ghost predicate BucketsOf(keyOf: Tab -> Option<string>, prefix: seq<Tab>, buckets: seq<Group>) {
    BucketContents(keyOf, prefix, buckets) && FirstSeenOrder(keyOf, prefix, buckets)
  }

  /** The position of `key` among the groups; `|groups|` when absent. */
  function GroupIndex(groups: seq<Group>, key: string): (i: nat)
    ensures i <= |groups|
    ensures i < |groups| ==> groups[i].key == key
    ensures i == |groups| ==> forall g <- groups :: g.key != key
  {
    if groups == [] then 0
    else if groups[0].key == key then 0
    else 1 + GroupIndex(groups[1..], key)
  }

  /** `urlGroups.get(key).push(tab)`, creating the bucket at the end if it is new. */
  function FileUnder(buckets: seq<Group>, key: string, tab: Tab): seq<Group> {
    var j := GroupIndex(buckets, key);
    if j == |buckets| then buckets + [Group(key, [tab])]
    else buckets[j := Group(key, buckets[j].tabs + [tab])]
  }

  /** Extending the list by one tab extends exactly the bucket of that tab's key. */
  lemma TabsWithKeySnoc(keyOf: Tab -> Option<string>, prefix: seq<Tab>, tab: Tab, k: string)
    ensures TabsWithKey(keyOf, prefix + [tab], k) ==
      TabsWithKey(keyOf, prefix, k) + (if keyOf(tab) == Some(k) then [tab] else [])
  {
    assert (prefix + [tab])[..|prefix|] == prefix;
  }

  /** Filing the next tab under its key keeps the buckets exact for the longer prefix. */
  lemma FileUnderKeepsBuckets(keyOf: Tab -> Option<string>, prefix: seq<Tab>, buckets: seq<Group>, tab: Tab)
    requires BucketsOf(keyOf, prefix, buckets)
    ensures BucketsOf(keyOf, prefix + [tab], if keyOf(tab).Some? then FileUnder(buckets, keyOf(tab).value, tab) else buckets)
  {
    FileUnderKeepsOrder(keyOf, prefix, buckets, tab);
    if keyOf(tab).Some? {
      if GroupIndex(buckets, keyOf(tab).value) == |buckets| {
        NewBucket(keyOf, prefix, buckets, tab);
      } else {
        ExistingBucket(keyOf, prefix, buckets, tab);
      }
    } else {
      forall k ensures TabsWithKey(keyOf, prefix + [tab], k) == TabsWithKey(keyOf, prefix, k) {
        TabsWithKeySnoc(keyOf, prefix, tab, k);
      }
    }
  }

  /** Filing the next tab keeps the buckets in first-seen order: a new key goes last, and an old key keeps its place. */
  lemma FileUnderKeepsOrder(keyOf: Tab -> Option<string>, prefix: seq<Tab>, buckets: seq<Group>, tab: Tab)
    requires BucketsOf(keyOf, prefix, buckets)
    ensures FirstSeenOrder(keyOf, prefix + [tab], if keyOf(tab).Some? then FileUnder(buckets, keyOf(tab).value, tab) else buckets)
  {
    if keyOf(tab).Some? && GroupIndex(buckets, keyOf(tab).value) == |buckets| {
      NewKeyGoesLast(keyOf, prefix, buckets, tab, keyOf(tab).value);
    } else {
      var r := if keyOf(tab).Some? then FileUnder(buckets, keyOf(tab).value, tab) else buckets;
      assert |r| == |buckets| && forall m :: 0 <= m < |r| ==> r[m].key == buckets[m].key;
      OldKeysKeepOrder(keyOf, prefix, buckets, tab, r);
    }
  }

  lemma OldKeysKeepOrder(keyOf: Tab -> Option<string>, prefix: seq<Tab>, buckets: seq<Group>, tab: Tab, r: seq<Group>)
    requires BucketContents(keyOf, prefix, buckets) && FirstSeenOrder(keyOf, prefix, buckets)
    requires |r| == |buckets| && forall m :: 0 <= m < |r| ==> r[m].key == buckets[m].key
    ensures FirstSeenOrder(keyOf, prefix + [tab], r)
  {
    forall i, j | 0 <= i < j < |r| ensures FirstKeyAt(keyOf, prefix + [tab], r[i].key) < FirstKeyAt(keyOf, prefix + [tab], r[j].key) {
      OldKeyKeepsFirst(keyOf, prefix, buckets, tab, i);
      OldKeyKeepsFirst(keyOf, prefix, buckets, tab, j);
    }
  }

  lemma NewKeyGoesLast(keyOf: Tab -> Option<string>, prefix: seq<Tab>, buckets: seq<Group>, tab: Tab, key: string)
    requires BucketContents(keyOf, prefix, buckets) && FirstSeenOrder(keyOf, prefix, buckets)
    requires keyOf(tab) == Some(key) && forall g <- buckets :: g.key != key
    ensures FirstSeenOrder(keyOf, prefix + [tab], buckets + [Group(key, [tab])])
  {
    var r := buckets + [Group(key, [tab])];
    AbsentKeyHasNoTabs(keyOf, prefix, buckets, key);
    FirstKeyAtPresent(keyOf, prefix, key);
    FirstKeyAtSnoc(keyOf, prefix, tab, key);
    forall i, j | 0 <= i < j < |r| ensures FirstKeyAt(keyOf, prefix + [tab], r[i].key) < FirstKeyAt(keyOf, prefix + [tab], r[j].key) {
      OldKeyKeepsFirst(keyOf, prefix, buckets, tab, i);
      assert r[i] == buckets[i];
      if j < |buckets| {
        OldKeyKeepsFirst(keyOf, prefix, buckets, tab, j);
        assert r[j] == buckets[j];
      }
    }
  }

  /** A key that already has a bucket keeps its first occurrence when a tab is appended. */
  lemma OldKeyKeepsFirst(keyOf: Tab -> Option<string>, prefix: seq<Tab>, buckets: seq<Group>, tab: Tab, m: nat)
    requires BucketContents(keyOf, prefix, buckets) && m < |buckets|
    ensures FirstKeyAt(keyOf, prefix + [tab], buckets[m].key) == FirstKeyAt(keyOf, prefix, buckets[m].key) < |prefix|
  {
    assert buckets[m] in buckets;
    FirstKeyAtPresent(keyOf, prefix, buckets[m].key);
    FirstKeyAtSnoc(keyOf, prefix, tab, buckets[m].key);
  }

  /** One turn of the bucketing loop: filing the i-th tab keeps the invariant for the next prefix. */
  lemma FileNext(keyOf: Tab -> Option<string>, allTabs: seq<Tab>, i: nat, buckets: seq<Group>)
    requires i < |allTabs| && BucketsOf(keyOf, allTabs[..i], buckets)
    ensures BucketsOf(keyOf, allTabs[..i + 1],
      if keyOf(allTabs[i]).Some? then FileUnder(buckets, keyOf(allTabs[i]).value, allTabs[i]) else buckets)
  {
    FileUnderKeepsBuckets(keyOf, allTabs[..i], buckets, allTabs[i]);
    assert allTabs[..i + 1] == allTabs[..i] + [allTabs[i]];
  }

  lemma NewBucket(keyOf: Tab -> Option<string>, prefix: seq<Tab>, buckets: seq<Group>, tab: Tab)
    requires BucketContents(keyOf, prefix, buckets)
    requires keyOf(tab).Some? && GroupIndex(buckets, keyOf(tab).value) == |buckets|
    ensures BucketContents(keyOf, prefix + [tab], FileUnder(buckets, keyOf(tab).value, tab))
  {
    var key, next := keyOf(tab).value, prefix + [tab];
    var r := FileUnder(buckets, key, tab);
    assert r == buckets + [Group(key, [tab])];
    AbsentKeyHasNoTabs(keyOf, prefix, buckets, key);
    NewBucketExact(keyOf, prefix, buckets, tab);
    forall k | |TabsWithKey(keyOf, next, k)| > 0 ensures exists g <- r :: g.key == k {
      TabsWithKeySnoc(keyOf, prefix, tab, k);
      if k == key {
        assert r[|r| - 1] in r;
      } else {
        var g :| g in buckets && g.key == k;
        assert g in r;
      }
    }
  }

  lemma AbsentKeyHasNoTabs(keyOf: Tab -> Option<string>, prefix: seq<Tab>, buckets: seq<Group>, key: string)
    requires BucketContents(keyOf, prefix, buckets)
    requires forall g <- buckets :: g.key != key
    ensures TabsWithKey(keyOf, prefix, key) == []
  {
    assert !(|TabsWithKey(keyOf, prefix, key)| > 0);
  }

  lemma NewBucketExact(keyOf: Tab -> Option<string>, prefix: seq<Tab>, buckets: seq<Group>, tab: Tab)
    requires BucketContents(keyOf, prefix, buckets)
    requires keyOf(tab).Some? && TabsWithKey(keyOf, prefix, keyOf(tab).value) == []
    requires forall g <- buckets :: g.key != keyOf(tab).value
    ensures forall g <- buckets + [Group(keyOf(tab).value, [tab])] ::
      g.tabs == TabsWithKey(keyOf, prefix + [tab], g.key) && |g.tabs| > 0
    ensures GroupKeysDistinct(buckets + [Group(keyOf(tab).value, [tab])])
  {
    var key := keyOf(tab).value;
    var r := buckets + [Group(key, [tab])];
    forall m | 0 <= m < |r| ensures r[m].tabs == TabsWithKey(keyOf, prefix + [tab], r[m].key) && |r[m].tabs| > 0 {
      TabsWithKeySnoc(keyOf, prefix, tab, r[m].key);
      if m < |buckets| {
        assert buckets[m] in buckets;
      }
    }
    forall i, j | 0 <= i < j < |r| ensures r[i].key != r[j].key {
      if j == |buckets| {
        assert r[i] in buckets;
      }
    }
  }

  lemma ExistingBucket(keyOf: Tab -> Option<string>, prefix: seq<Tab>, buckets: seq<Group>, tab: Tab)
    requires BucketContents(keyOf, prefix, buckets)
    requires keyOf(tab).Some? && GroupIndex(buckets, keyOf(tab).value) < |buckets|
    ensures BucketContents(keyOf, prefix + [tab], FileUnder(buckets, keyOf(tab).value, tab))
  {
    var key := keyOf(tab).value;
    var j := GroupIndex(buckets, key);
    var r := buckets[j := Group(key, buckets[j].tabs + [tab])];
    ExistingBucketExact(keyOf, prefix, buckets, tab, j);
    forall k | |TabsWithKey(keyOf, prefix + [tab], k)| > 0 ensures exists g <- r :: g.key == k {
      TabsWithKeySnoc(keyOf, prefix, tab, k);
      if k == key {
        assert r[j] in r;
      } else {
        var g :| g in buckets && g.key == k;
        var m :| 0 <= m < |buckets| && buckets[m] == g;
        assert r[m] in r;
      }
    }
  }

  lemma ExistingBucketExact(keyOf: Tab -> Option<string>, prefix: seq<Tab>, buckets: seq<Group>, tab: Tab, j: nat)
    requires BucketContents(keyOf, prefix, buckets)
    requires keyOf(tab).Some? && j < |buckets| && buckets[j].key == keyOf(tab).value
    ensures var r := buckets[j := Group(keyOf(tab).value, buckets[j].tabs + [tab])];
      GroupKeysDistinct(r) && forall g <- r :: g.tabs == TabsWithKey(keyOf, prefix + [tab], g.key) && |g.tabs| > 0
  {
    var key := keyOf(tab).value;
    var r := buckets[j := Group(key, buckets[j].tabs + [tab])];
    forall m | 0 <= m < |r| ensures r[m].tabs == TabsWithKey(keyOf, prefix + [tab], r[m].key) && |r[m].tabs| > 0 {
      TabsWithKeySnoc(keyOf, prefix, tab, r[m].key);
      assert buckets[m] in buckets;
    }
  }

  /**
   * What findAllDuplicates returns for a tab list: a map (each key once)
   * holding, for every key that at least two eligible tabs share, all of
   * those tabs in list order, and nothing else, its keys in the order they
   * first occur in the list.
   */
  ghost predicate IsDuplicateGrouping(parse: Parser, ignored: set<int>, allTabs: seq<Tab>, groups: seq<Group>) {
    var keyOf := BulkKeyOf(parse, ignored);
    GroupKeysDistinct(groups) &&
    (forall g <- groups :: |g.tabs| >= 2 && g.tabs == TabsWithKey(keyOf, allTabs, g.key)) &&
    (forall k :: |TabsWithKey(keyOf, allTabs, k)| >= 2 ==> exists g <- groups :: g.key == k) &&
    FirstSeenOrder(keyOf, allTabs, groups)
  }

  /**
   * Every tab of a group is one the bulk pass may close: not blank, not
   * browser-internal, not being closed, an http(s) URL whose host is not an
   * ignored domain, and its key is the group's key.
   */
  lemma GroupedTabsAreEligible(parse: Parser, ignored: set<int>, allTabs: seq<Tab>, groups: seq<Group>, g: Group, t: Tab)
    requires IsDuplicateGrouping(parse, ignored, allTabs, groups)
    requires g in groups && t in g.tabs
    ensures t in allTabs
    ensures !IsBlankURL(t.url) && !IsBrowserURL(t.url) && t.id !in ignored
    ensures IsValidURL(t.url) && parse(t.url.value).Some?
    ensures Lower(parse(t.url.value).value.hostname) !in IGNORED_DOMAINS
    ensures GetNormalizedKey(parse, t.url) == Some(g.key)
  {
    assert BulkKeyOf(parse, ignored)(t) == Some(g.key);
  }

  /** Fewer than two tabs never contain a duplicate pair. */
  lemma ShortListsHaveNoGroups(parse: Parser, ignored: set<int>, allTabs: seq<Tab>, groups: seq<Group>)
    requires |allTabs| <= 1 && IsDuplicateGrouping(parse, ignored, allTabs, groups)
    ensures groups == []
  {
    assert 0 < |groups| ==> groups[0] in groups && |groups[0].tabs| <= |allTabs|;
  }

  /** A tab that is grouped at all is grouped under its own key, and only there. */
  lemma GroupedUnderOwnKey(parse: Parser, ignored: set<int>, allTabs: seq<Tab>, groups: seq<Group>, t: Tab)
    requires IsDuplicateGrouping(parse, ignored, allTabs, groups)
    requires t in allTabs && BulkKey(parse, ignored, t).Some?
    requires |TabsWithKey(BulkKeyOf(parse, ignored), allTabs, BulkKey(parse, ignored, t).value)| >= 2
    ensures exists g <- groups :: g.key == BulkKey(parse, ignored, t).value && t in g.tabs
    ensures forall g <- groups :: t in g.tabs ==> g.key == BulkKey(parse, ignored, t).value
  {
    var k := BulkKey(parse, ignored, t).value;
    assert BulkKeyOf(parse, ignored)(t) == Some(k);
    var g :| g in groups && g.key == k;
    assert t in g.tabs;
  }

  /** Two lists of groups with the same members, both in first-seen order, are the same list. */
  lemma {:induction false} SameGroupsSameOrder(keyOf: Tab -> Option<string>, tabs: seq<Tab>, a: seq<Group>, b: seq<Group>)
    requires FirstSeenOrder(keyOf, tabs, a) && FirstSeenOrder(keyOf, tabs, b)
    requires forall g :: g in a <==> g in b
    ensures a == b
    decreases |a|
  {
    if a == [] && b != [] {
      HeadsAgree(keyOf, tabs, b, a);
      assert false;
    } else if a != [] {
      HeadsAgree(keyOf, tabs, a, b);
      TailsSameMembers(keyOf, tabs, a, b);
      TailInOrder(keyOf, tabs, a);
      TailInOrder(keyOf, tabs, b);
      SameGroupsSameOrder(keyOf, tabs, a[1..], b[1..]);
      assert a == [a[0]] + a[1..] && b == [b[0]] + b[1..];
    }
  }

  lemma TailInOrder(keyOf: Tab -> Option<string>, tabs: seq<Tab>, a: seq<Group>)
    requires a != [] && FirstSeenOrder(keyOf, tabs, a)
    ensures FirstSeenOrder(keyOf, tabs, a[1..])
  {
    forall i, j | 0 <= i < j < |a| - 1
      ensures FirstKeyAt(keyOf, tabs, a[1..][i].key) < FirstKeyAt(keyOf, tabs, a[1..][j].key)
    {
      assert a[1..][i] == a[i + 1] && a[1..][j] == a[j + 1];
    }
  }

  /** The group first seen is the head of both lists. */
  lemma HeadsAgree(keyOf: Tab -> Option<string>, tabs: seq<Tab>, a: seq<Group>, b: seq<Group>)
    requires FirstSeenOrder(keyOf, tabs, a) && FirstSeenOrder(keyOf, tabs, b)
    requires forall g :: g in a <==> g in b
    requires a != []
    ensures b != [] && a[0] == b[0]
  {
    assert a[0] in a;
    var m :| 0 <= m < |b| && b[m] == a[0];
    assert b[0] in b;
    var n :| 0 <= n < |a| && a[n] == b[0];
    assert m == 0;
  }

  lemma TailsSameMembers(keyOf: Tab -> Option<string>, tabs: seq<Tab>, a: seq<Group>, b: seq<Group>)
    requires FirstSeenOrder(keyOf, tabs, a) && FirstSeenOrder(keyOf, tabs, b)
    requires forall g :: g in a <==> g in b
    requires a != [] && b != [] && a[0] == b[0]
    ensures forall g :: g in a[1..] <==> g in b[1..]
  {
    forall g ensures g in a[1..] ==> g in b[1..] {
      MemberOfTail(keyOf, tabs, a, b, g);
    }
    forall g ensures g in b[1..] ==> g in a[1..] {
      MemberOfTail(keyOf, tabs, b, a, g);
    }
  }

  lemma MemberOfTail(keyOf: Tab -> Option<string>, tabs: seq<Tab>, a: seq<Group>, b: seq<Group>, g: Group)
    requires FirstSeenOrder(keyOf, tabs, a) && FirstSeenOrder(keyOf, tabs, b)
    requires forall g :: g in a ==> g in b
    requires a != [] && b != [] && a[0] == b[0]
    ensures g in a[1..] ==> g in b[1..]
  {
    if g in a[1..] {
      var k :| 0 <= k < |a| - 1 && a[1..][k] == g;
      assert a[k + 1] == g;
      assert g in a;
      var l :| 0 <= l < |b| && b[l] == g;
      assert l != 0;
      assert b[1..][l - 1] == g;
    }
  }

  /**
   * The description of findAllDuplicates' result leaves nothing open: its
   * groups, their tabs and their order are determined by the tab list.
   */
  lemma DuplicateGroupingIsUnique(parse: Parser, ignored: set<int>, allTabs: seq<Tab>, a: seq<Group>, b: seq<Group>)
    requires IsDuplicateGrouping(parse, ignored, allTabs, a) && IsDuplicateGrouping(parse, ignored, allTabs, b)
    ensures a == b
  {
    var keyOf := BulkKeyOf(parse, ignored);
    forall g ensures g in a <==> g in b {
      if g in a {
        var h :| h in b && h.key == g.key;
      }
      if g in b {
        var h :| h in a && h.key == g.key;
      }
    }
    SameGroupsSameOrder(keyOf, allTabs, a, b);
  }
}
