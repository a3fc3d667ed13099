/**
 * DuplicateTabManager: the engine's handlers over the tracker. Every answer
 * the browser gives (tab queries, `tabs.get`, the outcome of `tabs.remove`,
 * the full tab list) is an input, the `Host` record. The per-pattern queries,
 * the removals and the scheduled activations are appended to the ghost
 * `trace`, so that the order of "flag, then remove" and "first hit, then
 * stop" can be stated; `tabs.get` and the unfiltered query of the bulk pass
 * are only read from `Host`.
 */
module Manager {
  import opened Wrappers
  import opened UrlPatterns
  import opened PatternCache
  import opened Tabs
  import opened Selection
  import opened Scanner
  import opened Tracker

  /** A request to the browser. `flaggedFirst` records whether the tab was already in ignoredTabs when its removal was requested. */
  datatype HostCall =
    | QueryTabs(pattern: string)
    | RemoveTab(tabId: int, flaggedFirst: bool)
    | ScheduleActivation(tabId: int)

  /**
   * The browser's answers during one handler run: `query` for
   * `safeQueryTabs({url})` (a failed query reads as `[]`), `get` for
   * `safeGetTab` (`None` for a closed tab), `remove` for whether
   * `safeRemoveTab` succeeds, and `all` for the full `safeQueryTabs()` list.
   */
  datatype Host = Host(query: string -> seq<Tab>, get: int -> Option<Tab>, remove: int -> bool, all: seq<Tab>)

  // ---------------------------------------------------------------------------
  // Request sequences

  function Queries(patterns: seq<string>): (r: seq<HostCall>)
    ensures |r| == |patterns| && forall i :: 0 <= i < |patterns| ==> r[i] == QueryTabs(patterns[i])
  {
    if patterns == [] then [] else [QueryTabs(patterns[0])] + Queries(patterns[1..])
  }

  /** Removal requests for the given tabs, each made after flagging the tab. */
  function RemoveRequests(tabs: seq<Tab>): (r: seq<HostCall>)
    ensures |r| == |tabs| && forall i :: 0 <= i < |tabs| ==> r[i] == RemoveTab(tabs[i].id, true)
  {
    if tabs == [] then [] else RemoveRequests(tabs[..|tabs| - 1]) + [RemoveTab(tabs[|tabs| - 1].id, true)]
  }

  /** The ids whose removal a request sequence asks for, in order. */
  function RemovedIds(calls: seq<HostCall>): seq<int> {
    if calls == [] then []
    else
      var last := calls[|calls| - 1];
      RemovedIds(calls[..|calls| - 1]) + (if last.RemoveTab? then [last.tabId] else [])
  }

  lemma {:induction false} RemovedIdsAppend(a: seq<HostCall>, b: seq<HostCall>)
    ensures RemovedIds(a + b) == RemovedIds(a) + RemovedIds(b)
    decreases |b|
  {
    if b != [] {
      var init := b[..|b| - 1];
      RemovedIdsAppend(a, init);
      assert (a + b)[..|a + b| - 1] == a + init;
      assert (a + b)[|a + b| - 1] == b[|b| - 1];
    } else {
      assert a + b == a;
    }
  }

  /**
   * The ignore set after closeDuplicate was called on each id in turn: an id
   * whose removal succeeds stays flagged, one whose removal fails is
   * unflagged.
   */
  function AfterClosures(ignored: set<int>, ids: seq<int>, remove: int -> bool): set<int> {
    if ids == [] then ignored
    else
      var before := AfterClosures(ignored, ids[..|ids| - 1], remove);
      var id := ids[|ids| - 1];
      if remove(id) then before + {id} else before - {id}
  }

  lemma AfterClosuresSnoc(ignored: set<int>, ids: seq<int>, id: int, remove: int -> bool)
    ensures AfterClosures(ignored, ids + [id], remove) ==
      if remove(id) then AfterClosures(ignored, ids, remove) + {id} else AfterClosures(ignored, ids, remove) - {id}
  {
    assert (ids + [id])[..|ids|] == ids;
  }

  lemma IdsOfPrefix(tabs: seq<Tab>, i: nat)
    requires i < |tabs|
    ensures Ids(tabs[..i + 1]) == Ids(tabs[..i]) + [tabs[i].id]
  {
    assert tabs[..i + 1] == tabs[..i] + [tabs[i]];
  }

  /** After the closures, exactly the closed ids the host removed, and the untouched flags, are set. */
  lemma {:induction false} AfterClosuresMembership(ignored: set<int>, ids: seq<int>, remove: int -> bool, id: int)
    ensures id in AfterClosures(ignored, ids, remove) <==> if id in ids then remove(id) else id in ignored
    decreases |ids|
  {
    if ids != [] {
      var init := ids[..|ids| - 1];
      AfterClosuresMembership(ignored, init, remove, id);
      assert ids == init + [ids[|ids| - 1]];
    }
  }

  /**
   * The requests closeDuplicate makes for one tab: the flagged removal, then
   * the survivor's activation when the removal succeeds, the closed tab was
   * the active one and the survivor is not.
   */
  function CloseStep(tabId: int, keep: Tab, host: Host): (r: seq<HostCall>)
    ensures r == [RemoveTab(tabId, true)] || r == [RemoveTab(tabId, true), ScheduleActivation(keep.id)]
    ensures |r| == 2 <==> host.remove(tabId) && host.get(tabId).Some? && host.get(tabId).value.active && !keep.active
  {
    [RemoveTab(tabId, true)] +
    (if host.remove(tabId) && host.get(tabId).Some? && host.get(tabId).value.active && !keep.active
     then [ScheduleActivation(keep.id)] else [])
  }

  /** The requests of closeDuplicate called on each tab in turn, with the same survivor. */
  function CloseSteps(toClose: seq<Tab>, keep: Tab, host: Host): seq<HostCall> {
    if toClose == [] then []
    else CloseSteps(toClose[..|toClose| - 1], keep, host) + CloseStep(toClose[|toClose| - 1].id, keep, host)
  }

  lemma CloseStepsOfPrefix(toClose: seq<Tab>, i: nat, keep: Tab, host: Host)
    requires i < |toClose|
    ensures CloseSteps(toClose[..i + 1], keep, host) == CloseSteps(toClose[..i], keep, host) + CloseStep(toClose[i].id, keep, host)
  {
    assert toClose[..i + 1][..i] == toClose[..i];
  }

  /** The requests of one closeDuplicate call ask for the removal of that one tab, flagged first. */
  lemma ClosureStep(calls: seq<HostCall>, ids: seq<int>, tabId: int, keepId: int, step: seq<HostCall>)
    requires RemovedIds(calls) == ids && forall c <- calls :: c.RemoveTab? ==> c.flaggedFirst
    requires step == [RemoveTab(tabId, true)] || step == [RemoveTab(tabId, true), ScheduleActivation(keepId)]
    ensures RemovedIds(calls + step) == ids + [tabId]
    ensures forall c <- calls + step :: c.RemoveTab? ==> c.flaggedFirst
  {
    RemovedIdsAppend(calls, step);
    var remove := [RemoveTab(tabId, true)];
    assert remove[..0] == [];
    assert RemovedIds(remove) == [tabId];
    if |step| == 2 {
      assert step[..1] == remove;
    }
    forall c <- calls + step ensures c.RemoveTab? ==> c.flaggedFirst {
      assert c in calls || c in step;
    }
  }

  /** One turn of the closure loop: the requests and flags so far extend by those of the next tab. */
  lemma CloseEachStep(t0: seq<HostCall>, calls: seq<HostCall>, step: seq<HostCall>, toClose: seq<Tab>, i: nat,
                      keepId: int, ignored: set<int>, remove: int -> bool)
    requires i < |toClose|
    requires RemovedIds(calls) == Ids(toClose[..i]) && forall c <- calls :: c.RemoveTab? ==> c.flaggedFirst
    requires step == [RemoveTab(toClose[i].id, true)] || step == [RemoveTab(toClose[i].id, true), ScheduleActivation(keepId)]
    ensures t0 + calls + step == t0 + (calls + step)
    ensures RemovedIds(calls + step) == Ids(toClose[..i + 1])
    ensures forall c <- calls + step :: c.RemoveTab? ==> c.flaggedFirst
    ensures AfterClosures(ignored, Ids(toClose[..i + 1]), remove) ==
      if remove(toClose[i].id) then AfterClosures(ignored, Ids(toClose[..i]), remove) + {toClose[i].id}
      else AfterClosures(ignored, Ids(toClose[..i]), remove) - {toClose[i].id}
  {
    ClosureStep(calls, Ids(toClose[..i]), toClose[i].id, keepId, step);
    AppendAssociates(t0, calls, step);
    IdsOfPrefix(toClose, i);
    AfterClosuresSnoc(ignored, Ids(toClose[..i]), toClose[i].id, remove);
  }

  lemma QueriesOfPrefix(patterns: seq<string>, i: nat)
    requires i < |patterns|
    ensures Queries(patterns[..i + 1]) == Queries(patterns[..i]) + [QueryTabs(patterns[i])]
  {
    var a, b := Queries(patterns[..i + 1]), Queries(patterns[..i]) + [QueryTabs(patterns[i])];
    assert |a| == |b|;
    forall k | 0 <= k < |a| ensures a[k] == b[k] {
      assert patterns[..i + 1][k] == patterns[k];
    }
  }

  lemma {:induction false} QueriesRemoveNothing(patterns: seq<string>)
    ensures RemovedIds(Queries(patterns)) == []
    decreases |patterns|
  {
    if patterns != [] {
      var q := Queries(patterns);
      QueriesRemoveNothing(patterns[..|patterns| - 1]);
      assert q[..|q| - 1] == Queries(patterns[..|patterns| - 1]);
    }
  }

  /** Queries in front of a run of requests add no removal to it. */
  lemma QueriesThenCloses(patterns: seq<string>, closes: seq<HostCall>)
    ensures RemovedIds(Queries(patterns) + closes) == RemovedIds(closes)
    ensures forall c <- Queries(patterns) + closes :: c.RemoveTab? ==> c in closes
  {
    QueriesRemoveNothing(patterns);
    RemovedIdsAppend(Queries(patterns), closes);
  }

  lemma {:induction false} RemoveRequestsRemove(tabs: seq<Tab>)
    ensures RemovedIds(RemoveRequests(tabs)) == Ids(tabs)
    decreases |tabs|
  {
    if tabs != [] {
      var init := tabs[..|tabs| - 1];
      RemoveRequestsRemove(init);
      assert RemoveRequests(tabs)[..|tabs| - 1] == RemoveRequests(init);
      assert Ids(tabs) == Ids(init) + [tabs[|tabs| - 1].id];
    }
  }

  // ---------------------------------------------------------------------------
  // The single-tab scan as a function of the state before it

  /**
   * `loadingUrl || targetTab.url`: the loading URL when it is a non-empty
   * string (an empty one is falsy too), the tab's own URL otherwise.
   */
  function ScanUrl(tab: Tab, loadingUrl: Option<string>): (r: Option<string>)
    ensures r == loadingUrl || r == tab.url
    ensures loadingUrl.Some? && loadingUrl.value != "" ==> r == loadingUrl
    ensures (r.Some? && r.value != "") <==> (loadingUrl.Some? && loadingUrl.value != "") || (tab.url.Some? && tab.url.value != "")
  {
    if loadingUrl.Some? && loadingUrl.value != "" then loadingUrl else tab.url
  }

  /**
   * The entry guard of findDuplicatesForSingleTab. Its blank and
   * browser-internal tests are implied by shouldProcessURL, so it is exactly
   * that test.
   */
  predicate Scannable(parse: Parser, url: Option<string>): (r: bool)
    ensures r <==> ShouldProcessURL(parse, url)
  {
    !(url.None? || url.value == "" || IsBlankURL(url) || IsBrowserURL(url) || !ShouldProcessURL(parse, url))
  }

  /** The pattern record the scan uses: the cached one under the URL's key, else a fresh one. */
  function PatternFor(cache: Cache, parse: Parser, url: Option<string>): (r: Option<PatternData>)
    ensures ShouldProcessURL(parse, url) ==> r.Some?
  {
    var key := GetNormalizedKey(parse, url);
    if key.Some? && Lookup(cache, key.value).Some? then Some(Lookup(cache, key.value).value.data)
    else CreateDuplicatePattern(parse, url)
  }

  /** The host-query patterns the scan walks through; none when the guard rejects the URL. */
  function ScanPatterns(cache: Cache, parse: Parser, url: Option<string>): seq<string> {
    if Scannable(parse, url) then PatternFor(cache, parse, url).value.chromePatterns else []
  }

  /** findDuplicatesForSingleTab's result, and how many queries it issued. */
  function SingleTabScan(cache: Cache, ignored: set<int>, parse: Parser, url: Option<string>, targetId: int,
                         query: string -> seq<Tab>): ScanOutcome
  {
    FirstMatch(MatchesOf(Search(parse, url, targetId, ignored)), query, ScanPatterns(cache, parse, url))
  }

  /** The cache after a scan: a hit is refreshed, a miss is stored (only when the URL has a key). */
  function CacheAfterScan(cache: Cache, parse: Parser, url: Option<string>, now: int): Cache
    requires KeysDistinct(cache)
  {
    match GetNormalizedKey(parse, url)
    case None => cache
    case Some(key) =>
      if Lookup(cache, key).Some? then Refresh(cache, key, now)
      else Store(cache, key, CreateDuplicatePattern(parse, url).value, now)
  }

  /** Every tab a sequential scan reports passed the filter. */
  lemma {:induction false} FirstMatchFindsMatches(s: Search, query: string -> seq<Tab>, patterns: seq<string>)
    ensures forall t <- FirstMatch(MatchesOf(s), query, patterns).found :: IsMatch(s, t)
  {
    var r := FirstMatch(MatchesOf(s), query, patterns);
    if r.found != [] {
      assert r.found == Matches(s, query(patterns[r.queried - 1]));
    }
  }

  /** A tab that passes the filter is another processable tab, not being closed, with the scanned URL's key. */
  lemma MatchHasSameKey(s: Search, t: Tab)
    requires IsMatch(s, t)
    ensures t.id != s.targetId && t.id !in s.ignored && ShouldProcessURL(s.parse, t.url)
    ensures GetNormalizedKey(s.parse, t.url) == GetNormalizedKey(s.parse, s.url)
  {
  }

  /**
   * The single-tab scan never reports the target itself nor a tab being
   * closed, and every tab it reports has the scanned URL's key.
   */
  lemma SingleTabScanFindsOnlyDuplicates(cache: Cache, ignored: set<int>, parse: Parser, url: Option<string>,
                                         targetId: int, query: string -> seq<Tab>)
    ensures forall t <- SingleTabScan(cache, ignored, parse, url, targetId, query).found ::
      t.id != targetId && t.id !in ignored && ShouldProcessURL(parse, t.url) &&
      GetNormalizedKey(parse, t.url) == GetNormalizedKey(parse, url)
  {
    var s := Search(parse, url, targetId, ignored);
    FirstMatchFindsMatches(s, query, ScanPatterns(cache, parse, url));
    forall t <- SingleTabScan(cache, ignored, parse, url, targetId, query).found
      ensures t.id != targetId && t.id !in ignored && ShouldProcessURL(parse, t.url) &&
        GetNormalizedKey(parse, t.url) == GetNormalizedKey(parse, url)
    {
      MatchHasSameKey(s, t);
    }
  }

  /** The tabs a single-tab run closes: every tab of `[tab, ...duplicates]` except those sharing the survivor's id. */
  function Closing(tab: Tab, duplicates: seq<Tab>, st: Stamps): seq<Tab> {
    if duplicates == [] then [] else Others([tab] + duplicates, SelectBestTab([tab] + duplicates, st).id)
  }

  /**
   * The requests of one _handleSingleTabDuplicates run on a tab not yet being
   * handled: the scan's queries up to its first hit, then closeDuplicate's
   * requests for every tab to close, in order, around the survivor.
   */
  function SingleTabCalls(cache: Cache, ignored: set<int>, parse: Parser, tab: Tab, loadingUrl: Option<string>,
                          host: Host, st: Stamps): seq<HostCall>
  {
    var url := ScanUrl(tab, loadingUrl);
    var scan := SingleTabScan(cache, ignored, parse, url, tab.id, host.query);
    Queries(ScanPatterns(cache, parse, url)[..scan.queried]) +
    CloseSteps(Closing(tab, scan.found, st), SelectBestTab([tab] + scan.found, st), host)
  }

  /**
   * The survivor of a single-tab run is never closed, and when the tabs have
   * distinct ids every other tab is.
   */
  lemma {:induction false} SurvivorIsSpared(tab: Tab, duplicates: seq<Tab>, st: Stamps)
    requires duplicates != []
    ensures var all := [tab] + duplicates;
      var keep := SelectBestTab(all, st);
      keep.id !in Ids(Closing(tab, duplicates, st)) &&
      (forall t <- all :: t.id != keep.id ==> t.id in Ids(Closing(tab, duplicates, st)))
  {
    var all := [tab] + duplicates;
    var keep := SelectBestTab(all, st);
    var closing := Closing(tab, duplicates, st);
    forall i | 0 <= i < |closing| ensures Ids(closing)[i] != keep.id {
      assert closing[i] in closing;
    }
    forall t <- all | t.id != keep.id ensures t.id in Ids(closing) {
      var i :| 0 <= i < |closing| && closing[i] == t;
      assert Ids(closing)[i] == t.id;
    }
  }

  /** The ids of a list of tabs, as a set. */
  function IdSet(tabs: seq<Tab>): (r: set<int>)
    ensures forall t <- tabs :: t.id in r
  {
    if tabs == [] then {} else IdSet(tabs[..|tabs| - 1]) + {tabs[|tabs| - 1].id}
  }

  lemma IdSetOfPrefix(tabs: seq<Tab>, i: nat)
    requires i < |tabs|
    ensures IdSet(tabs[..i + 1]) == IdSet(tabs[..i]) + {tabs[i].id}
  {
    assert tabs[..i + 1][..i] == tabs[..i];
  }

  lemma {:induction false} IdSetMembership(tabs: seq<Tab>, id: int)
    ensures id in IdSet(tabs) <==> exists t <- tabs :: t.id == id
    decreases |tabs|
  {
    if tabs != [] {
      var init := tabs[..|tabs| - 1];
      IdSetMembership(init, id);
      assert tabs == init + [tabs[|tabs| - 1]];
    }
  }

  // ---------------------------------------------------------------------------
  // The bulk pass as a function of the grouping

  /** The requests closeAllDuplicates makes for one group: flag-and-remove each non-survivor, then activate the survivor if it is in the background. */
  function GroupPlan(g: Group, st: Stamps): seq<HostCall>
    requires |g.tabs| > 0
  {
    var keep := SelectBestTab(g.tabs, st);
    var toClose := Others(g.tabs, keep.id);
    RemoveRequests(toClose) + (if !keep.active && |toClose| > 0 then [ScheduleActivation(keep.id)] else [])
  }

  function BulkPlan(groups: seq<Group>, st: Stamps): seq<HostCall>
    requires forall g <- groups :: |g.tabs| > 0
  {
    if groups == [] then []
    else BulkPlan(groups[..|groups| - 1], st) + GroupPlan(groups[|groups| - 1], st)
  }

  /** The ids the bulk pass flags: the non-survivors of every group. */
  function ClosedIds(groups: seq<Group>, st: Stamps): set<int>
    requires forall g <- groups :: |g.tabs| > 0
  {
    if groups == [] then {}
    else
      var g := groups[|groups| - 1];
      ClosedIds(groups[..|groups| - 1], st) + IdSet(Others(g.tabs, SelectBestTab(g.tabs, st).id))
  }

  /** Every group's non-survivors are among the closed ids. */
  lemma {:induction false} ClosedIdsCovers(groups: seq<Group>, st: Stamps, g: Group)
    requires forall h <- groups :: |h.tabs| > 0
    requires g in groups
    ensures IdSet(Others(g.tabs, SelectBestTab(g.tabs, st).id)) <= ClosedIds(groups, st)
    decreases |groups|
  {
    var init, last := groups[..|groups| - 1], groups[|groups| - 1];
    if g != last {
      assert g in init by {
        var i :| 0 <= i < |groups| && groups[i] == g;
        assert i < |groups| - 1 && init[i] == g;
      }
      ClosedIdsCovers(init, st, g);
    }
  }

  /** Every closed id is a non-survivor of some group. */
  lemma {:induction false} ClosedIdsComeFromGroups(groups: seq<Group>, st: Stamps, id: int)
    requires forall h <- groups :: |h.tabs| > 0
    requires id in ClosedIds(groups, st)
    ensures exists g <- groups :: id in IdSet(Others(g.tabs, SelectBestTab(g.tabs, st).id))
    decreases |groups|
  {
    var init, last := groups[..|groups| - 1], groups[|groups| - 1];
    assert last in groups;
    if id !in IdSet(Others(last.tabs, SelectBestTab(last.tabs, st).id)) {
      ClosedIdsComeFromGroups(init, st, id);
      var g :| g in init && id in IdSet(Others(g.tabs, SelectBestTab(g.tabs, st).id));
      assert g in groups;
    }
  }

  /** Extending the handled groups by one appends that group's requests and closed ids. */
  lemma BulkPlanSnoc(groups: seq<Group>, i: nat, st: Stamps)
    requires i < |groups| && forall g <- groups :: |g.tabs| > 0
    ensures BulkPlan(groups[..i + 1], st) == BulkPlan(groups[..i], st) + GroupPlan(groups[i], st)
    ensures ClosedIds(groups[..i + 1], st) ==
      ClosedIds(groups[..i], st) + IdSet(Others(groups[i].tabs, SelectBestTab(groups[i].tabs, st).id))
    ensures |RemovedIds(BulkPlan(groups[..i + 1], st))| ==
      |RemovedIds(BulkPlan(groups[..i], st))| + |RemovedIds(GroupPlan(groups[i], st))|
  {
    assert groups[i] in groups;
    assert groups[..i + 1][..i] == groups[..i];
    RemovedIdsAppend(BulkPlan(groups[..i], st), GroupPlan(groups[i], st));
  }

  /** The loop invariant of closeAllDuplicates survives handling one more group. */
  lemma CloseGroupsStep(groups: seq<Group>, i: nat, st: Stamps, trace0: seq<HostCall>, ignored0: set<int>,
                        trace1: seq<HostCall>, ignored1: set<int>, closed1: nat,
                        trace2: seq<HostCall>, ignored2: set<int>, n: nat)
    requires i < |groups| && forall g <- groups :: |g.tabs| > 0
    requires trace1 == trace0 + BulkPlan(groups[..i], st)
    requires ignored1 == ignored0 + ClosedIds(groups[..i], st)
    requires closed1 == |RemovedIds(BulkPlan(groups[..i], st))|
    requires trace2 == trace1 + GroupPlan(groups[i], st)
    requires ignored2 == ignored1 + IdSet(Others(groups[i].tabs, SelectBestTab(groups[i].tabs, st).id))
    requires n == |RemovedIds(GroupPlan(groups[i], st))|
    ensures trace2 == trace0 + BulkPlan(groups[..i + 1], st)
    ensures ignored2 == ignored0 + ClosedIds(groups[..i + 1], st)
    ensures closed1 + n == |RemovedIds(BulkPlan(groups[..i + 1], st))|
  {
    BulkPlanSnoc(groups, i, st);
    AppendAssociates(trace0, BulkPlan(groups[..i], st), GroupPlan(groups[i], st));
  }

  /**
   * With distinct tab ids, the bulk pass keeps exactly one tab of every
   * group: the survivor is never flagged, and every other tab of the group is.
   */
  lemma BulkKeepsOnePerGroup(parse: Parser, ignored: set<int>, allTabs: seq<Tab>, groups: seq<Group>, st: Stamps, g: Group)
    requires IsDuplicateGrouping(parse, ignored, allTabs, groups)
    requires forall i, j :: 0 <= i < j < |allTabs| ==> allTabs[i].id != allTabs[j].id
    requires g in groups
    ensures SelectBestTab(g.tabs, st).id !in ClosedIds(groups, st)
    ensures forall t <- g.tabs :: t != SelectBestTab(g.tabs, st) ==> t.id in ClosedIds(groups, st)
  {
    var keep := SelectBestTab(g.tabs, st);
    GroupedTabsAreEligible(parse, ignored, allTabs, groups, g, keep);
    if keep.id in ClosedIds(groups, st) {
      ClosedIdsComeFromGroups(groups, st, keep.id);
    }
    forall h <- groups ensures keep.id !in IdSet(Others(h.tabs, SelectBestTab(h.tabs, st).id)) {
      var others := Others(h.tabs, SelectBestTab(h.tabs, st).id);
      IdSetMembership(others, keep.id);
      forall t <- others ensures t.id != keep.id {
        GroupedTabsAreEligible(parse, ignored, allTabs, groups, h, t);
        SameIdSameTab(allTabs, t, keep);
        assert t == keep ==> h.key == g.key;
        GroupOfKeyIsUnique(groups, g, h);
      }
    }
    forall t <- g.tabs | t != keep ensures t.id in ClosedIds(groups, st) {
      GroupedTabsAreEligible(parse, ignored, allTabs, groups, g, t);
      SameIdSameTab(allTabs, t, keep);
      ClosedIdsCovers(groups, st, g);
      assert t.id in IdSet(Others(g.tabs, keep.id));
    }
  }

  /**
   * The first loop of findAllDuplicates: file every tab with a key under
   * that key, creating a bucket the first time a key is seen.
   */
  method GroupByKey(tabs: seq<Tab>, keyOf: Tab -> Option<string>) returns (urlGroups: seq<Group>)
    ensures BucketsOf(keyOf, tabs, urlGroups)
  {
    urlGroups := [];
    var i := 0;
    while i < |tabs|
      invariant 0 <= i <= |tabs|
      invariant BucketsOf(keyOf, tabs[..i], urlGroups)
    {
      var tab := tabs[i];
      var normalizedKey := keyOf(tab);
      FileNext(keyOf, tabs, i, urlGroups);
      if normalizedKey.Some? {
        urlGroups := FileUnder(urlGroups, normalizedKey.value, tab);
      }
      i := i + 1;
    }
    assert tabs[..i] == tabs;
  }

  /** The buckets holding two or more tabs, all of them kept, are the duplicate grouping. */
  lemma SharedBucketsAreGrouping(parse: Parser, ignored: set<int>, allTabs: seq<Tab>, buckets: seq<Group>, groups: seq<Group>)
    requires BucketsOf(BulkKeyOf(parse, ignored), allTabs, buckets)
    requires forall g <- groups :: g in buckets && |g.tabs| >= 2
    requires forall g <- buckets :: |g.tabs| >= 2 ==> g in groups
    requires GroupKeysDistinct(groups) && FirstSeenOrder(BulkKeyOf(parse, ignored), allTabs, groups)
    ensures IsDuplicateGrouping(parse, ignored, allTabs, groups)
  {
    var keyOf := BulkKeyOf(parse, ignored);
    forall k | |TabsWithKey(keyOf, allTabs, k)| >= 2 ensures exists g <- groups :: g.key == k {
      var g :| g in buckets && g.key == k;
      assert g in groups;
    }
  }

  /** Keeping one more bucket, taken later from the first-seen buckets, keeps the kept ones in first-seen order. */
  lemma KeepInOrder(keyOf: Tab -> Option<string>, tabs: seq<Tab>, buckets: seq<Group>, groups: seq<Group>, j: nat)
    requires j < |buckets| && FirstSeenOrder(keyOf, tabs, buckets) && FirstSeenOrder(keyOf, tabs, groups)
    requires forall g <- groups :: g in buckets[..j]
    ensures FirstSeenOrder(keyOf, tabs, groups + [buckets[j]])
  {
    var r := groups + [buckets[j]];
    forall a, b | 0 <= a < b < |r| ensures FirstKeyAt(keyOf, tabs, r[a].key) < FirstKeyAt(keyOf, tabs, r[b].key) {
      assert r[a] == groups[a] && groups[a] in groups;
      if b < |groups| {
        assert r[b] == groups[b];
      } else {
        var m :| 0 <= m < j && buckets[..j][m] == groups[a];
        assert buckets[m] == groups[a];
      }
    }
  }

  lemma AppendAssociates<T>(a: seq<T>, b: seq<T>, c: seq<T>)
    ensures a + b + c == a + (b + c)
  {
  }

  lemma SameIdSameTab(tabs: seq<Tab>, a: Tab, b: Tab)
    requires forall i, j :: 0 <= i < j < |tabs| ==> tabs[i].id != tabs[j].id
    requires a in tabs && b in tabs
    ensures a.id == b.id ==> a == b
  {
    var i :| 0 <= i < |tabs| && tabs[i] == a;
    var j :| 0 <= j < |tabs| && tabs[j] == b;
    assert a.id == b.id ==> i == j;
  }

  lemma GroupOfKeyIsUnique(groups: seq<Group>, g: Group, h: Group)
    requires GroupKeysDistinct(groups) && g in groups && h in groups
    ensures g.key == h.key ==> g == h
  {
    var i :| 0 <= i < |groups| && groups[i] == g;
    var j :| 0 <= j < |groups| && groups[j] == h;
    assert g.key == h.key ==> i == j;
  }

  // ---------------------------------------------------------------------------
  // The manager

  class DuplicateTabManager {
    const tracker: EnhancedTabTracker
    /** The platform URL parser the canonicaliser uses. */
    const parse: Parser
    /** The queries, removals and activations requested of the browser so far. */
    ghost var trace: seq<HostCall>

    ghost predicate Valid()
      reads tracker`patternCache
    {
      tracker.Valid()
    }

    constructor (parse: Parser)
      ensures Valid() && fresh(tracker) && this.parse == parse && trace == []
      ensures tracker.ignoredTabs == {} && tracker.processingTabs == {} && tracker.patternCache == []
      ensures tracker.completionTimes == map[] && tracker.creationTimes == map[] && tracker.cleanupScheduled
    {
      this.parse := parse;
      tracker := new EnhancedTabTracker();
      trace := [];
    }

    /**
     * findDuplicatesForSingleTab: query the URL's patterns one at a time and
     * return the filtered matches of the first query that has any. The
     * pattern record comes from the cache when present (refreshing it) and is
     * created and cached otherwise.
     */
    method FindDuplicatesForSingleTab(targetTab: Tab, loadingUrl: Option<string>, host: Host, now: int)
      returns (duplicates: seq<Tab>)
      requires Valid()
      modifies tracker`patternCache, this`trace
      ensures Valid()
      ensures var url := ScanUrl(targetTab, loadingUrl);
        var scan := SingleTabScan(old(tracker.patternCache), tracker.ignoredTabs, parse, url, targetTab.id, host.query);
        duplicates == scan.found &&
        trace == old(trace) + Queries(ScanPatterns(old(tracker.patternCache), parse, url)[..scan.queried]) &&
        tracker.patternCache == if Scannable(parse, url) then CacheAfterScan(old(tracker.patternCache), parse, url, now)
                                else old(tracker.patternCache)
    {
      var url := if loadingUrl.Some? && loadingUrl.value != "" then loadingUrl else targetTab.url;
      if url.None? || url.value == "" || IsBlankURL(url) || IsBrowserURL(url) || !ShouldProcessURL(parse, url) {
        return [];
      }
      var patternData := ResolvePattern(url, now);
      duplicates := QueryUntilMatch(MatchesOf(Search(parse, url, targetTab.id, tracker.ignoredTabs)), patternData.chromePatterns, host);
    }

    /**
     * The pattern-record step of findDuplicatesForSingleTab: the cached
     * record under the URL's key when there is one (its `lastUsed` is
     * refreshed), otherwise a freshly built record, cached when the URL has a
     * key. The URL has passed shouldProcessURL, so building cannot fail and
     * the source's null check after it never fires.
     */
    method ResolvePattern(url: Option<string>, now: int) returns (patternData: PatternData)
      requires Valid()
      requires ShouldProcessURL(parse, url)
      modifies tracker`patternCache
      ensures Valid()
      ensures PatternFor(old(tracker.patternCache), parse, url) == Some(patternData)
      ensures tracker.patternCache == CacheAfterScan(old(tracker.patternCache), parse, url, now)
    {
      var cacheKey := GetNormalizedKey(parse, url);
      var found: Option<PatternData> := None;
      if cacheKey.Some? {
        var cached := tracker.GetCachedPattern(cacheKey.value, now);
        if cached.Some? {
          found := Some(cached.value.data);
        }
      }
      if found.Some? {
        patternData := found.value;
      } else {
        var created := CreateDuplicatePattern(parse, url);
        patternData := created.value;
        if cacheKey.Some? {
          tracker.CachePattern(cacheKey.value, created, now);
        }
      }
    }

    /**
     * The query loop of findDuplicatesForSingleTab: query each pattern in
     * turn, keep the tabs that pass the filter, and stop after the first
     * query that yields any.
     */
    method QueryUntilMatch(filter: seq<Tab> -> seq<Tab>, patterns: seq<string>, host: Host)
      returns (duplicates: seq<Tab>)
      modifies this`trace
      ensures var scan := FirstMatch(filter, host.query, patterns);
        duplicates == scan.found && trace == old(trace) + Queries(patterns[..scan.queried])
    {
      duplicates := [];
      var i := 0;
      while i < |patterns|
        invariant 0 <= i <= |patterns|
        invariant duplicates == []
        invariant trace == old(trace) + Queries(patterns[..i])
        invariant forall j :: 0 <= j < i ==> filter(host.query(patterns[j])) == []
      {
        var tabs := host.query(patterns[i]);
        QueriesOfPrefix(patterns, i);
        AppendAssociates(old(trace), Queries(patterns[..i]), [QueryTabs(patterns[i])]);
        trace := trace + [QueryTabs(patterns[i])];
        var matches := filter(tabs);
        duplicates := duplicates + matches;
        i := i + 1;
        if |duplicates| > 0 {
          break;
        }
      }
      if duplicates != [] {
        FirstMatchAt(filter, host.query, patterns, i - 1);
      }
    }

    /**
     * findAllDuplicates: bucket the eligible tabs of the list by key, in
     * first-seen order, and keep the buckets holding two or more tabs.
     */
    method FindAllDuplicates(allTabs: seq<Tab>) returns (groups: seq<Group>)
      ensures IsDuplicateGrouping(parse, tracker.ignoredTabs, allTabs, groups)
      ensures |allTabs| <= 1 ==> groups == []
    {
      if |allTabs| <= 1 {
        assert forall k :: |TabsWithKey(BulkKeyOf(parse, tracker.ignoredTabs), allTabs, k)| < 2;
        return [];
      }
      var urlGroups := GroupByKey(allTabs, BulkKeyOf(parse, tracker.ignoredTabs));
      groups := [];
      var j := 0;
      while j < |urlGroups|
        invariant 0 <= j <= |urlGroups|
        invariant forall g <- groups :: g in urlGroups[..j] && |g.tabs| >= 2
        invariant forall g <- urlGroups[..j] :: |g.tabs| >= 2 ==> g in groups
        invariant GroupKeysDistinct(groups)
        invariant FirstSeenOrder(BulkKeyOf(parse, tracker.ignoredTabs), allTabs, groups)
      {
        if |urlGroups[j].tabs| > 1 {
          KeepInOrder(BulkKeyOf(parse, tracker.ignoredTabs), allTabs, urlGroups, groups, j);
          groups := groups + [urlGroups[j]];
        }
        j := j + 1;
      }
      assert urlGroups[..j] == urlGroups;
      SharedBucketsAreGrouping(parse, tracker.ignoredTabs, allTabs, urlGroups, groups);
    }

    /**
     * closeDuplicate: flag the tab, then ask for its removal. A failed
     * removal unflags it (even if it was flagged before); a successful one
     * leaves it flagged, and the survivor is activated only if the removed
     * tab was the active one and the survivor is not.
     */
    method CloseDuplicate(tabId: int, keepTab: Tab, host: Host) returns (success: bool)
      modifies tracker`ignoredTabs, this`trace
      ensures success == host.remove(tabId)
      ensures tracker.ignoredTabs == if success then old(tracker.ignoredTabs) + {tabId} else old(tracker.ignoredTabs) - {tabId}
      ensures trace == old(trace) + CloseStep(tabId, keepTab, host)
    {
      var tab := host.get(tabId);
      var wasActive := tab.Some? && tab.value.active;
      tracker.Ignore(tabId);
      trace := trace + [RemoveTab(tabId, tracker.IsIgnored(tabId))];
      success := host.remove(tabId);
      if success && wasActive && !keepTab.active {
        trace := trace + [ScheduleActivation(keepTab.id)];
      } else if !success {
        tracker.ignoredTabs := tracker.ignoredTabs - {tabId};
      }
    }

    /**
     * _handleSingleTabDuplicates: a tab already being handled is left alone.
     * Otherwise scan for its duplicates and, if there are any, close every
     * tab of `[tab, ...duplicates]` except the survivor, one closure after
     * the other; the processing flag is cleared at the end.
     */
    method HandleSingleTabDuplicates(tab: Tab, loadingUrl: Option<string>, host: Host, now: int)
      requires Valid()
      modifies tracker`patternCache, tracker`ignoredTabs, tracker`processingTabs, this`trace
      ensures Valid()
      ensures tracker.processingTabs == old(tracker.processingTabs)
      ensures old(trace) <= trace
      ensures old(tracker.IsProcessing(tab.id)) ==>
        tracker.patternCache == old(tracker.patternCache) && tracker.ignoredTabs == old(tracker.ignoredTabs) &&
        trace == old(trace)
      ensures !old(tracker.IsProcessing(tab.id)) ==>
        var url := ScanUrl(tab, loadingUrl);
        tracker.patternCache == if Scannable(parse, url) then CacheAfterScan(old(tracker.patternCache), parse, url, now)
                                else old(tracker.patternCache)
      ensures !old(tracker.IsProcessing(tab.id)) ==>
        var scan := SingleTabScan(old(tracker.patternCache), old(tracker.ignoredTabs), parse, ScanUrl(tab, loadingUrl), tab.id, host.query);
        var closing := Closing(tab, scan.found, tracker.Stamps());
        trace == old(trace) + SingleTabCalls(old(tracker.patternCache), old(tracker.ignoredTabs), parse, tab, loadingUrl, host, tracker.Stamps()) &&
        RemovedIds(trace[|old(trace)|..]) == Ids(closing) &&
        (forall c <- trace[|old(trace)|..] :: c.RemoveTab? ==> c.flaggedFirst) &&
        tracker.ignoredTabs == AfterClosures(old(tracker.ignoredTabs), Ids(closing), host.remove)
    {
      if tracker.IsProcessing(tab.id) {
        return;
      }
      ghost var cache0, ignored0, st := tracker.patternCache, tracker.ignoredTabs, tracker.Stamps();
      tracker.SetProcessing(tab.id, true);
      assert tracker.patternCache == cache0 && tracker.ignoredTabs == ignored0 && tracker.Stamps() == st;
      ghost var calls := ScanAndClose(tab, loadingUrl, host, now);
      ghost var cache1, ignored1 := tracker.patternCache, tracker.ignoredTabs;
      assert trace[|old(trace)|..] == calls;
      tracker.SetProcessing(tab.id, false);
      assert tracker.patternCache == cache1 && tracker.ignoredTabs == ignored1 && tracker.Stamps() == st;
    }

    /** The body of _handleSingleTabDuplicates between setting and clearing the processing flag. */
    method ScanAndClose(tab: Tab, loadingUrl: Option<string>, host: Host, now: int) returns (ghost calls: seq<HostCall>)
      requires Valid()
      modifies tracker`patternCache, tracker`ignoredTabs, this`trace
      ensures Valid()
      ensures trace == old(trace) + calls
      ensures var url := ScanUrl(tab, loadingUrl);
        tracker.patternCache == if Scannable(parse, url) then CacheAfterScan(old(tracker.patternCache), parse, url, now)
                                else old(tracker.patternCache)
      ensures var scan := SingleTabScan(old(tracker.patternCache), old(tracker.ignoredTabs), parse, ScanUrl(tab, loadingUrl), tab.id, host.query);
        var closing := Closing(tab, scan.found, tracker.Stamps());
        calls == SingleTabCalls(old(tracker.patternCache), old(tracker.ignoredTabs), parse, tab, loadingUrl, host, tracker.Stamps()) &&
        RemovedIds(calls) == Ids(closing) &&
        (forall c <- calls :: c.RemoveTab? ==> c.flaggedFirst) &&
        tracker.ignoredTabs == AfterClosures(old(tracker.ignoredTabs), Ids(closing), host.remove)
    {
      ghost var scan := SingleTabScan(tracker.patternCache, tracker.ignoredTabs, parse, ScanUrl(tab, loadingUrl), tab.id, host.query);
      ghost var scanned := ScanPatterns(tracker.patternCache, parse, ScanUrl(tab, loadingUrl));
      var duplicates := FindDuplicatesForSingleTab(tab, loadingUrl, host, now);
      ghost var queries := Queries(scanned[..scan.queried]);
      var closes := CloseAround(tab, duplicates, host);
      QueriesThenCloses(scanned[..scan.queried], closes);
      calls := queries + closes;
      AppendAssociates(old(trace), queries, closes);
    }

    /** The closing step of _handleSingleTabDuplicates: close every tab of `[tab, ...duplicates]` but the survivor. */
    method CloseAround(tab: Tab, duplicates: seq<Tab>, host: Host) returns (ghost calls: seq<HostCall>)
      modifies tracker`ignoredTabs, this`trace
      ensures trace == old(trace) + calls
      ensures calls == CloseSteps(Closing(tab, duplicates, tracker.Stamps()), SelectBestTab([tab] + duplicates, tracker.Stamps()), host)
      ensures RemovedIds(calls) == Ids(Closing(tab, duplicates, tracker.Stamps()))
      ensures forall c <- calls :: c.RemoveTab? ==> c.flaggedFirst
      ensures tracker.ignoredTabs == AfterClosures(old(tracker.ignoredTabs), Ids(Closing(tab, duplicates, tracker.Stamps())), host.remove)
    {
      calls := [];
      if |duplicates| > 0 {
        var allTabs := [tab] + duplicates;
        var tabToKeep := SelectBestTab(allTabs, tracker.Stamps());
        var toClose := Others(allTabs, tabToKeep.id);
        calls := CloseEach(toClose, tabToKeep, host);
      } else {
        assert Ids([]) == [];
      }
    }

    /** The closure loop of _handleSingleTabDuplicates: closeDuplicate on each tab in turn, outcomes ignored. */
    method CloseEach(toClose: seq<Tab>, keepTab: Tab, host: Host) returns (ghost calls: seq<HostCall>)
      modifies tracker`ignoredTabs, this`trace
      ensures trace == old(trace) + calls
      ensures calls == CloseSteps(toClose, keepTab, host)
      ensures RemovedIds(calls) == Ids(toClose)
      ensures forall c <- calls :: c.RemoveTab? ==> c.flaggedFirst
      ensures tracker.ignoredTabs == AfterClosures(old(tracker.ignoredTabs), Ids(toClose), host.remove)
    {
      calls := [];
      var i := 0;
      while i < |toClose|
        invariant 0 <= i <= |toClose|
        invariant trace == old(trace) + calls
        invariant calls == CloseSteps(toClose[..i], keepTab, host)
        invariant RemovedIds(calls) == Ids(toClose[..i])
        invariant forall c <- calls :: c.RemoveTab? ==> c.flaggedFirst
        invariant tracker.ignoredTabs == AfterClosures(old(tracker.ignoredTabs), Ids(toClose[..i]), host.remove)
      {
        var success := CloseDuplicate(toClose[i].id, keepTab, host);
        ghost var step := CloseStep(toClose[i].id, keepTab, host);
        CloseStepsOfPrefix(toClose, i, keepTab, host);
        CloseEachStep(old(trace), calls, step, toClose, i, keepTab.id, old(tracker.ignoredTabs), host.remove);
        calls := calls + step;
        i := i + 1;
      }
      assert toClose[..i] == toClose;
    }

    /**
     * closeAllDuplicates: group all tabs, and for every group flag and
     * request the removal of every tab but the survivor, then schedule the
     * survivor's activation if it is in the background. Removal outcomes are
     * not consulted: the flags stay set whether or not a removal succeeds.
     * Returns the number of groups and of removal requests (the two figures
     * the source logs).
     */
    method CloseAllDuplicates(host: Host) returns (groupCount: nat, closed: nat, ghost groups: seq<Group>)
      requires Valid()
      modifies tracker`ignoredTabs, this`trace
      ensures Valid()
      ensures IsDuplicateGrouping(parse, old(tracker.ignoredTabs), host.all, groups)
      ensures groupCount == |groups|
      ensures forall g <- groups :: |g.tabs| > 0
      ensures trace == old(trace) + BulkPlan(groups, old(tracker.Stamps()))
      ensures tracker.ignoredTabs == old(tracker.ignoredTabs) + ClosedIds(groups, old(tracker.Stamps()))
      ensures closed == |RemovedIds(BulkPlan(groups, old(tracker.Stamps())))|
    {
      var duplicateGroups := FindAllDuplicates(host.all);
      groups := duplicateGroups;
      if |duplicateGroups| == 0 {
        return 0, 0, groups;
      }
      closed := CloseGroups(duplicateGroups, tracker.Stamps());
      groupCount := |duplicateGroups|;
    }

    /** The loop of closeAllDuplicates: close the non-survivors of each group in turn. */
    method CloseGroups(duplicateGroups: seq<Group>, st: Stamps) returns (closed: nat)
      requires forall g <- duplicateGroups :: |g.tabs| > 0
      modifies tracker`ignoredTabs, this`trace
      ensures trace == old(trace) + BulkPlan(duplicateGroups, st)
      ensures tracker.ignoredTabs == old(tracker.ignoredTabs) + ClosedIds(duplicateGroups, st)
      ensures closed == |RemovedIds(BulkPlan(duplicateGroups, st))|
    {
      closed := 0;
      var i := 0;
      while i < |duplicateGroups|
        invariant 0 <= i <= |duplicateGroups|
        invariant trace == old(trace) + BulkPlan(duplicateGroups[..i], st)
        invariant tracker.ignoredTabs == old(tracker.ignoredTabs) + ClosedIds(duplicateGroups[..i], st)
        invariant closed == |RemovedIds(BulkPlan(duplicateGroups[..i], st))|
      {
        assert duplicateGroups[i] in duplicateGroups;
        ghost var trace1, ignored1 := trace, tracker.ignoredTabs;
        var n := CloseGroupOf(duplicateGroups[i], st);
        CloseGroupsStep(duplicateGroups, i, st, old(trace), old(tracker.ignoredTabs), trace1, ignored1, closed, trace, tracker.ignoredTabs, n);
        closed := closed + n;
        i := i + 1;
      }
      assert duplicateGroups[..i] == duplicateGroups;
    }

    /** The body of closeAllDuplicates' loop for one group: choose the survivor, then close the rest. */
    method CloseGroupOf(g: Group, st: Stamps) returns (closed: nat)
      requires |g.tabs| > 0
      modifies tracker`ignoredTabs, this`trace
      ensures trace == old(trace) + GroupPlan(g, st)
      ensures tracker.ignoredTabs == old(tracker.ignoredTabs) + IdSet(Others(g.tabs, SelectBestTab(g.tabs, st).id))
      ensures closed == |RemovedIds(GroupPlan(g, st))|
    {
      var tabToKeep := SelectBestTab(g.tabs, st);
      var tabsToClose := Others(g.tabs, tabToKeep.id);
      closed := CloseGroup(tabsToClose, tabToKeep);
      AppendAssociates(old(trace), RemoveRequests(tabsToClose),
        if !tabToKeep.active && |tabsToClose| > 0 then [ScheduleActivation(tabToKeep.id)] else []);
      RemovedIdsAppend(RemoveRequests(tabsToClose),
        if !tabToKeep.active && |tabsToClose| > 0 then [ScheduleActivation(tabToKeep.id)] else []);
      RemoveRequestsRemove(tabsToClose);
    }

    /**
     * One group of closeAllDuplicates, once its survivor is chosen: flag and
     * request the removal of each tab to close, then schedule the survivor's
     * activation if it is in the background and something was closed.
     * Returns the number of removal requests.
     */
    method CloseGroup(tabsToClose: seq<Tab>, tabToKeep: Tab) returns (closed: nat)
      modifies tracker`ignoredTabs, this`trace
      ensures trace == old(trace) + RemoveRequests(tabsToClose) +
        (if !tabToKeep.active && |tabsToClose| > 0 then [ScheduleActivation(tabToKeep.id)] else [])
      ensures tracker.ignoredTabs == old(tracker.ignoredTabs) + IdSet(tabsToClose)
      ensures closed == |tabsToClose|
    {
      closed := 0;
      var j := 0;
      while j < |tabsToClose|
        invariant 0 <= j <= |tabsToClose|
        invariant trace == old(trace) + RemoveRequests(tabsToClose[..j])
        invariant tracker.ignoredTabs == old(tracker.ignoredTabs) + IdSet(tabsToClose[..j])
        invariant closed == j
      {
        tracker.Ignore(tabsToClose[j].id);
        trace := trace + [RemoveTab(tabsToClose[j].id, tracker.IsIgnored(tabsToClose[j].id))];
        closed := closed + 1;
        assert tabsToClose[..j + 1][..j] == tabsToClose[..j];
        IdSetOfPrefix(tabsToClose, j);
        j := j + 1;
      }
      if !tabToKeep.active && |tabsToClose| > 0 {
        trace := trace + [ScheduleActivation(tabToKeep.id)];
      }
      assert tabsToClose[..j] == tabsToClose;
    }

    /** destroy: tear down the tracker. */
    method Destroy()
      modifies tracker
      ensures tracker.ignoredTabs == {} && tracker.processingTabs == {} && tracker.patternCache == []
      ensures tracker.completionTimes == map[] && tracker.creationTimes == map[] && !tracker.cleanupScheduled
    {
      tracker.Destroy();
    }
  }
}
