# DeDupe2Activate: the duplicate-tab engine, in Dafny

This project models the duplicate-tab engine of the DeDupe2Activate browser extension (`background.js`). It covers three parts and proves what each promises.

- **URL canonicaliser** (`URLPatternHandler`, and the `Utils` predicates `isBlankURL`, `isBrowserURL`, `shouldProcessURL`). An http(s) URL becomes a canonical key: the lower-cased host without a leading `www.`, followed by the path without one trailing `/` (the root `/` stays). The canonicaliser also builds the one or four coarse `tabs.query` patterns for that key. `new URL` is an abstract parser: a function from the URL string to an optional record of protocol, host name and path.
- **Tab tracker** (`EnhancedTabTracker`). It is a class over the sets of ignored and in-progress tabs, the completion and creation time maps, and the pattern cache. The cache is a JavaScript `Map`, so it is modelled as its entries in iteration order, each key once. It has two eviction rules:
  - on overflow, `cachePattern` keeps the 250 most recently used entries;
  - `cleanup` keeps the 250 entries inserted last.
- **Manager** (`DuplicateTabManager`). It covers:
  - the sequential single-tab scan, which stops at the first query that finds a match;
  - grouping of all tabs by key;
  - the survivor choice (active, then audible, then pinned, then later completion time, then lower id);
  - `closeDuplicate` with its flag-then-remove discipline and rollback;
  - the per-tab processing guard;
  - bulk closure.

The browser is an input. The `Host` record holds query answers, `tabs.get` answers, removal outcomes and the full tab list. `Date.now()` is a `now` parameter. Three kinds of request are appended to a ghost `trace`, so that orderings can be stated: a `tabs.query` for one pattern, a removal (with whether the tab was flagged first), and a scheduled activation. The `tabs.get` lookup of `closeDuplicate` and the unfiltered `tabs.query` of `findAllDuplicates` are read from `Host` and not recorded.

Files:
- `wrappers.dfy`: `Option`.
- `url_patterns.dfy`: the canonicaliser and the URL predicates.
- `tabs.dfy`: tabs and their time stamps.
- `selection.dfy`: `selectBestTab`.
- `pattern_cache.dfy`: the cache as a value, and its eviction rules.
- `tab_tracker.dfy`: the tracker class.
- `scanner.dfy`: the specifications of the single-tab scan and of the grouping.
- `manager.dfy`: the manager class and the closure plans.

Facts about the code that the model keeps:
- `selectBestTab` has no unsaved-data probe. Its order is active > audible > pinned > completion time > id, and the LATER completion time wins.
- No `http:` to `https:` upgrade takes part in the key. The scheme is dropped from the key, so both schemes share a key.
- The cleanup comment speaks of LRU eviction. The code keeps the last 250 entries in insertion order, and `getCachedPattern` does not reorder the `Map`. The model does the same (`TrimToLatestInserted`).
- Bulk closure does not go through `closeDuplicate`. It never rolls a flag back. It schedules the survivor's activation whenever the survivor is in the background and some tab of the group is closed, whether or not the closed tab was active.
- `closeDuplicate`'s rollback deletes the flag even when the tab was already flagged before the call.
- The last-two-labels test in `shouldProcessURL` can never reject a host that the exact test lets through: no ignored domain has exactly one dot (`ShouldProcessUsesExactHostOnly`).
- Where `URLPattern` is not supported, the `!patternData` exit after `createDuplicatePattern` in `findDuplicatesForSingleTab` never fires: a URL that passed `shouldProcessURL` always parses. With `URLPattern`, its constructor can throw (for instance on a path such as `/a(b`), and then the exit is taken; that branch is not modelled (see below).
- `getNormalizedKey` applied to a key returns null, because a key has no scheme.
- The failure count in `closeAllDuplicates` is always 0, because `safeRemoveTab` never rejects. The model returns the two counts the source logs: groups and removal requests.

## Model

| member | source | states |
|---|---|---|
| UrlPatterns.IsValidURL | background.js:21-24 | true exactly for a string whose lower-cased form starts with `http://` or `https://` |
| UrlPatterns.HttpSchemeIsCaseInsensitivePrefix | background.js:23 | the left-to-right reading of `/^https?:\/\//i` accepts exactly the strings whose lower-cased form has an http or https prefix |
| UrlPatterns.NormalizePath | background.js:34 | the path is unchanged or loses one trailing `/`, and it changes exactly when it ends in `/` and is not the root |
| UrlPatterns.StripWww | background.js:33 | the host loses one leading `www.` exactly when it has one |
| UrlPatterns.ChromePatterns | background.js:36-43 | one pattern for the root path and four otherwise; the first is `*://` + key, and each names the key with optional `www.` and optional trailing `/` |
| UrlPatterns.CreateDuplicatePattern | background.js:26-77 | a record exists exactly when the URL is a valid http(s) URL that parses; it keeps the original URL, its key is host + path, and it carries 1 or 4 patterns with the first naming the key |
| UrlPatterns.GetNormalizedKey | background.js:93-96 | a key exists only for a valid URL that parses, is never empty, and is the lower-cased `www.`-less host followed by the normalised path; an empty would-be key reads as null |
| UrlPatterns.AreDuplicates | background.js:79-91 | in the key-equality branch, two URLs are duplicates exactly when both have patterns and their keys are equal |
| UrlPatterns.AreDuplicatesIsEquivalence | background.js:79-91 | duplicate-ness is symmetric and transitive, and reflexive exactly on URLs that have a pattern |
| UrlPatterns.WwwAndTrailingSlashShareKey | background.js:33-34 | `www.host/path/` and `host/path` get the same non-null key and are duplicates |
| UrlPatterns.DistinctPathsDistinctKeys | background.js:34 | same host with different normalised paths (path case preserved) never gives duplicates |
| UrlPatterns.ShouldProcessURL | background.js:131-145 | a processed URL is a valid http(s) URL that parses, whose lower-cased host is not an ignored domain, and which is neither blank nor browser-internal |
| UrlPatterns.IsBlankURL | background.js:120-122 | a missing, empty or `about:blank` URL is never a valid http(s) URL |
| UrlPatterns.IsBrowserURL | background.js:124-129 | a browser-internal URL (`about:`, `chrome://`, `edge://`, `moz-extension://`) is present and never a valid http(s) URL |
| UrlPatterns.BaseDomain | background.js:138 | a host with at most one dot is its own base domain; otherwise the base domain is a proper suffix after a dot, with exactly one dot |
| UrlPatterns.JoinSplit | background.js:138 | joining the split labels back gives the host name |
| UrlPatterns.ShouldProcessUsesExactHostOnly | background.js:131-145 | shouldProcessURL holds exactly when the URL is valid, parses, and its exact lower-cased host is not ignored: the base-domain test adds nothing |
| UrlPatterns.LocalhostNeverProcessed | background.js:131-145 | a URL whose host is `localhost` is never processed |
| Tabs.Stamps.Of | background.js:227-229 | the completion time when stored and non-zero, else the creation time when stored, else 0 |
| Selection.RankOrder | background.js:396-417 | the rank order holds exactly when the reduce comparator keeps the first tab: active, then audible, then pinned, then later time, then lower id; with equal ids the comparator keeps the second tab |
| Selection.Pick | background.js:396-417 | one comparator step returns one of its two tabs, ranked at least as high as both |
| Selection.SelectBestTab | background.js:395-418 | the result is a member of the list, ranked at least as high as every member |
| Selection.SurvivorIsActiveIfAnyIs | background.js:398-399 | if any tab is active, the survivor is active |
| Selection.SurvivorIsUniqueMaximum | background.js:395-418 | with distinct ids, any tab ranked at least as high as the survivor is the survivor |
| Selection.SurvivorIgnoresOrder | background.js:395-418 | with distinct ids, the survivor does not depend on the order of the list |
| Selection.LaterCompletionSurvives | background.js:410-413 | of any two tabs equal in activity, sound and pinning, the one with the later completion time survives, in either order |
| Selection.Others | background.js:455-456 | the tabs to close are exactly the listed tabs whose id differs from the survivor's |
| PatternCache.Lookup | background.js:246 | `Map.get` finds an entry exactly when some entry has the key, and returns an entry with that key |
| PatternCache.Put | background.js:234 | `Map.set` keeps keys distinct and holds the new entry; an existing key keeps its place in iteration order with the new value, a new key goes last, and every other entry keeps its value and position |
| PatternCache.PutLookup | background.js:234 | after a set, the key maps to the new entry and every other key to what it did |
| PatternCache.Refresh | background.js:245-251 | `getCachedPattern` restamps only the entry of the key, leaving keys, records and order unchanged |
| PatternCache.RefreshLookup | background.js:245-251 | after a refresh, keys stay distinct, the key maps to its old entry stamped `now`, and every other key maps to what it did |
| PatternCache.SortByRecencyCorrect | background.js:238 | the sort returns a permutation of its input, most recently used first, keeping keys distinct |
| PatternCache.SortByRecencyStable | background.js:238 | the sort is stable: entries with the same `lastUsed` stamp keep their relative order from the Map's iteration order |
| PatternCache.StoreBounded | background.js:231-243 | after cachePattern, from any cache with distinct keys, the cache holds each key once and at most MAX_CACHE_SIZE entries |
| PatternCache.StoreWithoutOverflow | background.js:231-243 | without overflow, cachePattern is a plain set stamped `now` |
| PatternCache.StoreOverflowKeepsMostRecent | background.js:236-240 | on overflow exactly CLEANUP_RETENTION_SIZE entries remain, all from the cache, and no dropped entry was used more recently than a kept one |
| PatternCache.StoreKeepsNewest | background.js:231-243 | with a clock past every stored stamp, the entry just stored survives even an overflow |
| PatternCache.TrimToLatestInserted | background.js:278-283 | above MAX_CACHE_SIZE / 2 entries the cache keeps exactly its last CLEANUP_RETENTION_SIZE entries in insertion order, else it is unchanged; keys stay distinct |
| Tracker.Retained | background.js:264-275 | an id stays exactly when its time is not before the cutoff, with its time unchanged |
| Tracker.DropExpired | background.js:264-275 | the deletion loop keeps a subset of the map, with times unchanged, holding exactly the entries at or after the cutoff |
| Tracker.EnhancedTabTracker.constructor | background.js:188-197 | all sets, maps and the cache start empty, and the cleanup timer is armed |
| Tracker.EnhancedTabTracker.Ignore | background.js:199-201 | adds the id to ignoredTabs, after which isIgnored holds for it |
| Tracker.EnhancedTabTracker.IsIgnored | background.js:203-205 | true exactly when the id is in ignoredTabs, the set that ignore, closeDuplicate's rollback and remove maintain |
| Tracker.EnhancedTabTracker.IsProcessing | background.js:207-209 | true exactly when the id is in processingTabs, the set that setProcessing maintains |
| Tracker.EnhancedTabTracker.SetProcessing | background.js:211-217 | adds or deletes the id in processingTabs, so that isProcessing then answers `processing` for it |
| Tracker.EnhancedTabTracker.MarkCompleted | background.js:219-221 | records `now` as the completion time, which getCompletionTime then reports unless `now` is 0 |
| Tracker.EnhancedTabTracker.MarkCreated | background.js:223-225 | records `now` as the creation time |
| Tracker.EnhancedTabTracker.GetCompletionTime | background.js:227-229 | a stored non-zero completion time wins; the result is 0 or a stored time |
| Tracker.EnhancedTabTracker.CachePattern | background.js:231-243 | a present record is stored by the set-then-evict rule; a missing one changes nothing; the cache invariant is kept |
| Tracker.EnhancedTabTracker.GetCachedPattern | background.js:245-251 | returns the entry for the key stamped `now` (or nothing), restamps only that entry, and keeps the invariant |
| Tracker.EnhancedTabTracker.Remove | background.js:253-258 | deletes the id from all four sets and maps |
| Tracker.EnhancedTabTracker.Cleanup | background.js:260-284 | drops times older than `now - COMPLETION_TIMEOUT` and trims the cache by insertion order, keeping the invariant |
| Tracker.EnhancedTabTracker.Destroy | background.js:286-296 | clears everything and disarms the cleanup timer |
| Scanner.Matches | background.js:336-341 | the filtered answer holds exactly the listed tabs that are not the target, not ignored, processable and duplicates of the URL |
| Scanner.FirstMatch | background.js:330-351 | nothing is found exactly when every pattern was queried without a match; otherwise the result is the filtered answer of the last query issued, and every earlier query matched nothing |
| Scanner.FirstMatchAt | background.js:333-348 | when pattern k is the first whose filtered answer is non-empty, the scan returns that answer after k + 1 queries |
| Scanner.TabsWithKey | background.js:369-382 | a bucket holds exactly the listed tabs with that key |
| Scanner.FirstKeyAt | background.js:378-380 | the position of the first listed tab with a key, which is when `urlGroups` first sets that key; no earlier tab has it |
| Scanner.FileUnderKeepsOrder | background.js:378-381 | filing one more tab keeps the buckets in first-seen key order: a new key is appended last, an old key keeps its place |
| Scanner.FileUnderKeepsBuckets | background.js:369-382 | filing one more tab under its key keeps `urlGroups` equal to the bucketing of the longer prefix, contents and first-seen key order |
| Scanner.GroupedTabsAreEligible | background.js:369-377 | a grouped tab is listed, not blank, not browser-internal, not ignored, a valid URL with a non-ignored host, and has the group's key |
| Scanner.ShortListsHaveNoGroups | background.js:364 | fewer than two tabs give no group |
| Scanner.GroupedUnderOwnKey | background.js:369-391 | an eligible tab whose key is shared by at least two tabs is in the group of its own key, and in no other |
| Scanner.DuplicateGroupingIsUnique | background.js:362-393 | the duplicate map is determined by the tab list: any two groupings that meet its description are equal, contents and order |
| Manager.AfterClosuresMembership | background.js:425-437 | after a run of closeDuplicate calls, a closed id is flagged exactly when its removal succeeded, and any other id keeps its flag |
| Manager.RemoveRequestsRemove | background.js:483-486 | the bulk removal requests ask for exactly the listed tabs, in order |
| Manager.ScanUrl | background.js:312 | the loading URL when it is a non-empty string, else the tab's URL; the result is a non-empty string exactly when one of the two is |
| Manager.Scannable | background.js:314-316 | the entry guard of the single-tab scan holds exactly when shouldProcessURL does: its blank and browser-internal tests add nothing |
| Manager.SingleTabScanFindsOnlyDuplicates | background.js:311-356 | every tab found is not the target, not ignored, processable, and has the target URL's key |
| Manager.SurvivorIsSpared | background.js:449-458 | the survivor is never closed, and every other tab of `[tab, ...duplicates]` is |
| Manager.BulkKeepsOnePerGroup | background.js:471-498 | with distinct ids, each group's survivor is never flagged and every other tab of the group is |
| Manager.ClosedIdsCovers | background.js:477-486 | every non-survivor of every group is flagged by the bulk pass |
| Manager.ClosedIdsComeFromGroups | background.js:477-486 | every id the bulk pass flags is a non-survivor of some group |
| Manager.GroupByKey | background.js:369-382 | the grouping loop builds one bucket per key, each key once, holding exactly the tabs with that key in list order, with the buckets in the order their keys were first seen |
| Manager.DuplicateTabManager.constructor | background.js:301-305 | a fresh tracker whose sets, time maps and cache are empty and whose cleanup timer is armed, and an empty request record |
| Manager.DuplicateTabManager.FindDuplicatesForSingleTab | background.js:311-356 | returns the scan result of the cached-or-fresh patterns, issues exactly the queries up to the first hit, and caches the pattern for a scannable URL |
| Manager.DuplicateTabManager.ResolvePattern | background.js:318-327 | uses the cached record or builds and caches a fresh one, keeping the cache invariant |
| Manager.DuplicateTabManager.QueryUntilMatch | background.js:330-351 | the query loop returns the first non-empty filtered answer and records exactly the queries issued up to it |
| Manager.KeepInOrder | background.js:385-390 | copying the shared buckets into `duplicateGroups` in `urlGroups` order keeps them in first-seen key order |
| Manager.DuplicateTabManager.FindAllDuplicates | background.js:362-393 | the groups are exactly the keys shared by at least two eligible tabs, each with all its tabs, in first-seen key order, and none for fewer than two tabs |
| Manager.DuplicateTabManager.CloseDuplicate | background.js:420-440 | the removal is requested with the tab already flagged; the flag stays exactly when removal succeeds; activation is scheduled only when removal succeeded, the removed tab was active and the kept tab was not |
| Manager.DuplicateTabManager.HandleSingleTabDuplicates | background.js:445-466 | a tab already in progress changes nothing; otherwise the requests are exactly the scan's queries up to its first hit followed by closeDuplicate's requests for each non-survivor of `[tab, ...duplicates]` in order, each removal flagged first; flags follow the removal outcomes; the cache is updated as by the scan; the processing flag is restored |
| Manager.DuplicateTabManager.ScanAndClose | background.js:449-458 | the scan's queries, then the closures around the survivor, are exactly the requests made; the cache changes as by the scan |
| Manager.DuplicateTabManager.CloseAround | background.js:451-458 | with duplicates, closeDuplicate's requests for every tab but the survivor, in order; with none, no request |
| Manager.DuplicateTabManager.CloseEach | background.js:454-458 | the requests are exactly closeDuplicate's for each tab to close, in order: each flagged removal, followed by the survivor's activation when that removal succeeded, the closed tab was active and the survivor is not; flags follow the outcomes |
| Manager.DuplicateTabManager.CloseAllDuplicates | background.js:471-508 | groups as FindAllDuplicates, in first-seen key order, then for each group in that order flags and requests removal of every non-survivor and schedules the survivor's activation if needed, so the order of same-delay activations is fixed; the counts are groups and requests |
| Manager.DuplicateTabManager.CloseGroups | background.js:477-498 | the loop over groups issues the bulk plan and flags exactly the non-survivors of every group |
| Manager.DuplicateTabManager.CloseGroup | background.js:480-497 | flags and requests removal of each tab to close in order, then schedules activation of a background survivor when something was closed |
| Manager.DuplicateTabManager.Destroy | background.js:560-562 | clears the tracker |

## Left out

- Browser calls (`chrome.tabs.get/query/remove/update`, listener registration, `runtime` and `action` hooks) are not modelled. Their answers are the inputs of `Host`, and the requests are recorded in the ghost `trace`.
- The event listeners of `initializeEventListeners` are glue that calls the modelled handlers, and are not modelled.
- Timers are not modelled: `setTimeout`, `setInterval`, the activation delay and the startup and install delays. A scheduled activation is a request in the trace, and the cleanup interval is a flag on the tracker.
- `Utils.debounce` is not modelled. It collapses calls with the same tab id within 300 ms to the last arguments. The model calls `HandleSingleTabDuplicates` directly.
- The `URLPattern` branch of `createDuplicatePattern` and `areDuplicates` is not modelled. It is a browser library. Only the key-equality fallback is modelled.
- Real URL parsing is not modelled: `new URL` is an abstract parser given as a parameter. Case folding is ASCII only.
- Asynchronous interleaving is not modelled. Each handler is one sequential step. The `Promise.allSettled` closures of `_handleSingleTabDuplicates` are modelled as running one after another in list order. This also leaves out the aliasing between concurrent handlers.
- Logging, the error `catch` blocks that only log, and `module.exports` are not modelled. A failing `safeQueryTabs` reads as an empty answer, as the source makes it.
- `Manager.DuplicateTabManager.HandleSingleTabDuplicates`: the `try`/`finally` around the scan is not modelled, because no modelled step throws.
- `Manager.DuplicateTabManager.CloseAllDuplicates`: the failure count is not returned, because it is always 0.
- `Tracker.EnhancedTabTracker.Destroy`: clearing `cleanupInterval` is modelled as clearing a boolean flag.
