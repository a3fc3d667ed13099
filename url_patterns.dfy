/**
 * The URL canonicaliser of the duplicate-tab engine: `URLPatternHandler`
 * (isValidURL, createDuplicatePattern, getNormalizedKey and the key-equality
 * branch of areDuplicates) and the URL predicates of `Utils` (isBlankURL,
 * isBrowserURL, shouldProcessURL).
 *
 * A JavaScript value standing where a URL is expected is an `Option<string>`:
 * `None` is null, undefined or any non-string value. The empty string is a
 * `Some("")`, which JavaScript treats as false.
 */
module UrlPatterns {
  import opened Wrappers

  /** The fields of a parsed URL that the engine reads. */
  datatype ParsedUrl = ParsedUrl(protocol: string, hostname: string, pathname: string)

  /** The platform's URL parser (`new URL(url)`); `None` when it throws. */
  type Parser = string -> Option<ParsedUrl>

  /** The record createDuplicatePattern builds for a URL. */
  datatype PatternData = PatternData(
    key: string,
    originalUrl: string,
    hostname: string,
    pathname: string,
    chromePatterns: seq<string>)

  /** CONFIG.IGNORED_DOMAINS */
  const IGNORED_DOMAINS: set<string> := {"localhost", "127.0.0.1", "chrome-extension"}

  // ---------------------------------------------------------------------------
  // ASCII case folding: `toLowerCase` on host names and the `i` flag of the
  // scheme test.

  function LowerChar(c: char): char {
    if 'A' <= c <= 'Z' then (c as int + 32) as char else c
  }

  function Lower(s: string): (r: string)
    ensures |r| == |s|
    ensures forall i :: 0 <= i < |s| ==> r[i] == LowerChar(s[i])
  {
    if s == [] then [] else [LowerChar(s[0])] + Lower(s[1..])
  }

  // ---------------------------------------------------------------------------
  // URLPatternHandler

  /** The regular expression `/^https?:\/\//i`, read left to right. */
  predicate MatchesHttpScheme(s: string) {
    |s| >= 7 && Lower(s[..4]) == "http" &&
    (s[4..7] == "://" || (|s| >= 8 && LowerChar(s[4]) == 's' && s[5..8] == "://"))
  }

  /** isValidURL: a non-empty string that starts with `http://` or `https://`, in any case. */
  function IsValidURL(url: Option<string>): (r: bool)
    ensures r <==> url.Some? && ("http://" <= Lower(url.value) || "https://" <= Lower(url.value))
  {
    if url.None? then false
    else
      HttpSchemeIsCaseInsensitivePrefix(url.value);
      url.value != "" && MatchesHttpScheme(url.value)
  }

  lemma HttpSchemeIsCaseInsensitivePrefix(s: string)
    ensures MatchesHttpScheme(s) <==> "http://" <= Lower(s) || "https://" <= Lower(s)
  {
    if |s| >= 7 {
      LowerPrefix(s, 4);
      SeparatorIsCaseless(s, 4);
      HttpPrefix(Lower(s));
      if |s| >= 8 {
        SeparatorIsCaseless(s, 5);
        HttpsPrefix(Lower(s));
      }
    }
  }

  lemma HttpPrefix(t: string)
    requires |t| >= 7
    ensures "http://" <= t <==> t[..4] == "http" && t[4..7] == "://"
  {
    assert t[..7] == t[..4] + t[4..7];
  }

  lemma HttpsPrefix(t: string)
    requires |t| >= 8
    ensures "https://" <= t <==> t[..4] == "http" && t[4] == 's' && t[5..8] == "://"
  {
    assert t[..8] == t[..4] + [t[4]] + t[5..8];
  }

  /** Case folding commutes with taking a prefix. */
  lemma LowerPrefix(s: string, n: nat)
    requires n <= |s|
    ensures Lower(s)[..n] == Lower(s[..n])
  {
  }

  /** `://` survives case folding unchanged and nothing else folds onto it. */
  lemma SeparatorIsCaseless(s: string, k: nat)
    requires k + 3 <= |s|
    ensures Lower(s)[k..k + 3] == "://" <==> s[k..k + 3] == "://"
  {
    var u, t := s[k..k + 3], Lower(s)[k..k + 3];
    forall i | 0 <= i < 3 ensures t[i] == LowerChar(u[i]) {
      assert t[i] == Lower(s)[k + i] && u[i] == s[k + i];
    }
    FoldedSeparator(u, t);
  }

  lemma FoldedSeparator(u: string, t: string)
    requires |u| == 3 && |t| == 3
    requires forall i :: 0 <= i < 3 ==> t[i] == LowerChar(u[i])
    ensures t == "://" <==> u == "://"
  {
    NonLetterIsCaseless(u[0], ':');
    NonLetterIsCaseless(u[1], '/');
    NonLetterIsCaseless(u[2], '/');
    IsSeparator(t);
    IsSeparator(u);
  }

  /** A character folds onto a non-letter exactly when it is that character. */
  lemma NonLetterIsCaseless(c: char, d: char)
    requires !('a' <= d <= 'z') && !('A' <= d <= 'Z')
    ensures LowerChar(c) == d <==> c == d
  {
    if 'A' <= c <= 'Z' {
      assert LowerChar(c) as int == c as int + 32;
      assert 'a' as int <= LowerChar(c) as int <= 'z' as int;
    }
  }

  lemma IsSeparator(t: string)
    requires |t| == 3
    ensures t == "://" <==> t[0] == ':' && t[1] == '/' && t[2] == '/'
  {
    if t[0] == ':' && t[1] == '/' && t[2] == '/' {
      assert t == [t[0], t[1], t[2]];
    }
  }

  /** The path with one trailing `/` removed, except that the root path `/` stays. */
  function NormalizePath(path: string): (r: string)
    ensures r == path || r + "/" == path
    ensures r != path <==> path != "/" && |path| > 0 && path[|path| - 1] == '/'
  {
    if path == "/" then "/"
    else if |path| > 0 && path[|path| - 1] == '/' then path[..|path| - 1]
    else path
  }

  /** `hostname.replace(/^www\./, '')`: one leading `www.` removed. */
  function StripWww(hostname: string): (r: string)
    ensures r == hostname || "www." + r == hostname
    ensures r != hostname <==> "www." <= hostname
  {
    if "www." <= hostname then hostname[4..] else hostname
  }

  /** `p` names `host + path` for any scheme, with an optional `www.` and an optional trailing `/`. */
  predicate NamesKey(p: string, host: string, path: string) {
    p == "*://" + host + path || p == "*://" + host + path + "/" ||
    p == "*://www." + host + path || p == "*://www." + host + path + "/"
  }

  /** The coarse host-query patterns for a canonical host and path. */
  function ChromePatterns(host: string, path: string): (ps: seq<string>)
    ensures |ps| == (if path == "/" then 1 else 4)
    ensures ps[0] == "*://" + host + path
    ensures forall p <- ps :: NamesKey(p, host, path)
  {
    if path == "/" then ["*://" + host + "/"]
    else [
      "*://" + host + path,
      "*://" + host + path + "/",
      "*://www." + host + path,
      "*://www." + host + path + "/"
    ]
  }

  /**
   * createDuplicatePattern: null for a missing, empty, non-http(s) or
   * unparsable URL; otherwise the canonical host (`www.` stripped, then
   * lower-cased), the normalised path, the key `host + path` and the patterns.
   */
  function CreateDuplicatePattern(parse: Parser, url: Option<string>): (r: Option<PatternData>)
    ensures r.Some? <==> IsValidURL(url) && parse(url.value).Some?
    ensures r.Some? ==> r.value.originalUrl == url.value
    ensures r.Some? ==> r.value.key == r.value.hostname + r.value.pathname
    ensures r.Some? ==> |r.value.chromePatterns| == (if r.value.pathname == "/" then 1 else 4)
    ensures r.Some? ==> r.value.chromePatterns[0] == "*://" + r.value.key
  {
    if url.None? || url.value == "" || !IsValidURL(url) then None
    else
      match parse(url.value)
      case None => None
      case Some(parsed) =>
        var baseHostname := Lower(StripWww(parsed.hostname));
        var normalizedPath := NormalizePath(parsed.pathname);
        Some(PatternData(
          baseHostname + normalizedPath,
          url.value,
          baseHostname,
          normalizedPath,
          ChromePatterns(baseHostname, normalizedPath)))
  }

  /**
   * getNormalizedKey: the pattern's key, or null when there is no pattern or
   * the key is the empty string (which `||` treats as false).
   */
  function GetNormalizedKey(parse: Parser, url: Option<string>): (r: Option<string>)
    ensures r.Some? ==> IsValidURL(url) && parse(url.value).Some?
    ensures r.Some? ==> r.value != ""
    ensures r.Some? ==>
      var p := parse(url.value).value;
      r.value == Lower(StripWww(p.hostname)) + NormalizePath(p.pathname)
    ensures r.None? && IsValidURL(url) && parse(url.value).Some? ==>
      var p := parse(url.value).value;
      Lower(StripWww(p.hostname)) + NormalizePath(p.pathname) == ""
  {
    match CreateDuplicatePattern(parse, url)
    case None => None
    case Some(data) => if data.key != "" then Some(data.key) else None
  }

  /** areDuplicates without URLPattern support: both patterns exist and their keys agree. */
  function AreDuplicates(parse: Parser, url1: Option<string>, url2: Option<string>): (r: bool)
    ensures r <==>
      CreateDuplicatePattern(parse, url1).Some? && CreateDuplicatePattern(parse, url2).Some? &&
      CreateDuplicatePattern(parse, url1).value.key == CreateDuplicatePattern(parse, url2).value.key
  {
    if url1.None? || url1.value == "" || url2.None? || url2.value == "" then false
    else
      match CreateDuplicatePattern(parse, url1)
      case None => false
      case Some(pattern1) =>
        match CreateDuplicatePattern(parse, url2)
        case None => false
        case Some(pattern2) => pattern1.key == pattern2.key
  }

  // ---------------------------------------------------------------------------
  // Utils

  /** isBlankURL: missing, empty or `about:blank`; never a valid http(s) URL. */
  function IsBlankURL(url: Option<string>): (r: bool)
    ensures r ==> !IsValidURL(url)
  {
    url.None? || url.value == "" || url.value == "about:blank"
  }

  /** isBrowserURL: a browser-internal page, by case-sensitive prefix; never a valid http(s) URL. */
  function IsBrowserURL(url: Option<string>): (r: bool)
    ensures r ==> url.Some? && !IsValidURL(url)
  {
    var r := url.Some? &&
      ("about:" <= url.value || "chrome://" <= url.value ||
       "edge://" <= url.value || "moz-extension://" <= url.value);
    if r then
      assert url.value[0] in "acem" && Lower(url.value)[0] == LowerChar(url.value[0]);
      r
    else r
  }

  /**
   * shouldProcessURL: a valid http(s) URL that parses and whose lower-cased
   * host name is not an ignored domain, neither exactly nor by its last two
   * labels. Such a URL is never blank and never browser-internal.
   */
  function ShouldProcessURL(parse: Parser, url: Option<string>): (r: bool)
    ensures r ==> IsValidURL(url) && parse(url.value).Some?
    ensures r ==> Lower(parse(url.value).value.hostname) !in IGNORED_DOMAINS
    ensures r ==> !IsBlankURL(url) && !IsBrowserURL(url)
  {
    if url.None? || url.value == "" || !IsValidURL(url) then false
    else
      match parse(url.value)
      case None => false
      case Some(parsed) =>
        var hostname := Lower(parsed.hostname);
        var baseDomain := BaseDomain(hostname);
        hostname !in IGNORED_DOMAINS && baseDomain !in IGNORED_DOMAINS
  }

  // ---------------------------------------------------------------------------
  // `hostname.split('.').slice(-2).join('.')`

  /** String.prototype.split with a one-character separator. */
  function Split(s: string, sep: char): (parts: seq<string>)
    ensures |parts| >= 1
  {
    if s == [] then [[]]
    else
      var rest := Split(s[1..], sep);
      if s[0] == sep then [[]] + rest else [[s[0]] + rest[0]] + rest[1..]
  }

  /** Array.prototype.join with a one-character separator. */
  function Join(parts: seq<string>, sep: char): string
    requires |parts| >= 1
  {
    if |parts| == 1 then parts[0] else parts[0] + [sep] + Join(parts[1..], sep)
  }

  /**
   * The last two dot-separated labels of a host name: the host name itself
   * when it has at most one dot, and otherwise the part after its
   * second-to-last dot, a proper suffix, preceded by a dot, that holds
   * exactly one dot.
   */
  function BaseDomain(hostname: string): (r: string)
    ensures Count(hostname, '.') <= 1 ==> r == hostname
    ensures Count(hostname, '.') >= 2 ==>
      |r| < |hostname| && hostname[|hostname| - |r| - 1..] == "." + r && Count(r, '.') == 1
  {
    var labels := Split(hostname, '.');
    var from := if |labels| > 2 then |labels| - 2 else 0;
    LastTwoLabels(hostname, labels, from);
    Join(labels[from..], '.')
  }

  lemma {:induction false} JoinSplit(s: string, sep: char)
    ensures Join(Split(s, sep), sep) == s
  {
    if s != [] {
      JoinSplit(s[1..], sep);
      var rest := Split(s[1..], sep);
      if s[0] == sep {
        calc {
          Join(Split(s, sep), sep);
          [] + [sep] + Join(rest, sep);
          [s[0]] + s[1..];
        }
      } else if |rest| == 1 {
        calc {
          Join(Split(s, sep), sep);
          [s[0]] + rest[0];
          [s[0]] + s[1..];
        }
      } else {
        calc {
          Join(Split(s, sep), sep);
          { assert Split(s, sep)[1..] == rest[1..]; }
          [s[0]] + rest[0] + [sep] + Join(rest[1..], sep);
          [s[0]] + Join(rest, sep);
          [s[0]] + s[1..];
        }
      }
      assert [s[0]] + s[1..] == s;
    }
  }

  /** The number of occurrences of `c` in `s`. */
  function Count(s: string, c: char): nat {
    if s == [] then 0 else (if s[0] == c then 1 else 0) + Count(s[1..], c)
  }

  lemma {:induction false} CountConcat(a: string, b: string, c: char)
    ensures Count(a + b, c) == Count(a, c) + Count(b, c)
  {
    if a == [] {
      assert a + b == b;
    } else {
      assert (a + b)[0] == a[0];
      assert (a + b)[1..] == a[1..] + b;
      CountConcat(a[1..], b, c);
    }
  }

  lemma {:induction false} CountAbsent(s: string, c: char)
    requires c !in s
    ensures Count(s, c) == 0
  {
    if s != [] {
      CountAbsent(s[1..], c);
    }
  }

  lemma {:induction false} SplitCount(s: string, sep: char)
    ensures |Split(s, sep)| == Count(s, sep) + 1
    ensures forall p <- Split(s, sep) :: sep !in p
  {
    if s != [] {
      SplitCount(s[1..], sep);
      var rest := Split(s[1..], sep);
      if s[0] != sep {
        assert rest[0] in rest;
        forall p <- Split(s, sep) ensures sep !in p {
          if p != [s[0]] + rest[0] {
            assert p in rest;
          }
        }
      }
    }
  }

  lemma {:induction false} JoinAt(parts: seq<string>, sep: char, k: nat)
    requires 0 < k < |parts|
    ensures Join(parts, sep) == Join(parts[..k], sep) + [sep] + Join(parts[k..], sep)
  {
    if k > 1 {
      JoinAt(parts[1..], sep, k - 1);
      assert parts[1..][..k - 1] == parts[..k][1..];
      assert parts[1..][k - 1..] == parts[k..];
    }
  }

  lemma JoinTwoCount(parts: seq<string>, sep: char)
    requires |parts| == 2 && sep !in parts[0] && sep !in parts[1]
    ensures Count(Join(parts, sep), sep) == 1
  {
    assert parts[1..] == [parts[1]];
    assert Join(parts, sep) == parts[0] + [sep] + parts[1];
    CountConcat(parts[0] + [sep], parts[1], sep);
    CountConcat(parts[0], [sep], sep);
    CountAbsent(parts[0], sep);
    CountAbsent(parts[1], sep);
  }

  /** Joining the last two labels of a split host name (all of them when fewer). */
  lemma LastTwoLabels(hostname: string, labels: seq<string>, from: nat)
    requires labels == Split(hostname, '.') && from == if |labels| > 2 then |labels| - 2 else 0
    ensures var b := Join(labels[from..], '.');
      (Count(hostname, '.') <= 1 ==> b == hostname) &&
      (Count(hostname, '.') >= 2 ==> |b| < |hostname| && hostname[|hostname| - |b| - 1..] == "." + b && Count(b, '.') == 1)
  {
    JoinSplit(hostname, '.');
    SplitCount(hostname, '.');
    if |labels| > 2 {
      assert labels[from] in labels && labels[from + 1] in labels;
      JoinLastTwo(hostname, labels, from);
    } else {
      assert labels[0..] == labels;
    }
  }

  /** A join of three or more labels ends with a dot and the join of its last two, which holds one dot. */
  lemma JoinLastTwo(hostname: string, labels: seq<string>, k: nat)
    requires |labels| > 2 && k == |labels| - 2 && hostname == Join(labels, '.')
    requires '.' !in labels[k] && '.' !in labels[k + 1]
    ensures var b := Join(labels[k..], '.');
      |b| < |hostname| && hostname[|hostname| - |b| - 1..] == "." + b && Count(b, '.') == 1
  {
    var b := Join(labels[k..], '.');
    JoinAt(labels, '.', k);
    var a := Join(labels[..k], '.');
    assert hostname == a + "." + b;
    assert hostname[|a| + 1..] == b;
    JoinTwoCount(labels[k..], '.');
  }

  /**
   * With the configured ignored domains (none of which is a pair of labels),
   * the last-two-labels test never excludes a host that the exact test
   * admits: shouldProcessURL reduces to the exact host test.
   */
  lemma ShouldProcessUsesExactHostOnly(parse: Parser, url: Option<string>)
    ensures ShouldProcessURL(parse, url) <==>
      IsValidURL(url) && parse(url.value).Some? &&
      Lower(parse(url.value).value.hostname) !in IGNORED_DOMAINS
  {
    if IsValidURL(url) && parse(url.value).Some? {
      var h := Lower(parse(url.value).value.hostname);
      OneDotIsNotIgnored(BaseDomain(h));
    }
  }

  lemma OneDotIsNotIgnored(d: string)
    ensures Count(d, '.') == 1 ==> d !in IGNORED_DOMAINS
  {
    DotCountsOfIgnoredDomains(d);
    IgnoredDomainCases(d);
  }

  lemma IgnoredDomainCases(d: string)
    ensures d in IGNORED_DOMAINS ==> d == "localhost" || d == "127.0.0.1" || d == "chrome-extension"
  {
  }

  lemma DotCountsOfIgnoredDomains(d: string)
    ensures Count(d, '.') == 1 ==> d != "localhost" && d != "chrome-extension" && d != "127.0.0.1"
  {
    NoDotIn(d, "localhost");
    NoDotIn(d, "chrome-extension");
    LoopbackDots(d);
  }

  lemma NoDotIn(d: string, name: string)
    requires '.' !in name
    ensures d == name ==> Count(d, '.') == 0
  {
    if d == name {
      CountAbsent(d, '.');
    }
  }

  lemma LoopbackDots(d: string)
    ensures d == "127.0.0.1" ==> Count(d, '.') == 3
  {
    if d == "127.0.0.1" {
      ThreeDotsInLoopback();
    }
  }

  lemma ThreeDotsInLoopback()
    ensures Count("127.0.0.1", '.') == 3
  {
  }

  /** A URL whose host is `localhost` is never processed, however its path reads. */
  lemma LocalhostNeverProcessed(parse: Parser, url: string)
    requires parse(url).Some? && parse(url).value.hostname == "localhost"
    ensures !ShouldProcessURL(parse, Some(url))
  {
    LocalhostIsLowercase();
  }

  lemma LocalhostIsLowercase()
    ensures Lower("localhost") in IGNORED_DOMAINS
  {
    LowerLeavesLowercase("localhost");
  }

  /** Case folding leaves a string without upper-case letters as it is. */
  lemma LowerLeavesLowercase(s: string)
    requires forall i :: 0 <= i < |s| ==> !('A' <= s[i] <= 'Z')
    ensures Lower(s) == s
  {
  }

  // ---------------------------------------------------------------------------
  // Properties of the canonical key

  /**
   * A URL whose host carries a `www.` and whose path carries one trailing `/`
   * has the same key as the URL without either.
   */
  lemma WwwAndTrailingSlashShareKey(parse: Parser, url1: string, url2: string, host: string, path: string)
    requires IsValidURL(Some(url1)) && IsValidURL(Some(url2))
    requires parse(url1).Some? && parse(url1).value.hostname == "www." + host
    requires parse(url1).value.pathname == path + "/"
    requires parse(url2).Some? && parse(url2).value.hostname == host
    requires parse(url2).value.pathname == path
    requires !("www." <= host) && path != "" && path[|path| - 1] != '/'
    ensures GetNormalizedKey(parse, Some(url1)) == GetNormalizedKey(parse, Some(url2)) != None
    ensures AreDuplicates(parse, Some(url1), Some(url2))
  {
    assert StripWww("www." + host) == host;
    assert NormalizePath(path + "/") == path;
  }

  /**
   * The path takes part in the key verbatim (no case folding): two URLs on the
   * same host whose normalised paths differ are never duplicates.
   */
  lemma DistinctPathsDistinctKeys(parse: Parser, url1: string, url2: string)
    requires parse(url1).Some? && parse(url2).Some?
    requires parse(url1).value.hostname == parse(url2).value.hostname
    requires NormalizePath(parse(url1).value.pathname) != NormalizePath(parse(url2).value.pathname)
    ensures !AreDuplicates(parse, Some(url1), Some(url2))
  {
    if IsValidURL(Some(url1)) && IsValidURL(Some(url2)) {
      var d1 := CreateDuplicatePattern(parse, Some(url1)).value;
      var d2 := CreateDuplicatePattern(parse, Some(url2)).value;
      PrefixedDiffer(d1.hostname, d1.pathname, d2.pathname);
    }
  }

  lemma PrefixedDiffer(b: string, x: string, y: string)
    requires x != y
    ensures b + x != b + y
  {
    assert (b + x)[|b|..] == x;
    assert (b + y)[|b|..] == y;
  }

  /** Being duplicates is symmetric and transitive. */
  lemma AreDuplicatesIsEquivalence(parse: Parser, a: Option<string>, b: Option<string>, c: Option<string>)
    ensures AreDuplicates(parse, a, b) == AreDuplicates(parse, b, a)
    ensures AreDuplicates(parse, a, b) && AreDuplicates(parse, b, c) ==> AreDuplicates(parse, a, c)
    ensures AreDuplicates(parse, a, a) <==> CreateDuplicatePattern(parse, a).Some?
  {
  }
}
