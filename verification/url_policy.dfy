/** The URL policy of `UrlScraper` in src/core/scraper/url_scraper.rs: its
    configuration, which URLs it follows, how a link becomes a URL and how a URL
    becomes a stored page path. */
module UrlPolicy {
  import opened Wrappers
  import opened Strings
  import opened Regex

  /** The configuration fields the crawl reads. `skipLink` is the optional
      callback, `filterCount` the number of filters; the output directory is not
      modelled. */
  datatype Config = Config(
    name: string,
    version: string,
    baseUrl: string,
    baseUrls: Option<seq<string>>,
    rootPath: string,
    slug: string,
    release: string,
    initialPaths: seq<string>,
    skipPaths: seq<string>,
    skipPatterns: seq<string>,
    only: Option<seq<string>>,
    onlyPatterns: Option<seq<string>>,
    trailingSlash: bool,
    rootTitle: string,
    attribution: string,
    links: seq<(string, string)>,
    skipLink: Option<string -> bool>)

  /** `UrlScraper::new`: the slug is the lowercased name with ' ' turned into '_',
      the release is the version, the only initial path is "/". */
  function New(name: string, version: string, baseUrl: string): (c: Config)
    ensures c.baseUrl == baseUrl && c.baseUrls.None? && c.rootPath == "/"
    ensures c.initialPaths == ["/"] && c.release == version && c.rootTitle == name
    ensures c.skipPaths == [] && c.skipPatterns == [] && c.only.None? && c.onlyPatterns.None?
    ensures !c.trailingSlash && c.skipLink.None?
    ensures |c.slug| == |name|
    ensures forall i :: 0 <= i < |name| ==> c.slug[i] == if name[i] == ' ' then '_' else LowerChar(name[i])
  {
    Config(name, version, baseUrl, None, "/", SlugOf(name), version, ["/"], [], [], None, None,
      false, name, "", [], None)
  }

  /** `name.to_lowercase().replace(' ', "_")` */
  function SlugOf(name: string): (r: string)
    ensures |r| == |name|
    ensures forall i :: 0 <= i < |name| ==> r[i] == if name[i] == ' ' then '_' else LowerChar(name[i])
  {
    ReplaceChar(Lower(name), ' ', '_')
  }

  /** The base URLs the crawl may enter: the list if one was set, else the single
      base URL. */
  function GetBaseUrls(c: Config): (r: seq<string>)
    ensures c.baseUrls.None? ==> r == [c.baseUrl]
    ensures c.baseUrls.Some? ==> r == c.baseUrls.value
  {
    match c.baseUrls
    case Some(urls) => urls
    case None => [c.baseUrl]
  }

  /** `with_base_urls`: an empty list changes nothing; otherwise its first URL
      becomes the base URL. */
  function WithBaseUrls(c: Config, urls: seq<string>): (r: Config)
    ensures |urls| == 0 ==> r == c
    ensures |urls| > 0 ==> r == c.(baseUrl := urls[0], baseUrls := Some(urls))
    ensures |urls| > 0 ==> GetBaseUrls(r) == urls && GetBaseUrls(r)[0] == r.baseUrl
  {
    if |urls| == 0 then c else c.(baseUrl := urls[0], baseUrls := Some(urls))
  }

  /** The base URL heads the base-URL list, as `new` and `with_base_urls` leave it. */
  predicate PrimaryFirst(c: Config) {
    |GetBaseUrls(c)| > 0 && GetBaseUrls(c)[0] == c.baseUrl
  }

  lemma PrimaryFirstKept(name: string, version: string, baseUrl: string, urls: seq<string>)
    ensures PrimaryFirst(New(name, version, baseUrl))
    ensures PrimaryFirst(WithBaseUrls(New(name, version, baseUrl), urls))
  {
  }

  predicate IsHttpUrl(path: string) {
    StartsWith(path, "http://") || StartsWith(path, "https://")
  }

  /** `normalize_url`: an http(s) URL is kept; anything else is appended to the
      base (given a trailing '/') after dropping at most one leading '/'. The
      source wraps the result in `Ok`; it never fails. */
  function NormalizeUrl(base: string, path: string): (r: string)
    ensures IsHttpUrl(path) ==> r == path
    ensures !IsHttpUrl(path) ==> StartsWith(r, base)
    ensures !IsHttpUrl(path) ==> r == WithSlash(base) + DropSlash(path)
  {
    if IsHttpUrl(path) then path else WithSlash(base) + DropSlash(path)
  }

  function WithSlash(base: string): (r: string)
    ensures EndsWith(r, "/") && StartsWith(r, base)
    ensures EndsWith(base, "/") ==> r == base
    ensures !EndsWith(base, "/") ==> r == base + "/"
  {
    if EndsWith(base, "/") then base else base + "/"
  }

  function DropSlash(path: string): (r: string)
    ensures StartsWith(path, "/") ==> r == path[1..]
    ensures !StartsWith(path, "/") ==> r == path
  {
    if StartsWith(path, "/") then path[1..] else path
  }

  /** The first base URL that prefixes `url`, if any. */
  function FirstBase(bases: seq<string>, url: string): (r: Option<nat>)
    ensures r.Some? ==> r.value < |bases| && StartsWith(url, bases[r.value])
    ensures r.Some? ==> forall j :: 0 <= j < r.value ==> !StartsWith(url, bases[j])
    ensures r.None? <==> forall j :: 0 <= j < |bases| ==> !StartsWith(url, bases[j])
    decreases |bases|
  {
    if |bases| == 0 then None
    else if StartsWith(url, bases[0]) then Some(0)
    else match FirstBase(bases[1..], url)
      case None => None
      case Some(k) => Some(k + 1)
  }

  /** A path with its leading '/'s removed, "index" for nothing. */
  function PagePath(rest: string): (r: string)
    ensures |r| > 0 && r[0] != '/'
  {
    var p := TrimStartChar(rest, '/');
    if |p| == 0 then "index" else p
  }

  /** `url_to_path`. Under the first base URL that prefixes it, the URL loses every
      leading copy of that base and then every leading '/'. Any other URL goes to
      the URL parser, given here as `parse` (None when the URL does not parse),
      and loses the leading '/'s of its path; an unparsable URL is "unknown". */
  function UrlToPath(c: Config, url: string, parse: string -> Option<string>): (r: string)
    ensures |r| > 0 && r[0] != '/'
    ensures FirstBase(GetBaseUrls(c), url).Some? ==>
      r == PagePath(TrimStartMatches(url, GetBaseUrls(c)[FirstBase(GetBaseUrls(c), url).value]))
    ensures FirstBase(GetBaseUrls(c), url).None? && parse(url).Some? ==> r == PagePath(parse(url).value)
    ensures FirstBase(GetBaseUrls(c), url).None? && parse(url).None? ==> r == "unknown"
  {
    var bases := GetBaseUrls(c);
    match FirstBase(bases, url)
    case Some(i) => PagePath(TrimStartMatches(url, bases[i]))
    case None =>
      match parse(url)
      case Some(path) => PagePath(path)
      case None => "unknown"
  }

  /** Links resolved by `normalize_url` against the base URL map back to their own
      path: the base, a '/' and the link path give the link path without its
      leading '/'s, or "index" for the root. */
  lemma UrlToPathOfNormalized(c: Config, p: string, parse: string -> Option<string>)
    requires PrimaryFirst(c)
    requires |c.baseUrl| > 0 && c.baseUrl[0] != '/'
    requires !IsHttpUrl(p) && !StartsWith(DropSlash(p), c.baseUrl)
    ensures UrlToPath(c, NormalizeUrl(c.baseUrl, p), parse) == PagePath(DropSlash(p))
  {
    var base := c.baseUrl;
    var q := DropSlash(p);
    var url := NormalizeUrl(base, p);
    assert FirstBase(GetBaseUrls(c), url) == Some(0);
    StripBase(base, q);
  }

  /** The base, then (if the base lacks one) a '/', then a rest that does not
      start with the base: stripping the base and the '/'s leaves the rest
      without its '/'s. */
  lemma StripBase(base: string, q: string)
    requires |base| > 0 && base[0] != '/'
    requires !StartsWith(q, base)
    ensures TrimStartChar(TrimStartMatches(WithSlash(base) + q, base), '/') == TrimStartChar(q, '/')
  {
    if EndsWith(base, "/") {
      StripOnce(base, q);
    } else {
      assert WithSlash(base) + q == base + ("/" + q);
      assert !StartsWith("/" + q, base) by { assert ("/" + q)[0] != base[0]; }
      StripOnce(base, "/" + q);
      assert ("/" + q)[1..] == q;
    }
  }

  lemma StripOnce(base: string, rest: string)
    requires |base| > 0 && !StartsWith(rest, base)
    ensures TrimStartMatches(base + rest, base) == rest
  {
    assert (base + rest)[|base|..] == rest;
  }

  /** `path == p || path.starts_with(p + "/")`: the path is p or lies under it. */
  predicate Under(path: string, p: string) {
    path == p || StartsWith(path, p + "/")
  }

  function AnyUnder(path: string, ps: seq<string>): (r: bool)
    ensures r <==> exists i :: 0 <= i < |ps| && Under(path, ps[i])
    decreases |ps|
  {
    if |ps| == 0 then false
    else Under(path, ps[0]) || AnyUnder(path, ps[1..])
  }

  /** Some pattern of the list compiles and matches. */
  function AnyMatch(rx: RegexOracle, patterns: seq<string>, text: string): (r: bool)
    ensures r <==> exists i :: 0 <= i < |patterns| && IsMatch(rx, patterns[i], text)
    decreases |patterns|
  {
    if |patterns| == 0 then false
    else IsMatch(rx, patterns[0], text) || AnyMatch(rx, patterns[1..], text)
  }

  function AnyPrefix(url: string, bases: seq<string>): (r: bool)
    ensures r <==> exists i :: 0 <= i < |bases| && StartsWith(url, bases[i])
    decreases |bases|
  {
    if |bases| == 0 then false
    else StartsWith(url, bases[0]) || AnyPrefix(url, bases[1..])
  }

  /** `should_process_url`, check by check in the source's order. */
  function ShouldProcessUrl(c: Config, rx: RegexOracle, parse: string -> Option<string>, url: string): (r: bool)
    ensures r ==> exists i :: 0 <= i < |GetBaseUrls(c)| && StartsWith(url, GetBaseUrls(c)[i])
    ensures r ==> !(c.skipLink.Some? && c.skipLink.value(url))
    ensures r ==> forall i :: 0 <= i < |c.skipPaths| ==> !Under(UrlToPath(c, url, parse), c.skipPaths[i])
  {
    if !AnyPrefix(url, GetBaseUrls(c)) then false
    else if c.skipLink.Some? && c.skipLink.value(url) then false
    else
      var path := UrlToPath(c, url, parse);
      if AnyUnder(path, c.skipPaths) then false
      else if AnyMatch(rx, c.skipPatterns, path) then false
      else if c.only.Some? && !AnyUnder(path, c.only.value) then false
      else if c.onlyPatterns.Some? && !AnyMatch(rx, c.onlyPatterns.value, path) then false
      else true
  }

  /** The admission rule as one conjunction: under some base URL, not rejected by
      the callback, not at or under a skip path, matching no skip pattern, at or
      under an `only` path if those are set, and matching an `only` pattern if
      those are set. */
  lemma ShouldProcessUrlIff(c: Config, rx: RegexOracle, parse: string -> Option<string>, url: string)
    ensures var path := UrlToPath(c, url, parse);
      ShouldProcessUrl(c, rx, parse, url) <==>
        && (exists i :: 0 <= i < |GetBaseUrls(c)| && StartsWith(url, GetBaseUrls(c)[i]))
        && !(c.skipLink.Some? && c.skipLink.value(url))
        && (forall i :: 0 <= i < |c.skipPaths| ==> !Under(path, c.skipPaths[i]))
        && (forall i :: 0 <= i < |c.skipPatterns| ==> !IsMatch(rx, c.skipPatterns[i], path))
        && (c.only.Some? ==> exists i :: 0 <= i < |c.only.value| && Under(path, c.only.value[i]))
        && (c.onlyPatterns.Some? ==> exists i :: 0 <= i < |c.onlyPatterns.value| && IsMatch(rx, c.onlyPatterns.value[i], path))
  {
  }

  /** A URL under no base URL is never followed, whatever the other settings. */
  lemma OutsideBasesRejected(c: Config, rx: RegexOracle, parse: string -> Option<string>, url: string)
    requires forall i :: 0 <= i < |GetBaseUrls(c)| ==> !StartsWith(url, GetBaseUrls(c)[i])
    ensures !ShouldProcessUrl(c, rx, parse, url)
  {
  }

  /** A skip path starting with '/' never applies, since page paths never start
      with '/'. */
  lemma SlashSkipPathInert(c: Config, parse: string -> Option<string>, url: string, p: string)
    requires |p| > 0 && p[0] == '/'
    ensures !Under(UrlToPath(c, url, parse), p)
  {
    var path := UrlToPath(c, url, parse);
    assert !StartsWith(path, p + "/") by { assert path[0] != (p + "/")[0]; }
  }

  /** `get_initial_urls`: each initial path resolved against the base URL, in order,
      then the extra base URLs verbatim. The source wraps it in `Ok`; it never
      fails. */
  function GetInitialUrls(c: Config): (r: seq<string>)
    ensures var n := |c.initialPaths|;
      && |r| >= n
      && (forall i :: 0 <= i < n ==> r[i] == NormalizeUrl(c.baseUrl, c.initialPaths[i]))
      && (c.baseUrls.Some? && |c.baseUrls.value| > 0 ==>
            |r| == n + |c.baseUrls.value| - 1 && forall j :: 1 <= j < |c.baseUrls.value| ==> r[n + j - 1] == c.baseUrls.value[j])
      && (c.baseUrls.None? || |c.baseUrls.value| == 0 ==> |r| == n)
  {
    var resolved := seq(|c.initialPaths|, i requires 0 <= i < |c.initialPaths| => NormalizeUrl(c.baseUrl, c.initialPaths[i]));
    match c.baseUrls
    case Some(urls) => resolved + (if |urls| > 0 then urls[1..] else [])
    case None => resolved
  }

  /** Every initial URL the crawl starts from passes the base-URL check: a
      resolved initial path extends the base URL, and the extra base URLs are
      base URLs. http(s) initial paths are exempt, as they are kept verbatim. */
  lemma InitialUrlsUnderBases(c: Config)
    requires PrimaryFirst(c)
    ensures var r := GetInitialUrls(c);
      forall i :: 0 <= i < |r| && (i < |c.initialPaths| ==> !IsHttpUrl(c.initialPaths[i])) ==>
        AnyPrefix(r[i], GetBaseUrls(c))
  {
    var r := GetInitialUrls(c);
    var bases := GetBaseUrls(c);
    forall i | 0 <= i < |r| && (i < |c.initialPaths| ==> !IsHttpUrl(c.initialPaths[i]))
      ensures AnyPrefix(r[i], bases)
    {
      if i < |c.initialPaths| {
        assert StartsWith(r[i], bases[0]);
      } else {
        assert c.baseUrls.Some? && |c.baseUrls.value| > 0;
        var j := i - |c.initialPaths| + 1;
        assert r[i] == bases[j];
        assert StartsWith(r[i], bases[j]);
      }
    }
  }

  /** `create_entry`: a page is listed under its own path, type "Other". */
  function CreateEntry(path: string): (r: (string, string, string))
    ensures r.0 == path && r.1 == path && r.2 == "Other"
  {
    (path, path, "Other")
  }
}
