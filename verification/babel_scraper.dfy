/** `BabelScraper::new` (src/docs/babel/scraper.rs): the crawl policy of the Babel
    documentation, built on the `UrlScraper` configuration. */
module BabelScraper {
  import opened Wrappers
  import opened Strings
  import opened Regex
  import opened UrlPolicy

  const BASE_URL: string := "https://babeljs.io/docs/"
  const LATEST_6: string := "6.26.1"
  const LATEST_7: string := "7.21.4"
  /** Links under this prefix belong to the old site and are never followed. */
  const OLD_DOCS: string := "https://babeljs.io/docs/en/"

  const SKIP_PATTERNS: seq<string> := [
    "usage/.*", "configuration/.*", "learn/.*", "v7-migration/.*", "v7-migration-api/.*",
    "editors/.*", "presets/.*", "caveats/.*", "faq/.*", "roadmap/.*"]

  /** The two filters, in the order they run. */
  datatype BabelFilter = CleanHtml | Entries

  datatype Scraper = Scraper(config: Config, filters: seq<BabelFilter>)

  /** The version asked for, resolved: "6" is 6.26.1, anything else 7.21.4. */
  function ResolveVersion(version: string): (r: string)
    ensures r == LATEST_6 <==> version == "6"
    ensures r == LATEST_6 || r == LATEST_7
  {
    if version == "6" then LATEST_6 else LATEST_7
  }

  /** The `skip_link` callback: links mentioning the old documentation. */
  predicate SkipOldDocs(href: string) {
    Contains(href, OLD_DOCS)
  }

  /** `BabelScraper::new`. The output directory is not modelled. */
  function New(version: string): (s: Scraper)
    ensures s.config.name == "Babel" && s.config.version == ResolveVersion(version)
    ensures GetBaseUrls(s.config) == [BASE_URL] && s.config.trailingSlash
    ensures s.config.skipPatterns == SKIP_PATTERNS && s.config.skipPaths == []
    ensures s.config.only.None? && s.config.onlyPatterns.None?
    ensures s.config.skipLink == Some(SkipOldDocs)
    ensures s.config.rootTitle == "Babel"
    ensures s.config.links == [("home", "https://babeljs.io/"), ("code", "https://github.com/babel/babel")]
    ensures s.filters == [CleanHtml, Entries]
  {
    var c := UrlPolicy.New("Babel", ResolveVersion(version), BASE_URL);
    var c := c.(rootTitle := "Babel",
                attribution := "© 2014-present Sebastian McKenzie<br>Licensed under the MIT License.",
                links := [("home", "https://babeljs.io/"), ("code", "https://github.com/babel/babel")],
                trailingSlash := true,
                skipPatterns := SKIP_PATTERNS,
                skipLink := Some(SkipOldDocs));
    Scraper(c, [CleanHtml, Entries])
  }

  /** `get_latest_version`: a fixed answer, never an error. */
  function GetLatestVersion(): (r: Result<string>)
    ensures r == Ok(LATEST_7) && r.value == ResolveVersion("7")
  {
    Ok(LATEST_7)
  }

  /** A link into the old documentation is never followed, whatever the
      regex engine and URL parser say. */
  lemma OldDocsNeverProcessed(version: string, rx: RegexOracle, parse: string -> Option<string>, url: string)
    requires Contains(url, OLD_DOCS)
    ensures !ShouldProcessUrl(New(version).config, rx, parse, url)
  {
  }

  /** A literal followed by ".*" is read as that literal. */
  lemma StemPattern(stem: string)
    requires IsLiteral(stem)
    ensures LiteralOf(stem + ".*") == Some(stem)
  {
    var p := stem + ".*";
    assert !LiteralChar(p[|stem|]);
    assert p[..|p| - 2] == stem;
  }

  /** Each skip pattern is a literal ending in '/' followed by ".*". */
  lemma SkipPatternsStems()
    ensures forall i :: 0 <= i < |SKIP_PATTERNS| ==>
      var stem := SKIP_PATTERNS[i][..|SKIP_PATTERNS[i]| - 2];
      |SKIP_PATTERNS[i]| >= 3 && SKIP_PATTERNS[i] == stem + ".*" && IsLiteral(stem) && stem[|stem| - 1] == '/'
  {
    forall i | 0 <= i < |SKIP_PATTERNS|
      ensures var stem := SKIP_PATTERNS[i][..|SKIP_PATTERNS[i]| - 2];
        |SKIP_PATTERNS[i]| >= 3 && SKIP_PATTERNS[i] == stem + ".*" && IsLiteral(stem) && stem[|stem| - 1] == '/'
    {
      PatternHasStem(SKIP_PATTERNS[i]);
    }
  }

  lemma PatternHasStem(p: string)
    requires |p| >= 3 && p[|p| - 2] == '.' && p[|p| - 1] == '*' && p[|p| - 3] == '/'
    requires forall k :: 0 <= k < |p| - 2 ==> LiteralChar(p[k])
    ensures var stem := p[..|p| - 2];
      p == stem + ".*" && IsLiteral(stem) && stem[|stem| - 1] == '/'
  {
    var stem := p[..|p| - 2];
    assert p == stem + p[|p| - 2..];
    assert p[|p| - 2..] == ".*";
  }

  /** Under a regex engine that reads literal patterns as written, any page
      under "usage/" is skipped. */
  lemma UsagePagesSkipped(c: Config, rx: RegexOracle, parse: string -> Option<string>, tail: string)
    requires Agrees(rx) && GetBaseUrls(c) == [BASE_URL] && c.skipPatterns == SKIP_PATTERNS
    ensures !ShouldProcessUrl(c, rx, parse, BASE_URL + "usage/" + tail)
  {
    var stem := "usage/";
    var rest := stem + tail;
    assert BASE_URL + stem + tail == BASE_URL + rest;
    assert !StartsWith(rest, BASE_URL) by { assert rest[0] != BASE_URL[0]; }
    PathBelowBase(c, rest, parse);
    UsageStem();
    assert OccursAt(rest, stem, 0) by { assert rest[..|stem|] == stem; }
    ContainsOfOccurrence(rest, stem, 0);
    LiteralPatternMatch(rx, SKIP_PATTERNS[0], rest);
    SkippedByPattern(c, rx, parse, BASE_URL + rest);
  }

  lemma UsageStem()
    ensures LiteralOf(SKIP_PATTERNS[0]) == Some("usage/")
  {
    assert IsLiteral("usage/");
    StemPattern("usage/");
    assert SKIP_PATTERNS[0] == "usage/" + ".*";
  }

  /** The usage page of the Babel policy is skipped. */
  lemma UsagePathSkipped(version: string, rx: RegexOracle, parse: string -> Option<string>)
    requires Agrees(rx)
    ensures !ShouldProcessUrl(New(version).config, rx, parse, "https://babeljs.io/docs/usage/options")
  {
    var c := New(version).config;
    UsageUrl();
    PolicyConfig(version);
    UsagePagesSkipped(c, rx, parse, "options");
  }

  lemma UsageUrl()
    ensures BASE_URL + "usage/" + "options" == "https://babeljs.io/docs/usage/options"
  {
  }

  lemma PolicyConfig(version: string)
    ensures GetBaseUrls(New(version).config) == [BASE_URL]
    ensures New(version).config.skipPatterns == SKIP_PATTERNS
  {
  }

  /** A URL whose path matches a skip pattern is not followed. */
  lemma SkippedByPattern(c: Config, rx: RegexOracle, parse: string -> Option<string>, url: string)
    ensures forall i :: 0 <= i < |c.skipPatterns| && IsMatch(rx, c.skipPatterns[i], UrlToPath(c, url, parse)) ==>
      !ShouldProcessUrl(c, rx, parse, url)
  {
    ShouldProcessUrlIff(c, rx, parse, url);
  }

  /** Under the single base URL, a page's path is what follows the base. */
  lemma PathBelowBase(c: Config, rest: string, parse: string -> Option<string>)
    requires GetBaseUrls(c) == [BASE_URL]
    requires !StartsWith(rest, BASE_URL) && |rest| > 0 && rest[0] != '/'
    ensures UrlToPath(c, BASE_URL + rest, parse) == rest
  {
    assert FirstBase(GetBaseUrls(c), BASE_URL + rest) == Some(0);
    StripOnce(BASE_URL, rest);
  }

  /** A URL one '/'-free step below the base names no old-documentation page. */
  lemma FlatPageNotOldDocs(rest: string)
    requires '/' !in rest
    ensures !Contains(BASE_URL + rest, OLD_DOCS)
  {
    var url := BASE_URL + rest;
    forall i ensures !OccursAt(url, OLD_DOCS, i) {
      if 0 <= i && i + |OLD_DOCS| <= |url| {
        // The old prefix has a '/' at 23 and 26; one of them lands in `rest`.
        var k := if i == 0 then 26 else 23;
        assert url[i..i + |OLD_DOCS|][k] == url[i + k];
        assert url[i + k] == rest[i + k - |BASE_URL|];
      }
    }
    ContainsIff(url, OLD_DOCS);
  }

  /** A page directly below the base URL, such as "babel-parser", is followed:
      its path holds no '/', so no skip pattern can match it. */
  lemma FlatPageProcessed(version: string, rx: RegexOracle, parse: string -> Option<string>, rest: string)
    requires Agrees(rx)
    requires |rest| > 0 && '/' !in rest
    ensures UrlToPath(New(version).config, BASE_URL + rest, parse) == rest
    ensures ShouldProcessUrl(New(version).config, rx, parse, BASE_URL + rest)
  {
    FlatPageAdmitted(New(version).config, rx, parse, rest);
  }

  lemma FlatPageAdmitted(c: Config, rx: RegexOracle, parse: string -> Option<string>, rest: string)
    requires Agrees(rx)
    requires |rest| > 0 && '/' !in rest
    requires GetBaseUrls(c) == [BASE_URL] && c.skipPatterns == SKIP_PATTERNS && c.skipPaths == []
    requires c.only.None? && c.onlyPatterns.None? && c.skipLink == Some(SkipOldDocs)
    ensures UrlToPath(c, BASE_URL + rest, parse) == rest
    ensures ShouldProcessUrl(c, rx, parse, BASE_URL + rest)
  {
    var url := BASE_URL + rest;
    assert !StartsWith(rest, BASE_URL) by {
      if |BASE_URL| <= |rest| {
        assert rest[|BASE_URL| - 1] in rest && BASE_URL[|BASE_URL| - 1] == '/';
      }
    }
    PathBelowBase(c, rest, parse);
    FlatPageNotOldDocs(rest);
    NoSkipPatternMatches(rx, rest);
    assert StartsWith(url, GetBaseUrls(c)[0]);
    ShouldProcessUrlIff(c, rx, parse, url);
  }

  /** A path without '/' matches no skip pattern. */
  lemma NoSkipPatternMatches(rx: RegexOracle, path: string)
    requires Agrees(rx) && '/' !in path
    ensures forall i :: 0 <= i < |SKIP_PATTERNS| ==> !IsMatch(rx, SKIP_PATTERNS[i], path)
  {
    SkipPatternsStems();
    forall i | 0 <= i < |SKIP_PATTERNS| ensures !IsMatch(rx, SKIP_PATTERNS[i], path) {
      var stem := SKIP_PATTERNS[i][..|SKIP_PATTERNS[i]| - 2];
      StemPattern(stem);
      AbsentChar(path, stem, |stem| - 1);
    }
  }
}
