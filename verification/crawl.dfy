/** The breadth-first crawl of `UrlScraper::run` (src/core/scraper/url_scraper.rs),
    one queue pop at a time, followed by the redirect fix-up of the stored pages.
    The HTTP client, the filters, the link extractor, the URL parser and the regex
    engine are inputs; writing files is not modelled. */
module Crawl {
  import opened Wrappers
  import opened Strings
  import opened Regex
  import opened Collections
  import opened Filter
  import opened UrlPolicy
  import opened PathRemap

  /** Milliseconds between two requests: 60 000 / 60 requests per minute. */
  const SPACING_MS: nat := 1000 * 60 / 60

  /** What the client reports for a request: the URL after redirects, the status
      class, the Content-Type header if readable, and the body text or the error
      met while reading it. */
  datatype Response = Response(effectiveUrl: string, success: bool, contentType: Option<string>, body: Result<string>)

  /** A filter rewrites the HTML and may change the context (its content, its
      additional entries, ...), or fails. */
  type FilterFn = (string, FilterContext) -> Result<(string, FilterContext)>

  /** Everything the crawl consults but does not compute. `links` lists the
      `href`s of the `a[href]` elements of a page, in document order. */
  datatype Env = Env(
    fetch: string -> Result<Response>,
    filters: seq<FilterFn>,
    links: string -> seq<string>)

  /** The scraper's own decisions, as the loop sees them: its configuration,
      `should_process_url` and `url_to_path`. */
  datatype Scraper = Scraper(config: Config, admit: string -> bool, pathOf: string -> string)

  /** The scraper of a configuration, with the regex engine and the URL parser it
      consults. */
  function ScraperOf(c: Config, rx: RegexOracle, parse: string -> Option<string>): (s: Scraper)
    ensures s.config == c
    ensures forall u :: s.admit(u) == ShouldProcessUrl(c, rx, parse, u)
    ensures forall u :: s.pathOf(u) == UrlToPath(c, u, parse)
  {
    Scraper(c, u => ShouldProcessUrl(c, rx, parse, u), u => UrlToPath(c, u, parse))
  }

  /** The loop's variables, plus `requested`: the URLs sent to the client, in
      order. */
  datatype State = State(
    queue: seq<string>,
    visited: set<string>,
    pages: map<string, string>,
    entries: seq<EntryTriple>,
    redirects: map<string, string>,
    requested: seq<string>)

  /** The pause before a request, given the milliseconds since the previous one. */
  function Spacing(elapsedMs: nat): (sleepMs: nat)
    ensures elapsedMs + sleepMs >= SPACING_MS
    ensures elapsedMs >= SPACING_MS ==> sleepMs == 0
    ensures elapsedMs < SPACING_MS ==> elapsedMs + sleepMs == SPACING_MS
  {
    if elapsedMs < SPACING_MS then SPACING_MS - elapsedMs else 0
  }

  /** The first half of `should_process_response`: a success status, and a
      Content-Type, when readable, mentioning "text/html". The second half
      re-checks the URL, which the loop has already admitted. */
  predicate Accepted(r: Response) {
    r.success && (r.contentType.None? || Contains(r.contentType.value, "text/html"))
  }

  /** The filter context built for a fetched page. */
  function PageContext(s: Scraper, url: string, html: string): (ctx: FilterContext)
    ensures ctx.currentUrl == url && ctx.currentPath == s.pathOf(url) && ctx.html == html
    ensures ctx.baseUrl == s.config.baseUrl && ctx.rootUrl == s.config.baseUrl
    ensures ctx.content == "" && ctx.additionalEntries == [] && ctx.options == map[]
  {
    var c := s.config;
    FilterContext(map[], c.baseUrl, [], c.baseUrl, c.rootPath, c.version, c.release, c.initialPaths,
      c.slug, s.pathOf(url), url, Some(c.attribution), html, "", "", [])
  }

  /** The filters in order, each one's HTML becoming the context's HTML; the first
      error stops the chain. */
  function RunFilters(filters: seq<FilterFn>, ctx: FilterContext): (r: Result<FilterContext>)
    ensures |filters| == 0 ==> r == Ok(ctx)
    decreases |filters|
  {
    if |filters| == 0 then Ok(ctx)
    else
      match filters[0](ctx.html, ctx)
      case Err(e) => Err(e)
      case Ok(out) => RunFilters(filters[1..], out.1.(html := out.0))
  }

  /** One filter applied to a context, its HTML becoming the context's HTML. */
  function ApplyFilter(f: FilterFn, ctx: FilterContext): (r: Result<FilterContext>)
    ensures f(ctx.html, ctx).Err? <==> r.Err?
    ensures r.Ok? ==> r.value == f(ctx.html, ctx).value.1.(html := f(ctx.html, ctx).value.0)
  {
    match f(ctx.html, ctx)
    case Err(e) => Err(e)
    case Ok(out) => Ok(out.1.(html := out.0))
  }

  /** The chain runs its filters left to right: a chain with one more filter at
      the end is the shorter chain followed by that filter. */
  lemma {:induction false} RunFiltersSnoc(filters: seq<FilterFn>, f: FilterFn, ctx: FilterContext)
    ensures RunFilters(filters + [f], ctx) ==
      match RunFilters(filters, ctx)
      case Err(e) => Err(e)
      case Ok(mid) => ApplyFilter(f, mid)
    decreases |filters|
  {
    if |filters| == 0 {
      assert filters + [f] == [f];
      assert [f][1..] == [];
    } else {
      assert (filters + [f])[1..] == filters[1..] + [f];
      match filters[0](ctx.html, ctx)
      case Err(e) =>
      case Ok(out) => RunFiltersSnoc(filters[1..], f, out.1.(html := out.0));
    }
  }

  /** The links of a page resolved against the page URL, those already visited
      left out, in document order. */
  function NewLinks(hrefs: seq<string>, pageUrl: string, visited: set<string>): (r: seq<string>)
    ensures forall i :: 0 <= i < |r| ==> r[i] !in visited
    ensures forall i :: 0 <= i < |hrefs| && NormalizeUrl(pageUrl, hrefs[i]) !in visited ==>
      NormalizeUrl(pageUrl, hrefs[i]) in r
    ensures forall u :: u in r ==> exists i :: 0 <= i < |hrefs| && u == NormalizeUrl(pageUrl, hrefs[i])
    decreases |hrefs|
  {
    if |hrefs| == 0 then []
    else
      var u := NormalizeUrl(pageUrl, hrefs[0]);
      var rest := NewLinks(hrefs[1..], pageUrl, visited);
      assert forall i :: 1 <= i < |hrefs| ==> hrefs[1..][i - 1] == hrefs[i];
      assert forall v :: v in rest ==> exists i :: 0 <= i < |hrefs| && v == NormalizeUrl(pageUrl, hrefs[i]) by {
        forall v | v in rest ensures exists i :: 0 <= i < |hrefs| && v == NormalizeUrl(pageUrl, hrefs[i]) {
          var j :| 0 <= j < |hrefs[1..]| && v == NormalizeUrl(pageUrl, hrefs[1..][j]);
          assert v == NormalizeUrl(pageUrl, hrefs[j + 1]);
        }
      }
      if u in visited then rest else [u] + rest
  }

  /** The first href is taken before the others. */
  lemma NewLinksCons(hrefs: seq<string>, pageUrl: string, visited: set<string>)
    requires |hrefs| > 0
    ensures var u := NormalizeUrl(pageUrl, hrefs[0]);
      NewLinks(hrefs, pageUrl, visited) == (if u in visited then [] else [u]) + NewLinks(hrefs[1..], pageUrl, visited)
  {
  }

  /** The links of a page are taken one href at a time, in page order: the list
      for two runs of hrefs is the list for the first followed by the list for the
      second, and a repeated link is kept each time it appears. */
  lemma {:induction false} NewLinksAppend(h1: seq<string>, h2: seq<string>, pageUrl: string, visited: set<string>)
    ensures NewLinks(h1 + h2, pageUrl, visited) == NewLinks(h1, pageUrl, visited) + NewLinks(h2, pageUrl, visited)
    decreases |h1|
  {
    if |h1| == 0 {
      assert h1 + h2 == h2;
    } else {
      var h := h1 + h2;
      var t := h1[1..];
      assert h[0] == h1[0] && h[1..] == t + h2;
      NewLinksAppend(t, h2, pageUrl, visited);
      NewLinksCons(h, pageUrl, visited);
      NewLinksCons(h1, pageUrl, visited);
      var u := NormalizeUrl(pageUrl, h1[0]);
      ConcatAssoc(if u in visited then [] else [u], NewLinks(t, pageUrl, visited), NewLinks(h2, pageUrl, visited));
    }
  }

  lemma ConcatAssoc(a: seq<string>, b: seq<string>, c: seq<string>)
    ensures a + (b + c) == (a + b) + c
  {
  }

  /** One href gives its resolved URL, unless that URL was visited. */
  lemma NewLinksSingle(href: string, pageUrl: string, visited: set<string>)
    ensures var u := NormalizeUrl(pageUrl, href);
      NewLinks([href], pageUrl, visited) == if u in visited then [] else [u]
  {
    assert [href][1..] == [];
  }

  /** What the page contributes once the filters have run: its links, and, when
      the content is not empty, the page under its path with its entry; then the
      filters' additional entries. */
  function Store(s: Scraper, env: Env, st: State, url: string, ctx: FilterContext): (r: State)
    ensures r.visited == st.visited && r.redirects == st.redirects && r.requested == st.requested
    ensures r.queue == st.queue + NewLinks(env.links(ctx.html), url, st.visited)
    ensures ctx.content == "" ==> r.pages == st.pages && r.entries == st.entries + ctx.additionalEntries
    ensures ctx.content != "" ==>
      r.pages == st.pages[s.pathOf(url) := ctx.content] &&
      r.entries == st.entries + [CreateEntry(s.pathOf(url))] + ctx.additionalEntries
  {
    var queue := st.queue + NewLinks(env.links(ctx.html), url, st.visited);
    if ctx.content == "" then
      st.(queue := queue, entries := st.entries + ctx.additionalEntries)
    else
      var path := s.pathOf(url);
      st.(queue := queue, pages := st.pages[path := ctx.content],
          entries := st.entries + [CreateEntry(path)] + ctx.additionalEntries)
  }

  /** Facts every step keeps about the pages: each stored page has content and
      its own entry. */
  predicate PagesListed(pages: map<string, string>, entries: seq<EntryTriple>) {
    forall p :: p in pages ==> pages[p] != "" && CreateEntry(p) in entries
  }

  /** The redirect map is unchanged, or gains (or resets) the entry for `url`,
      pointing elsewhere. */
  predicate RedirectKept(before: map<string, string>, after: map<string, string>, url: string) {
    after == before || (url in after && after[url] != url && after == before[url := after[url]])
  }

  /** Fetching and processing an admitted URL `url`, already marked visited. */
  function Visit(s: Scraper, env: Env, st: State, url: string): (r: Result<State>)
    ensures r.Ok? ==> r.value.visited == st.visited && r.value.requested == st.requested
    ensures r.Ok? ==> RedirectKept(st.redirects, r.value.redirects, url)
    ensures r.Ok? && PagesListed(st.pages, st.entries) ==> PagesListed(r.value.pages, r.value.entries)
  {
    match env.fetch(url)
    case Err(_) => Ok(st)
    case Ok(resp) =>
      var st1 := if resp.effectiveUrl != url then st.(redirects := st.redirects[url := resp.effectiveUrl]) else st;
      if !Accepted(resp) then Ok(st1)
      else if resp.body.Err? then Err(resp.body.error)
      else
        match RunFilters(env.filters, PageContext(s, url, resp.body.value))
        case Err(e) => Err(e)
        case Ok(ctx) =>
          if PagesListed(st1.pages, st1.entries) then
            StorePagesListed(s, env, st1, url, ctx);
            Ok(Store(s, env, st1, url, ctx))
          else Ok(Store(s, env, st1, url, ctx))
  }

  lemma StorePagesListed(s: Scraper, env: Env, st: State, url: string, ctx: FilterContext)
    requires PagesListed(st.pages, st.entries)
    ensures PagesListed(Store(s, env, st, url, ctx).pages, Store(s, env, st, url, ctx).entries)
  {
    var r := Store(s, env, st, url, ctx);
    var tail := if ctx.content == "" then ctx.additionalEntries
      else [CreateEntry(s.pathOf(url))] + ctx.additionalEntries;
    assert r.entries == st.entries + tail;
    forall p | p in r.pages ensures r.pages[p] != "" && CreateEntry(p) in r.entries {
      if ctx.content != "" && p == s.pathOf(url) {
        assert r.entries[|st.entries|] == CreateEntry(p);
      } else {
        var k :| 0 <= k < |st.entries| && st.entries[k] == CreateEntry(p);
        assert r.entries[k] == CreateEntry(p);
      }
    }
  }

  /** One pop of the queue. A visited or inadmissible URL is dropped; otherwise it
      is marked visited and fetched. A failed request drops the URL, a redirect is
      recorded, a rejected response is dropped, and an unreadable body or a filter
      error ends the crawl with that error. */
  function Step(s: Scraper, env: Env, st: State): (r: Result<State>)
    requires |st.queue| > 0
    ensures var url := st.queue[0];
      url in st.visited || !s.admit(url) ==> r == Ok(st.(queue := st.queue[1..]))
    ensures var url := st.queue[0];
      r.Ok? && url !in st.visited && s.admit(url) ==>
        r.value.visited == st.visited + {url} && r.value.requested == st.requested + [url]
        && RedirectKept(st.redirects, r.value.redirects, url)
    ensures r.Ok? && PagesListed(st.pages, st.entries) ==> PagesListed(r.value.pages, r.value.entries)
  {
    var url := st.queue[0];
    var st1 := st.(queue := st.queue[1..]);
    if url in st.visited || !s.admit(url) then Ok(st1)
    else Visit(s, env, st1.(visited := st.visited + {url}, requested := st.requested + [url]), url)
  }

  /** The state once an admitted URL has been popped and marked visited. */
  function Marked(st: State): (r: State)
    requires |st.queue| > 0
    ensures r.queue == st.queue[1..] && r.visited == st.visited + {st.queue[0]}
    ensures r.requested == st.requested + [st.queue[0]]
    ensures r.pages == st.pages && r.entries == st.entries && r.redirects == st.redirects
  {
    st.(queue := st.queue[1..], visited := st.visited + {st.queue[0]}, requested := st.requested + [st.queue[0]])
  }

  /** A request that fails drops the URL, which stays visited and is never
      retried. */
  lemma FetchErrorDrops(s: Scraper, env: Env, st: State)
    requires |st.queue| > 0 && st.queue[0] !in st.visited && s.admit(st.queue[0])
    requires env.fetch(st.queue[0]).Err?
    ensures Step(s, env, st) == Ok(Marked(st))
  {
  }

  /** A response that is not a success or not HTML is dropped, after its
      redirect has been recorded. */
  lemma RejectedResponseDrops(s: Scraper, env: Env, st: State)
    requires |st.queue| > 0 && st.queue[0] !in st.visited && s.admit(st.queue[0])
    requires env.fetch(st.queue[0]).Ok? && !Accepted(env.fetch(st.queue[0]).value)
    ensures var url := st.queue[0]; var resp := env.fetch(url).value;
      Step(s, env, st) == Ok(if resp.effectiveUrl != url
        then Marked(st).(redirects := st.redirects[url := resp.effectiveUrl]) else Marked(st))
  {
  }

  /** An accepted response whose body cannot be read, or whose filters fail,
      ends the crawl with that error. */
  lemma ProcessingErrorAborts(s: Scraper, env: Env, st: State)
    requires |st.queue| > 0 && st.queue[0] !in st.visited && s.admit(st.queue[0])
    requires env.fetch(st.queue[0]).Ok? && Accepted(env.fetch(st.queue[0]).value)
    ensures var url := st.queue[0]; var resp := env.fetch(url).value;
      resp.body.Err? ==> Step(s, env, st) == Err(resp.body.error)
    ensures var url := st.queue[0]; var resp := env.fetch(url).value;
      resp.body.Ok? && RunFilters(env.filters, PageContext(s, url, resp.body.value)).Err? ==>
        Step(s, env, st) == Err(RunFilters(env.filters, PageContext(s, url, resp.body.value)).error)
  {
  }

  /** An accepted page whose filters succeed is stored: the URL is marked
      visited, its redirect is recorded, and then the filtered page goes under
      its path with its entry, its additional entries follow and its new links
      join the queue. */
  lemma AcceptedPageStored(s: Scraper, env: Env, st: State)
    requires |st.queue| > 0 && st.queue[0] !in st.visited && s.admit(st.queue[0])
    requires env.fetch(st.queue[0]).Ok? && Accepted(env.fetch(st.queue[0]).value)
    requires env.fetch(st.queue[0]).value.body.Ok?
    requires RunFilters(env.filters, PageContext(s, st.queue[0], env.fetch(st.queue[0]).value.body.value)).Ok?
    ensures var url := st.queue[0]; var resp := env.fetch(url).value;
      var marked := if resp.effectiveUrl != url
        then Marked(st).(redirects := st.redirects[url := resp.effectiveUrl]) else Marked(st);
      Step(s, env, st) == Ok(Store(s, env, marked, url, RunFilters(env.filters, PageContext(s, url, resp.body.value)).value))
  {
  }

  /** The facts the loop keeps. */
  ghost predicate Inv(s: Scraper, st: State) {
    && (forall i, j :: 0 <= i < j < |st.requested| ==> st.requested[i] != st.requested[j])
    && (forall u :: u in st.visited <==> u in st.requested)
    && (forall i :: 0 <= i < |st.requested| ==> s.admit(st.requested[i]))
    && PagesListed(st.pages, st.entries)
    && (forall u :: u in st.redirects ==> u in st.visited && st.redirects[u] != u)
  }

  /** Each step keeps the invariant. */
  lemma StepInv(s: Scraper, env: Env, st: State)
    requires |st.queue| > 0 && Inv(s, st)
    ensures Step(s, env, st).Ok? ==> Inv(s, Step(s, env, st).value)
  {
    var url := st.queue[0];
    if url !in st.visited && s.admit(url) {
      var r := st.requested + [url];
      forall i, j | 0 <= i < j < |r| ensures r[i] != r[j] {
        if j == |r| - 1 {
          assert r[i] == st.requested[i];
        }
      }
    }
  }

  /** The loop, for at most `fuel` pops. */
  function Loop(s: Scraper, env: Env, st: State, fuel: nat): (r: Result<State>)
    decreases fuel
  {
    if fuel == 0 || |st.queue| == 0 then Ok(st)
    else
      match Step(s, env, st)
      case Err(e) => Err(e)
      case Ok(next) => Loop(s, env, next, fuel - 1)
  }

  /** The loop keeps the invariant, whatever the fuel. */
  lemma {:induction false} LoopInv(s: Scraper, env: Env, st: State, fuel: nat)
    requires Inv(s, st)
    ensures Loop(s, env, st, fuel).Ok? ==> Inv(s, Loop(s, env, st, fuel).value)
    decreases fuel, 1
  {
    if fuel == 0 || |st.queue| == 0 {
      LoopDone(s, env, st, fuel);
    } else {
      LoopInvMore(s, env, st, fuel);
    }
  }

  lemma {:induction false} LoopInvMore(s: Scraper, env: Env, st: State, fuel: nat)
    requires fuel > 0 && |st.queue| > 0 && Inv(s, st)
    ensures Loop(s, env, st, fuel).Ok? ==> Inv(s, Loop(s, env, st, fuel).value)
    decreases fuel, 0
  {
    if Loop(s, env, st, fuel).Ok? {
      var next := LoopStep(s, env, st, fuel);
      LoopInv(s, env, next, fuel - 1);
    }
  }

  /** Without fuel or without a queue the loop stops where it is. */
  lemma LoopDone(s: Scraper, env: Env, st: State, fuel: nat)
    requires fuel == 0 || |st.queue| == 0
    ensures Loop(s, env, st, fuel) == Ok(st)
  {
  }

  /** A successful loop made a successful first step that kept the invariant. */
  lemma LoopStep(s: Scraper, env: Env, st: State, fuel: nat) returns (next: State)
    requires fuel > 0 && |st.queue| > 0 && Inv(s, st) && Loop(s, env, st, fuel).Ok?
    ensures Inv(s, next) && Loop(s, env, st, fuel) == Loop(s, env, next, fuel - 1)
  {
    next := Step(s, env, st).value;
    StepInv(s, env, st);
  }

  function Start(c: Config): (st: State)
    ensures st.queue == GetInitialUrls(c) && st.visited == {} && st.requested == []
    ensures st.pages == map[] && st.entries == [] && st.redirects == map[]
  {
    State(GetInitialUrls(c), {}, map[], [], map[], [])
  }

  /** The redirect pairs as the fix-up sees them: both URLs turned into page
      paths, in the redirect map's iteration order. */
  function RedirectPairs(s: Scraper, redirects: map<string, string>, order: seq<string>): (r: seq<(string, string)>)
    requires forall i :: 0 <= i < |order| ==> order[i] in redirects
    ensures |r| == |order|
    ensures forall i :: 0 <= i < |order| ==> r[i] == (s.pathOf(order[i]), s.pathOf(redirects[order[i]]))
  {
    seq(|order|, i requires 0 <= i < |order| => (s.pathOf(order[i]), s.pathOf(redirects[order[i]])))
  }

  /** The outcome of a run: the pages after the redirect fix-up, the entries, and
      two records the run keeps in memory, the URLs requested and the redirects
      met. */
  datatype Outcome = Outcome(pages: map<string, string>, entries: seq<EntryTriple>,
                             requested: seq<string>, redirects: map<string, string>)

  /** The fix-up of the pages once the loop is over. */
  function FixUp(s: Scraper, st: State, redirectOrder: seq<string>, pageOrder: seq<string>): (r: Outcome)
    requires Enumerates(redirectOrder, st.redirects)
  {
    var mapping := BuildMapping(RedirectPairs(s, st.redirects, redirectOrder));
    Outcome(Remap(st.pages, mapping, pageOrder), st.entries, st.requested, st.redirects)
  }

  /** `run`: the loop from the initial URLs, then the fix-up. `redirectOrder` and
      `pageOrder` give the iteration order of the redirect map and of the page map. */
  function Run(c: Config, rx: RegexOracle, parse: string -> Option<string>, env: Env, fuel: nat,
               redirectOrder: map<string, string> -> seq<string>,
               pageOrder: map<string, string> -> seq<string>): (r: Result<Outcome>)
    requires forall m :: Enumerates(redirectOrder(m), m)
  {
    var s := ScraperOf(c, rx, parse);
    match Loop(s, env, Start(c), fuel)
    case Err(e) => Err(e)
    case Ok(st) => Ok(FixUp(s, st, redirectOrder(st.redirects), pageOrder(st.pages)))
  }

  /** What a successful run guarantees: no URL is requested twice and every one
      requested passes `should_process_url`; each redirect starts at a requested
      URL and leads elsewhere; every stored page has content, and its path is the
      path of an entry or the path a redirect leads to. */
  lemma RunProperties(c: Config, rx: RegexOracle, parse: string -> Option<string>, env: Env, fuel: nat,
                      redirectOrder: map<string, string> -> seq<string>,
                      pageOrder: map<string, string> -> seq<string>)
    requires forall m :: Enumerates(redirectOrder(m), m)
    requires forall m :: Enumerates(pageOrder(m), m)
    ensures var r := Run(c, rx, parse, env, fuel, redirectOrder, pageOrder);
      r.Ok? ==>
        && (forall i, j :: 0 <= i < j < |r.value.requested| ==> r.value.requested[i] != r.value.requested[j])
        && (forall i :: 0 <= i < |r.value.requested| ==> ShouldProcessUrl(c, rx, parse, r.value.requested[i]))
        && (forall u :: u in r.value.redirects ==> u in r.value.requested && r.value.redirects[u] != u)
        && (forall p :: p in r.value.pages ==> r.value.pages[p] != "")
        && (forall p :: p in r.value.pages ==>
              (CreateEntry(p) in r.value.entries ||
               exists u :: u in r.value.redirects && p == UrlToPath(c, r.value.redirects[u], parse)))
  {
    var s := ScraperOf(c, rx, parse);
    LoopInv(s, env, Start(c), fuel);
    var r := Run(c, rx, parse, env, fuel, redirectOrder, pageOrder);
    if r.Ok? {
      var st := Loop(s, env, Start(c), fuel).value;
      assert Enumerates(pageOrder(st.pages), st.pages);
      assert r.value == FixUp(s, st, redirectOrder(st.redirects), pageOrder(st.pages));
      FixUpPages(s, st, redirectOrder(st.redirects), pageOrder(st.pages));
    }
  }

  /** After the fix-up every page still has content, and its path is that of an
      entry or the one a redirect leads to. */
  lemma FixUpPages(s: Scraper, st: State, order: seq<string>, pageOrder: seq<string>)
    requires Enumerates(order, st.redirects) && Enumerates(pageOrder, st.pages)
    requires PagesListed(st.pages, st.entries)
    ensures var r := FixUp(s, st, order, pageOrder);
      && (forall p :: p in r.pages ==> r.pages[p] != "")
      && (forall p :: p in r.pages ==>
            (CreateEntry(p) in r.entries || exists u :: u in r.redirects && p == s.pathOf(r.redirects[u])))
  {
    var r := FixUp(s, st, order, pageOrder);
    var pairs := RedirectPairs(s, st.redirects, order);
    var mapping := BuildMapping(pairs);
    RemapKeys(st.pages, mapping, pageOrder);
    BuildMappingValues(pairs);
    forall p | p in r.pages
      ensures r.pages[p] != ""
      ensures CreateEntry(p) in r.entries || exists u :: u in r.redirects && p == s.pathOf(r.redirects[u])
    {
      assert r.pages[p] in st.pages.Values;
      if p in mapping.Values {
        var k :| k in mapping && mapping[k] == p;
        var i :| 0 <= i < |pairs| && Recorded(pairs[i]) && mapping[k] == pairs[i].1;
        assert order[i] in st.redirects;
      }
    }
  }
}
