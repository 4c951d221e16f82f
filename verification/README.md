# xwdocs crawl-and-index engine in Dafny

xwdocs is a documentation scraper written in Rust. It crawls a documentation
site breadth-first from a set of initial pages, and decides for every URL
whether it belongs to the documentation. It runs each fetched page through a
stack of named HTML filters, which clean the page and report index entries. It
stores the filtered pages under their paths, moves pages reached through
redirects to their final paths, and builds a sorted entry index with one counter
per entry type. Around this core sit:

- the filter framework: the stack, the registry of factories, the URL helpers
  shared by filters, and image inlining;
- the keyed stores: the page database, the manifest and the documentation
  registry;
- a per-minute rate limiter;
- a notification centre and console formatting;
- the entry classifiers of the Babel, HTML and JavaScript documentation.

This project models that core as pure Dafny functions over immutable datatypes
and proves properties of the model. The modelling conventions:

- Rust's in-place mutators become functions that return the new state, or a
  status together with the new state. Where the source returns an error before
  mutating, the state comes back unchanged.
- The order in which a `HashMap` yields its keys is an explicit input, an
  enumeration of the keys (`Collections.Enumerates`). Wherever the order could
  change a result, the model either proves that it does not, or states the
  result for every order.
- Everything the core reads from outside becomes an input: the HTTP client,
  the HTML parser, the regex engine, the URL parser, the clock and the file
  system.
  - A DOM query becomes the fact it yields, such as the text of the first
    `<h1>` or whether an obsolete marker is present.
  - A regex becomes an oracle `Regex.RegexOracle`. `Regex.Agrees` pins down the
    oracle's meaning on literal patterns and `literal.*` patterns.
- Strings are `seq<char>` with one byte per char. Lowercasing and `\w` cover
  ASCII only.

The modules follow the source files, one module each:

| module | source file |
|---|---|
| `EntryIndex` | `src/core/doc.rs` |
| `EntrySort` | `src/core/doc.rs` |
| `Doc` | `src/core/doc.rs` |
| `UrlPolicy` | `src/core/scraper/url_scraper.rs` |
| `Crawl` | `src/core/scraper/url_scraper.rs` |
| `PathRemap` | `src/core/scraper/url_scraper.rs` |
| `FixRedirections` | `src/core/scraper/fix_redirections.rs` |
| `RateLimiter` | `src/core/scraper/rate_limiter.rs` |
| `FilterStack` | `src/core/filter_stack.rs` |
| `FilterRegistry` | `src/core/filter_registry.rs` |
| `Filter` | `src/core/scraper/filter.rs` |
| `FilterBase` | `src/core/filters/filter_base.rs` |
| `Images` | `src/core/filters/html/images.rs` |
| `Base64` | `src/core/filters/html/images.rs` |
| `PageDb` | `src/core/page_db.rs` |
| `Manifest` | `src/core/manifest.rs` |
| `Documentation` | `src/docs/documentation.rs` |
| `DocRegistry` | `src/docs/registry.rs` |
| `Response` | `src/core/response.rs` |
| `Requester` | `src/core/requester.rs` |
| `Instrumentable` | `src/core/instrumentable.rs` |
| `Subscriber` | `src/core/subscriber.rs` |
| `Parser` | `src/core/parser.rs` |
| `BabelEntries` | `src/docs/babel/entries.rs` |
| `BabelScraper` | `src/docs/babel/scraper.rs` |
| `HtmlEntries` | `src/docs/html/entries.rs` |
| `JavaScriptEntries` | `src/docs/javascript/entries.rs` |

`Wrappers`, `Strings`, `Numbers`, `Sorting`, `Collections` and `Regex` hold what
those modules share:

- `Option` and `Result`;
- Rust's string operations;
- unsigned parsing and printing;
- the stable sort;
- map enumeration;
- the regex oracle.

Where the code and its own tests or comments disagree, the model follows the
code. Lemmas exhibit each disagreement:

- `split_ints` starts a new piece at every digit that follows a non-digit.
  - So "1.2" splits into "1." and "2", not into "1" and ".2" as the tests at
    `src/core/doc.rs:502-504` expect. This is `EntrySort.SplitIntsTestInputs`.
  - So every piece but the last parses as 0. "1.10" therefore sorts before
    "1.2", against the tests at `src/core/doc.rs:491-492`. This is
    `EntrySort.SortEntriesFailingTests`.
- `sort_entries` is not transitive. The cycle is in
  `EntrySort.SortEntriesCycle`.
- With a limit of L requests a minute, the rate limiter's L-th call in a
  minute already takes the long wait. This is
  `RateLimiter.LimitReachedOnLthCall`.
- The Babel test at `src/docs/babel/tests.rs:120` expects the type "Guide"
  for the usage page. The code gives "Miscellaneous". This is
  `BabelEntries.UsageGuideIsMiscellaneous`.

## Model

| member | source | states |
|---|---|---|
| UrlPolicy.New | src/core/scraper/url_scraper.rs:61-84 | a new scraper has root path "/", the single initial path "/", the version as release, the name as root title, no base-URL list, no skip or only rules, no trailing slash, no skip callback, and a slug of the same length whose every char is the name's char lowercased, or '_' where the name has ' ' |
| UrlPolicy.SlugOf | src/core/scraper/url_scraper.rs:68 | the slug keeps the name's length; each char is '_' where the name has ' ' and the lowercased char elsewhere |
| UrlPolicy.GetBaseUrls | src/core/scraper/url_scraper.rs:192-198 | the base-URL list when one was set, otherwise the one base URL |
| UrlPolicy.WithBaseUrls | src/core/scraper/url_scraper.rs:182-189 | an empty list leaves the configuration as it was; a non-empty list becomes the base-URL list and its first URL the base URL |
| UrlPolicy.PrimaryFirstKept | src/core/scraper/url_scraper.rs:61-84 | after `new`, with or without `with_base_urls`, the base URL heads the base-URL list |
| UrlPolicy.NormalizeUrl | src/core/scraper/url_scraper.rs:284-302 | an http:// or https:// link is kept as it is; any other link becomes the base (ending in '/') followed by the link without one leading '/', so it always starts with the base |
| UrlPolicy.WithSlash | src/core/scraper/url_scraper.rs:289-293 | the base ends in '/' and starts with the given base; one '/' is added only when missing |
| UrlPolicy.DropSlash | src/core/scraper/url_scraper.rs:295-299 | exactly one leading '/' is dropped, if there is one |
| UrlPolicy.FirstBase | src/core/scraper/url_scraper.rs:307-309 | the index of the first base URL that prefixes the URL; no earlier base does; None exactly when no base does |
| UrlPolicy.PagePath | src/core/scraper/url_scraper.rs:311-316 | a page path is never empty and never starts with '/'; an empty rest becomes "index" |
| UrlPolicy.UrlToPath | src/core/scraper/url_scraper.rs:305-331 | under the first matching base URL, the path is what is left after removing every leading copy of that base and then every leading '/'; outside the bases a URL that parses gives the path of its parse and one that does not gives "unknown"; the result never starts with '/' |
| UrlPolicy.UrlToPathOfNormalized | src/core/scraper/url_scraper.rs:284-331 | a relative link resolved against the base URL maps back to its own path, with its leading '/'s removed, or to "index" |
| UrlPolicy.StripBase | src/core/scraper/url_scraper.rs:310 | stripping the base and then the '/'s from base + '/' + rest leaves the rest without its leading '/'s |
| UrlPolicy.AnyUnder | src/core/scraper/url_scraper.rs:236-239 | true exactly when the path equals one of the paths or lies under it (path + "/" prefix) |
| UrlPolicy.AnyMatch | src/core/scraper/url_scraper.rs:244-250 | true exactly when some pattern compiles and matches the path |
| UrlPolicy.AnyPrefix | src/core/scraper/url_scraper.rs:222-225 | true exactly when some base URL prefixes the URL |
| UrlPolicy.ShouldProcessUrl | src/core/scraper/url_scraper.rs:220-281 | a URL that is followed is under some base URL, is not rejected by the skip callback, and its path is not at or under any skip path |
| UrlPolicy.ShouldProcessUrlIff | src/core/scraper/url_scraper.rs:220-281 | a URL is followed exactly when it is under some base URL, the skip callback does not reject it, its path is not at or under a skip path, no skip pattern matches it, it is at or under an `only` path if those are set, and it matches an `only` pattern if those are set |
| UrlPolicy.OutsideBasesRejected | src/core/scraper/url_scraper.rs:222-225 | a URL under no base URL is rejected whatever the other settings |
| UrlPolicy.SlashSkipPathInert | src/core/scraper/url_scraper.rs:234-240 | a skip path that starts with '/' can never match, because page paths never start with '/' |
| UrlPolicy.GetInitialUrls | src/core/scraper/url_scraper.rs:201-217 | the initial paths resolved against the base URL, in order, followed by every base URL after the first, verbatim; never an error |
| UrlPolicy.InitialUrlsUnderBases | src/core/scraper/url_scraper.rs:201-225 | every initial URL that is not an absolute http(s) initial path passes the base-URL check of `should_process_url` |
| UrlPolicy.CreateEntry | src/core/scraper/url_scraper.rs:384-396 | a page's entry has the path as both name and path, and the type "Other" |
| Crawl.ScraperOf | src/core/scraper/url_scraper.rs:220-331 | the scraper the loop consults admits exactly the URLs `should_process_url` accepts and maps each URL to its `url_to_path` path |
| Crawl.Spacing | src/core/scraper/url_scraper.rs:464-470 | at 60 requests a minute the pause brings the time since the previous request up to at least 1000 ms: none when that much has passed, exactly the missing part otherwise |
| Crawl.PageContext | src/core/scraper/url_scraper.rs:493-511 | a fetched page's filter context holds the page URL, its page path and its HTML, with the base URL as base and root URL, and starts with no content, no additional entries and no options |
| Crawl.ApplyFilter | src/core/scraper/url_scraper.rs:514-521 | one filter fails exactly when its `apply` fails; on success the context is the filter's updated context with the returned HTML as its HTML |
| Crawl.RunFilters | src/core/scraper/url_scraper.rs:513-521 | with no filters the context is returned unchanged |
| Crawl.RunFiltersSnoc | src/core/scraper/url_scraper.rs:513-521 | the filters run left to right: adding a filter at the end applies it to the result of the others, and a failure anywhere is the chain's result |
| Crawl.NewLinks | src/core/scraper/url_scraper.rs:523-529 | the links queued are the page's links resolved against the page URL, none of them is visited, and every resolved link that is not visited is among them; NewLinksAppend gives their page order |
| Crawl.Store | src/core/scraper/url_scraper.rs:523-542 | storing a page queues its new links; when the content is empty no page or entry of its own is added; otherwise the content is stored under the page path and the page's entry is appended; in both cases the filters' additional entries follow; visited set, redirects and requests are untouched |
| Crawl.StorePagesListed | src/core/scraper/url_scraper.rs:531-542 | after storing, every stored page still has content and its own entry |
| Crawl.NewLinksAppend | src/core/scraper/url_scraper.rs:523-529 | the links of two runs of hrefs are those of the first run followed by those of the second, so the queue receives them in page order and a link repeated on the page is queued each time |
| Crawl.NewLinksSingle | src/core/scraper/url_scraper.rs:525-528 | one href is queued as its resolved URL exactly when that URL is not visited |
| Crawl.Visit | src/core/scraper/url_scraper.rs:472-547 | processing a fetched URL leaves the visited set and request list alone, changes the redirect map at most by recording that URL's redirect to a different URL, and keeps every stored page non-empty with its own entry |
| Crawl.Step | src/core/scraper/url_scraper.rs:451-547 | popping a visited or inadmissible URL only drops it; popping another one marks it visited and requested once, changes the redirects at most at that URL, and keeps every stored page non-empty with its own entry |
| Crawl.Marked | src/core/scraper/url_scraper.rs:451-462 | an admitted URL leaves the queue and joins both the visited set and the requested list; pages, entries and redirects are unchanged |
| Crawl.FetchErrorDrops | src/core/scraper/url_scraper.rs:544-546 | a request that fails drops the URL after marking it visited, so it is never retried, and nothing else changes |
| Crawl.RejectedResponseDrops | src/core/scraper/url_scraper.rs:475-485 | a response that is not a success or not HTML is dropped, after its redirect (if the final URL differs) has been recorded |
| Crawl.ProcessingErrorAborts | src/core/scraper/url_scraper.rs:487-521 | an accepted response whose body cannot be read, or whose filters fail, ends the whole crawl with that error |
| Crawl.AcceptedPageStored | src/core/scraper/url_scraper.rs:514-542 | an admitted, unvisited URL whose fetch succeeds, whose response is accepted and whose filters succeed is marked visited, has its redirect recorded, and then has its filtered page stored under its path with its entry, its additional entries appended and its new links queued |
| Crawl.StepInv | src/core/scraper/url_scraper.rs:450-548 | a step keeps the loop invariant: requested URLs are distinct, admitted and exactly the visited ones; stored pages are non-empty with their entries; each redirect starts at a visited URL and leads elsewhere |
| Crawl.LoopInv | src/core/scraper/url_scraper.rs:450-548 | the loop keeps that invariant for any number of pops |
| Crawl.LoopDone | src/core/scraper/url_scraper.rs:451 | with an empty queue the loop ends with the state unchanged |
| Crawl.LoopStep | src/core/scraper/url_scraper.rs:450-548 | a successful loop is a successful first pop, which keeps the invariant, followed by the loop from there |
| Crawl.Start | src/core/scraper/url_scraper.rs:444-448 | the crawl starts with the initial URLs queued and nothing visited, requested, stored, listed or redirected |
| Crawl.RedirectPairs | src/core/scraper/url_scraper.rs:563-567 | each recorded redirect, in the redirect map's iteration order, becomes the pair of its source's and its target's page paths |
| Crawl.RunProperties | src/core/scraper/url_scraper.rs:410-598 | a successful crawl never requests a URL twice and requests only URLs `should_process_url` accepts; every redirect starts at a requested URL and leads elsewhere; every stored page has content, and its path is the path of one of its entries or the path some redirect leads to |
| Crawl.FixUpPages | src/core/scraper/url_scraper.rs:557-582 | after the redirect fix-up every page still has content and its path is an entry's path or the page path of some redirect target |
| PathRemap.BuildMapping | src/core/scraper/url_scraper.rs:560-572 | the mapping's keys are exactly the lowercased source paths of the pairs whose two paths differ |
| PathRemap.BuildMappingLastWins | src/core/scraper/url_scraper.rs:569-571 | a lowercased source path maps to the target of the last pair that records it |
| PathRemap.BuildMappingValues | src/core/scraper/url_scraper.rs:569-571 | every value of the mapping is the target path of a recorded pair |
| PathRemap.Step | src/core/scraper/url_scraper.rs:576-580 | moving one page never adds a page and never invents content |
| PathRemap.Remap | src/core/scraper/url_scraper.rs:575-581 | the remap loop never grows the page map and every content afterwards was a content before |
| PathRemap.RemapEmptyMapping | src/core/scraper/url_scraper.rs:575-581 | with no redirected path the pages are unchanged |
| PathRemap.RemapAccounted | src/core/scraper/url_scraper.rs:575-581 | throughout the loop every present path is a redirect target, or an original path whose lowercase is unmapped or whose turn is still to come |
| PathRemap.StepAccounted | src/core/scraper/url_scraper.rs:576-580 | one turn of the loop keeps the invariant of PathRemap.RemapAccounted, with the visited path no longer pending |
| PathRemap.RemapKeys | src/core/scraper/url_scraper.rs:575-581 | when the loop visits every page path, each surviving path is a redirect target or an original path whose lowercase is not redirected, all contents were there before, and the map does not grow |
| PathRemap.RemapKeepsUntouched | src/core/scraper/url_scraper.rs:575-581 | a page whose lowercased path is not redirected, and which no redirect targets, keeps its path and content |
| FixRedirections.New | src/core/scraper/fix_redirections.rs:20-24 | a new record holds no redirect |
| FixRedirections.AddRedirection | src/core/scraper/fix_redirections.rs:32-35 | the redirect from the URL is recorded, replacing any earlier one, and every other URL's record is unchanged |
| FixRedirections.EffectiveUrl | src/core/scraper/fix_redirections.rs:38-44 | a URL with no recorded redirect leads to itself |
| FixRedirections.EffectiveUrlAfterAdd | src/core/scraper/fix_redirections.rs:32-44 | after a record the URL leads to its target, a second record for the same URL overwrites the first, and every other URL leads where it led before |
| FixRedirections.EffectiveUrlUnrecorded | src/core/scraper/fix_redirections.rs:20-44 | a fresh record sends every URL to itself |
| FixRedirections.PathFromUrl | src/core/scraper/fix_redirections.rs:47-52 | succeeds exactly when the URL parses, with the parsed path |
| FixRedirections.PathPairs | src/core/scraper/fix_redirections.rs:62-66 | succeeds exactly when both ends of every redirect parse, and then yields, in iteration order, each redirect's (from path, to path) pair |
| FixRedirections.ApplyToPaths | src/core/scraper/fix_redirections.rs:55-85 | when a recorded URL does not parse the error is returned before any page moves |
| FixRedirections.ApplyToPathsError | src/core/scraper/fix_redirections.rs:62-66 | the fix-up fails exactly when some recorded redirect has an end that does not parse, and then the page map is untouched |
| FixRedirections.ApplyToPathsKeys | src/core/scraper/fix_redirections.rs:55-85 | on success every surviving path is the path some redirect leads to, or an original path that no path-changing redirect starts from (compared lowercased); every content was there before; the map never grows |
| FixRedirections.ApplyToPathsNoRedirections | src/core/scraper/fix_redirections.rs:55-85 | with no redirect recorded the fix-up succeeds and the pages are unchanged |
| FixRedirections.ApplyToPathsExample | src/core/scraper/fix_redirections.rs:55-85 | a page at "/a" with a redirect from a URL of path "/a" to one of path "/b" ends up at "/b" with its content |
| FixRedirections.MappedIsTarget | src/core/scraper/fix_redirections.rs:62-71 | every value of the path mapping is the path some recorded redirect leads to |
| FixRedirections.UnmappedNotRedirected | src/core/scraper/fix_redirections.rs:62-82 | a path whose lowercase is no key of the mapping is not the start of any path-changing redirect |
| RateLimiter.MinuteOf | src/core/scraper/rate_limiter.rs:31-34 | the minute number is the clock's whole minutes cut to 32 bits, so it always fits a `u32` |
| RateLimiter.New | src/core/scraper/rate_limiter.rs:21-28 | a new limiter has the given limit, the current minute, a zero count and no previous request |
| RateLimiter.SetLimit | src/core/scraper/rate_limiter.rs:37-39 | only the limit changes |
| RateLimiter.Wait | src/core/scraper/rate_limiter.rs:42-80 | a wait keeps the limit and every field within its `u32`, so the counter increment never overflows; the count afterwards is at least one, and the last-request time is the moment the wait ends |
| RateLimiter.WaitCounts | src/core/scraper/rate_limiter.rs:44-76 | a new minute restarts the count; below the limit the count goes up by one and the pause is under 101 ms; at the limit the count restarts at one and the pause is between 2 and 61 seconds |
| RateLimiter.LongWaitEndsNextMinute | src/core/scraper/rate_limiter.rs:54-69 | the long wait ends one second into the next minute, and the limiter moves to that minute (wrapping at 2^32) |
| RateLimiter.ShortWait | src/core/scraper/rate_limiter.rs:70-76 | below the limit the first call never sleeps, and a later one sleeps exactly the rest of 100 ms since the previous request, or not at all |
| RateLimiter.LimitReachedOnLthCall | src/core/scraper/rate_limiter.rs:51-54 | with limit L, the L-th call within one minute already takes the long wait |
| FilterStack.New | src/core/filter_stack.rs:17-22 | a new stack has no filters and no factories |
| FilterStack.FilterNames | src/core/filter_stack.rs:106-108 | the names of the filters, one per filter, in stack order |
| FilterStack.Register | src/core/filter_stack.rs:25-32 | the factory is recorded under its name, replacing one of the same name; other factories and the filter list are unchanged |
| FilterStack.FindPosition | src/core/filter_stack.rs:111-113 | the index of the first filter with that name; None exactly when no filter has it |
| FilterStack.Push | src/core/filter_stack.rs:35-43 | with a factory of that name a filter it makes is appended under the name; without one the error is "未找到过滤器: " followed by the name, and the stack is unchanged |
| FilterStack.InsertAt | src/core/filter_stack.rs:51 | the new filter sits at the position, those before it keep their places, those after move up by one |
| FilterStack.InsertBefore | src/core/filter_stack.rs:46-59 | succeeds exactly when the factory exists and some filter has the target name; then the new filter goes just before the first such filter; on error the stack is unchanged |
| FilterStack.InsertAfter | src/core/filter_stack.rs:62-75 | succeeds exactly when the factory exists and some filter has the target name; then the new filter goes just after the first such filter; on error the stack is unchanged |
| FilterStack.Replace | src/core/filter_stack.rs:78-91 | succeeds exactly when the factory exists and the target is present; then only the first target's slot changes, to the new filter, and the length is kept; on error the stack is unchanged |
| FilterStack.PushFilter | src/core/filter_stack.rs:94-96 | the name list gains the name at its end; the factories are untouched |
| FilterStack.GetFilter | src/core/filter_stack.rs:99-103 | None exactly when no filter has the name; otherwise the filter of the first entry with that name |
| FilterStack.ContainsIff | src/core/filter_stack.rs:121-123 | `contains` holds exactly when the name is in the name list, and exactly when its position is found |
| FilterStack.Clear | src/core/filter_stack.rs:126-128 | no filter is left and the factories are kept |
| FilterStack.ErrorPrecedence | src/core/filter_stack.rs:46-91 | a missing factory is reported before a missing target, by all three of insert-before, insert-after and replace, and neither error changes the stack |
| FilterStack.InsertNames | src/core/filter_stack.rs:46-75 | after an insertion the names are the old names with the new one spliced in at the target's place, or just after it |
| FilterStack.ScenarioPush | src/core/filter_stack.rs:164-172 | the test's three registrations and first push give a one-filter stack named "filter1" |
| FilterStack.ScenarioInsertAfter | src/core/filter_stack.rs:174-177 | inserting "filter3" after "filter1" gives filter1, filter3 |
| FilterStack.ScenarioInsertBefore | src/core/filter_stack.rs:179-182 | inserting "filter2" before "filter3" gives filter1, filter2, filter3 |
| FilterStack.ScenarioReplace | src/core/filter_stack.rs:184-187 | replacing "filter2" with "filter1" gives filter1, filter1, filter3 |
| FilterStack.ScenarioEnd | src/core/filter_stack.rs:189-196 | the final stack contains "filter1", not "filter4", and is empty after `clear` |
| FilterRegistry.New | src/core/filter_registry.rs:25-29 | a new registry knows no name |
| FilterRegistry.Register | src/core/filter_registry.rs:37-44 | the factory is recorded under its name, replacing one of the same name; every other name keeps its factory |
| FilterRegistry.Create | src/core/filter_registry.rs:47-49 | a filter is made exactly when the name is registered |
| FilterRegistry.FilterNames | src/core/filter_registry.rs:57-59 | the names listed are exactly the registered ones, each once |
| FilterRegistry.RegisterFilter | src/core/filter_registry.rs:63-70 | the global `register_filter` leaves the name contained, with `create` giving its factory's filter, and every other name answering as before |
| FilterRegistry.CreateFilter | src/core/filter_registry.rs:73-76 | the global `create_filter` gives a filter exactly when the name is registered, and then the one its factory makes |
| FilterRegistry.ContainsFilter | src/core/filter_registry.rs:79-82 | the global `contains_filter` holds exactly when `create_filter` would give a filter |
| FilterRegistry.RegisterThenCreate | src/core/filter_registry.rs:37-54 | after registering a name it is contained and `create` makes that factory's filter; every other name answers as before |
| FilterRegistry.CreateUnregistered | src/core/filter_registry.rs:37-49 | after any series of registrations, a name never registered creates nothing |
| FilterRegistry.RegisterAllKeys | src/core/filter_registry.rs:37-54 | after a series of registrations the known names are the earlier ones plus the registered ones |
| FilterRegistry.ReRegisterNames | src/core/filter_registry.rs:37-59 | registering a name a second time does not lengthen the name list |
| FilterRegistry.GlobalScenario | src/core/filter_registry.rs:117-128 | from a fresh process, after `register_filter("test_filter")` the name is contained, "non_existent_filter" is not, `create_filter` makes a filter and `filter_names` lists the name |
| PageDb.New | src/core/page_db.rs:18-22 | a new database holds no page |
| PageDb.Add | src/core/page_db.rs:25-27 | the content is found under its path afterwards, every other path answers as before, and the count grows by one exactly when the path was new |
| PageDb.Get | src/core/page_db.rs:30-32 | a content is found exactly when the path is stored |
| PageDb.Len | src/core/page_db.rs:61-63 | the number of distinct stored paths |
| PageDb.IsEmptyIff | src/core/page_db.rs:56-58 | `is_empty` holds exactly when the count is zero, and exactly when no path is stored |
| PageDb.Clear | src/core/page_db.rs:91-93 | nothing is stored afterwards |
| PageDb.Remove | src/core/page_db.rs:96-98 | returns what was stored under the path, which is gone afterwards, and every other path answers as before |
| PageDb.Paths | src/core/page_db.rs:66-68 | lists each stored path once and nothing else |
| PageDb.Contents | src/core/page_db.rs:71-73 | lists the contents in the same order as the paths |
| PageDb.AddRemove | src/core/page_db.rs:25-98 | removing a page just added under a new path gives back its content and the database as it was |
| PageDb.DbScenario | src/core/page_db.rs:106-134 | the module's test: after adding one page, get, has, len, is_empty, paths and contents give the expected answers, and after removing it the database is empty |
| Manifest.New | src/core/manifest.rs:52-54 | a new manifest is empty |
| Manifest.Add | src/core/manifest.rs:75-77 | the doc is found under its own slug afterwards, replacing any doc with that slug; every other slug answers as before |
| Manifest.Get | src/core/manifest.rs:95-97 | a doc is found exactly when its slug is stored |
| Manifest.Remove | src/core/manifest.rs:80-82 | returns the doc that was under the slug, which is gone afterwards; every other slug answers as before |
| Manifest.Clear | src/core/manifest.rs:124-126 | no slug is stored afterwards |
| Manifest.IsEmptyIff | src/core/manifest.rs:129-136 | `is_empty` holds exactly when the count is zero, and exactly when no slug answers |
| Manifest.Docs | src/core/manifest.rs:85-87 | one doc per stored slug, in the map's iteration order |
| Manifest.OfType | src/core/manifest.rs:108-113 | the docs of one type, keeping their order: exactly the listed docs of that type, never more than the whole list |
| Manifest.Group | src/core/manifest.rs:106-113 | the grouping has a group for exactly the types some doc has, and each group is the docs of that type in iteration order |
| Manifest.DocsByType | src/core/manifest.rs:105-121 | there is one group for each type that some doc of the manifest has, and no other |
| Manifest.DocsByTypeCovers | src/core/manifest.rs:105-121 | every doc of the manifest appears in the group of its type |
| Manifest.DocsByTypeMembers | src/core/manifest.rs:105-121 | a group holds only docs of the manifest, all of the group's type |
| Manifest.DocsByTypeCounts | src/core/manifest.rs:105-121 | a group holds each doc of its type exactly as often as the manifest lists it, so the sort loses and adds nothing |
| Manifest.DocsByTypeSorted | src/core/manifest.rs:116-118 | each group is in order of lowercased name |
| Manifest.ManifestScenario | src/core/manifest.rs:144-170 | the module's test: after adding the "Rust" doc, `get("rust")` returns it with its version, the count is one, and the grouping has the one group "programming" holding one doc |
| Documentation.New | src/docs/documentation.rs:25-35 | a new documentation has the given name, slug and version, an empty release, and zero time and sizes |
| Documentation.Path | src/docs/documentation.rs:38-44 | the directory name is the slug alone when there is no version, else slug, '~', version; `DocRegistry.SplitDirNameOfPath` shows the loader splits it back |
| Documentation.FullName | src/docs/documentation.rs:71-77 | the display name is the name alone when there is no version, else the name, one space and the version |
| Documentation.WithRelease | src/docs/documentation.rs:47-50 | only the release changes, to the given one |
| Documentation.WithMtime | src/docs/documentation.rs:53-56 | only the modification time changes, to the given one |
| Documentation.WithDbSize | src/docs/documentation.rs:59-62 | only the database size changes, to the given one |
| Documentation.WithIndexSize | src/docs/documentation.rs:65-68 | only the index size changes, to the given one |
| Documentation.BuildersKeepNaming | src/docs/documentation.rs:38-77 | no chain of builders changes the directory name or the display name |
| DocRegistry.New | src/docs/registry.rs:13-15 | a new registry lists no doc |
| DocRegistry.Add | src/docs/registry.rs:18-20 | the doc is appended after the ones already listed |
| DocRegistry.FirstWhere | src/docs/registry.rs:28-37 | the first position whose doc satisfies the test; None exactly when none does |
| DocRegistry.Find | src/docs/registry.rs:28-30 | None exactly when no doc has the slug; otherwise the first listed doc with it |
| DocRegistry.FindWithVersion | src/docs/registry.rs:33-37 | None exactly when no doc has both the slug and the version; otherwise the first listed doc with both |
| DocRegistry.SplitDirName | src/docs/registry.rs:74-79 | a name without '~' is the slug with no version; the slug and version obtained never contain '~' |
| DocRegistry.SplitDirNameOfPath | src/docs/registry.rs:74-79 | for a doc whose slug and version hold no '~', splitting its directory name (`Documentation::path`, src/docs/documentation.rs:38-44) gives back its slug and version |
| DocRegistry.SplitDirNameDropsRest | src/docs/registry.rs:74-79 | in a name with two '~', the slug is the text before the first and the version the text between the two; the rest is dropped |
| DocRegistry.LoadDoc | src/docs/registry.rs:74-134 | a loaded doc takes its slug and version from the directory name, its name from meta.json or else the slug, its release from meta.json or else "", and the time and sizes read from disk |
| DocRegistry.LoadEntries | src/docs/registry.rs:60-136 | the loop only appends: the docs already listed stay in front, and at most one doc is added per entry |
| DocRegistry.Loadables | src/docs/registry.rs:60-88 | only directories with a readable name holding both index.json and db.json are kept |
| DocRegistry.LoadDocsAt | src/docs/registry.rs:60-136 | the i-th doc loaded is the one built from the i-th loadable entry |
| DocRegistry.LoadEntriesDocs | src/docs/registry.rs:60-136 | the loop appends exactly the docs of the loadable entries, in listing order, and skips every other entry |
| DocRegistry.LoadFromDisk | src/docs/registry.rs:40-139 | a missing base path is the error "文档路径不存在: " followed by the path, and leaves the registry alone; otherwise the list is cleared first, so an unreadable directory leaves it empty with the error "无法读取文档目录: " followed by the listing error, and a listing gives one doc per loadable entry |
| DocRegistry.LoadFromDiskDocs | src/docs/registry.rs:40-139 | after a successful load every doc was built from a directory holding index.json and db.json |
| Response.StatusClasses | src/core/response.rs:68-75 | a success (status 200) is never an error; 403 and 404 are neither success nor error; 0 and every other status from 400 to 599 are errors; every other status is not an error |
| Response.ContentLength | src/core/response.rs:83-88 | the length fits a `usize`; it is the header's value when the Content-Length header parses as a `usize`, and 0 when the header is missing or does not parse |
| Response.ContentLengthOfDecimal | src/core/response.rs:83-88 | a Content-Length header holding the decimal form of a representable number reads back as that number |
| Response.MimeType | src/core/response.rs:91-96 | the Content-Type header when there is one, else "text/plain" |
| Response.NoContentTypeNotHtml | src/core/response.rs:91-101 | a response without a Content-Type header is not HTML |
| Response.HtmlMimeIsHtml | src/core/response.rs:99-101 | any Content-Type mentioning "html" anywhere makes the response HTML |
| Response.ResponseScenario | src/core/response.rs:125-149 | the module's test: a 200 "text/html" response with Content-Length "100" is a success, not an error, not blank, of length 100, of type "text/html", HTML, and not timed out |
| Requester.New | src/core/requester.rs:27-33 | each missing argument takes its default: 20 concurrent requests and the default request options |
| Requester.FirstUnprocessed | src/core/requester.rs:123 | the index of the first queued URL that is not processed; None exactly when every queued URL is processed |
| Requester.GetNextUrl | src/core/requester.rs:115-125 | None exactly when every queued URL is processed, and then the queue is untouched; otherwise the first unprocessed URL in queue order, removed at its position with the rest kept in order, and never a processed URL |
| Requester.GetNextUrlRemovesOne | src/core/requester.rs:123-124 | a pick removes exactly one occurrence of the URL it returns and keeps every other queued URL |
| Requester.PickedNotPickedAgain | src/core/requester.rs:70-125 | once the picked URL is marked processed, no later pick returns it, whatever is queued later |
| Requester.Drain | src/core/requester.rs:65-100 | a series of picks, each marked processed, yields at most the number asked for and never a URL processed before |
| Requester.DrainDistinct | src/core/requester.rs:65-100 | such a series never yields the same URL twice, even from a queue holding a URL several times |
| Instrumentable.New | src/core/instrumentable.rs:34-38 | a new center has no subscriber for any event |
| Instrumentable.Subscribe | src/core/instrumentable.rs:41-50 | the callback is appended to that event's list, after those already there; every other event's list is unchanged |
| Instrumentable.Publish | src/core/instrumentable.rs:53-69 | the callbacks run are first those of the event's name in subscription order, then the "*" callbacks in subscription order, each receiving the event |
| Instrumentable.PublishCalls | src/core/instrumentable.rs:53-69 | a callback runs once for each of its subscriptions to the event's name plus once for each of its "*" subscriptions |
| Instrumentable.WildcardEventRunsTwice | src/core/instrumentable.rs:57-68 | an event named "*" runs every wildcard subscription twice |
| Instrumentable.SubscribeThenPublish | src/core/instrumentable.rs:41-69 | a new subscription to an event makes its callback run once more on that event's next publish (twice more when the event is "*") |
| Instrumentable.Instrument | src/core/instrumentable.rs:85-116 | the action's result comes back unchanged, and exactly one event is published, with the given name and payload and a duration, reaching the name's and the wildcard's subscribers |
| Instrumentable.InstrumentScenario | src/core/instrumentable.rs:126-151 | the module's test: a single subscriber to "test_event" runs exactly once, sees that name and a duration, and 42 comes back |
| Subscriber.TerminalWidth | src/core/subscriber.rs:57-72 | COLUMNS when it reads as a `usize`, otherwise the terminal's width when known, otherwise 80 |
| Subscriber.FormatUrl | src/core/subscriber.rs:75-77 | deleting the schemes never lengthens the URL; its value is given by FormatUrlDropsScheme |
| Subscriber.FormatUrlDropsScheme | src/core/subscriber.rs:75-77 | an "http://" or "https://" URL with no further "http://" or "https://" after the scheme is shown as what follows the scheme, port included |
| Subscriber.FormatPath | src/core/subscriber.rs:80-116 | a path outside the current directory (or with no readable current directory) is unchanged; the current directory itself becomes ""; under the root directory "/" paths are unchanged; the result is never longer than the path |
| Subscriber.FormatPathOfJoin | src/core/subscriber.rs:94-97 | the current directory (other than "/") joined to a relative path with '/' or '\' shows as that relative path |
| Subscriber.Truncate | src/core/subscriber.rs:130-156 | the cut text has exactly the width; above three columns it keeps the text's start and ends in "..." |
| Subscriber.SaturatingSub | src/core/subscriber.rs:127 | `saturating_sub`: the difference when it is not negative, and 0 in place of a negative one |
| Subscriber.Justify | src/core/subscriber.rs:119-160 | a line without " [" comes out exactly the width: padded with spaces when it fits, cut otherwise, ending in "..." when the width exceeds 3; a line with " [" is split at its last " [" into content and tag and laid out by FitTagged |
| Subscriber.FitTagged | src/core/subscriber.rs:123-148 | the line ends in the tag and is the width long, or the tag's length when the tag is wider; a content that fits is padded between content and tag; a content too long is cut to the width the tag leaves (ending in "..." when that exceeds 3) and followed by the tag |
| Subscriber.JustifyTagged | src/core/subscriber.rs:123-148 | for content + " [" + t with no '[' in t, the result ends in " [" + t, and a content that fits is padded, never cut |
| Subscriber.JustifyKeepsTag | src/core/subscriber.rs:123-148 | the tag from its '[' on survives justification at any width |
| Subscriber.JustifyScenarioPlain | src/core/subscriber.rs:359-361 | the test's plain line "Hello, world!" comes back no shorter, on a terminal at least 13 columns wide |
| Subscriber.JustifyScenarioTagged | src/core/subscriber.rs:364-366 | the test's "Processing [INFO]" keeps "[INFO]" at any width |
| Parser.FirstClose | src/core/parser.rs:70 | the position of the first '>', with none before it; None exactly when there is no '>' |
| Parser.StripDoctypes | src/core/parser.rs:70-71 | deleting the doctype declarations never lengthens the text |
| Parser.StripDoctypesAbsent | src/core/parser.rs:70-71 | a text without "<!DOCTYPE" is left as it is |
| Parser.StripLeadingDoctype | src/core/parser.rs:70-71 | a leading declaration is removed up to and including its first '>', and the scan goes on after it |
| Parser.DecodeDots | src/core/parser.rs:74-78 | decoding the escaped dots never lengthens the text |
| Parser.DecodeDotsPlain | src/core/parser.rs:74-78 | a text without '&' has nothing to decode |
| Parser.DecodeDecimalDot | src/core/parser.rs:75-76 | "&#46;" between texts without '&' becomes "." |
| Parser.DecodeHexDot | src/core/parser.rs:75-76 | "&#x2E;" between texts without '&' becomes "." |
| Parser.CleanHtml | src/core/parser.rs:68-80 | the cleaned HTML is never longer than its input |
| Parser.CleanHtmlPlain | src/core/parser.rs:68-80 | a text with neither '!' nor '&' comes back unchanged |
| Parser.CleanHtmlLeadingDoctype | src/core/parser.rs:68-80 | a leading declaration followed by text without '!' or '&' leaves just that text |
| Parser.CleanHtmlScenario | src/core/parser.rs:144-150 | the module's test, for any page body without '!' or '&': "<!DOCTYPE html>" followed by the body gives the body |
| BabelEntries.AnyStartsWith | src/docs/babel/entries.rs:76 | true exactly when some prefix of the list starts the name |
| BabelEntries.FirstCategory | src/docs/babel/entries.rs:75-79 | the category found is one the name falls in; None exactly when the name falls in no category of the order |
| BabelEntries.GetType | src/docs/babel/entries.rs:73-87 | a name that falls in a category gets that category, whatever the table's iteration order; a name in none gets "Other Plugins" when the page path mentions "babel-plugin", else nothing |
| BabelEntries.CategoriesIncomparable | src/docs/babel/entries.rs:12-50 | no prefix of one category is a prefix of, or prefixed by, a prefix of another |
| BabelEntries.OneCategory | src/docs/babel/entries.rs:12-79 | a name falls in at most one category |
| BabelEntries.GetTypeOrderFree | src/docs/babel/entries.rs:75-79 | the iteration order of the table never changes the type |
| BabelEntries.GetEntries | src/docs/babel/entries.rs:100-111 | exactly one entry: named by the first heading ("" without one), at the page's path, of the page's type or else "Miscellaneous" |
| BabelEntries.Apply | src/docs/babel/entries.rs:91-94 | the page passes through unchanged |
| BabelEntries.ParserPageScenario | src/docs/babel/tests.rs:97-101 | the test's "@babel/parser" page gives one "Tooling" entry at its path |
| BabelEntries.PluginPageScenario | src/docs/babel/tests.rs:140-144 | the test's "My Custom Plugin" page at a "babel-plugin" path gives one "Other Plugins" entry |
| BabelEntries.UsageGuideIsMiscellaneous | src/docs/babel/tests.rs:116-120 | "Babel Usage Guide" at "docs/usage.html" gets "Miscellaneous", so the test's expected "Guide" is never produced |
| BabelEntries.NoCategory | src/docs/babel/entries.rs:12-50 | a name whose first char starts no prefix of the table falls in no category |
| BabelScraper.ResolveVersion | src/docs/babel/scraper.rs:24-29 | "6" resolves to 6.26.1 and nothing else does; everything else resolves to 7.21.4 |
| BabelScraper.New | src/docs/babel/scraper.rs:22-80 | the policy is named "Babel" with the resolved version, has the one base URL "https://babeljs.io/docs/" with trailing slashes, the ten skip patterns and no skip paths or only rules, skips links into the old documentation, has the home and code links, and runs the clean filter before the entries filter |
| BabelScraper.GetLatestVersion | src/docs/babel/scraper.rs:83-87 | always succeeds with 7.21.4, the version "7" resolves to |
| BabelScraper.OldDocsNeverProcessed | src/docs/babel/scraper.rs:72-73 | a URL mentioning "https://babeljs.io/docs/en/" is never followed, whatever the regex engine and URL parser |
| BabelScraper.SkipPatternsStems | src/docs/babel/scraper.rs:58-69 | each skip pattern is a literal ending in '/' followed by ".*" |
| BabelScraper.UsagePagesSkipped | src/docs/babel/scraper.rs:58-69 | with a regex engine that reads literal patterns as written, every page under "usage/" is skipped, because the patterns match unanchored |
| BabelScraper.UsagePathSkipped | src/docs/babel/scraper.rs:58-69 | "https://babeljs.io/docs/usage/options" (path "usage/options") is not followed |
| BabelScraper.SkippedByPattern | src/core/scraper/url_scraper.rs:246-253 | a URL whose path matches any skip pattern is not followed |
| BabelScraper.PathBelowBase | src/core/scraper/url_scraper.rs:305-317 | under the single base URL a page's path is what follows the base |
| BabelScraper.FlatPageNotOldDocs | src/docs/babel/scraper.rs:72-73 | a URL one '/'-free step below the base is not an old-documentation link |
| BabelScraper.FlatPageProcessed | src/docs/babel/scraper.rs:22-80 | a page directly below the base, such as "babel-parser", has that name as its path and is followed |
| BabelScraper.NoSkipPatternMatches | src/docs/babel/scraper.rs:58-69 | a path without '/' matches none of the skip patterns |
| HtmlEntries.PlainName | src/docs/html/entries.rs:24-29 | the readable slug carries no capital letter, no '_' and no '/', and is no longer than the slug |
| HtmlEntries.PlainNameOfPlainSlug | src/docs/html/entries.rs:24-29 | a slug with no '_', no '/', no "Element." and no whitespace at either end reads as its lowercase |
| HtmlEntries.PlainNameOfElement | src/docs/html/entries.rs:24-29 | the slug "Element/<w>" of a lowercase word reads as `w`: '/' becomes '.' and "Element." is dropped |
| HtmlEntries.WordRun | src/docs/html/entries.rs:34 | the greedy `[-\w]+` run: a prefix of the input made of word characters only, stopped by the first char that is not one |
| HtmlEntries.FindInput | src/docs/html/entries.rs:34 | the leftmost position from the start point where `input\.` followed by a word character occurs; None exactly when there is no such position |
| HtmlEntries.InputType | src/docs/html/entries.rs:34-35 | the capture of the leftmost match: the whole word run after the first "input." that one follows; None exactly when the pattern matches nowhere |
| HtmlEntries.GetName | src/docs/html/entries.rs:23-40 | the readable slug, or `input type="T"` with T the capture when the pattern matches in it |
| HtmlEntries.GlobalAttributesUnreachable | src/docs/html/entries.rs:29-33 | the lowercased name never starts with "Global attributes.", so the " (attribute)" branch is dead |
| HtmlEntries.GetNameNoUpper | src/docs/html/entries.rs:23-40 | a name comes out without capital letters |
| HtmlEntries.InputElementName | src/docs/html/entries.rs:23-40 | the slug "Element/input/w", w a lowercase word, is named `input type="w"` |
| HtmlEntries.PlainInputName | src/docs/html/entries.rs:24-29 | the slug "Element/input/w" reads as "input.w" once "Element." is removed |
| HtmlEntries.DottedSlug | src/docs/html/entries.rs:24-27 | the slug "Element/input/w" becomes "Element.input.w" after the replacements and the trim |
| HtmlEntries.GetType | src/docs/html/entries.rs:42-60 | there is always a type; "CORS" or "Using" in the slug gives "Miscellaneous", then an obsolete marker gives "Obsolete", then "Global_attr" gives "Attributes", "Element/" gives "Elements", anything else "Miscellaneous" |
| HtmlEntries.IncludeDefaultEntry | src/docs/html/entries.rs:62-76 | the page gets its own entry exactly when it is not the heading page and its first indicator does not say "not on a standards track" |
| HtmlEntries.LookupAdditional | src/docs/html/entries.rs:80-86 | the element list of the first table row with that slug; None exactly when no row has it |
| HtmlEntries.EntryId | src/docs/html/entries.rs:103-113 | an id as long as its name, without capitals and without spaces |
| HtmlEntries.AttrEntries | src/docs/html/entries.rs:88-107 | at most one entry per row, each ending in " (attribute)", typed "Attributes", with the id derived from its name |
| HtmlEntries.AttrEntriesAppend | src/docs/html/entries.rs:91-105 | the table is read row by row: two runs of rows give the entries of the first followed by those of the second |
| HtmlEntries.AttrEntriesAllRows | src/docs/html/entries.rs:89-105 | when no row is a global-attribute row every row gives its entry, in order |
| HtmlEntries.AttrEntriesNoRows | src/docs/html/entries.rs:92-95 | when every row is a global-attribute row the table gives no entry |
| HtmlEntries.LinkEntries | src/docs/html/entries.rs:108-117 | one "Attributes" entry per code cell, in order, named "rel: " and the trimmed code text |
| HtmlEntries.AdditionalEntries | src/docs/html/entries.rs:78-121 | the heading page lists its six elements, "Attributes" the attribute table, "Link_types" the link table, every other slug nothing |
| HtmlEntries.HeadingEntries | src/docs/html/entries.rs:82-84 | the six entries h1 to h6, each its own path, typed "Elements" |
| HtmlEntries.GetEntries | src/docs/html/entries.rs:147-163 | the page's own entry first when it is included, with its name, its slug as path and its type, followed by the additional entries; otherwise only the additional entries |
| HtmlEntries.HeadingPageEntries | src/docs/html/entries.rs:63-86 | the heading page lists exactly the six heading elements, whatever it holds |
| HtmlEntries.ElementPageEntries | src/docs/html/entries.rs:147-163 | an ordinary element page without markers lists only itself, typed "Elements" |
| HtmlEntries.BuildEntry | src/docs/html/entries.rs:123-135 | the name is kept; without a fragment the path is the current path, a fragment holding '#' is the whole path, any other is appended after '#'; the type defaults to "Element" |
| JavaScriptEntries.TrimTrimmed | src/docs/javascript/entries.rs:29-31 | a trimmed string has no whitespace at either end |
| JavaScriptEntries.GetName | src/docs/javascript/entries.rs:27-33 | the heading text trimmed; without a heading, the slug with every '_' made a space and then trimmed, so it holds no '_' and is no longer than the slug |
| JavaScriptEntries.GetType | src/docs/javascript/entries.rs:36-50 | always one of the five types; without a breadcrumb "Others" |
| JavaScriptEntries.GetTypeIff | src/docs/javascript/entries.rs:39-49 | each type exactly when the breadcrumb mentions it and none of the words checked before it |
| JavaScriptEntries.GetEntries | src/docs/javascript/entries.rs:62-68 | one entry at the page's own path, with its name and its type |
| JavaScriptEntries.Apply | src/docs/javascript/entries.rs:54-56 | the page passes through unchanged |
| EntrySort.CompareStrings | src/core/doc.rs:430 | the lexicographic comparison of two names is Equal exactly when they are the same string |
| EntrySort.CompareStringsAntisymmetric | src/core/doc.rs:430 | swapping the two names reverses the comparison |
| EntrySort.CompareLists | src/core/doc.rs:473 | the element-wise comparison of two piece lists is Equal exactly when the lists are the same |
| EntrySort.CompareListsAntisymmetric | src/core/doc.rs:473 | swapping the two lists reverses the comparison |
| EntrySort.SplitInts | src/core/doc.rs:393-416 | no pieces exactly for the empty string, and no piece is empty |
| EntrySort.SplitIntsSnoc | src/core/doc.rs:398-408 | one step of the loop: a digit after a non-digit opens a new piece, any other char extends the last one |
| EntrySort.SplitIntsConcat | src/core/doc.rs:393-416 | the pieces joined give back the input, and the last char of the input ends the last piece |
| EntrySort.SplitIntsCuts | src/core/doc.rs:401-404 | every cut falls between a non-digit and a digit, and no piece contains such a place inside it |
| EntrySort.SplitIntsBoundaries | src/core/doc.rs:401-404 | every piece but the last ends in a non-digit and is followed by a piece that opens with a digit |
| EntrySort.SplitIntsNoInnerRun | src/core/doc.rs:401-406 | inside a piece no digit follows a non-digit |
| EntrySort.ProcessPieces | src/core/doc.rs:442-460 | as many pieces as before; the last is kept and every other becomes its `u32` value written out, 0 when it does not parse |
| EntrySort.PadBeforeLast | src/core/doc.rs:462-471 | the padded list is n longer: the pieces before the last keep their places, n "0"s follow them, and the last piece stays last |
| EntrySort.Insert | src/core/doc.rs:465 | `Vec::insert`: the element lands at the index, earlier elements stay and later ones shift right by one |
| EntrySort.PadByInsertsIsPadBeforeLast | src/core/doc.rs:463-470 | the loop that inserts "0" at `len() - 1` n times gives the list with n "0"s just before its last piece |
| EntrySort.SortEntriesAsWritten | src/core/doc.rs:418-477 | the comparison panics exactly when one name is empty and the other starts with a digit and splits into at least two pieces |
| EntrySort.SortEntriesAsWrittenPanicsOnEmptyName | src/core/doc.rs:463-470 | comparing "1.2" with "" panics |
| EntrySort.SortEntriesAgreesWhereDefined | src/core/doc.rs:418-477 | the corrected comparator gives the same answer wherever the code as written does not panic |
| EntrySort.SortEntriesEmptyName | src/core/doc.rs:429-439 | the corrected comparator ranks "" as a one-piece name: before a digit-led one-piece name, after a name of several pieces |
| EntrySort.SortEntriesReflexive | src/core/doc.rs:418-477 | every name compares Equal to itself |
| EntrySort.SortEntriesAntisymmetric | src/core/doc.rs:418-477 | swapping the names reverses the comparison |
| EntrySort.SortEntriesMultiPiece | src/core/doc.rs:441-473 | for two names of several pieces each, the last pieces decide, because every earlier piece ends in a non-digit and so reads as 0 |
| EntrySort.SortEntriesPlainNames | src/core/doc.rs:474-476 | names not starting with a digit compare by their lowercased forms |
| EntrySort.SortEntriesSinglePieceLast | src/core/doc.rs:433-439 | once a digit leads either name, a one-piece name comes after a name of several pieces |
| EntrySort.SortEntriesCycle | src/core/doc.rs:418-477 | "b1.1" < "0.5" < "a1.9" < "b1.1": the comparison is not transitive |
| EntrySort.SortEntriesPassingTests | src/core/doc.rs:486-496 | the test's expectations that hold: "a" < "b", "B" > "a", "1.1" < "1.2", "item" > "1.item", "1.item" < "2.item" |
| EntrySort.SortEntriesFailingTests | src/core/doc.rs:491-492 | "1.10" < "1.2" and "2.1" < "1.2", where the test expects Greater for both |
| EntrySort.SplitIntsTestInputs | src/core/doc.rs:502-504 | the test inputs split as ["1.", "2"], ["10.", "20.", "30"] and ["v", "1.", "2.", "3"], not at the dots as the test expects |
| EntryIndex.New | src/core/doc.rs:96-102 | an empty index with no counters satisfies the index invariant: no entry twice, the seen-set equal to the entries, one counter per type present holding the type's name, lowercased slug and entry count |
| EntryIndex.Add | src/core/doc.rs:105-123 | a triple already present changes nothing; a new one is appended, recorded as seen, its type gains a counter if it had none, and every other type's counter is untouched |
| EntryIndex.AddValid | src/core/doc.rs:105-123 | adding keeps the index invariant, so each counter stays equal to the number of distinct entries of its type |
| EntryIndex.AddKeepsDistinct | src/core/doc.rs:108-121 | appending an entry not yet present keeps the entries pairwise distinct |
| EntryIndex.AddCounter | src/core/doc.rs:109-119 | after adding a new entry each counter equals the number of entries of its type, with the slug its lowercased name |
| EntryIndex.AddMultiple | src/core/doc.rs:126-130 | the seen-set grows by exactly the added entries and the earlier entries stay in front |
| EntryIndex.AddMultipleValid | src/core/doc.rs:126-130 | adding a batch keeps the index invariant |
| EntryIndex.SameNameAndPathTwoTypes | src/core/doc.rs:106-108 | two entries differing only in type are both kept, each with a counter of one |
| EntryIndex.TypeList | src/core/doc.rs:148 | the counters listed once each, in the map's iteration order |
| EntryIndex.ToFullIndex | src/core/doc.rs:143-155 | the index keeps everything but the order of its entries; the returned entries are that same reordering and the returned types a reordering of the counters |
| EntryIndex.ToFullIndexAsWritten | src/core/doc.rs:143-155 | `to_full_index` with `sort_entries` as written: where neither sort panics it returns exactly what `EntryIndex.ToFullIndex` returns, and it never panics when the comparison returns on every pair of entry names and every pair of type names |
| EntryIndex.ToFullIndexAsWrittenNonEmptyNames | src/core/doc.rs:143-155 | an index whose entry and type names are all non-empty converts without panicking, to `EntryIndex.ToFullIndex`'s result |
| EntryIndex.ToFullIndexAsWrittenPanics | src/core/doc.rs:105-155 | `add` accepts an entry named "" and one named "1.2", and `to_full_index` then panics on the index they form |
| EntryIndex.ToFullIndexCorrect | src/core/doc.rs:143-155 | the index stays valid; the returned entries are a permutation of the index's, sorted by name; there is exactly one type record per type present, equal to its counter, and the records are sorted by name |
| EntryIndex.SortedEntriesValid | src/core/doc.rs:145 | sorting the entries in place keeps the index invariant and leaves them in order |
| EntryIndex.SortedTypes | src/core/doc.rs:148-149 | the sorted type list is in order, has one record per key of the map and nothing else |
| EntryIndex.EntryOrderAntisymmetric | src/core/doc.rs:145 | the entry comparison by name is antisymmetric on any list of entries |
| EntryIndex.TypeOrderAntisymmetric | src/core/doc.rs:149 | the type comparison by name is antisymmetric on any list of types |
| Sorting.Insert | src/core/doc.rs:145-149 | one insertion step adds exactly one copy of the element |
| Sorting.SortBy | src/core/doc.rs:145-149 | the stable sort returns a permutation of its input |
| Sorting.InsertSorted | src/core/doc.rs:145-149 | inserting into a sorted list under a comparison antisymmetric on the elements keeps it sorted |
| Sorting.SortBySorted | src/core/doc.rs:145-149 | the result is sorted (no element compares Greater than the next) whenever the comparison is antisymmetric on the input |
| Sorting.SortByDistinctBy | src/core/doc.rs:145-149 | sorting keeps keys distinct |
| Sorting.SortBySameElements | src/core/doc.rs:145-149 | sorting keeps exactly the elements it was given |
| Sorting.InsertPartial | src/core/doc.rs:145-149 | one insertion step with a comparison that may panic: when it returns it adds exactly one copy of the element; when it panics, the element was compared with one already placed |
| Sorting.SortByPartial | src/core/doc.rs:145-149 | the sort with a comparison that may panic: when it returns, a permutation of the input; when it panics, some pair of input elements has no comparison result |
| Sorting.InsertPartialAgrees | src/core/doc.rs:145-149 | where the panicking comparison agrees with a total one, the insertion step returns the total one's result, and it returns whenever every pair compares |
| Sorting.SortByPartialAgrees | src/core/doc.rs:145-149 | where the panicking comparison agrees with a total one, the sort returns the total sort's result, and it returns whenever every pair of input elements compares |
| Numbers.ParseUnsigned | src/core/doc.rs:447 | a parsed value is the decimal value of the text, all digits after an optional leading '+', and never exceeds the type's maximum; conversely such a text whose value fits parses to that value |
| Numbers.NatToString | src/core/doc.rs:447 | a non-empty run of decimal digits without a leading zero |
| Numbers.NatToStringValue | src/core/doc.rs:447 | the digits written out have the number's value |
| Numbers.ParseNatToString | src/core/doc.rs:447 | parsing the decimal form of a representable number gives the number back |
| Numbers.ParseFailsOnTrailingNonDigit | src/core/doc.rs:447 | text ending in a non-digit never parses, so such a piece reads as 0 |
| Regex.LiteralPatternMatch | src/core/scraper/url_scraper.rs:247-251 | with an engine that reads literal patterns as written, a pattern "lit" or "lit.*" matches a text exactly when the text contains "lit" |
| Doc.SplitAtLastSlash | src/core/doc.rs:202-214 | joining a directory and a '/'-free file name with '/' can be split back into the two at the last '/' |
| Doc.StoragePathsSplit | src/core/doc.rs:197-214 | the index, database and metadata paths each split into the slug and their own file name, so they never coincide and each gives back the slug |
| Doc.VersionParts | src/core/doc.rs:355-363 | one number per piece between '-' and '.', at least one; a piece that parses as a `u32` gives its value, and any other piece gives 0 |
| Doc.VersionPartsOfRelease | src/core/doc.rs:355-363 | "a.b.c" of `u32` numbers reads as [a, b, c], and with a "-tag" suffix ending in a non-digit as [a, b, c, 0] |
| Doc.OutdatedState | src/core/doc.rs:354-389 | a newer major part, or a newer minor part under an equal major 0 or 1, is a major update; a newer minor part under an equal major of 2 or more is a minor update; anything else is up to date |
| Doc.OutdatedStateSameVersion | src/core/doc.rs:354-389 | a version is up to date with itself |
| Filter.GetOption | src/core/scraper/filter.rs:61-63 | a value exactly when the key is set, and then the value stored under it |
| Filter.WithOption | src/core/scraper/filter.rs:55-58 | the key is set to the value, every other key keeps its presence and value, and the rest of the context is unchanged |
| Filter.OptionRoundTrip | src/core/scraper/filter.rs:55-63 | after `with_option(k, v)`, `get_option(k)` gives v and every other key reads as before |
| Filter.SubpathTo | src/core/scraper/filter.rs:94-100 | for a URL under the base, a suffix of what follows the base with only '/'s dropped in between and no leading '/'; any other URL unchanged |
| Filter.SubpathToRoundTrip | src/core/scraper/filter.rs:94-100 | a subpath without a leading '/' is recovered from the base, any number of '/'s and the subpath |
| Filter.SubpathToBelow | src/core/scraper/filter.rs:95-96 | below the base the subpath is the rest with its leading '/'s trimmed |
| Filter.TrimSlashes | src/core/scraper/filter.rs:96 | trimming leading '/'s removes exactly the run of '/'s before a part that does not start with one |
| Filter.PageKindIgnoresCurrentUrl | src/core/scraper/filter.rs:89-111 | whether a page is a root or an initial page depends on the root URL and never on the current URL, and every root page is an initial page |
| Filter.UrlKinds | src/core/scraper/filter.rs:114-142 | relative and absolute URLs exclude each other and relative ones are internal; a URL neither relative nor absolute is a fragment or a data URL; an absolute URL is internal exactly when it extends the base by more than "" or "/" |
| Filter.DefaultGetEntries | src/core/scraper/filter.rs:158-160 | a filter that does not list entries lists none |
| Filter.DefaultApply | src/core/scraper/filter.rs:181-183 | the default filter leaves the page as it is and never fails |
| FilterBase.FilterSubpathTo | src/core/filters/filter_base.rs:90-102 | for a URL under the base, what follows the base with a '/' put in front when it lacks one, so that the base and the subpath (less that added '/') give back the URL; any other URL unchanged |
| FilterBase.FilterSlug | src/core/filters/filter_base.rs:105-110 | the subpath without its leading '/'s is the slug followed by some number of ".html"s, and the slug itself does not end in ".html" |
| FilterBase.FilterSlugUnique | src/core/filters/filter_base.rs:105-110 | those two facts fix the slug: any text with both properties is the slug |
| FilterBase.FilterRootPageUnderBase | src/core/filters/filter_base.rs:113-124 | for a current URL under the base the subpath is never empty, so a root page there is one whose subpath is "/" or the root path; every root page is an initial page |
| FilterBase.SchemeEnd | src/core/filters/filter_base.rs:9 | the length of the leading run of chars other than ':', '/', '?' and '#' |
| FilterBase.SchemeEndAtLeast | src/core/filters/filter_base.rs:9 | the run covers any prefix made of such chars |
| FilterBase.HasSchemeIff | src/core/filters/filter_base.rs:9 | the pattern `\A[^:\/?#]+:` matches exactly when that run is non-empty and followed by ':' |
| FilterBase.RelativeUrlStringReduces | src/core/filters/filter_base.rs:127-146 | a "data:" string always has a scheme, so a string is relative exactly when it is neither absolute nor a fragment |
| FilterBase.Dash | src/core/filters/filter_base.rs:150 | '!', ';' and ':' become '-' in place, every other char is kept |
| FilterBase.CleanPathProperties | src/core/filters/filter_base.rs:149-152 | the cleaned path holds none of '!', ';', ':' and '+', and cleaning it again changes nothing |
| FilterBase.ReplacePlusClean | src/core/filters/filter_base.rs:151 | replacing every '+' by "_plus_" in a string without '!', ';' or ':' leaves none of the four |
| Images.New | src/core/filters/html/images.rs:31-38 | a size limit of 300 KiB (307200 bytes), optimisation on, no width cap |
| Images.WithMaxSize | src/core/filters/html/images.rs:41-44 | sets the size limit and keeps the other two settings |
| Images.WithOptimize | src/core/filters/html/images.rs:47-50 | sets the optimisation switch and keeps the other two settings |
| Images.WithMaxWidth | src/core/filters/html/images.rs:53-56 | sets the width cap and keeps the other two settings |
| Images.DataUrlExamples | src/core/filters/html/images.rs:280-282 | "data:image/png;base64,ABC" is a data URL; the https URL and "/images/icon.png" are not |
| Images.RelativeUrlExampleRoot | src/core/filters/html/images.rs:285-287 | "/images/test.png" is relative |
| Images.RelativeUrlExampleParent | src/core/filters/html/images.rs:286 | "../images/test.png" is relative |
| Images.RelativeUrlExampleBare | src/core/filters/html/images.rs:287 | "images/test.png" is relative |
| Images.RelativeWithoutColon | src/core/filters/html/images.rs:176-178 | a non-empty string without ':' that starts with neither 'd' nor '#' is relative |
| Images.NonRelativeUrlExampleHttps | src/core/filters/html/images.rs:288 | the https URL is not relative |
| Images.NonRelativeUrlExampleHttp | src/core/filters/html/images.rs:289 | the http URL is not relative |
| Images.NonRelativeUrlExamplePrefixes | src/core/filters/html/images.rs:290-291 | a data URL and a fragment are not relative |
| Images.SchemeNotRelative | src/core/filters/html/images.rs:177 | "scheme://rest" is never relative, whatever the scheme |
| Images.ResolveSrc | src/core/filters/html/images.rs:209-213 | a relative source is appended to the base URL stripped of its trailing '/'s, any other source is fetched as it is; either way the URL ends with the source |
| Images.DataUri | src/core/filters/html/images.rs:103-107 | the result is a data URL |
| Images.DataUriRoundTrip | src/core/filters/html/images.rs:103-107 | the data URI carries the content type between "data:" and ";base64,", and decoding the text after it gives the bytes back |
| Images.DownloadImage | src/core/filters/html/images.rs:59-108 | a failed send, a non-2xx status or an unreadable body is an error; a body within the limit becomes the data URI of its content type ("image/jpeg" when absent); an oversized body is an error when optimisation is off; any success is a data URL |
| Images.OptimizeImage | src/core/filters/html/images.rs:111-168 | succeeds exactly when the image recodes and the new bytes fit the limit, and then gives the data URI of the new bytes under the original content type |
| Images.ApplyOne | src/core/filters/html/images.rs:196-235 | an image without `src`, with a data URL, or whose download fails leaves the text unchanged |
| Images.Apply | src/core/filters/html/images.rs:184-239 | the filter never fails once the page is parsed |
| Images.Fetched | src/core/filters/html/images.rs:196-216 | at most one download per image |
| Images.ApplyUnchangedWithoutDownloads | src/core/filters/html/images.rs:196-238 | when none of the fetched URLs downloads, the page comes back unchanged |
| Images.ApplyAllSkipped | src/core/filters/html/images.rs:198-206 | images without `src` or with a data URL are never fetched and the page comes back unchanged, whatever the download would do |
| Images.DataUrlImageUnchanged | src/core/filters/html/images.rs:264-273 | a lone image whose source is already a data URL comes back unchanged and nothing is fetched |
| Base64.Symbol | src/core/filters/html/images.rs:104 | the alphabet of section 4 of RFC 4648 never uses the padding char |
| Base64.SymbolValue | src/core/filters/html/images.rs:104 | a value exactly for the 64 alphabet chars |
| Base64.SymbolValueOfSymbol | src/core/filters/html/images.rs:104 | reading a symbol back gives its value |
| Base64.SymbolOfSymbolValue | src/core/filters/html/images.rs:104 | writing a char's value gives the char back |
| Base64.EncodeLength | src/core/filters/html/images.rs:104 | four chars for every started group of three bytes |
| Base64.EncodeAlphabet | src/core/filters/html/images.rs:104 | every char of an encoding is an alphabet char or '=' |
| Base64.DecodeEncode | src/core/filters/html/images.rs:104 | decoding an encoding gives the bytes back |
| Base64.EncodeRfcVectors | src/core/filters/html/images.rs:104 | the test vectors of section 10 of RFC 4648: "foobar" encodes to "Zm9vYmFy" and "fo" to "Zm8=" |
| Strings.TrimStartMatches | src/core/scraper/url_scraper.rs:310 | `trim_start_matches` of a non-empty pattern: the text is some number of copies of the pattern followed by the result, and the result does not start with the pattern; an empty pattern removes nothing |
| Strings.TrimStartUnique | src/core/scraper/url_scraper.rs:310 | two ways of writing a text as copies of the pattern followed by a part not starting with it have the same part |
| Strings.TrimEndMatches | src/core/filters/filter_base.rs:108 | `trim_end_matches` of a non-empty pattern: the text is the result followed by some number of copies of the pattern, and the result does not end in the pattern; an empty pattern removes nothing |
| Strings.TrimEndUnique | src/core/filters/filter_base.rs:108 | two ways of writing a text as a part not ending in the pattern followed by copies of it have the same part |
| Strings.Lower | src/core/doc.rs:117 | same length, each char lowercased on its own (ASCII letters only) |
| Strings.SplitBy | src/core/doc.rs:356 | at least one piece, and no piece holds a separator |

## Left out

- HTTP transport: `Requester::request`, `send_request`, `Request`, `Response::from_reqwest` and the fetch in `UrlScraper::run` are network I/O. The crawl takes each fetch result, redirect target included, as an input.
- Concurrency: the tokio tasks, semaphores and shared maps of `Requester::request` are not modelled. The model keeps the sequential work-queue pick and its bookkeeping.
- Requester.Drain: marks each URL processed at the moment it is picked. `src/core/requester.rs:70-79` marks it only inside the spawned task, so one batch can pick a URL queued twice twice. `Requester.DrainDistinct` holds for the sequential model only.
- Sorting.SortBy: Rust's `sort_by` leaves the order unspecified, and may panic, when the comparison is not a total order, and `sort_entries` is not transitive (`EntrySort.SortEntriesCycle`). The model fixes one outcome, a stable insertion sort, and states only that the result is a permutation, sorted between neighbours, whenever the comparison is antisymmetric.
- EntryIndex.ToFullIndex: sorts with the corrected comparator `EntrySort.SortEntries`, so it is defined on every index. The source panics on an index that holds an empty name together with a digit-led name of two or more pieces, once the sort compares the two. A page without an h1 gives such an empty name (`BabelEntries.GetEntries`). That behaviour is `EntryIndex.ToFullIndexAsWritten`, and `EntryIndex.ToFullIndexAsWrittenPanics` shows one such index. Its order is the insertion sort's order; which pairs the Rust standard sort compares, and the order it gives on the cyclic inputs, are not modelled, for the reason just given.
- `EntryIndex::is_empty`, `EntryIndex::len` and every `to_json`/`from_json` are left out: the first two are the entry count, and the rest is JSON serialisation, which is not part of this model.
- Storage: `Doc::store_*`, the page store writes, `DocRegistry::generate_manifest` and the file reads of `DocRegistry::load_from_disk` are file I/O. The model of `load_from_disk` takes the directory listing, and which files each directory holds, as inputs.
- DOM and HTML parsing: `Parser::parse`, the CSS/XPath queries of `FilterBase`, link extraction and the HTML clean filters. Every DOM query is an input fact.
- Regular expressions: the regex engine is an oracle. Only its meaning on literal patterns and `literal.*` patterns is fixed, plus the two patterns the model spells out: the scheme pattern of `filter_base.rs` and the doctype pattern of `Parser::clean_html`.
- Images.ApplyOne: states the cases that leave the text unchanged (a skipped image, a failed download). The replacement made after a successful download is left as its definition.
- Images.Apply: states only that `apply` never fails. Its content is stated by `Images.ApplyUnchangedWithoutDownloads` for pages whose images are all skipped.
- Image optimisation: decoding, resizing and re-encoding with the `image` crate use f32 arithmetic and a foreign library. `optimize_image` is an input function; the model keeps its size gate and the data-URI construction.
- The clock and sleeping: the rate limiter takes the clock reading as input and returns the sleep it asks for as output. One reading serves both the per-minute counter and the 100 ms spacing.
- Crawl.Loop: runs are bounded by a fuel count of queue pops. A crawl that would need more pops than the fuel stops with the state reached so far, and what follows is not modelled.
- `UrlScraper`'s one-second pause between requests is computed by `Crawl.Spacing` but not applied by `Crawl.Step`, since sleeping changes no state.
- Console output: colours, timestamps, printing, `ConsoleSubscriber::log`, `handle_event` and the `FileSubscriber` are terminal and file I/O. The terminal width and the working directory are parameters of `justify` and `format_path`.
- Subscriber.JustifyScenarioPlain: holds only on a terminal at least 13 columns wide, whereas the source's test reads the real terminal width.
- `FilterStack::filters` and `push_filter` clone or store boxed trait objects. Filters are names in the model, so there is nothing to clone.
- FilterRegistry: the process-wide registry behind the global wrapper functions is threaded through as a value, not held in a static.
- `should_process_response` beyond the success and HTML checks, and `Response::path`/`effective_path`, read the `Url` crate's parse result, which is not part of this model.
- The `Url` crate: parsing is an input function wherever the source parses a URL.
- HtmlEntries.BuildEntry: modelled on its own, because `get_entries` never calls it.
- JavaScript `new`/`with_path_prefix`: the path prefix they set is never read by the filter's other methods.
- Strings are sequences of chars: lowercasing and `\w` cover ASCII only, with no Unicode case mapping. Trimming removes the Unicode White_Space chars, as Rust's `trim` does.
- Base64.Decode: exists only to state the round trip of the encoder. It does not reject non-zero bits before the padding, as a strict decoder of section 3.5 of RFC 4648 would; the source does not decode.
- The CLI, the web server, the binaries, the storage back-ends, `url.rs`, the URL normaliser and every site policy other than Babel, HTML and JavaScript are outside this core.

## Findings

| source | as written | input that shows it | evidently intended | confidence | as-written member | corrected member |
|---|---|---|---|---|---|---|
| src/core/doc.rs:463-470 | An empty name splits into no pieces. When the other name starts with a digit and splits into two or more pieces, the padding loop inserts at `len() - 1` of an empty list, so `sort_entries` panics | comparing "1.2" with "" (`EntrySort.SortEntriesAsWrittenPanicsOnEmptyName`) | a name with no pieces is ranked like a one-piece name, so the comparison is defined for every pair (`EntrySort.SortEntriesEmptyName`); it agrees with the code wherever the code returns (`EntrySort.SortEntriesAgreesWhereDefined`) | not executed | EntrySort.SortEntriesAsWritten | EntrySort.SortEntries |
