/** `JavaScriptEntriesFilter` (src/docs/javascript/entries.rs): the one index
    entry of an MDN JavaScript reference page. The text of the first `<h1>` and
    of the breadcrumb container are inputs, None when the page has none. */
module JavaScriptEntries {
  import opened Wrappers
  import opened Strings
  import Filter

  type EntryTriple = Filter.EntryTriple

  /** The types a page can get. */
  const TYPES: set<string> := {"Statements", "Operators", "Functions", "Objects", "Others"}

  /** Neither end of `s` is whitespace. */
  predicate Trimmed(s: string) {
    |s| > 0 ==> !IsWhitespace(s[0]) && !IsWhitespace(s[|s| - 1])
  }

  lemma TrimTrimmed(s: string)
    ensures Trimmed(Trim(s))
  {
    var u := TrimStart(s);
    var t := TrimEnd(u);
    if |t| > 0 {
      assert t[0] == u[0];
    }
  }

  /** `get_name`: the heading's text trimmed, or else the slug with '_' read as
      ' ', trimmed. */
  function GetName(h1: Option<string>, slug: string): (r: string)
    ensures Trimmed(r)
    ensures h1.Some? ==> r == Trim(h1.value)
    ensures h1.None? ==> r == Trim(ReplaceChar(slug, '_', ' '))
    ensures h1.None? ==> '_' !in r && |r| <= |slug|
  {
    match h1
    case Some(text) =>
      TrimTrimmed(text);
      Trim(text)
    case None =>
      var spaced := ReplaceChar(slug, '_', ' ');
      TrimTrimmed(spaced);
      TrimKeepsOut(spaced, '_');
      Trim(spaced)
  }

  /** `get_type`: the first of "Statements", "Operators", "Functions" the
      breadcrumb mentions, else "Objects" for global objects and classes, else
      "Others", also without a breadcrumb. */
  function GetType(breadcrumb: Option<string>): (r: string)
    ensures r in TYPES
    ensures breadcrumb.None? ==> r == "Others"
  {
    match breadcrumb
    case None => "Others"
    case Some(text) =>
      if Contains(text, "Statements") then "Statements"
      else if Contains(text, "Operators") then "Operators"
      else if Contains(text, "Functions") then "Functions"
      else if Contains(text, "Global Objects") || Contains(text, "Classes") then "Objects"
      else "Others"
  }

  /** Each type in terms of what the breadcrumb mentions: a mention decides
      unless an earlier-checked one is also there. */
  lemma GetTypeIff(text: string)
    ensures GetType(Some(text)) == "Statements" <==> Contains(text, "Statements")
    ensures GetType(Some(text)) == "Operators" <==> !Contains(text, "Statements") && Contains(text, "Operators")
    ensures GetType(Some(text)) == "Functions" <==>
      !Contains(text, "Statements") && !Contains(text, "Operators") && Contains(text, "Functions")
    ensures GetType(Some(text)) == "Objects" <==>
      !Contains(text, "Statements") && !Contains(text, "Operators") && !Contains(text, "Functions") &&
      (Contains(text, "Global Objects") || Contains(text, "Classes"))
    ensures GetType(Some(text)) == "Others" <==>
      !Contains(text, "Statements") && !Contains(text, "Operators") && !Contains(text, "Functions") &&
      !Contains(text, "Global Objects") && !Contains(text, "Classes")
  {
  }

  /** `get_entries`: one entry at the page's own path. */
  function GetEntries(h1: Option<string>, breadcrumb: Option<string>, currentPath: string): (r: seq<EntryTriple>)
    ensures |r| == 1 && r[0].1 == currentPath
    ensures r[0].0 == GetName(h1, currentPath) && r[0].2 == GetType(breadcrumb)
    ensures r[0].2 in TYPES
  {
    [(GetName(h1, currentPath), currentPath, GetType(breadcrumb))]
  }

  /** `apply`: the page is passed through. */
  function Apply(html: string): (r: string)
    ensures r == html
  {
    html
  }
}
