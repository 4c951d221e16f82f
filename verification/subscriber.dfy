/** The text formatting of `ConsoleSubscriber` (src/core/subscriber.rs): URL and
    path shortening and justification of a log line to the terminal width. The
    environment the subscriber reads (COLUMNS, the terminal size, the current
    directory) is passed in; colours and output are not modelled. */
module Subscriber {
  import opened Wrappers
  import opened Strings
  import opened Numbers

  const DEFAULT_TERMINAL_WIDTH: nat := 80
  const ELLIPSIS: string := "..."
  const TAG_START: string := " ["

  /** `get_terminal_width`: COLUMNS when it reads as a number, else the
      terminal's width when known, else 80. */
  function TerminalWidth(columns: Option<string>, termWidth: Option<nat>): (w: nat)
    ensures columns.Some? && ParseUnsigned(columns.value, USIZE_MAX).Some? ==>
              w == ParseUnsigned(columns.value, USIZE_MAX).value
    ensures (columns.None? || ParseUnsigned(columns.value, USIZE_MAX).None?) && termWidth.Some? ==>
              w == termWidth.value
    ensures (columns.None? || ParseUnsigned(columns.value, USIZE_MAX).None?) && termWidth.None? ==>
              w == DEFAULT_TERMINAL_WIDTH
  {
    if columns.Some? && ParseUnsigned(columns.value, USIZE_MAX).Some? then
      ParseUnsigned(columns.value, USIZE_MAX).value
    else if termWidth.Some? then termWidth.value
    else DEFAULT_TERMINAL_WIDTH
  }

  /** `format_url`: every "http://", then every "https://", deleted. */
  function FormatUrl(url: string): (r: string)
    ensures |r| <= |url|
  {
    ReplaceAllNoLonger(url, "http://", "");
    ReplaceAllNoLonger(ReplaceAll(url, "http://", ""), "https://", "");
    ReplaceAll(ReplaceAll(url, "http://", ""), "https://", "")
  }

  /** A URL with either scheme, and no further "http://" or "https://" after it,
      is shown without the scheme; a port or any other ':' is kept. */
  lemma FormatUrlDropsScheme(scheme: string, rest: string)
    requires scheme == "http://" || scheme == "https://"
    requires !Contains(rest, "http://") && !Contains(rest, "https://")
    ensures FormatUrl(scheme + rest) == rest
  {
    var u := scheme + rest;
    assert u[|scheme|..] == rest;
    if scheme == "http://" {
      ReplaceAllAbsent(rest, "http://", "");
      assert ReplaceAll(u, "http://", "") == rest;
      ReplaceAllAbsent(rest, "https://", "");
    } else {
      NoPlainSchemeAfterSecure(rest);
      ReplaceAllAbsent(u, "http://", "");
      ReplaceAllAbsent(rest, "https://", "");
    }
  }

  /** "https://" followed by text without "http://" holds no "http://": the only
      'h' of the scheme is followed by 't', 't', 'p', 's'. */
  lemma NoPlainSchemeAfterSecure(rest: string)
    requires !Contains(rest, "http://")
    ensures !Contains("https://" + rest, "http://")
  {
    var u := "https://" + rest;
    forall i ensures !OccursAt(u, "http://", i) {
      if 0 <= i && i + 7 <= |u| {
        if i == 0 {
          assert u[i..i + 7][4] == u[4];
        } else if i < 8 {
          assert u[i..i + 7][0] == u[i];
        } else {
          assert u[i..i + 7] == rest[i - 8..i - 8 + 7];
          if OccursAt(u, "http://", i) {
            ContainsOfOccurrence(rest, "http://", i - 8);
          }
        }
      }
    }
    ContainsIff(u, "http://");
  }

  predicate IsSeparator(c: char) {
    c == '/' || c == '\\'
  }

  /** `format_path` with `cwd` the current directory as UTF-8 text (None when it
      cannot be read): a path under the current directory is shown relative to
      it. */
  function FormatPath(path: string, cwd: Option<string>): (r: string)
    ensures cwd.None? || !StartsWith(path, cwd.value) ==> r == path
    ensures cwd.Some? && path == cwd.value ==> r == ""
    ensures cwd.Some? && cwd.value == "/" && path != "/" ==> r == path
    ensures |r| <= |path|
  {
    match cwd
    case None => path
    case Some(c) =>
      if !StartsWith(path, c) then path
      else if |path| > |c| && c != "/" then
        if IsSeparator(path[|c|]) then path[|c| + 1..]
        else if |c| == 0 then TrimStartChar(path, '/')
        else
          ReplaceAllNoLonger(path, c, "");
          TrimStartChar(ReplaceAll(path, c, ""), '/')
      else if path == c then ""
      else path
  }

  /** Joining the current directory and a relative path with either separator
      and formatting gives the relative path back. */
  lemma FormatPathOfJoin(cwd: string, sep: char, rel: string)
    requires cwd != "/" && IsSeparator(sep)
    ensures FormatPath(cwd + [sep] + rel, Some(cwd)) == rel
  {
    var p := cwd + [sep] + rel;
    assert StartsWith(p, cwd);
    assert p[|cwd|] == sep;
    assert p[|cwd| + 1..] == rel;
  }

  function Spaces(n: nat): (r: string)
    ensures |r| == n && forall i :: 0 <= i < n ==> r[i] == ' '
  {
    seq(n, _ => ' ')
  }

  /** `a.saturating_sub(b)` on `usize`. */
  function SaturatingSub(a: nat, b: nat): (r: nat)
    ensures a >= b ==> r + b == a
    ensures a < b ==> r == 0
  {
    if a >= b then a - b else 0
  }

  /** Cutting `s` to `w` chars, the last three replaced by "..." when `w > 3`. */
  function Truncate(s: string, w: nat): (r: string)
    requires |s| > w
    ensures |r| == w
    ensures w > 3 ==> r[..w - 3] == s[..w - 3] && EndsWith(r, ELLIPSIS)
    ensures w <= 3 ==> r == s[..w]
  {
    if w > 3 then s[..w - 3] + ELLIPSIS else s[..w]
  }

  /** The tagged branch of `justify`: the content is cut or padded to the width
      the tag leaves, and the tag follows. A tag wider than the terminal leaves
      no room, and the line is the tag alone. */
  function FitTagged(content: string, tag: string, width: nat): (r: string)
    ensures EndsWith(r, tag) && |r| == if width >= |tag| then width else |tag|
    ensures |content| + |tag| <= width ==> r == content + Spaces(width - |content| - |tag|) + tag
    ensures |content| > SaturatingSub(width, |tag|) ==>
              r == Truncate(content, SaturatingSub(width, |tag|)) + tag
  {
    var maxContent := SaturatingSub(width, |tag|);
    var truncated := if |content| > maxContent then Truncate(content, maxContent) else content;
    var padded := truncated + Spaces(SaturatingSub(maxContent, |truncated|));
    assert |padded| == maxContent;
    assert (padded + tag)[|padded|..] == tag;
    assert |content| > maxContent ==> padded == truncated;
    padded + tag
  }

  /** `justify` with terminal width `width`. A text holding " [" is split at its
      last occurrence into content and tag, which `FitTagged` lays out. Otherwise
      the whole text is cut or padded to `width`. */
  function Justify(text: string, width: nat): (r: string)
    ensures RFind(text, TAG_START).None? ==> |r| == width
    ensures RFind(text, TAG_START).None? && |text| <= width ==> r == text + Spaces(width - |text|)
    ensures RFind(text, TAG_START).None? && |text| > width ==> r == Truncate(text, width)
    ensures RFind(text, TAG_START).Some? ==>
              var i := RFind(text, TAG_START).value;
              r == FitTagged(text[..i], text[i..], width)
  {
    match RFind(text, TAG_START)
    case Some(i) => FitTagged(text[..i], text[i..], width)
    case None =>
      if |text| > width then Truncate(text, width)
      else text + Spaces(width - |text|)
  }

  /** The tag of a tagged line is what follows its last " [": for
      `content + " [" + t` with no '[' in `t`, it is " [" + t, and a content that
      fits is padded, never cut. */
  lemma JustifyTagged(content: string, t: string, width: nat)
    requires '[' !in t
    ensures var r := Justify(content + TAG_START + t, width);
      EndsWith(r, TAG_START + t)
    ensures |content| + |TAG_START + t| <= width ==>
      Justify(content + TAG_START + t, width) == content + Spaces(width - |content| - |TAG_START + t|) + TAG_START + t
  {
    var text := content + TAG_START + t;
    LastTagStart(content, t);
    assert text[|content|..] == TAG_START + t;
    assert text[..|content|] == content;
  }

  /** In `content + " [" + t` with no '[' in `t`, the last " [" starts right
      after `content`. */
  lemma LastTagStart(content: string, t: string)
    requires '[' !in t
    ensures RFind(content + TAG_START + t, TAG_START) == Some(|content|)
  {
    var text := content + TAG_START + t;
    assert OccursAt(text, TAG_START, |content|) by {
      assert text[|content|..|content| + 2] == TAG_START;
    }
    NoTagStartAfter(content, t);
    RFindIs(text, TAG_START, |content|);
  }

  lemma NoTagStartAfter(content: string, t: string)
    requires '[' !in t
    ensures forall j :: |content| < j ==> !OccursAt(content + TAG_START + t, TAG_START, j)
  {
    var text := content + TAG_START + t;
    forall j | |content| < j ensures !OccursAt(text, TAG_START, j) {
      if j + 2 <= |text| {
        assert text[j..j + 2][1] == text[j + 1];
        assert text[j + 1] == t[j + 1 - |content| - 2];
      }
    }
  }

  /** A text without '[' has no tag. */
  lemma NoTagStart(text: string)
    requires '[' !in text
    ensures RFind(text, TAG_START).None?
  {
    forall j ensures !OccursAt(text, TAG_START, j) {
      if 0 <= j && j + 2 <= |text| {
        assert text[j..j + 2][1] == text[j + 1];
      }
    }
  }

  /** The module's own test, on a terminal at least 13 columns wide: the plain
      text comes back no shorter, and (at any width) the tagged one keeps its
      "[INFO]". */
  lemma JustifyScenarioPlain(width: nat)
    requires width >= 13
    ensures |Justify("Hello, world!", width)| >= |"Hello, world!"|
  {
    NoTagStart("Hello, world!");
  }

  lemma JustifyScenarioTagged(width: nat)
    ensures Contains(Justify("Processing [INFO]", width), "[INFO]")
  {
    ScenarioTaggedText();
    JustifyKeepsTag("Processing", "INFO]", width);
  }

  lemma ScenarioTaggedText()
    ensures "Processing [INFO]" == "Processing" + TAG_START + "INFO]"
    ensures "[" + "INFO]" == "[INFO]"
  {
  }

  /** The tag, from its '[' on, survives justification. */
  lemma JustifyKeepsTag(content: string, t: string, width: nat)
    requires '[' !in t
    ensures Contains(Justify(content + TAG_START + t, width), "[" + t)
  {
    JustifyTagged(content, t, width);
    TagTailContains(Justify(content + TAG_START + t, width), t);
  }

  lemma TagTailContains(r: string, t: string)
    requires EndsWith(r, TAG_START + t)
    ensures Contains(r, "[" + t)
  {
    assert TAG_START + t == [' '] + ("[" + t);
    EndsWithContains(r, ' ', "[" + t);
  }

  lemma EndsWithContains(r: string, c: char, y: string)
    requires EndsWith(r, [c] + y)
    ensures Contains(r, y)
  {
    assert OccursAt(r, y, |r| - |y|) by {
      assert r[|r| - |y|..] == r[|r| - |y| - 1..][1..];
    }
    ContainsOfOccurrence(r, y, |r| - |y|);
  }
}
