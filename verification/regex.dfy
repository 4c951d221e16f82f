/** Regular-expression matching as used by the crawler: `Regex::new(p)` followed
    by `is_match(text)`. The regex engine is not modelled; it is an input
    returning None for a pattern that does not compile. For the small class of
    patterns made of one literal, optionally followed by ".*", the meaning is
    fixed: such a pattern matches, unanchored, exactly the texts containing the
    literal. */
module Regex {
  import opened Wrappers
  import opened Strings

  type RegexOracle = (string, string) -> Option<bool>

  /** A pattern that fails to compile counts as no match. */
  predicate IsMatch(rx: RegexOracle, pattern: string, text: string) {
    rx(pattern, text) == Some(true)
  }

  predicate LiteralChar(c: char) {
    ('a' <= c <= 'z') || ('A' <= c <= 'Z') || ('0' <= c <= '9') || c == '/' || c == '-' || c == '_'
  }

  predicate IsLiteral(s: string) {
    |s| > 0 && forall i :: 0 <= i < |s| ==> LiteralChar(s[i])
  }

  /** The literal part of a pattern `lit` or `lit.*`. */
  function LiteralOf(pattern: string): Option<string> {
    if IsLiteral(pattern) then Some(pattern)
    else if EndsWith(pattern, ".*") && IsLiteral(pattern[..|pattern| - 2]) then Some(pattern[..|pattern| - 2])
    else None
  }

  /** The oracle agrees with regex semantics on literal patterns. */
  ghost predicate Agrees(rx: RegexOracle) {
    forall p, t :: LiteralOf(p).Some? ==> rx(p, t) == Some(Contains(t, LiteralOf(p).value))
  }

  lemma LiteralPatternMatch(rx: RegexOracle, p: string, t: string)
    requires Agrees(rx) && LiteralOf(p).Some?
    ensures IsMatch(rx, p, t) <==> Contains(t, LiteralOf(p).value)
  {
  }
}
