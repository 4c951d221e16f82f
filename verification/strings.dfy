/** The Rust `str` operations the crawler relies on, over `string = seq<char>`.
    One char stands for one byte: every length and index below is a char count,
    which equals Rust's byte count on ASCII text. */
module Strings {
  import opened Wrappers

  /** `s.starts_with(p)` */
  predicate StartsWith(s: string, p: string) {
    p <= s
  }

  /** `s.ends_with(p)` */
  predicate EndsWith(s: string, p: string) {
    |p| <= |s| && s[|s| - |p|..] == p
  }

  /** `p` occurs in `s` starting at index `i`. */
  predicate OccursAt(s: string, p: string, i: int) {
    0 <= i && i + |p| <= |s| && s[i..i + |p|] == p
  }

  /** `s.contains(p)`; the empty pattern occurs in every string. */
  predicate Contains(s: string, p: string)
    decreases |s|
  {
    p <= s || (|s| > 0 && Contains(s[1..], p))
  }

  lemma {:induction false} ContainsIff(s: string, p: string)
    ensures Contains(s, p) <==> exists i :: OccursAt(s, p, i)
    decreases |s|
  {
    if p <= s {
      assert OccursAt(s, p, 0);
    } else if |s| > 0 {
      ContainsIff(s[1..], p);
      forall i | 1 <= i
        ensures OccursAt(s, p, i) <==> OccursAt(s[1..], p, i - 1)
      {
        if i + |p| <= |s| {
          TailSlice(s, i, i + |p|);
        }
      }
      assert !OccursAt(s, p, 0);
      if Contains(s[1..], p) {
        var i :| OccursAt(s[1..], p, i);
        assert OccursAt(s, p, i + 1);
      }
    } else {
      assert forall i :: OccursAt(s, p, i) ==> p <= s;
    }
  }

  lemma TailSlice(s: string, i: int, j: int)
    requires 1 <= i <= j <= |s|
    ensures s[1..][i - 1..j - 1] == s[i..j]
  {
  }

  lemma ContainsOfOccurrence(s: string, p: string, i: int)
    requires OccursAt(s, p, i)
    ensures Contains(s, p)
  {
    ContainsIff(s, p);
  }

  /** A pattern holding, at index `k`, a char that does not occur in `s` is not
      contained in it. */
  lemma AbsentChar(s: string, p: string, k: nat)
    requires k < |p| && p[k] !in s
    ensures !Contains(s, p)
  {
    ContainsIff(s, p);
    forall i ensures !OccursAt(s, p, i) {
      if 0 <= i && i + |p| <= |s| {
        assert s[i..i + |p|][k] == s[i + k];
      }
    }
  }

  /** `s.find(p)`: the index of the first occurrence of `p`. */
  function Find(s: string, p: string): (r: Option<nat>)
    ensures r.Some? ==> OccursAt(s, p, r.value)
    ensures r.Some? ==> forall j :: 0 <= j < r.value ==> !OccursAt(s, p, j)
    ensures r.None? ==> forall j :: !OccursAt(s, p, j)
    decreases |s|
  {
    if |p| > |s| then None
    else if p <= s then Some(0)
    else
      var rest := Find(s[1..], p);
      assert forall j :: 1 <= j && OccursAt(s, p, j) ==> OccursAt(s[1..], p, j - 1) by {
        forall j | 1 <= j && OccursAt(s, p, j)
          ensures OccursAt(s[1..], p, j - 1)
        {
          assert s[1..][j - 1..j - 1 + |p|] == s[j..j + |p|];
        }
      }
      match rest
      case None => None
      case Some(k) =>
        assert s[1..][k..k + |p|] == s[k + 1..k + 1 + |p|];
        Some(k + 1)
  }

  /** `s.rfind(p)`: the index of the last occurrence of `p`. */
  function RFind(s: string, p: string): (r: Option<nat>)
    ensures r.Some? ==> OccursAt(s, p, r.value)
    ensures r.Some? ==> forall j :: r.value < j ==> !OccursAt(s, p, j)
    ensures r.None? ==> forall j :: !OccursAt(s, p, j)
    decreases |s|
  {
    if |p| > |s| then None
    else if s[|s| - |p|..] == p then Some(|s| - |p|)
    else
      var init := s[..|s| - 1];
      var rest := RFind(init, p);
      assert forall j :: OccursAt(s, p, j) ==> OccursAt(init, p, j) by {
        forall j | OccursAt(s, p, j)
          ensures OccursAt(init, p, j)
        {
          assert init[j..j + |p|] == s[j..j + |p|];
        }
      }
      match rest
      case None => None
      case Some(k) =>
        assert init[k..k + |p|] == s[k..k + |p|];
        Some(k)
  }

  /** An occurrence with none after it is the one `rfind` reports. */
  lemma RFindIs(s: string, p: string, i: nat)
    requires OccursAt(s, p, i)
    requires forall j :: i < j ==> !OccursAt(s, p, j)
    ensures RFind(s, p) == Some(i)
  {
  }

  /** `s.replace(from, to)`: every non-overlapping occurrence of `from`, scanned left
      to right, becomes `to`. With an empty `from`, Rust puts `to` before every char
      and at the end. */
  function ReplaceAll(s: string, from: string, to: string): string
    decreases |s|
  {
    if |from| == 0 then
      if |s| == 0 then to else to + [s[0]] + ReplaceAll(s[1..], from, to)
    else if from <= s then to + ReplaceAll(s[|from|..], from, to)
    else if |s| == 0 then []
    else [s[0]] + ReplaceAll(s[1..], from, to)
  }

  /** Replacing a pattern by itself changes nothing. */
  lemma {:induction false} ReplaceAllSame(s: string, p: string)
    requires |p| > 0
    ensures ReplaceAll(s, p, p) == s
    decreases |s|
  {
    if p <= s {
      ReplaceAllSame(s[|p|..], p);
      assert s == p + s[|p|..];
    } else if |s| > 0 {
      ReplaceAllSame(s[1..], p);
      assert s == [s[0]] + s[1..];
    }
  }

  /** Replacing a pattern by something no longer never makes the text longer. */
  lemma {:induction false} ReplaceAllNoLonger(s: string, from: string, to: string)
    requires |from| > 0 && |to| <= |from|
    ensures |ReplaceAll(s, from, to)| <= |s|
    decreases |s|
  {
    if from <= s {
      ReplaceAllNoLonger(s[|from|..], from, to);
    } else if |s| > 0 {
      ReplaceAllNoLonger(s[1..], from, to);
    }
  }

  /** A text in which the pattern does not occur comes back unchanged. */
  lemma {:induction false} ReplaceAllAbsent(s: string, from: string, to: string)
    requires |from| > 0 && !Contains(s, from)
    ensures ReplaceAll(s, from, to) == s
    decreases |s|
  {
    if |s| > 0 {
      ReplaceAllAbsent(s[1..], from, to);
      assert s == [s[0]] + s[1..];
    }
  }

  /** Deleting a pattern adds no char and never lengthens the text. */
  lemma {:induction false} ReplaceAllDeleteKeepsOut(s: string, from: string, c: char)
    requires |from| > 0 && c !in s
    ensures c !in ReplaceAll(s, from, "") && |ReplaceAll(s, from, "")| <= |s|
    decreases |s|
  {
    if from <= s {
      assert forall k :: 0 <= k < |s[|from|..]| ==> s[|from|..][k] == s[|from| + k];
      ReplaceAllDeleteKeepsOut(s[|from|..], from, c);
    } else if |s| > 0 {
      assert forall k :: 0 <= k < |s[1..]| ==> s[1..][k] == s[1 + k];
      ReplaceAllDeleteKeepsOut(s[1..], from, c);
    }
  }

  /** A prefix without the pattern's first char passes through a replacement
      untouched. */
  lemma {:induction false} ReplaceAllAfter(a: string, x: string, from: string, to: string)
    requires |from| > 0 && from[0] !in a
    ensures ReplaceAll(a + x, from, to) == a + ReplaceAll(x, from, to)
    decreases |a|
  {
    if |a| > 0 {
      ReplaceAllAfter(a[1..], x, from, to);
      assert (a + x)[1..] == a[1..] + x;
      assert (a + x)[0] == a[0];
      assert [a[0]] + a[1..] == a;
    } else {
      assert a + x == x;
    }
  }

  /** `s.trim_start_matches(c)` for a char: every leading `c` removed. */
  function TrimStartChar(s: string, c: char): (r: string)
    ensures |r| <= |s|
    ensures r == s[|s| - |r|..]
    ensures forall i :: 0 <= i < |s| - |r| ==> s[i] == c
    ensures |r| > 0 ==> r[0] != c
    decreases |s|
  {
    if |s| > 0 && s[0] == c then TrimStartChar(s[1..], c) else s
  }

  /** `k` copies of `p`, one after another. */
  function Repeat(p: string, k: nat): (r: string)
    ensures |r| == k * |p|
  {
    if k == 0 then "" else Repeat(p, k - 1) + p
  }

  /** `s.trim_start_matches(p)` for a string: every leading copy of `p` removed.
      What is removed is made of copies of `p`, and what is left does not start
      with one. An empty pattern removes nothing. */
  function TrimStartMatches(s: string, p: string): (r: string)
    ensures |r| <= |s|
    ensures r == s[|s| - |r|..]
    ensures |p| > 0 ==> !(p <= r)
    ensures |p| > 0 ==> exists k: nat :: s == Repeat(p, k) + r
    ensures |p| == 0 ==> r == s
    decreases |s|
  {
    if |p| > 0 && p <= s then
      var rest := s[|p|..];
      var r := TrimStartMatches(rest, p);
      assert exists k: nat :: s == Repeat(p, k) + r by {
        var k: nat :| rest == Repeat(p, k) + r;
        RepeatPrepend(s, p, r, k);
      }
      r
    else
      assert s == Repeat(p, 0) + s;
      s
  }

  /** One more copy of `p` in front of `Repeat(p, k) + r`. */
  lemma RepeatPrepend(s: string, p: string, r: string, k: nat)
    requires p <= s && s[|p|..] == Repeat(p, k) + r
    ensures s == Repeat(p, k + 1) + r
  {
    RepeatFront(p, k + 1);
    assert s == p + s[|p|..];
    calc {
      Repeat(p, k + 1) + r;
      (p + Repeat(p, k)) + r;
      p + (Repeat(p, k) + r);
    }
  }

  /** The copies of `p` can be counted from the front as well. */
  lemma {:induction false} RepeatFront(p: string, k: nat)
    requires k > 0
    ensures Repeat(p, k) == p + Repeat(p, k - 1)
  {
    if k > 1 {
      RepeatFront(p, k - 1);
      calc {
        Repeat(p, k);
        Repeat(p, k - 1) + p;
        (p + Repeat(p, k - 2)) + p;
        p + (Repeat(p, k - 2) + p);
        p + Repeat(p, k - 1);
      }
    }
  }

  /** A text preceded by copies of `p` starts with `p` when there is at least one
      copy, and dropping it leaves one copy fewer. */
  lemma RepeatStarts(p: string, k: nat, a: string)
    requires k > 0
    ensures p <= Repeat(p, k) + a
    ensures (Repeat(p, k) + a)[|p|..] == Repeat(p, k - 1) + a
  {
    RepeatFront(p, k);
    assert Repeat(p, k) + a == p + (Repeat(p, k - 1) + a);
  }

  /** Only one text that does not start with `p` gives `s` when preceded by copies
      of `p`: the split that `trim_start_matches` finds is the only one. */
  lemma {:induction false} TrimStartUnique(s: string, p: string, a: string, ka: nat, b: string, kb: nat)
    requires |p| > 0
    requires s == Repeat(p, ka) + a && s == Repeat(p, kb) + b
    requires !(p <= a) && !(p <= b)
    ensures a == b
    decreases ka + kb
  {
    if ka == 0 && kb == 0 {
      assert a == s && b == s;
    } else if ka == 0 {
      RepeatStarts(p, kb, b);
      assert false;
    } else if kb == 0 {
      RepeatStarts(p, ka, a);
      assert false;
    } else {
      RepeatStarts(p, ka, a);
      RepeatStarts(p, kb, b);
      TrimStartUnique(s[|p|..], p, a, ka - 1, b, kb - 1);
    }
  }

  /** `s.trim_end_matches(p)`: every trailing copy of `p` removed. What is removed
      is made of copies of `p`, and what is left does not end in one. */
  function TrimEndMatches(s: string, p: string): (r: string)
    ensures |r| <= |s|
    ensures r == s[..|r|]
    ensures |p| > 0 ==> !EndsWith(r, p)
    ensures |p| > 0 ==> exists k: nat :: s == r + Repeat(p, k)
    ensures |p| == 0 ==> r == s
    decreases |s|
  {
    if |p| > 0 && EndsWith(s, p) then
      var init := s[..|s| - |p|];
      var r := TrimEndMatches(init, p);
      assert exists k: nat :: s == r + Repeat(p, k) by {
        var k: nat :| init == r + Repeat(p, k);
        assert s == init + p;
        calc {
          r + Repeat(p, k + 1);
          r + (Repeat(p, k) + p);
          (r + Repeat(p, k)) + p;
          init + p;
        }
      }
      r
    else
      assert s == s + Repeat(p, 0);
      s
  }

  /** A text followed by copies of `p` ends in `p` when there is at least one copy. */
  lemma RepeatEnds(a: string, p: string, k: nat)
    requires k > 0
    ensures EndsWith(a + Repeat(p, k), p)
    ensures (a + Repeat(p, k))[..|a + Repeat(p, k)| - |p|] == a + Repeat(p, k - 1)
  {
    assert a + Repeat(p, k) == (a + Repeat(p, k - 1)) + p;
  }

  /** Only one text that does not end in `p` gives `s` when followed by copies of
      `p`: the split that `trim_end_matches` finds is the only one. */
  lemma {:induction false} TrimEndUnique(s: string, p: string, a: string, ka: nat, b: string, kb: nat)
    requires |p| > 0
    requires s == a + Repeat(p, ka) && s == b + Repeat(p, kb)
    requires !EndsWith(a, p) && !EndsWith(b, p)
    ensures a == b
    decreases ka + kb
  {
    if ka == 0 && kb == 0 {
      assert a == s && b == s;
    } else if ka == 0 {
      RepeatEnds(b, p, kb);
      assert false;
    } else if kb == 0 {
      RepeatEnds(a, p, ka);
      assert false;
    } else {
      RepeatEnds(a, p, ka);
      RepeatEnds(b, p, kb);
      TrimEndUnique(s[..|s| - |p|], p, a, ka - 1, b, kb - 1);
    }
  }

  /** Rust's `char::is_whitespace`: the Unicode White_Space property. */
  predicate IsWhitespace(c: char) {
    ('\U{9}' <= c <= '\U{D}') || c == ' ' || c == '\U{85}' || c == '\U{A0}'
    || c == '\U{1680}' || ('\U{2000}' <= c <= '\U{200A}') || c == '\U{2028}' || c == '\U{2029}'
    || c == '\U{202F}' || c == '\U{205F}' || c == '\U{3000}'
  }

  function TrimStart(s: string): (r: string)
    ensures |r| <= |s|
    ensures r == s[|s| - |r|..]
    ensures forall i :: 0 <= i < |s| - |r| ==> IsWhitespace(s[i])
    ensures |r| > 0 ==> !IsWhitespace(r[0])
    decreases |s|
  {
    if |s| > 0 && IsWhitespace(s[0]) then TrimStart(s[1..]) else s
  }

  function TrimEnd(s: string): (r: string)
    ensures |r| <= |s|
    ensures r == s[..|r|]
    ensures forall i :: |r| <= i < |s| ==> IsWhitespace(s[i])
    ensures |r| > 0 ==> !IsWhitespace(r[|r| - 1])
    decreases |s|
  {
    if |s| > 0 && IsWhitespace(s[|s| - 1]) then TrimEnd(s[..|s| - 1]) else s
  }

  /** `s.trim()`: leading and trailing whitespace removed. */
  function Trim(s: string): string {
    TrimEnd(TrimStart(s))
  }

  /** Trimming adds no char. */
  lemma TrimKeepsOut(s: string, c: char)
    requires c !in s
    ensures c !in Trim(s) && |Trim(s)| <= |s|
  {
    var u := TrimStart(s);
    assert forall k :: 0 <= k < |u| ==> u[k] == s[|s| - |u| + k];
    var t := TrimEnd(u);
    assert forall k :: 0 <= k < |t| ==> t[k] == u[k];
  }

  /** A text with no whitespace at either end is its own trim. */
  lemma TrimUnchanged(s: string)
    requires |s| > 0 && !IsWhitespace(s[0]) && !IsWhitespace(s[|s| - 1])
    ensures Trim(s) == s
  {
    assert TrimStart(s) == s;
  }

  predicate IsDigit(c: char) {
    '0' <= c <= '9'
  }

  predicate IsUpper(c: char) {
    'A' <= c <= 'Z'
  }

  function LowerChar(c: char): (r: char)
    ensures !IsUpper(r)
    ensures !IsUpper(c) ==> r == c
  {
    if IsUpper(c) then (c as int + 32) as char else c
  }

  /** `s.to_lowercase()` on the ASCII letters; other chars are kept. */
  function Lower(s: string): (r: string)
    ensures |r| == |s|
    ensures forall i :: 0 <= i < |s| ==> r[i] == LowerChar(s[i])
  {
    seq(|s|, i requires 0 <= i < |s| => LowerChar(s[i]))
  }

  lemma LowerIdempotent(s: string)
    ensures Lower(Lower(s)) == Lower(s)
  {
  }

  /** A text without ASCII capitals is its own lowercase. */
  lemma LowerUnchanged(s: string)
    requires forall i :: 0 <= i < |s| ==> !IsUpper(s[i])
    ensures Lower(s) == s
  {
  }

  lemma LowerAppend(a: string, b: string)
    ensures Lower(a + b) == Lower(a) + Lower(b)
  {
  }

  /** `s.replace(a, b)` for single chars: every `a` becomes `b`. */
  function ReplaceChar(s: string, a: char, b: char): (r: string)
    ensures |r| == |s|
    ensures forall i :: 0 <= i < |s| ==> r[i] == if s[i] == a then b else s[i]
    ensures r == ReplaceAll(s, [a], [b])
    decreases |s|
  {
    if |s| == 0 then ""
    else
      assert [a] <= s <==> s[0] == a;
      [if s[0] == a then b else s[0]] + ReplaceChar(s[1..], a, b)
  }

  /** `s.split(|c| seps contains c)`: the pieces between separators, in order; a text
      with k separators has k + 1 pieces and no piece holds a separator. */
  function SplitBy(s: string, seps: set<char>): (r: seq<string>)
    ensures |r| >= 1
    ensures forall i, j :: 0 <= i < |r| && 0 <= j < |r[i]| ==> r[i][j] !in seps
    decreases |s|
  {
    if |s| == 0 then [""]
    else
      var rest := SplitBy(s[1..], seps);
      if s[0] in seps then [""] + rest
      else [[s[0]] + rest[0]] + rest[1..]
  }

  lemma {:induction false} SplitByNoSeparator(s: string, seps: set<char>)
    requires forall i :: 0 <= i < |s| ==> s[i] !in seps
    ensures SplitBy(s, seps) == [s]
    decreases |s|
  {
    if |s| > 0 {
      SplitByNoSeparator(s[1..], seps);
      assert s == [s[0]] + s[1..];
    }
  }

  /** Splitting `a + [c] + b` where `a` holds no separator: the first piece is `a`
      and the rest is the split of `b`. */
  lemma {:induction false} SplitByFirstSeparator(a: string, c: char, b: string, seps: set<char>)
    requires c in seps
    requires forall i :: 0 <= i < |a| ==> a[i] !in seps
    ensures SplitBy(a + [c] + b, seps) == [a] + SplitBy(b, seps)
    decreases |a|
  {
    if |a| == 0 {
      assert a + [c] + b == [c] + b;
      assert ([c] + b)[1..] == b;
    } else {
      SplitByFirstSeparator(a[1..], c, b, seps);
      assert (a + [c] + b)[1..] == a[1..] + [c] + b;
      assert [a[0]] + a[1..] == a;
    }
  }

  /** A text holding a separator splits into at least two pieces. */
  lemma {:induction false} SplitByHasTwo(s: string, seps: set<char>, i: nat)
    requires i < |s| && s[i] in seps
    ensures |SplitBy(s, seps)| >= 2
    decreases |s|
  {
    if s[0] !in seps {
      SplitByHasTwo(s[1..], seps, i - 1);
    }
  }
}
