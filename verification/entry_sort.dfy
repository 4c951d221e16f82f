/** Natural ordering of index entry names: `split_ints` and `sort_entries` of
    src/core/doc.rs, and the stable sort `to_full_index` runs with them. */
module EntrySort {
  import opened Wrappers
  import opened Strings
  import opened Numbers

  datatype Ordering = Less | Equal | Greater {
    function Reverse(): Ordering {
      match this
      case Less => Greater
      case Equal => Equal
      case Greater => Less
    }
  }

  /** `str::cmp`: lexicographic on chars (the same as on UTF-8 bytes). */
  function CompareStrings(a: string, b: string): (r: Ordering)
    ensures r == Equal <==> a == b
    decreases |a|
  {
    if |a| == 0 && |b| == 0 then Equal
    else if |a| == 0 then Less
    else if |b| == 0 then Greater
    else if a[0] < b[0] then Less
    else if a[0] > b[0] then Greater
    else
      var r := CompareStrings(a[1..], b[1..]);
      assert a == [a[0]] + a[1..] && b == [b[0]] + b[1..];
      r
  }

  /** `Vec<String>::cmp`: lexicographic over the elements. */
  function CompareLists(a: seq<string>, b: seq<string>): (r: Ordering)
    ensures r == Equal <==> a == b
    decreases |a|
  {
    if |a| == 0 && |b| == 0 then Equal
    else if |a| == 0 then Less
    else if |b| == 0 then Greater
    else
      match CompareStrings(a[0], b[0])
      case Less => Less
      case Greater => Greater
      case Equal =>
        var r := CompareLists(a[1..], b[1..]);
        assert a == [a[0]] + a[1..] && b == [b[0]] + b[1..];
        r
  }

  lemma {:induction false} CompareStringsAntisymmetric(a: string, b: string)
    ensures CompareStrings(b, a) == CompareStrings(a, b).Reverse()
    decreases |a|
  {
    if |a| > 0 && |b| > 0 && a[0] == b[0] {
      CompareStringsAntisymmetric(a[1..], b[1..]);
    }
  }

  lemma {:induction false} CompareListsAntisymmetric(a: seq<string>, b: seq<string>)
    ensures CompareLists(b, a) == CompareLists(a, b).Reverse()
    decreases |a|
  {
    if |a| > 0 && |b| > 0 {
      CompareStringsAntisymmetric(a[0], b[0]);
      if a[0] == b[0] {
        CompareListsAntisymmetric(a[1..], b[1..]);
      }
    }
  }

  function Concat(pieces: seq<string>): string
    decreases |pieces|
  {
    if |pieces| == 0 then [] else Concat(pieces[..|pieces| - 1]) + pieces[|pieces| - 1]
  }

  /** A digit right after a non-digit: where `split_ints` starts a new piece. */
  predicate StartsRun(s: string, i: int) {
    0 < i < |s| && IsDigit(s[i]) && !IsDigit(s[i - 1])
  }

  /** `split_ints`, char by char as the source loop goes: a char extends the current
      piece unless it is a digit following a non-digit, in which case it opens a new
      one. */
  function SplitInts(s: string): (r: seq<string>)
    ensures |r| == 0 <==> |s| == 0
    ensures forall k :: 0 <= k < |r| ==> |r[k]| > 0
    decreases |s|
  {
    if |s| == 0 then []
    else
      var prev := SplitInts(s[..|s| - 1]);
      var c := s[|s| - 1];
      if |prev| == 0 then [[c]]
      else if IsDigit(c) && !IsDigit(s[|s| - 2]) then prev + [[c]]
      else prev[..|prev| - 1] + [prev[|prev| - 1] + [c]]
  }

  /** One step of the loop: appending a char either opens a new piece or extends
      the last one. */
  lemma SplitIntsSnoc(s: string, c: char)
    ensures SplitInts(s + [c]) ==
      if |s| == 0 then [[c]]
      else if IsDigit(c) && !IsDigit(s[|s| - 1]) then SplitInts(s) + [[c]]
      else SplitInts(s)[..|SplitInts(s)| - 1] + [SplitInts(s)[|SplitInts(s)| - 1] + [c]]
  {
    assert (s + [c])[..|s + [c]| - 1] == s;
  }

  /** The pieces concatenate back to the input. */
  lemma {:induction false} SplitIntsConcat(s: string)
    ensures Concat(SplitInts(s)) == s
    ensures |s| > 0 ==> s[|s| - 1] == Last(SplitInts(s))[|Last(SplitInts(s))| - 1]
    decreases |s|
  {
    if |s| > 0 {
      SplitIntsLastChar(s);
      var init := s[..|s| - 1];
      SplitIntsConcat(init);
      assert s == init + [s[|s| - 1]];
      ConcatOfSnoc(init, s[|s| - 1]);
    }
  }

  /** One loop step keeps the concatenation equal to the text read so far. */
  lemma ConcatOfSnoc(init: string, c: char)
    requires Concat(SplitInts(init)) == init
    ensures Concat(SplitInts(init + [c])) == init + [c]
  {
    SplitIntsSnoc(init, c);
    if |init| == 0 {
      ConcatOpen([], init, c);
      assert [] + [[c]] == [[c]];
    } else if IsDigit(c) && !IsDigit(init[|init| - 1]) {
      ConcatOpen(SplitInts(init), init, c);
    } else {
      ConcatExtend(SplitInts(init), init, c);
    }
  }

  /** A new piece holding `c` adds `c` to the concatenation. */
  lemma ConcatOpen(pieces: seq<string>, text: string, c: char)
    requires Concat(pieces) == text
    ensures Concat(pieces + [[c]]) == text + [c]
  {
    ConcatSnoc(pieces, [c]);
  }

  /** Extending the last piece by `c` adds `c` to the concatenation. */
  lemma ConcatExtend(pieces: seq<string>, text: string, c: char)
    requires |pieces| > 0 && Concat(pieces) == text
    ensures Concat(pieces[..|pieces| - 1] + [pieces[|pieces| - 1] + [c]]) == text + [c]
  {
    var ps := pieces[..|pieces| - 1];
    var last := pieces[|pieces| - 1];
    assert pieces == ps + [last];
    ConcatSnoc(ps, last);
    ConcatSnoc(ps, last + [c]);
    assert Concat(ps) + (last + [c]) == (Concat(ps) + last) + [c];
  }

  lemma ConcatSnoc(pieces: seq<string>, x: string)
    ensures Concat(pieces + [x]) == Concat(pieces) + x
  {
    assert (pieces + [x])[..|pieces|] == pieces;
  }

  function Last(pieces: seq<string>): string
    requires |pieces| > 0
  {
    pieces[|pieces| - 1]
  }

  /** Piece `k + 1` opens with a digit and piece `k` ends in a non-digit. */
  predicate PieceBoundary(pieces: seq<string>, k: int)
    requires 0 <= k < |pieces| - 1
  {
    |pieces[k]| > 0 && |pieces[k + 1]| > 0
    && !IsDigit(pieces[k][|pieces[k]| - 1]) && IsDigit(pieces[k + 1][0])
  }

  /** Every cut is a digit after a non-digit, and no piece holds such a position. */
  lemma SplitIntsCuts(s: string)
    ensures forall k :: 0 <= k < |SplitInts(s)| - 1 ==> PieceBoundary(SplitInts(s), k)
    ensures forall k, j :: 0 <= k < |SplitInts(s)| && 0 < j < |SplitInts(s)[k]| ==> !StartsRun(SplitInts(s)[k], j)
  {
    SplitIntsBoundaries(s);
    SplitIntsNoInnerRun(s);
  }

  lemma {:induction false} SplitIntsBoundaries(s: string)
    ensures AllBoundaries(SplitInts(s))
    decreases |s|
  {
    if |s| > 1 {
      var init := s[..|s| - 1];
      var c := s[|s| - 1];
      assert s == init + [c];
      SplitIntsBoundaries(init);
      BoundariesSnoc(init, c, SplitInts(s));
    }
  }

  /** Every cut of `pieces` is a boundary. */
  predicate AllBoundaries(pieces: seq<string>) {
    forall k :: 0 <= k < |pieces| - 1 ==> PieceBoundary(pieces, k)
  }

  /** The step of `SplitIntsBoundaries`: appending a char keeps every cut a
      boundary. */
  lemma BoundariesSnoc(init: string, c: char, r: seq<string>)
    requires |init| > 0 && r == SplitInts(init + [c])
    requires AllBoundaries(SplitInts(init))
    ensures AllBoundaries(r)
  {
    if IsDigit(c) && !IsDigit(init[|init| - 1]) {
      BoundariesOpen(init, c, r);
    } else {
      BoundariesExtend(init, c, r);
    }
  }

  lemma BoundariesOpen(init: string, c: char, r: seq<string>)
    requires |init| > 0 && IsDigit(c) && !IsDigit(init[|init| - 1])
    requires r == SplitInts(init + [c]) && AllBoundaries(SplitInts(init))
    ensures AllBoundaries(r)
  {
    SnocOpens(init, c);
    SplitIntsLastChar(init);
    OpenKeepsBoundaries(SplitInts(init), c, r);
  }

  lemma BoundariesExtend(init: string, c: char, r: seq<string>)
    requires |init| > 0 && !(IsDigit(c) && !IsDigit(init[|init| - 1]))
    requires r == SplitInts(init + [c]) && AllBoundaries(SplitInts(init))
    ensures AllBoundaries(r)
  {
    SnocExtends(init, c);
    ExtendKeepsBoundaries(SplitInts(init), c, r);
  }

  /** The input's last char ends the last piece. */
  lemma SplitIntsLastChar(s: string)
    requires |s| > 0
    ensures |Last(SplitInts(s))| > 0 && s[|s| - 1] == Last(SplitInts(s))[|Last(SplitInts(s))| - 1]
  {
  }

  /** A digit after a non-digit opens a new piece. */
  lemma SnocOpens(s: string, c: char)
    requires |s| > 0 && IsDigit(c) && !IsDigit(s[|s| - 1])
    ensures SplitInts(s + [c]) == SplitInts(s) + [[c]]
  {
    SplitIntsSnoc(s, c);
  }

  /** Any other char extends the last piece. */
  lemma SnocExtends(s: string, c: char)
    requires |s| > 0 && !(IsDigit(c) && !IsDigit(s[|s| - 1]))
    ensures SplitInts(s + [c]) == SplitInts(s)[..|SplitInts(s)| - 1] + [Last(SplitInts(s)) + [c]]
  {
    SplitIntsSnoc(s, c);
  }

  /** A digit opening a piece after one ending in a non-digit adds a boundary. */
  lemma OpenKeepsBoundaries(prev: seq<string>, c: char, r: seq<string>)
    requires |prev| > 0 && |Last(prev)| > 0 && AllBoundaries(prev)
    requires IsDigit(c) && !IsDigit(Last(prev)[|Last(prev)| - 1])
    requires r == prev + [[c]]
    ensures AllBoundaries(r)
  {
    forall k | 0 <= k < |r| - 1 ensures PieceBoundary(r, k) {
      if k < |prev| - 1 {
        assert PieceBoundary(prev, k);
        assert r[k] == prev[k] && r[k + 1] == prev[k + 1];
      } else {
        assert r[k] == Last(prev) && r[k + 1] == [c];
      }
    }
  }

  /** Extending the last piece keeps every cut a boundary. */
  lemma ExtendKeepsBoundaries(prev: seq<string>, c: char, r: seq<string>)
    requires |prev| > 0 && AllBoundaries(prev)
    requires r == prev[..|prev| - 1] + [Last(prev) + [c]]
    ensures AllBoundaries(r)
  {
    forall k | 0 <= k < |r| - 1 ensures PieceBoundary(r, k) {
      assert PieceBoundary(prev, k);
      assert r[k] == prev[k] && r[k + 1][0] == prev[k + 1][0];
    }
  }

  lemma {:induction false} SplitIntsNoInnerRun(s: string)
    ensures forall k, j :: 0 <= k < |SplitInts(s)| && 0 < j < |SplitInts(s)[k]| ==> !StartsRun(SplitInts(s)[k], j)
    decreases |s|
  {
    if |s| > 0 {
      var init := s[..|s| - 1];
      var c := s[|s| - 1];
      SplitIntsNoInnerRun(init);
      var prev := SplitInts(init);
      var r := SplitInts(s);
      if |prev| > 0 {
        SplitIntsConcat(init);
        assert init[|init| - 1] == s[|s| - 2];
        if IsDigit(c) && !IsDigit(s[|s| - 2]) {
          assert r == prev + [[c]];
        } else {
          var last := prev[|prev| - 1];
          assert r == prev[..|prev| - 1] + [last + [c]];
          forall j | 0 < j < |last + [c]| ensures !StartsRun(last + [c], j) {
            if j < |last| { assert !StartsRun(last, j); }
          }
        }
      }
    }
  }

  /** `s.parse::<u32>().unwrap_or(0).to_string()`, used on every piece but the last. */
  function NumericPiece(s: string): string {
    NatToString(ParseUnsigned(s, U32_MAX).GetOr(0))
  }

  /** Every piece but the last becomes its numeric form; the last stays as it is. */
  function ProcessPieces(pieces: seq<string>): (r: seq<string>)
    requires |pieces| > 0
    ensures |r| == |pieces| && r[|r| - 1] == pieces[|pieces| - 1]
    ensures forall i :: 0 <= i < |r| - 1 ==> r[i] == NumericPiece(pieces[i])
  {
    seq(|pieces|, i requires 0 <= i < |pieces| =>
      if i == |pieces| - 1 then pieces[i] else NumericPiece(pieces[i]))
  }

  function Zeros(n: nat): (r: seq<string>)
    ensures |r| == n && forall i :: 0 <= i < n ==> r[i] == "0"
  {
    seq(n, _ => "0")
  }

  /** The list with `n` copies of "0" just before its last element: the pieces
      before the last keep their places, then come the zeros, and the last
      piece stays last. */
  function PadBeforeLast(p: seq<string>, n: nat): (r: seq<string>)
    requires |p| > 0
    ensures |r| == |p| + n
    ensures r[|r| - 1] == p[|p| - 1]
    ensures forall i :: 0 <= i < |p| - 1 ==> r[i] == p[i]
    ensures forall i :: |p| - 1 <= i < |r| - 1 ==> r[i] == "0"
  {
    p[..|p| - 1] + Zeros(n) + [p[|p| - 1]]
  }

  /** `Vec::insert`: `x` placed at index `i`, later elements shifted right. */
  function Insert(l: seq<string>, i: nat, x: string): (r: seq<string>)
    requires i <= |l|
    ensures |r| == |l| + 1 && r[i] == x
    ensures forall k :: 0 <= k < i ==> r[k] == l[k]
    ensures forall k :: i < k < |r| ==> r[k] == l[k - 1]
  {
    l[..i] + [x] + l[i..]
  }

  /** The padding loop as written: `n` rounds of inserting "0" at `len - 1`. */
  function PadByInserts(l: seq<string>, n: nat): (r: seq<string>)
    requires |l| > 0
    ensures |r| == |l| + n
    decreases n
  {
    if n == 0 then l else PadByInserts(Insert(l, |l| - 1, "0"), n - 1)
  }

  /** The insert loop puts all its zeros together just before the last element. */
  lemma {:induction false} PadByInsertsIsPadBeforeLast(l: seq<string>, n: nat)
    requires |l| > 0
    ensures PadByInserts(l, n) == PadBeforeLast(l, n)
    decreases n
  {
    if n == 0 {
      assert l == l[..|l| - 1] + [l[|l| - 1]];
    } else {
      var l1 := Insert(l, |l| - 1, "0");
      PadByInsertsIsPadBeforeLast(l1, n - 1);
      assert l1[..|l1| - 1] == l[..|l| - 1] + ["0"];
      assert l1[|l1| - 1] == l[|l| - 1];
      assert ["0"] + Zeros(n - 1) == Zeros(n);
      calc {
        PadBeforeLast(l1, n - 1);
        l1[..|l1| - 1] + Zeros(n - 1) + [l1[|l1| - 1]];
        (l[..|l| - 1] + ["0"]) + Zeros(n - 1) + [l[|l| - 1]];
        l[..|l| - 1] + (["0"] + Zeros(n - 1)) + [l[|l| - 1]];
        PadBeforeLast(l, n);
      }
    }
  }

  predicate StartsWithDigit(s: string) {
    |s| > 0 && IsDigit(s[0])
  }

  /** The branch for two names of several pieces each: every piece but the last
      becomes its numeric form, the shorter list is padded with "0" before its
      last element, and the lists compare element by element. */
  function ComparePieces(aSplit: seq<string>, bSplit: seq<string>): Ordering
    requires |aSplit| > 0 && |bSplit| > 0
  {
    var ap := ProcessPieces(aSplit);
    var bp := ProcessPieces(bSplit);
    if |bSplit| > |aSplit| then CompareLists(PadBeforeLast(ap, |bSplit| - |aSplit|), bp)
    else CompareLists(ap, PadBeforeLast(bp, |aSplit| - |bSplit|))
  }

  /** `sort_entries(a, b)` as written, with the one way it can panic made explicit:
      None when one name has no pieces (it is empty) and the other starts with a
      digit and splits into two or more, because the padding loop then computes
      `0 - 1` as an insertion index. */
  function SortEntriesAsWritten(a: string, b: string): (r: Option<Ordering>)
    ensures r.None? <==> (a == [] && StartsWithDigit(b) && |SplitInts(b)| >= 2)
                          || (b == [] && StartsWithDigit(a) && |SplitInts(a)| >= 2)
  {
    if StartsWithDigit(a) || StartsWithDigit(b) then
      var aSplit := SplitInts(a);
      var bSplit := SplitInts(b);
      if |aSplit| == 1 && |bSplit| == 1 then Some(CompareStrings(Lower(a), Lower(b)))
      else if |aSplit| == 1 then Some(Greater)
      else if |bSplit| == 1 then Some(Less)
      else if |aSplit| == 0 || |bSplit| == 0 then None
      else Some(ComparePieces(aSplit, bSplit))
    else Some(CompareStrings(Lower(a), Lower(b)))
  }

  /** `sort_entries(a, b)` with the empty-name case fixed: a name with no pieces is
      handled like a one-piece name, so the comparison is total. This is the
      comparator the rest of the model uses. */
  function SortEntries(a: string, b: string): Ordering {
    if StartsWithDigit(a) || StartsWithDigit(b) then
      var aSplit := SplitInts(a);
      var bSplit := SplitInts(b);
      if |aSplit| <= 1 && |bSplit| <= 1 then CompareStrings(Lower(a), Lower(b))
      else if |aSplit| <= 1 then Greater
      else if |bSplit| <= 1 then Less
      else ComparePieces(aSplit, bSplit)
    else CompareStrings(Lower(a), Lower(b))
  }

  lemma ComparePiecesAntisymmetric(aSplit: seq<string>, bSplit: seq<string>)
    requires |aSplit| > 0 && |bSplit| > 0
    ensures ComparePieces(bSplit, aSplit) == ComparePieces(aSplit, bSplit).Reverse()
  {
    var ap := ProcessPieces(aSplit);
    var bp := ProcessPieces(bSplit);
    if |bSplit| > |aSplit| {
      CompareListsAntisymmetric(PadBeforeLast(ap, |bSplit| - |aSplit|), bp);
    } else if |aSplit| > |bSplit| {
      CompareListsAntisymmetric(ap, PadBeforeLast(bp, |aSplit| - |bSplit|));
    } else {
      assert PadBeforeLast(ap, 0) == ap && PadBeforeLast(bp, 0) == bp;
      CompareListsAntisymmetric(ap, bp);
    }
  }

  /** The fix changes nothing where the code as written returns. */
  lemma SortEntriesAgreesWhereDefined(a: string, b: string)
    requires SortEntriesAsWritten(a, b).Some?
    ensures SortEntries(a, b) == SortEntriesAsWritten(a, b).value
  {
  }

  /** The panic: `sort_entries("1.2", "")` indexes at `0 - 1`. */
  lemma SortEntriesAsWrittenPanicsOnEmptyName()
    ensures SortEntriesAsWritten("1.2", "") == None
  {
    SplitIntsOf1Dot2();
  }

  /** The corrected comparator ranks the empty name as a one-piece name: before a
      digit-led one-piece name, after a name of several pieces. */
  lemma SortEntriesEmptyName(a: string)
    requires StartsWithDigit(a)
    ensures |SplitInts(a)| == 1 ==> SortEntries("", a) == Less
    ensures |SplitInts(a)| >= 2 ==> SortEntries("", a) == Greater
  {
    assert SplitInts("") == [];
    assert Lower("") == "";
    assert |Lower(a)| > 0;
  }

  lemma SortEntriesReflexive(a: string)
    ensures SortEntries(a, a) == Equal
  {
  }

  lemma SortEntriesAntisymmetric(a: string, b: string)
    ensures SortEntries(b, a) == SortEntries(a, b).Reverse()
  {
    CompareStringsAntisymmetric(Lower(a), Lower(b));
    if |SplitInts(a)| > 1 && |SplitInts(b)| > 1 {
      ComparePiecesAntisymmetric(SplitInts(a), SplitInts(b));
    }
  }

  /** A piece ending in a non-digit does not parse, so its numeric form is "0". */
  lemma NumericPieceOfNonDigitEnd(p: string)
    requires |p| > 0 && !IsDigit(p[|p| - 1])
    ensures NumericPiece(p) == "0"
  {
    ParseFailsOnTrailingNonDigit(p, U32_MAX);
  }

  lemma {:induction false} CompareListsCommonPrefix(p: seq<string>, x: string, y: string)
    ensures CompareLists(p + [x], p + [y]) == CompareStrings(x, y)
    decreases |p|
  {
    if |p| > 0 {
      assert (p + [x])[1..] == p[1..] + [x];
      assert (p + [y])[1..] == p[1..] + [y];
      CompareListsCommonPrefix(p[1..], x, y);
    }
  }

  /** With every non-last piece numerically zero, only the last pieces matter. */
  lemma ComparePiecesOfZeros(aSplit: seq<string>, bSplit: seq<string>)
    requires |aSplit| > 0 && |bSplit| > 0
    requires forall k :: 0 <= k < |aSplit| - 1 ==> NumericPiece(aSplit[k]) == "0"
    requires forall k :: 0 <= k < |bSplit| - 1 ==> NumericPiece(bSplit[k]) == "0"
    ensures ComparePieces(aSplit, bSplit) == CompareStrings(Last(aSplit), Last(bSplit))
  {
    var ap := ProcessPieces(aSplit);
    var bp := ProcessPieces(bSplit);
    if |bSplit| > |aSplit| {
      var zs := Zeros(|bSplit| - 1);
      assert PadBeforeLast(ap, |bSplit| - |aSplit|) == zs + [Last(aSplit)];
      assert bp == zs + [Last(bSplit)];
      CompareListsCommonPrefix(zs, Last(aSplit), Last(bSplit));
    } else {
      var zs := Zeros(|aSplit| - 1);
      assert ap == zs + [Last(aSplit)];
      assert PadBeforeLast(bp, |aSplit| - |bSplit|) == zs + [Last(bSplit)];
      CompareListsCommonPrefix(zs, Last(aSplit), Last(bSplit));
    }
  }

  /** Every piece but the last of a split ends in a non-digit, so it becomes "0". */
  lemma SplitIntsNonLastZero(s: string)
    ensures forall k :: 0 <= k < |SplitInts(s)| - 1 ==> NumericPiece(SplitInts(s)[k]) == "0"
  {
    SplitIntsCuts(s);
    var r := SplitInts(s);
    forall k | 0 <= k < |r| - 1 ensures NumericPiece(r[k]) == "0" {
      assert PieceBoundary(r, k);
      NumericPieceOfNonDigitEnd(r[k]);
    }
  }

  /** Two names that both split into several pieces, one starting with a digit,
      compare by their last pieces alone, case-sensitively: so "1.10" < "1.2". */
  lemma SortEntriesMultiPiece(a: string, b: string)
    requires StartsWithDigit(a) || StartsWithDigit(b)
    requires |SplitInts(a)| >= 2 && |SplitInts(b)| >= 2
    ensures SortEntries(a, b) == CompareStrings(Last(SplitInts(a)), Last(SplitInts(b)))
  {
    SplitIntsNonLastZero(a);
    SplitIntsNonLastZero(b);
    ComparePiecesOfZeros(SplitInts(a), SplitInts(b));
  }

  /** Names that do not start with a digit compare as lowercased strings. */
  lemma SortEntriesPlainNames(a: string, b: string)
    requires !StartsWithDigit(a) && !StartsWithDigit(b)
    ensures SortEntries(a, b) == CompareStrings(Lower(a), Lower(b))
  {
  }

  /** A digit-led one-piece name sorts after any name of several pieces. */
  lemma SortEntriesSinglePieceLast(a: string, b: string)
    requires StartsWithDigit(a) || StartsWithDigit(b)
    requires |SplitInts(a)| == 1 && |SplitInts(b)| >= 2
    ensures SortEntries(a, b) == Greater && SortEntries(b, a) == Less
  {
  }

  /** The comparison is not transitive: "b1.1" < "0.5" < "a1.9" < "b1.1". */
  lemma SortEntriesCycle()
    ensures SortEntries("b1.1", "0.5") == Less
    ensures SortEntries("0.5", "a1.9") == Less
    ensures SortEntries("a1.9", "b1.1") == Less
  {
    CycleFirstStep();
    CycleSecondStep();
    CycleThirdStep();
  }

  lemma CycleFirstStep()
    ensures SortEntries("b1.1", "0.5") == Less
  {
    SplitIntsOfB1Dot1();
    SplitIntsOf0Dot5();
    SortEntriesMultiPiece("b1.1", "0.5");
  }

  lemma CycleSecondStep()
    ensures SortEntries("0.5", "a1.9") == Less
  {
    SplitIntsOf0Dot5();
    SplitIntsOfA1Dot9();
    SortEntriesMultiPiece("0.5", "a1.9");
  }

  lemma CycleThirdStep()
    ensures SortEntries("a1.9", "b1.1") == Less
  {
    assert Lower("a1.9") == "a1.9" && Lower("b1.1") == "b1.1";
  }

  /** The module's own tests that hold of the code. */
  lemma SortEntriesPassingTests()
    ensures SortEntries("a", "b") == Less
    ensures SortEntries("B", "a") == Greater
    ensures SortEntries("1.1", "1.2") == Less
    ensures SortEntries("item", "1.item") == Greater
    ensures SortEntries("1.item", "2.item") == Less
  {
    PlainNamesTest();
    VersionTest();
    ItemTest();
    NumberedItemsTest();
  }

  lemma PlainNamesTest()
    ensures SortEntries("a", "b") == Less
    ensures SortEntries("B", "a") == Greater
  {
    assert Lower("B") == "b" && Lower("a") == "a" && Lower("b") == "b";
  }

  lemma VersionTest()
    ensures SortEntries("1.1", "1.2") == Less
  {
    SplitIntsOf1Dot1();
    SplitIntsOf1Dot2();
    SortEntriesMultiPiece("1.1", "1.2");
  }

  lemma ItemTest()
    ensures SortEntries("item", "1.item") == Greater
  {
    SplitIntsOf1DotITEM();
    SplitIntsOfITEM();
    assert Lower("item") == "item" && Lower("1.item") == "1.item";
  }

  lemma NumberedItemsTest()
    ensures SortEntries("1.item", "2.item") == Less
  {
    SplitIntsOf1DotITEM();
    SplitIntsOf2DotITEM();
    assert Lower("1.item") == "1.item" && Lower("2.item") == "2.item";
  }

  /** The module's own tests the code cannot pass: "1.10" sorts before "1.2" and
      "2.1" before "1.2", while the tests expect Greater for both. */
  lemma SortEntriesFailingTests()
    ensures SortEntries("1.10", "1.2") == Less
    ensures SortEntries("2.1", "1.2") == Less
  {
    SplitIntsOf1Dot10();
    SplitIntsOf1Dot2();
    SplitIntsOf2Dot1();
    SortEntriesMultiPiece("1.10", "1.2");
    SortEntriesMultiPiece("2.1", "1.2");
  }

  /** `split_ints` on the test inputs: the pieces are cut before the digits, not
      before the dots as the tests expect ("1", ".2"). */
  lemma SplitIntsTestInputs()
    ensures SplitInts("1.2") == ["1.", "2"]
    ensures SplitInts("10.20.30") == ["10.", "20.", "30"]
    ensures SplitInts("v1.2.3") == ["v", "1.", "2.", "3"]
  {
    SplitIntsOf1Dot2();
    SplitIntsOf10Dot20Dot30();
    SplitIntsOfV1Dot2Dot3();
  }

  lemma SplitIntsOf1Dot()
    ensures SplitInts("1.") == ["1."]
  {
    assert SplitInts("1" + ['.']) == ["1."] by {
      SplitIntsSnoc("1", '.');
      assert "1" + ['.'] == "1.";
    }
    assert "1" + ['.'] == "1.";
  }

  lemma SplitIntsOf1Dot2()
    ensures SplitInts("1.2") == ["1.", "2"]
  {
    assert SplitInts("1." + ['2']) == ["1.", "2"] by {
      SplitIntsOf1Dot();
      SplitIntsSnoc("1.", '2');
    }
    assert "1." + ['2'] == "1.2";
  }

  lemma SplitIntsOf1Dot1()
    ensures SplitInts("1.1") == ["1.", "1"]
  {
    assert SplitInts("1." + ['1']) == ["1.", "1"] by {
      SplitIntsOf1Dot();
      SplitIntsSnoc("1.", '1');
    }
    assert "1." + ['1'] == "1.1";
  }

  lemma SplitIntsOf1Dot10()
    ensures SplitInts("1.10") == ["1.", "10"]
  {
    assert SplitInts("1.1" + ['0']) == ["1.", "10"] by {
      SplitIntsOf1Dot1();
      SplitIntsSnoc("1.1", '0');
      assert "1" + ['0'] == "10";
    }
    assert "1.1" + ['0'] == "1.10";
  }

  lemma SplitIntsOf2Dot()
    ensures SplitInts("2.") == ["2."]
  {
    assert SplitInts("2" + ['.']) == ["2."] by {
      SplitIntsSnoc("2", '.');
      assert "2" + ['.'] == "2.";
    }
    assert "2" + ['.'] == "2.";
  }

  lemma SplitIntsOf2Dot1()
    ensures SplitInts("2.1") == ["2.", "1"]
  {
    assert SplitInts("2." + ['1']) == ["2.", "1"] by {
      SplitIntsOf2Dot();
      SplitIntsSnoc("2.", '1');
    }
    assert "2." + ['1'] == "2.1";
  }

  lemma SplitIntsOfB1()
    ensures SplitInts("b1") == ["b", "1"]
  {
    assert SplitInts("b" + ['1']) == ["b", "1"] by {
      SplitIntsSnoc("b", '1');
    }
    assert "b" + ['1'] == "b1";
  }

  lemma SplitIntsOfB1Dot()
    ensures SplitInts("b1.") == ["b", "1."]
  {
    assert SplitInts("b1" + ['.']) == ["b", "1."] by {
      SplitIntsOfB1();
      SplitIntsSnoc("b1", '.');
      assert "1" + ['.'] == "1.";
    }
    assert "b1" + ['.'] == "b1.";
  }

  lemma SplitIntsOfB1Dot1()
    ensures SplitInts("b1.1") == ["b", "1.", "1"]
  {
    assert SplitInts("b1." + ['1']) == ["b", "1.", "1"] by {
      SplitIntsOfB1Dot();
      SplitIntsSnoc("b1.", '1');
    }
    assert "b1." + ['1'] == "b1.1";
  }

  lemma SplitIntsOfA1()
    ensures SplitInts("a1") == ["a", "1"]
  {
    assert SplitInts("a" + ['1']) == ["a", "1"] by {
      SplitIntsSnoc("a", '1');
    }
    assert "a" + ['1'] == "a1";
  }

  lemma SplitIntsOfA1Dot()
    ensures SplitInts("a1.") == ["a", "1."]
  {
    assert SplitInts("a1" + ['.']) == ["a", "1."] by {
      SplitIntsOfA1();
      SplitIntsSnoc("a1", '.');
      assert "1" + ['.'] == "1.";
    }
    assert "a1" + ['.'] == "a1.";
  }

  lemma SplitIntsOfA1Dot9()
    ensures SplitInts("a1.9") == ["a", "1.", "9"]
  {
    assert SplitInts("a1." + ['9']) == ["a", "1.", "9"] by {
      SplitIntsOfA1Dot();
      SplitIntsSnoc("a1.", '9');
    }
    assert "a1." + ['9'] == "a1.9";
  }

  lemma SplitIntsOf0Dot()
    ensures SplitInts("0.") == ["0."]
  {
    assert SplitInts("0" + ['.']) == ["0."] by {
      SplitIntsSnoc("0", '.');
      assert "0" + ['.'] == "0.";
    }
    assert "0" + ['.'] == "0.";
  }

  lemma SplitIntsOf0Dot5()
    ensures SplitInts("0.5") == ["0.", "5"]
  {
    assert SplitInts("0." + ['5']) == ["0.", "5"] by {
      SplitIntsOf0Dot();
      SplitIntsSnoc("0.", '5');
    }
    assert "0." + ['5'] == "0.5";
  }

  lemma SplitIntsOf1DotI()
    ensures SplitInts("1.i") == ["1.i"]
  {
    assert SplitInts("1." + ['i']) == ["1.i"] by {
      SplitIntsOf1Dot();
      SplitIntsSnoc("1.", 'i');
      assert "1." + ['i'] == "1.i";
    }
    assert "1." + ['i'] == "1.i";
  }

  lemma SplitIntsOf1DotIT()
    ensures SplitInts("1.it") == ["1.it"]
  {
    assert SplitInts("1.i" + ['t']) == ["1.it"] by {
      SplitIntsOf1DotI();
      SplitIntsSnoc("1.i", 't');
      assert "1.i" + ['t'] == "1.it";
    }
    assert "1.i" + ['t'] == "1.it";
  }

  lemma SplitIntsOf1DotITE()
    ensures SplitInts("1.ite") == ["1.ite"]
  {
    assert SplitInts("1.it" + ['e']) == ["1.ite"] by {
      SplitIntsOf1DotIT();
      SplitIntsSnoc("1.it", 'e');
      assert "1.it" + ['e'] == "1.ite";
    }
    assert "1.it" + ['e'] == "1.ite";
  }

  lemma SplitIntsOf1DotITEM()
    ensures SplitInts("1.item") == ["1.item"]
  {
    assert SplitInts("1.ite" + ['m']) == ["1.item"] by {
      SplitIntsOf1DotITE();
      SplitIntsSnoc("1.ite", 'm');
      assert "1.ite" + ['m'] == "1.item";
    }
    assert "1.ite" + ['m'] == "1.item";
  }

  lemma SplitIntsOf2DotI()
    ensures SplitInts("2.i") == ["2.i"]
  {
    assert SplitInts("2." + ['i']) == ["2.i"] by {
      SplitIntsOf2Dot();
      SplitIntsSnoc("2.", 'i');
      assert "2." + ['i'] == "2.i";
    }
    assert "2." + ['i'] == "2.i";
  }

  lemma SplitIntsOf2DotIT()
    ensures SplitInts("2.it") == ["2.it"]
  {
    assert SplitInts("2.i" + ['t']) == ["2.it"] by {
      SplitIntsOf2DotI();
      SplitIntsSnoc("2.i", 't');
      assert "2.i" + ['t'] == "2.it";
    }
    assert "2.i" + ['t'] == "2.it";
  }

  lemma SplitIntsOf2DotITE()
    ensures SplitInts("2.ite") == ["2.ite"]
  {
    assert SplitInts("2.it" + ['e']) == ["2.ite"] by {
      SplitIntsOf2DotIT();
      SplitIntsSnoc("2.it", 'e');
      assert "2.it" + ['e'] == "2.ite";
    }
    assert "2.it" + ['e'] == "2.ite";
  }

  lemma SplitIntsOf2DotITEM()
    ensures SplitInts("2.item") == ["2.item"]
  {
    assert SplitInts("2.ite" + ['m']) == ["2.item"] by {
      SplitIntsOf2DotITE();
      SplitIntsSnoc("2.ite", 'm');
      assert "2.ite" + ['m'] == "2.item";
    }
    assert "2.ite" + ['m'] == "2.item";
  }

  lemma SplitIntsOfIT()
    ensures SplitInts("it") == ["it"]
  {
    assert SplitInts("i" + ['t']) == ["it"] by {
      SplitIntsSnoc("i", 't');
      assert "i" + ['t'] == "it";
    }
    assert "i" + ['t'] == "it";
  }

  lemma SplitIntsOfITE()
    ensures SplitInts("ite") == ["ite"]
  {
    assert SplitInts("it" + ['e']) == ["ite"] by {
      SplitIntsOfIT();
      SplitIntsSnoc("it", 'e');
      assert "it" + ['e'] == "ite";
    }
    assert "it" + ['e'] == "ite";
  }

  lemma SplitIntsOfITEM()
    ensures SplitInts("item") == ["item"]
  {
    assert SplitInts("ite" + ['m']) == ["item"] by {
      SplitIntsOfITE();
      SplitIntsSnoc("ite", 'm');
      assert "ite" + ['m'] == "item";
    }
    assert "ite" + ['m'] == "item";
  }

  lemma SplitIntsOf10()
    ensures SplitInts("10") == ["10"]
  {
    assert SplitInts("1" + ['0']) == ["10"] by {
      SplitIntsSnoc("1", '0');
      assert "1" + ['0'] == "10";
    }
    assert "1" + ['0'] == "10";
  }

  lemma SplitIntsOf10Dot()
    ensures SplitInts("10.") == ["10."]
  {
    assert SplitInts("10" + ['.']) == ["10."] by {
      SplitIntsOf10();
      SplitIntsSnoc("10", '.');
      assert "10" + ['.'] == "10.";
    }
    assert "10" + ['.'] == "10.";
  }

  lemma SplitIntsOf10Dot2()
    ensures SplitInts("10.2") == ["10.", "2"]
  {
    assert SplitInts("10." + ['2']) == ["10.", "2"] by {
      SplitIntsOf10Dot();
      SplitIntsSnoc("10.", '2');
    }
    assert "10." + ['2'] == "10.2";
  }

  lemma SplitIntsOf10Dot20()
    ensures SplitInts("10.20") == ["10.", "20"]
  {
    assert SplitInts("10.2" + ['0']) == ["10.", "20"] by {
      SplitIntsOf10Dot2();
      SplitIntsSnoc("10.2", '0');
      assert "2" + ['0'] == "20";
    }
    assert "10.2" + ['0'] == "10.20";
  }

  lemma SplitIntsOf10Dot20Dot()
    ensures SplitInts("10.20.") == ["10.", "20."]
  {
    assert SplitInts("10.20" + ['.']) == ["10.", "20."] by {
      SplitIntsOf10Dot20();
      SplitIntsSnoc("10.20", '.');
      assert "20" + ['.'] == "20.";
    }
    assert "10.20" + ['.'] == "10.20.";
  }

  lemma SplitIntsOf10Dot20Dot3()
    ensures SplitInts("10.20.3") == ["10.", "20.", "3"]
  {
    assert SplitInts("10.20." + ['3']) == ["10.", "20.", "3"] by {
      SplitIntsOf10Dot20Dot();
      SplitIntsSnoc("10.20.", '3');
    }
    assert "10.20." + ['3'] == "10.20.3";
  }

  lemma SplitIntsOf10Dot20Dot30()
    ensures SplitInts("10.20.30") == ["10.", "20.", "30"]
  {
    assert SplitInts("10.20.3" + ['0']) == ["10.", "20.", "30"] by {
      SplitIntsOf10Dot20Dot3();
      SplitIntsSnoc("10.20.3", '0');
      assert "3" + ['0'] == "30";
    }
    assert "10.20.3" + ['0'] == "10.20.30";
  }

  lemma SplitIntsOfV1()
    ensures SplitInts("v1") == ["v", "1"]
  {
    assert SplitInts("v" + ['1']) == ["v", "1"] by {
      SplitIntsSnoc("v", '1');
    }
    assert "v" + ['1'] == "v1";
  }

  lemma SplitIntsOfV1Dot()
    ensures SplitInts("v1.") == ["v", "1."]
  {
    assert SplitInts("v1" + ['.']) == ["v", "1."] by {
      SplitIntsOfV1();
      SplitIntsSnoc("v1", '.');
      assert "1" + ['.'] == "1.";
    }
    assert "v1" + ['.'] == "v1.";
  }

  lemma SplitIntsOfV1Dot2()
    ensures SplitInts("v1.2") == ["v", "1.", "2"]
  {
    assert SplitInts("v1." + ['2']) == ["v", "1.", "2"] by {
      SplitIntsOfV1Dot();
      SplitIntsSnoc("v1.", '2');
    }
    assert "v1." + ['2'] == "v1.2";
  }

  lemma SplitIntsOfV1Dot2Dot()
    ensures SplitInts("v1.2.") == ["v", "1.", "2."]
  {
    assert SplitInts("v1.2" + ['.']) == ["v", "1.", "2."] by {
      SplitIntsOfV1Dot2();
      SplitIntsSnoc("v1.2", '.');
      assert "2" + ['.'] == "2.";
    }
    assert "v1.2" + ['.'] == "v1.2.";
  }

  lemma SplitIntsOfV1Dot2Dot3()
    ensures SplitInts("v1.2.3") == ["v", "1.", "2.", "3"]
  {
    assert SplitInts("v1.2." + ['3']) == ["v", "1.", "2.", "3"] by {
      SplitIntsOfV1Dot2Dot();
      SplitIntsSnoc("v1.2.", '3');
    }
    assert "v1.2." + ['3'] == "v1.2.3";
  }
}
