/** The stable sort `slice::sort_by` performs, as insertion sort over a comparison
    function. Each element is inserted after every element that does not compare
    Greater than it, so equal elements keep their input order. */
module Sorting {
  import opened Wrappers
  import opened EntrySort

  /** Adjacent elements are in order: none compares Greater than its successor. */
  predicate InOrderAt<T>(s: seq<T>, cmp: (T, T) -> Ordering, i: int)
    requires 0 <= i < |s| - 1
  {
    cmp(s[i], s[i + 1]) != Greater
  }

  predicate Sorted<T>(s: seq<T>, cmp: (T, T) -> Ordering) {
    forall i :: 0 <= i < |s| - 1 ==> InOrderAt(s, cmp, i)
  }

  /** `cmp(a, b) == Greater` implies `cmp(b, a) == Less` on the given elements. */
  predicate AntisymmetricOn<T>(s: seq<T>, cmp: (T, T) -> Ordering) {
    forall i, j :: 0 <= i < |s| && 0 <= j < |s| && cmp(s[i], s[j]) == Greater ==> cmp(s[j], s[i]) == Less
  }

  /** No two positions share a key. */
  ghost predicate DistinctBy<T, K>(s: seq<T>, key: T -> K) {
    forall i, j :: 0 <= i < |s| && 0 <= j < |s| && i != j ==> key(s[i]) != key(s[j])
  }

  function Insert<T>(sorted: seq<T>, x: T, cmp: (T, T) -> Ordering): (r: seq<T>)
    ensures multiset(r) == multiset(sorted) + multiset{x}
    ensures |r| == |sorted| + 1
    decreases |sorted|
  {
    if |sorted| == 0 then [x]
    else if cmp(sorted[|sorted| - 1], x) == Greater then
      var init := sorted[..|sorted| - 1];
      assert sorted == init + [sorted[|sorted| - 1]];
      Insert(init, x, cmp) + [sorted[|sorted| - 1]]
    else sorted + [x]
  }

  /** The sorted permutation of `s`. */
  function SortBy<T>(s: seq<T>, cmp: (T, T) -> Ordering): (r: seq<T>)
    ensures multiset(r) == multiset(s)
    ensures |r| == |s|
    decreases |s|
  {
    if |s| == 0 then []
    else
      assert s == s[..|s| - 1] + [s[|s| - 1]];
      Insert(SortBy(s[..|s| - 1], cmp), s[|s| - 1], cmp)
  }

  lemma MemberOfInsert<T>(sorted: seq<T>, x: T, cmp: (T, T) -> Ordering, y: T)
    requires y in Insert(sorted, x, cmp)
    ensures y in sorted || y == x
  {
    assert y in multiset(Insert(sorted, x, cmp));
  }

  lemma {:induction false} InsertSorted<T>(sorted: seq<T>, x: T, cmp: (T, T) -> Ordering, all: seq<T>)
    requires Sorted(sorted, cmp)
    requires AntisymmetricOn(all, cmp)
    requires x in all && forall i :: 0 <= i < |sorted| ==> sorted[i] in all
    ensures Sorted(Insert(sorted, x, cmp), cmp)
    ensures |sorted| > 0 ==> var r := Insert(sorted, x, cmp);
      r[|r| - 1] == x || r[|r| - 1] == sorted[|sorted| - 1]
    decreases |sorted|
  {
    var r := Insert(sorted, x, cmp);
    if |sorted| > 0 {
      var last := sorted[|sorted| - 1];
      if cmp(last, x) == Greater {
        var init := sorted[..|sorted| - 1];
        assert Sorted(init, cmp) by {
          forall i | 0 <= i < |init| - 1 ensures InOrderAt(init, cmp, i) {
            assert InOrderAt(sorted, cmp, i);
          }
        }
        InsertSorted(init, x, cmp, all);
        var ri := Insert(init, x, cmp);
        assert r == ri + [last];
        assert cmp(ri[|ri| - 1], last) != Greater by {
          if |init| == 0 {
            assert ri == [x];
            ElementsAntisymmetric(all, cmp, last, x);
          } else if ri[|ri| - 1] == x {
            ElementsAntisymmetric(all, cmp, last, x);
          } else {
            assert InOrderAt(sorted, cmp, |sorted| - 2);
          }
        }
        forall i | 0 <= i < |r| - 1 ensures InOrderAt(r, cmp, i) {
          if i < |ri| - 1 {
            assert InOrderAt(ri, cmp, i);
          }
        }
      } else {
        forall i | 0 <= i < |r| - 1 ensures InOrderAt(r, cmp, i) {
          if i < |sorted| - 1 {
            assert InOrderAt(sorted, cmp, i);
          }
        }
      }
    }
  }

  lemma ElementsAntisymmetric<T>(all: seq<T>, cmp: (T, T) -> Ordering, a: T, b: T)
    requires AntisymmetricOn(all, cmp)
    requires a in all && b in all && cmp(a, b) == Greater
    ensures cmp(b, a) == Less
  {
    var i :| 0 <= i < |all| && all[i] == a;
    var j :| 0 <= j < |all| && all[j] == b;
    assert cmp(all[i], all[j]) == Greater;
  }

  /** The result is sorted whenever the comparison is antisymmetric on the input. */
  lemma {:induction false} SortBySorted<T>(s: seq<T>, cmp: (T, T) -> Ordering)
    requires AntisymmetricOn(s, cmp)
    ensures Sorted(SortBy(s, cmp), cmp)
    decreases |s|
  {
    if |s| > 0 {
      var init := s[..|s| - 1];
      assert AntisymmetricOn(init, cmp) by {
        forall i, j | 0 <= i < |init| && 0 <= j < |init| && cmp(init[i], init[j]) == Greater
          ensures cmp(init[j], init[i]) == Less
        {
          assert init[i] == s[i] && init[j] == s[j];
        }
      }
      SortBySorted(init, cmp);
      var sorted := SortBy(init, cmp);
      forall i | 0 <= i < |sorted| ensures sorted[i] in s {
        assert sorted[i] in multiset(init);
      }
      InsertSorted(sorted, s[|s| - 1], cmp, s);
    }
  }

  lemma {:induction false} InsertDistinctBy<T, K>(sorted: seq<T>, x: T, cmp: (T, T) -> Ordering, key: T -> K)
    requires DistinctBy(sorted, key)
    requires forall i :: 0 <= i < |sorted| ==> key(sorted[i]) != key(x)
    ensures DistinctBy(Insert(sorted, x, cmp), key)
    decreases |sorted|
  {
    if |sorted| > 0 && cmp(sorted[|sorted| - 1], x) == Greater {
      var init := sorted[..|sorted| - 1];
      var last := sorted[|sorted| - 1];
      InsertDistinctBy(init, x, cmp, key);
      var ri := Insert(init, x, cmp);
      var r := ri + [last];
      forall k | 0 <= k < |ri| ensures key(ri[k]) != key(last) {
        MemberOfInsert(init, x, cmp, ri[k]);
        if ri[k] != x {
          var m :| 0 <= m < |init| && init[m] == ri[k];
          assert sorted[m] == ri[k];
        }
      }
      forall i, j | 0 <= i < |r| && 0 <= j < |r| && i != j ensures key(r[i]) != key(r[j]) {
        if i < |ri| && j < |ri| {
        } else if i < |ri| {
          assert r[j] == last;
        } else {
          assert r[i] == last;
        }
      }
    }
  }

  /** Sorting keeps keys distinct. */
  lemma {:induction false} SortByDistinctBy<T, K>(s: seq<T>, cmp: (T, T) -> Ordering, key: T -> K)
    requires DistinctBy(s, key)
    ensures DistinctBy(SortBy(s, cmp), key)
    decreases |s|
  {
    if |s| > 0 {
      var init := s[..|s| - 1];
      var x := s[|s| - 1];
      assert DistinctBy(init, key) by {
        forall i, j | 0 <= i < |init| && 0 <= j < |init| && i != j ensures key(init[i]) != key(init[j]) {
          assert init[i] == s[i] && init[j] == s[j];
        }
      }
      SortByDistinctBy(init, cmp, key);
      var sorted := SortBy(init, cmp);
      forall i | 0 <= i < |sorted| ensures key(sorted[i]) != key(x) {
        assert sorted[i] in multiset(init);
        var m :| 0 <= m < |init| && init[m] == sorted[i];
        assert s[m] == sorted[i];
      }
      InsertDistinctBy(sorted, x, cmp, key);
    }
  }

  /** Sorting keeps exactly the elements it was given. */
  lemma SortBySameElements<T>(s: seq<T>, cmp: (T, T) -> Ordering)
    ensures forall x :: x in SortBy(s, cmp) <==> x in s
  {
    forall x ensures x in SortBy(s, cmp) <==> x in s {
      assert x in SortBy(s, cmp) <==> x in multiset(SortBy(s, cmp));
      assert x in s <==> x in multiset(s);
    }
  }

  /** A comparison that may panic (`None`) agrees with a total one wherever it
      returns, on the elements of `s`. */
  predicate AgreesOn<T(==)>(s: seq<T>, partial: (T, T) -> Option<Ordering>, total: (T, T) -> Ordering) {
    forall a, b :: a in s && b in s && partial(a, b).Some? ==> partial(a, b).value == total(a, b)
  }

  /** The comparison returns on every pair of elements of `s`. */
  predicate DefinedOn<T(==)>(s: seq<T>, partial: (T, T) -> Option<Ordering>) {
    forall a, b :: a in s && b in s ==> partial(a, b).Some?
  }

  /** `Insert` with a comparison that may panic: `None` as soon as one of the
      comparisons the insertion makes does. */
  function InsertPartial<T(==)>(sorted: seq<T>, x: T, cmp: (T, T) -> Option<Ordering>): (r: Option<seq<T>>)
    ensures r.Some? ==> multiset(r.value) == multiset(sorted) + multiset{x}
    ensures r.None? ==> exists a :: a in sorted && cmp(a, x).None?
    decreases |sorted|
  {
    if |sorted| == 0 then Some([x])
    else
      var last := sorted[|sorted| - 1];
      var init := sorted[..|sorted| - 1];
      assert sorted == init + [last];
      match cmp(last, x)
      case None => None
      case Some(o) =>
        if o == Greater then
          match InsertPartial(init, x, cmp)
          case None => None
          case Some(r) => Some(r + [last])
        else Some(sorted + [x])
  }

  /** `SortBy` with a comparison that may panic. */
  function SortByPartial<T(==)>(s: seq<T>, cmp: (T, T) -> Option<Ordering>): (r: Option<seq<T>>)
    ensures r.Some? ==> multiset(r.value) == multiset(s)
    ensures r.None? ==> exists a, b :: a in s && b in s && cmp(a, b).None?
    decreases |s|
  {
    if |s| == 0 then Some([])
    else
      var init := s[..|s| - 1];
      var x := s[|s| - 1];
      assert s == init + [x];
      match SortByPartial(init, cmp)
      case None => None
      case Some(sorted) =>
        var r := InsertPartial(sorted, x, cmp);
        assert r.None? ==> exists a, b :: a in s && b in s && cmp(a, b).None? by {
          if r.None? {
            var a :| a in sorted && cmp(a, x).None?;
            assert a in multiset(sorted);
          }
        }
        r
  }

  /** Where the partial comparison returns it makes the same choices as the
      total one; it returns whenever it is defined on the elements involved. */
  lemma {:induction false} InsertPartialAgrees<T>(sorted: seq<T>, x: T, cmp: (T, T) -> Option<Ordering>,
                                                 total: (T, T) -> Ordering, all: seq<T>)
    requires AgreesOn(all, cmp, total)
    requires x in all && forall a :: a in sorted ==> a in all
    ensures InsertPartial(sorted, x, cmp).Some? ==> InsertPartial(sorted, x, cmp).value == Insert(sorted, x, total)
    ensures DefinedOn(all, cmp) ==> InsertPartial(sorted, x, cmp).Some?
    decreases |sorted|
  {
    if |sorted| > 0 {
      var init := sorted[..|sorted| - 1];
      var last := sorted[|sorted| - 1];
      assert last in sorted;
      InsertPartialAgrees(init, x, cmp, total, all);
    }
  }

  /** The partial sort, when it returns, returns the total sort's result; it
      returns whenever the comparison is defined on the input. */
  lemma {:induction false} SortByPartialAgrees<T>(s: seq<T>, cmp: (T, T) -> Option<Ordering>, total: (T, T) -> Ordering)
    requires AgreesOn(s, cmp, total)
    ensures SortByPartial(s, cmp).Some? ==> SortByPartial(s, cmp).value == SortBy(s, total)
    ensures DefinedOn(s, cmp) ==> SortByPartial(s, cmp).Some?
    decreases |s|
  {
    if |s| > 0 {
      var init := s[..|s| - 1];
      var x := s[|s| - 1];
      assert s == init + [x];
      assert AgreesOn(init, cmp, total);
      assert DefinedOn(s, cmp) ==> DefinedOn(init, cmp);
      SortByPartialAgrees(init, cmp, total);
      match SortByPartial(init, cmp)
      case None =>
      case Some(sorted) =>
        forall a | a in sorted ensures a in s {
          assert a in multiset(sorted);
        }
        InsertPartialAgrees(sorted, x, cmp, total, s);
    }
  }
}
