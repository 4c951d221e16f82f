/** `EntryIndex` of src/core/doc.rs with the records of src/core/index_entry.rs:
    the deduplicating entry list with per-type counters, and `to_full_index`. */
module EntryIndex {
  import opened Wrappers
  import opened Strings
  import opened EntrySort
  import opened Sorting
  import opened Collections

  datatype IndexEntry = IndexEntry(name: string, path: string, entryType: string)

  datatype IndexType = IndexType(name: string, count: nat, slug: string)

  datatype FullIndex = FullIndex(entries: seq<IndexEntry>, types: seq<IndexType>)

  /** `index` holds the entries already added; the source keys it by the entry's
      JSON text, which is injective on (name, path, type), so a set of entries
      stands for it. */
  datatype EntryIndex = EntryIndex(entries: seq<IndexEntry>, index: set<IndexEntry>, types: map<string, IndexType>)

  function EntryKey(e: IndexEntry): IndexEntry { e }

  function EntriesOfType(entries: seq<IndexEntry>, t: string): set<IndexEntry> {
    set e | e in entries && e.entryType == t
  }

  function TypesOf(entries: seq<IndexEntry>): set<string> {
    set e | e in entries :: e.entryType
  }

  /** What every index built by `new` and `add` satisfies: no entry twice, the
      index set is the set of entries, one counter per type present, and each
      counter holds the type's name, its lowercased slug and its entry count. */
  ghost predicate Valid(ix: EntryIndex) {
    DistinctBy(ix.entries, EntryKey)
    && ix.index == (set e | e in ix.entries)
    && ix.types.Keys == TypesOf(ix.entries)
    && forall t :: t in ix.types ==> ix.types[t] == IndexType(t, |EntriesOfType(ix.entries, t)|, Lower(t))
  }

  function New(): (r: EntryIndex)
    ensures Valid(r) && r.entries == [] && r.types == map[]
  {
    EntryIndex([], {}, map[])
  }

  /** `add`: a triple already present changes nothing; a new one is appended and
      its type's counter goes up by one, starting at one. */
  function Add(ix: EntryIndex, e: IndexEntry): (r: EntryIndex)
    ensures e in ix.index ==> r == ix
    ensures e !in ix.index ==> r.entries == ix.entries + [e] && r.index == ix.index + {e}
    ensures e !in ix.index ==> r.types.Keys == ix.types.Keys + {e.entryType}
    ensures forall t :: t in ix.types && t != e.entryType ==> t in r.types && r.types[t] == ix.types[t]
  {
    if e in ix.index then ix
    else
      var t := e.entryType;
      var counter := if t in ix.types then ix.types[t].(count := ix.types[t].count + 1)
                     else IndexType(t, 1, Lower(t));
      EntryIndex(ix.entries + [e], ix.index + {e}, ix.types[t := counter])
  }

  lemma AddValid(ix: EntryIndex, e: IndexEntry)
    requires Valid(ix)
    ensures Valid(Add(ix, e))
    ensures e in Add(ix, e).entries
    ensures e.entryType in Add(ix, e).types
  {
    if e !in ix.index {
      var r := Add(ix, e);
      AddKeepsDistinct(ix.entries, e);
      assert TypesOf(r.entries) == TypesOf(ix.entries) + {e.entryType};
      forall t | t in r.types
        ensures r.types[t] == IndexType(t, |EntriesOfType(r.entries, t)|, Lower(t))
      {
        AddCounter(ix, e, t);
      }
    }
  }

  lemma AddKeepsDistinct(entries: seq<IndexEntry>, e: IndexEntry)
    requires DistinctBy(entries, EntryKey) && e !in entries
    ensures DistinctBy(entries + [e], EntryKey)
  {
    var r := entries + [e];
    forall i, j | 0 <= i < |r| && 0 <= j < |r| && i != j
      ensures EntryKey(r[i]) != EntryKey(r[j])
    {
      if i < |entries| && j < |entries| {
        assert r[i] == entries[i] && r[j] == entries[j];
      } else if i < |entries| {
        assert r[i] in entries;
      } else {
        assert r[j] in entries;
      }
    }
  }

  lemma AddCounter(ix: EntryIndex, e: IndexEntry, t: string)
    requires Valid(ix) && e !in ix.index && t in Add(ix, e).types
    ensures Add(ix, e).types[t] == IndexType(t, |EntriesOfType(Add(ix, e).entries, t)|, Lower(t))
  {
    var r := Add(ix, e);
    if t == e.entryType {
      assert EntriesOfType(r.entries, t) == EntriesOfType(ix.entries, t) + {e};
      if t !in ix.types {
        forall x | x in ix.entries ensures x.entryType != t {
          assert x.entryType in TypesOf(ix.entries);
        }
        assert EntriesOfType(ix.entries, t) == {};
      }
    } else {
      assert EntriesOfType(r.entries, t) == EntriesOfType(ix.entries, t);
    }
  }

  /** `add_multiple`: `add` each entry in turn. */
  function AddMultiple(ix: EntryIndex, es: seq<IndexEntry>): (r: EntryIndex)
    ensures r.index == ix.index + (set e | e in es)
    ensures ix.entries <= r.entries
    decreases |es|
  {
    if |es| == 0 then ix
    else
      var r := AddMultiple(Add(ix, es[0]), es[1..]);
      assert es == [es[0]] + es[1..];
      r
  }

  lemma {:induction false} AddMultipleValid(ix: EntryIndex, es: seq<IndexEntry>)
    requires Valid(ix)
    ensures Valid(AddMultiple(ix, es))
    decreases |es|
  {
    if |es| > 0 {
      AddValid(ix, es[0]);
      AddMultipleValid(Add(ix, es[0]), es[1..]);
    }
  }

  /** Entries that agree on name and path but not on type are both kept, each
      with a counter of its own. */
  lemma SameNameAndPathTwoTypes(n: string, p: string, t1: string, t2: string)
    requires t1 != t2
    ensures var r := AddMultiple(New(), [IndexEntry(n, p, t1), IndexEntry(n, p, t2)]);
      |r.entries| == 2 && r.types.Keys == {t1, t2} && r.types[t1].count == 1 && r.types[t2].count == 1
  {
    var e1 := IndexEntry(n, p, t1);
    var e2 := IndexEntry(n, p, t2);
    var r1 := Add(New(), e1);
    assert [e1, e2][1..] == [e2];
    assert AddMultiple(New(), [e1, e2]) == AddMultiple(r1, [e2]);
    assert AddMultiple(r1, [e2]) == AddMultiple(Add(r1, e2), []);
  }

  /** Entries order by name with `sort_entries`; so do types. */
  function EntryOrder(a: IndexEntry, b: IndexEntry): Ordering {
    SortEntries(a.name, b.name)
  }

  function TypeOrder(a: IndexType, b: IndexType): Ordering {
    SortEntries(a.name, b.name)
  }

  function TypeName(t: IndexType): string { t.name }

  /** The type counters listed in the map's iteration order. */
  function TypeList(types: map<string, IndexType>, order: seq<string>): (r: seq<IndexType>)
    requires forall i :: 0 <= i < |order| ==> order[i] in types
    ensures |r| == |order| && forall i :: 0 <= i < |order| ==> r[i] == types[order[i]]
  {
    seq(|order|, i requires 0 <= i < |order| => types[order[i]])
  }

  /** `to_full_index`: sorts the entries in place and lists the type counters,
      taken in the map's iteration order `typeOrder`, sorted by name. The first
      component is the index after the call, the second the returned value. */
  function ToFullIndex(ix: EntryIndex, typeOrder: seq<string>): (r: (EntryIndex, FullIndex))
    requires Enumerates(typeOrder, ix.types)
    ensures r.0 == ix.(entries := r.1.entries)
    ensures multiset(r.1.entries) == multiset(ix.entries)
    ensures multiset(r.1.types) == multiset(TypeList(ix.types, typeOrder))
  {
    var entries := SortBy(ix.entries, EntryOrder);
    (ix.(entries := entries), FullIndex(entries, SortBy(TypeList(ix.types, typeOrder), TypeOrder)))
  }

  /** The orders as `sort_entries` is written: `None` where it panics. */
  function EntryOrderAsWritten(a: IndexEntry, b: IndexEntry): Option<Ordering> {
    SortEntriesAsWritten(a.name, b.name)
  }

  function TypeOrderAsWritten(a: IndexType, b: IndexType): Option<Ordering> {
    SortEntriesAsWritten(a.name, b.name)
  }

  /** `to_full_index` as written: `None` where one of the two sorts panics, which
      happens as soon as it compares an empty name with a digit-led name of
      several pieces. Where it returns, it returns what `ToFullIndex` does; it
      returns whenever the comparison is defined on every pair of names. */
  function ToFullIndexAsWritten(ix: EntryIndex, typeOrder: seq<string>): (r: Option<(EntryIndex, FullIndex)>)
    requires Enumerates(typeOrder, ix.types)
    ensures r.Some? ==> r.value == ToFullIndex(ix, typeOrder)
    ensures DefinedOn(ix.entries, EntryOrderAsWritten) && DefinedOn(TypeList(ix.types, typeOrder), TypeOrderAsWritten)
            ==> r.Some?
  {
    var types := TypeList(ix.types, typeOrder);
    SortEntriesAgree(ix.entries, types);
    SortByPartialAgrees(ix.entries, EntryOrderAsWritten, EntryOrder);
    SortByPartialAgrees(types, TypeOrderAsWritten, TypeOrder);
    match SortByPartial(ix.entries, EntryOrderAsWritten)
    case None => None
    case Some(entries) =>
      match SortByPartial(types, TypeOrderAsWritten)
      case None => None
      case Some(sortedTypes) => Some((ix.(entries := entries), FullIndex(entries, sortedTypes)))
  }

  lemma SortEntriesAgree(entries: seq<IndexEntry>, types: seq<IndexType>)
    ensures AgreesOn(entries, EntryOrderAsWritten, EntryOrder)
    ensures AgreesOn(types, TypeOrderAsWritten, TypeOrder)
  {
    forall a, b | EntryOrderAsWritten(a, b).Some? ensures EntryOrderAsWritten(a, b).value == EntryOrder(a, b) {
      SortEntriesAgreesWhereDefined(a.name, b.name);
    }
    forall a, b | TypeOrderAsWritten(a, b).Some? ensures TypeOrderAsWritten(a, b).value == TypeOrder(a, b) {
      SortEntriesAgreesWhereDefined(a.name, b.name);
    }
  }

  /** Without empty names nothing panics: the index converts as `ToFullIndex` does. */
  lemma ToFullIndexAsWrittenNonEmptyNames(ix: EntryIndex, typeOrder: seq<string>)
    requires Enumerates(typeOrder, ix.types)
    requires forall e :: e in ix.entries ==> e.name != []
    requires forall t :: t in ix.types ==> ix.types[t].name != []
    ensures ToFullIndexAsWritten(ix, typeOrder) == Some(ToFullIndex(ix, typeOrder))
  {
    var types := TypeList(ix.types, typeOrder);
    forall a, b | a in types && b in types ensures TypeOrderAsWritten(a, b).Some? {
      var i :| 0 <= i < |types| && types[i] == a;
      var j :| 0 <= j < |types| && types[j] == b;
    }
  }

  /** The panic is reachable: an entry with an empty name, as a page without an h1
      gives, next to one named "1.2". */
  lemma ToFullIndexAsWrittenPanics(p1: string, p2: string, t: string)
    ensures var ix := AddMultiple(New(), [IndexEntry("", p1, t), IndexEntry("1.2", p2, t)]);
      ix.types.Keys == {t} && ToFullIndexAsWritten(ix, [t]) == None
  {
    var e1 := IndexEntry("", p1, t);
    var e2 := IndexEntry("1.2", p2, t);
    var r1 := Add(New(), e1);
    assert [e1, e2][1..] == [e2];
    assert AddMultiple(New(), [e1, e2]) == AddMultiple(r1, [e2]);
    assert AddMultiple(r1, [e2]) == AddMultiple(Add(r1, e2), []);
    var ix := Add(r1, e2);
    assert ix.entries == [e1, e2];
    SplitIntsOf1Dot2();
    assert EntryOrderAsWritten(e1, e2) == None;
    assert SortByPartial([e1], EntryOrderAsWritten) == Some([e1]) by {
      assert [e1][..0] == [];
    }
    assert [e1, e2][..1] == [e1];
    assert SortByPartial([e1, e2], EntryOrderAsWritten) == None;
  }

  lemma EntryOrderAntisymmetric(s: seq<IndexEntry>)
    ensures AntisymmetricOn(s, EntryOrder)
  {
    forall i, j | 0 <= i < |s| && 0 <= j < |s| && EntryOrder(s[i], s[j]) == Greater
      ensures EntryOrder(s[j], s[i]) == Less
    {
      SortEntriesAntisymmetric(s[i].name, s[j].name);
    }
  }

  lemma TypeOrderAntisymmetric(s: seq<IndexType>)
    ensures AntisymmetricOn(s, TypeOrder)
  {
    forall i, j | 0 <= i < |s| && 0 <= j < |s| && TypeOrder(s[i], s[j]) == Greater
      ensures TypeOrder(s[j], s[i]) == Less
    {
      SortEntriesAntisymmetric(s[i].name, s[j].name);
    }
  }

  /** The returned entries are a permutation of the index's, in order; there is
      exactly one type record per type present, each with its counter, in order;
      and the index stays valid after its entries are reordered. */
  lemma ToFullIndexCorrect(ix: EntryIndex, typeOrder: seq<string>)
    requires Valid(ix) && Enumerates(typeOrder, ix.types)
    ensures var (after, full) := ToFullIndex(ix, typeOrder);
      && Valid(after)
      && multiset(full.entries) == multiset(ix.entries)
      && Sorted(full.entries, EntryOrder)
      && Sorted(full.types, TypeOrder)
      && |full.types| == |ix.types|
      && DistinctBy(full.types, TypeName)
      && (forall i :: 0 <= i < |full.types| ==> full.types[i].name in ix.types && full.types[i] == ix.types[full.types[i].name])
      && (forall t :: t in ix.types ==> exists i :: 0 <= i < |full.types| && full.types[i].name == t)
  {
    SortedEntriesValid(ix);
    SortedTypes(ix.types, typeOrder);
  }

  /** Reordering the entries keeps the index valid, and the order is by name. */
  lemma SortedEntriesValid(ix: EntryIndex)
    requires Valid(ix)
    ensures var sorted := SortBy(ix.entries, EntryOrder);
      Valid(ix.(entries := sorted)) && Sorted(sorted, EntryOrder)
  {
    var sorted := SortBy(ix.entries, EntryOrder);
    EntryOrderAntisymmetric(ix.entries);
    SortBySorted(ix.entries, EntryOrder);
    SortByDistinctBy(ix.entries, EntryOrder, EntryKey);
    SortBySameElements(ix.entries, EntryOrder);
    SameElementsSameSets(ix.entries, sorted);
  }

  lemma SameElementsSameSets(a: seq<IndexEntry>, b: seq<IndexEntry>)
    requires forall e :: e in a <==> e in b
    ensures (set e | e in a) == (set e | e in b)
    ensures TypesOf(a) == TypesOf(b)
    ensures forall t :: EntriesOfType(a, t) == EntriesOfType(b, t)
  {
  }

  /** The sorted type list has one record per key of the map. */
  lemma SortedTypes(types: map<string, IndexType>, typeOrder: seq<string>)
    requires Enumerates(typeOrder, types)
    requires forall t :: t in types ==> types[t].name == t
    ensures var full := SortBy(TypeList(types, typeOrder), TypeOrder);
      && Sorted(full, TypeOrder)
      && |full| == |types|
      && DistinctBy(full, TypeName)
      && (forall i :: 0 <= i < |full| ==> full[i].name in types && full[i] == types[full[i].name])
      && (forall t :: t in types ==> exists i :: 0 <= i < |full| && full[i].name == t)
  {
    var list := TypeList(types, typeOrder);
    var full := SortBy(list, TypeOrder);
    TypeOrderAntisymmetric(list);
    SortBySorted(list, TypeOrder);
    TypeListFacts(types, typeOrder);
    SortByDistinctBy(list, TypeOrder, TypeName);
    SortBySameElements(list, TypeOrder);
    forall i | 0 <= i < |full| ensures full[i].name in types && full[i] == types[full[i].name] {
      assert full[i] in list;
    }
    forall t | t in types ensures exists i :: 0 <= i < |full| && full[i].name == t {
      var k :| 0 <= k < |typeOrder| && typeOrder[k] == t;
      assert list[k] in full;
    }
  }

  lemma TypeListFacts(types: map<string, IndexType>, typeOrder: seq<string>)
    requires Enumerates(typeOrder, types)
    requires forall t :: t in types ==> types[t].name == t
    ensures var list := TypeList(types, typeOrder);
      && DistinctBy(list, TypeName)
      && |list| == |types|
      && (forall x :: x in list ==> x.name in types && x == types[x.name])
  {
    var list := TypeList(types, typeOrder);
    forall i, j | 0 <= i < |list| && 0 <= j < |list| && i != j ensures TypeName(list[i]) != TypeName(list[j]) {
      assert list[i].name == typeOrder[i] && list[j].name == typeOrder[j];
    }
    EnumerationLength(typeOrder, types);
  }
}
