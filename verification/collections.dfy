/** Iteration over Rust `HashMap`s. The order in which a `HashMap` yields its keys
    is unspecified; wherever that order can change a result, the model takes it as
    an input: a sequence naming every key exactly once. */
module Collections {
  /** An enumeration of a map's keys: each key once. */
  predicate Enumerates<K, V>(order: seq<K>, m: map<K, V>) {
    (forall i, j :: 0 <= i < j < |order| ==> order[i] != order[j])
    && (forall i :: 0 <= i < |order| ==> order[i] in m)
    && (forall k :: k in m ==> k in order)
  }

  /** The keys of a map in some order, one at a time. */
  lemma {:induction false} EnumerationExists<K, V>(m: map<K, V>) returns (order: seq<K>)
    ensures Enumerates(order, m)
    decreases |m|
  {
    if |m| == 0 {
      order := [];
    } else {
      var k :| k in m;
      var rest := EnumerationExists(m - {k});
      order := [k] + rest;
      assert forall i :: 1 <= i < |order| ==> order[i] == rest[i - 1];
    }
  }

  /** An enumeration has as many elements as the map has keys. */
  lemma EnumerationLength<K, V>(order: seq<K>, m: map<K, V>)
    requires Enumerates(order, m)
    ensures |order| == |m|
  {
    DistinctLength(order);
    assert (set i | 0 <= i < |order| :: order[i]) == m.Keys;
  }

  lemma {:induction false} DistinctLength<K>(s: seq<K>)
    requires forall i, j :: 0 <= i < j < |s| ==> s[i] != s[j]
    ensures |set i | 0 <= i < |s| :: s[i]| == |s|
    decreases |s|
  {
    if |s| > 0 {
      var init := s[..|s| - 1];
      DistinctLength(init);
      var last := s[|s| - 1];
      assert (set i | 0 <= i < |s| :: s[i]) == (set i | 0 <= i < |init| :: init[i]) + {last};
      assert last !in (set i | 0 <= i < |init| :: init[i]);
    }
  }
}
