/** `FilterStack` (src/core/filter_stack.rs): an ordered list of named filters,
    built from a table of named factories. A filter is represented by the value
    its factory makes; calling a factory is taking that value. */
module FilterStack {
  import opened Wrappers

  /** What a factory makes, standing for a boxed filter. */
  type Filter = nat

  datatype Stack = Stack(filters: seq<(string, Filter)>, factories: map<string, Filter>)

  /** The status an operation returns together with the stack afterwards. */
  datatype Outcome = Outcome(status: Result<()>, stack: Stack)

  /** The two error messages: no factory of that name, no entry of that name. */
  function FilterMissing(name: string): string { "未找到过滤器: " + name }
  function TargetMissing(name: string): string { "未找到目标过滤器: " + name }

  function New(): (s: Stack)
    ensures |s.filters| == 0 && |s.factories| == 0
  {
    Stack([], map[])
  }

  /** The names in stack order. */
  function FilterNames(s: Stack): (r: seq<string>)
    ensures |r| == |s.filters|
    ensures forall i :: 0 <= i < |r| ==> r[i] == s.filters[i].0
  {
    seq(|s.filters|, i requires 0 <= i < |s.filters| => s.filters[i].0)
  }

  /** `register`: adds the factory, replacing one of the same name; the list is
      left alone. */
  function Register(s: Stack, name: string, factory: Filter): (r: Stack)
    ensures r.filters == s.filters
    ensures name in r.factories && r.factories[name] == factory
    ensures forall n :: n != name ==> (n in r.factories <==> n in s.factories)
    ensures forall n :: n != name && n in s.factories ==> r.factories[n] == s.factories[n]
  {
    s.(factories := s.factories[name := factory])
  }

  /** `find_position`: the index of the first entry named `name`. */
  function FindPosition(s: Stack, name: string): (r: Option<nat>)
    ensures r.None? <==> forall i :: 0 <= i < |s.filters| ==> s.filters[i].0 != name
    ensures r.Some? ==> r.value < |s.filters| && s.filters[r.value].0 == name
    ensures r.Some? ==> forall i :: 0 <= i < r.value ==> s.filters[i].0 != name
  {
    FirstNamed(s.filters, name, 0)
  }

  function FirstNamed(filters: seq<(string, Filter)>, name: string, from: nat): (r: Option<nat>)
    requires from <= |filters|
    ensures r.None? <==> forall i :: from <= i < |filters| ==> filters[i].0 != name
    ensures r.Some? ==> from <= r.value < |filters| && filters[r.value].0 == name
    ensures r.Some? ==> forall i :: from <= i < r.value ==> filters[i].0 != name
    decreases |filters| - from
  {
    if from == |filters| then None
    else if filters[from].0 == name then Some(from)
    else FirstNamed(filters, name, from + 1)
  }

  /** `push`: appends a new filter made by the factory `name`, or fails when there
      is none and leaves the stack as it was. */
  function Push(s: Stack, name: string): (r: Outcome)
    ensures name in s.factories ==> r == Outcome(Ok(()), s.(filters := s.filters + [(name, s.factories[name])]))
    ensures name !in s.factories ==> r.status == Err(FilterMissing(name)) && r.stack == s
  {
    if name in s.factories then Outcome(Ok(()), s.(filters := s.filters + [(name, s.factories[name])]))
    else Outcome(Err(FilterMissing(name)), s)
  }

  /** The stack with `entry` inserted at `pos`. */
  function InsertAt(s: Stack, pos: nat, entry: (string, Filter)): (r: Stack)
    requires pos <= |s.filters|
    ensures r.factories == s.factories
    ensures |r.filters| == |s.filters| + 1 && r.filters[pos] == entry
    ensures forall i :: 0 <= i < pos ==> r.filters[i] == s.filters[i]
    ensures forall i :: pos < i < |r.filters| ==> r.filters[i] == s.filters[i - 1]
  {
    s.(filters := s.filters[..pos] + [entry] + s.filters[pos..])
  }

  /** `insert_before`: a new filter made by `name` just before the first entry
      named `target`. The factory is looked up first; either miss is an error
      that leaves the stack as it was. */
  function InsertBefore(s: Stack, target: string, name: string): (r: Outcome)
    ensures r.status.Ok? <==> name in s.factories && FindPosition(s, target).Some?
    ensures r.status.Err? ==> r.stack == s
    ensures r.status.Ok? ==> r.stack == InsertAt(s, FindPosition(s, target).value, (name, s.factories[name]))
  {
    if name !in s.factories then Outcome(Err(FilterMissing(name)), s)
    else match FindPosition(s, target)
      case None => Outcome(Err(TargetMissing(target)), s)
      case Some(pos) => Outcome(Ok(()), InsertAt(s, pos, (name, s.factories[name])))
  }

  /** `insert_after`: as `insert_before`, one place further. */
  function InsertAfter(s: Stack, target: string, name: string): (r: Outcome)
    ensures r.status.Ok? <==> name in s.factories && FindPosition(s, target).Some?
    ensures r.status.Err? ==> r.stack == s
    ensures r.status.Ok? ==> r.stack == InsertAt(s, FindPosition(s, target).value + 1, (name, s.factories[name]))
  {
    if name !in s.factories then Outcome(Err(FilterMissing(name)), s)
    else match FindPosition(s, target)
      case None => Outcome(Err(TargetMissing(target)), s)
      case Some(pos) => Outcome(Ok(()), InsertAt(s, pos + 1, (name, s.factories[name])))
  }

  /** `replace`: the first entry named `target` becomes a new filter made by
      `name`; the length is kept. */
  function Replace(s: Stack, target: string, name: string): (r: Outcome)
    ensures r.status.Ok? <==> name in s.factories && FindPosition(s, target).Some?
    ensures r.status.Err? ==> r.stack == s
    ensures r.status.Ok? ==> r.stack.factories == s.factories && |r.stack.filters| == |s.filters|
    ensures r.status.Ok? ==> var pos := FindPosition(s, target).value;
      r.stack.filters[pos] == (name, s.factories[name]) &&
      forall i :: 0 <= i < |s.filters| && i != pos ==> r.stack.filters[i] == s.filters[i]
  {
    if name !in s.factories then Outcome(Err(FilterMissing(name)), s)
    else match FindPosition(s, target)
      case None => Outcome(Err(TargetMissing(target)), s)
      case Some(pos) => Outcome(Ok(()), s.(filters := s.filters[pos := (name, s.factories[name])]))
  }

  /** `push_filter`: appends a filter given directly, with no factory. */
  function PushFilter(s: Stack, name: string, filter: Filter): (r: Stack)
    ensures r.factories == s.factories
    ensures FilterNames(r) == FilterNames(s) + [name]
  {
    s.(filters := s.filters + [(name, filter)])
  }

  /** `get_filter`: the filter of the first entry named `name`. */
  function GetFilter(s: Stack, name: string): (r: Option<Filter>)
    ensures r.None? <==> name !in FilterNames(s)
    ensures r.Some? ==> exists i :: 0 <= i < |s.filters| && s.filters[i] == (name, r.value) &&
                                    forall j :: 0 <= j < i ==> s.filters[j].0 != name
  {
    match FindPosition(s, name)
    case None => None
    case Some(i) => Some(s.filters[i].1)
  }

  /** `contains`: some entry is named `name`. */
  predicate Contains(s: Stack, name: string) {
    exists i :: 0 <= i < |s.filters| && s.filters[i].0 == name
  }

  /** `contains` agrees with the name list and with the position search. */
  lemma ContainsIff(s: Stack, name: string)
    ensures Contains(s, name) <==> name in FilterNames(s)
    ensures Contains(s, name) <==> FindPosition(s, name).Some?
  {
    if name in FilterNames(s) {
      var i :| 0 <= i < |FilterNames(s)| && FilterNames(s)[i] == name;
      assert s.filters[i].0 == name;
    }
  }

  /** `clear`: no filters, the factories kept. */
  function Clear(s: Stack): (r: Stack)
    ensures |FilterNames(r)| == 0 && r.factories == s.factories
  {
    s.(filters := [])
  }

  /** The factory is looked up before the target: an unregistered name is
      reported as such whether or not the target exists, and a registered name
      with a missing target reports the target. */
  lemma ErrorPrecedence(s: Stack, target: string, name: string)
    ensures name !in s.factories ==>
      InsertBefore(s, target, name) == Outcome(Err(FilterMissing(name)), s) &&
      InsertAfter(s, target, name) == Outcome(Err(FilterMissing(name)), s) &&
      Replace(s, target, name) == Outcome(Err(FilterMissing(name)), s)
    ensures name in s.factories && !Contains(s, target) ==>
      InsertBefore(s, target, name) == Outcome(Err(TargetMissing(target)), s) &&
      InsertAfter(s, target, name) == Outcome(Err(TargetMissing(target)), s) &&
      Replace(s, target, name) == Outcome(Err(TargetMissing(target)), s)
  {
    ContainsIff(s, target);
  }

  /** The names after an insertion: the new name at the target's place (or just
      after it), the others in their order. */
  lemma InsertNames(s: Stack, target: string, name: string)
    requires name in s.factories && FindPosition(s, target).Some?
    ensures var pos := FindPosition(s, target).value; var names := FilterNames(s);
      FilterNames(InsertBefore(s, target, name).stack) == names[..pos] + [name] + names[pos..]
    ensures var pos := FindPosition(s, target).value; var names := FilterNames(s);
      FilterNames(InsertAfter(s, target, name).stack) == names[..pos + 1] + [name] + names[pos + 1..]
  {
  }

  /** The sequence of calls in the module's own test, one call per lemma, from a
      stack with the three factories registered. */
  function Factories(f1: Filter, f2: Filter, f3: Filter): map<string, Filter> {
    map["filter1" := f1, "filter2" := f2, "filter3" := f3]
  }

  lemma ScenarioPush(f1: Filter, f2: Filter, f3: Filter)
    ensures Register(Register(Register(New(), "filter1", f1), "filter2", f2), "filter3", f3)
      == Stack([], Factories(f1, f2, f3))
    ensures Push(Stack([], Factories(f1, f2, f3)), "filter1")
      == Outcome(Ok(()), Stack([("filter1", f1)], Factories(f1, f2, f3)))
  {
  }

  lemma ScenarioInsertAfter(f1: Filter, f2: Filter, f3: Filter)
    ensures InsertAfter(Stack([("filter1", f1)], Factories(f1, f2, f3)), "filter1", "filter3")
      == Outcome(Ok(()), Stack([("filter1", f1), ("filter3", f3)], Factories(f1, f2, f3)))
  {
    var s := Stack([("filter1", f1)], Factories(f1, f2, f3));
    assert FindPosition(s, "filter1") == Some(0);
  }

  lemma ScenarioInsertBefore(f1: Filter, f2: Filter, f3: Filter)
    ensures InsertBefore(Stack([("filter1", f1), ("filter3", f3)], Factories(f1, f2, f3)), "filter3", "filter2")
      == Outcome(Ok(()), Stack([("filter1", f1), ("filter2", f2), ("filter3", f3)], Factories(f1, f2, f3)))
  {
    var s := Stack([("filter1", f1), ("filter3", f3)], Factories(f1, f2, f3));
    assert s.filters[0].0 != "filter3" by { assert "filter1"[6] != "filter3"[6]; }
    assert FirstNamed(s.filters, "filter3", 1) == Some(1);
    assert FindPosition(s, "filter3") == Some(1);
    var r := InsertAt(s, 1, ("filter2", f2));
    assert r.filters == [("filter1", f1), ("filter2", f2), ("filter3", f3)];
  }

  lemma ScenarioReplace(f1: Filter, f2: Filter, f3: Filter)
    ensures var d := Replace(Stack([("filter1", f1), ("filter2", f2), ("filter3", f3)], Factories(f1, f2, f3)),
                             "filter2", "filter1");
      d == Outcome(Ok(()), Stack([("filter1", f1), ("filter1", f1), ("filter3", f3)], Factories(f1, f2, f3)))
  {
    var s := Stack([("filter1", f1), ("filter2", f2), ("filter3", f3)], Factories(f1, f2, f3));
    assert s.filters[0].0 != "filter2" by { assert "filter1"[6] != "filter2"[6]; }
    assert FirstNamed(s.filters, "filter2", 1) == Some(1);
    assert FindPosition(s, "filter2") == Some(1);
  }

  lemma ScenarioEnd(f1: Filter, f2: Filter, f3: Filter)
    ensures var s := Stack([("filter1", f1), ("filter1", f1), ("filter3", f3)], Factories(f1, f2, f3));
      FilterNames(s) == ["filter1", "filter1", "filter3"] && Contains(s, "filter1") && !Contains(s, "filter4")
      && FilterNames(Clear(s)) == []
  {
    var s := Stack([("filter1", f1), ("filter1", f1), ("filter3", f3)], Factories(f1, f2, f3));
    assert s.filters[0].0 == "filter1";
    assert "filter1"[6] != "filter4"[6] && "filter3"[6] != "filter4"[6];
  }
}
