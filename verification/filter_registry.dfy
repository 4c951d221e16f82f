/** `FilterRegistry` (src/core/filter_registry.rs): a table from names to filter
    factories, and the process-wide instance behind `register_filter`,
    `create_filter`, `contains_filter` and `filter_names`. A factory is
    represented by the filter it makes. */
module FilterRegistry {
  import opened Wrappers
  import opened Collections
  import FilterStack

  type Filter = FilterStack.Filter

  datatype Registry = Registry(factories: map<string, Filter>)

  function New(): (r: Registry)
    ensures |r.factories| == 0
  {
    Registry(map[])
  }

  /** `register`: adds the factory, replacing one of the same name. */
  function Register(reg: Registry, name: string, factory: Filter): (r: Registry)
    ensures name in r.factories && r.factories[name] == factory
    ensures forall n :: n != name ==> (n in r.factories <==> n in reg.factories)
    ensures forall n :: n != name && n in reg.factories ==> r.factories[n] == reg.factories[n]
  {
    Registry(reg.factories[name := factory])
  }

  /** `create`: a new filter from the factory `name`, if there is one. */
  function Create(reg: Registry, name: string): (r: Option<Filter>)
    ensures r.Some? <==> Contains(reg, name)
  {
    if name in reg.factories then Some(reg.factories[name]) else None
  }

  predicate Contains(reg: Registry, name: string) {
    name in reg.factories
  }

  /** `filter_names`: the registered names, in the table's iteration order
      `order`. */
  function FilterNames(reg: Registry, order: seq<string>): (r: seq<string>)
    requires Enumerates(order, reg.factories)
    ensures forall n :: n in r <==> Contains(reg, n)
    ensures forall i, j :: 0 <= i < j < |r| ==> r[i] != r[j]
  {
    order
  }

  /** After `register(n, f)` the name is known and `create(n)` makes `f`; other
      names answer as before. */
  lemma RegisterThenCreate(reg: Registry, name: string, factory: Filter, other: string)
    requires other != name
    ensures Contains(Register(reg, name, factory), name)
    ensures Create(Register(reg, name, factory), name) == Some(factory)
    ensures Create(Register(reg, name, factory), other) == Create(reg, other)
  {
  }

  /** A name never registered creates nothing. */
  lemma CreateUnregistered(names: seq<string>, factories: seq<Filter>, name: string)
    requires |names| == |factories|
    requires name !in names
    ensures Create(RegisterAll(New(), names, factories), name).None?
  {
    RegisterAllKeys(New(), names, factories);
  }

  /** Registration of each name with its factory, in order. */
  function RegisterAll(reg: Registry, names: seq<string>, factories: seq<Filter>): (r: Registry)
    requires |names| == |factories|
    decreases |names|
  {
    if |names| == 0 then reg
    else RegisterAll(Register(reg, names[0], factories[0]), names[1..], factories[1..])
  }

  /** The names known after a series of registrations are the earlier ones and
      the registered ones. */
  lemma {:induction false} RegisterAllKeys(reg: Registry, names: seq<string>, factories: seq<Filter>)
    requires |names| == |factories|
    ensures forall n :: Contains(RegisterAll(reg, names, factories), n) <==> Contains(reg, n) || n in names
    decreases |names|
  {
    if |names| > 0 {
      RegisterAllKeys(Register(reg, names[0], factories[0]), names[1..], factories[1..]);
      assert forall n :: n in names <==> n == names[0] || n in names[1..];
    }
  }

  /** Registering a name again changes no name list: every enumeration of the
      table lists it once, and the list is no longer. */
  lemma ReRegisterNames(reg: Registry, name: string, f: Filter, g: Filter, order: seq<string>)
    requires Enumerates(order, Register(Register(reg, name, f), name, g).factories)
    ensures |FilterNames(Register(Register(reg, name, f), name, g), order)| == |Register(reg, name, f).factories|
    ensures Enumerates(order, Register(reg, name, f).factories)
  {
    assert Register(Register(reg, name, f), name, g).factories.Keys == Register(reg, name, f).factories.Keys;
    EnumerationLength(order, Register(reg, name, f).factories);
  }

  /** The process-wide registry: every wrapper reads or updates the one table,
      threaded here as a value. */
  function RegisterFilter(global: Registry, name: string, factory: Filter): (r: Registry)
    ensures Contains(r, name) && Create(r, name) == Some(factory)
    ensures forall n :: n != name ==> Contains(r, n) == Contains(global, n) && Create(r, n) == Create(global, n)
  {
    Register(global, name, factory)
  }

  function CreateFilter(global: Registry, name: string): (r: Option<Filter>)
    ensures r.Some? <==> Contains(global, name)
    ensures r.Some? ==> r.value == global.factories[name]
  {
    Create(global, name)
  }

  function ContainsFilter(global: Registry, name: string): (r: bool)
    ensures r <==> CreateFilter(global, name).Some?
  {
    Contains(global, name)
  }

  /** The module's own test, from a fresh process: after `register_filter` the
      name is contained, another is not, `create_filter` makes a filter and the
      name list, in any order, holds the name. */
  lemma GlobalScenario(f: Filter, order: seq<string>)
    requires Enumerates(order, RegisterFilter(New(), "test_filter", f).factories)
    ensures var g := RegisterFilter(New(), "test_filter", f);
      && ContainsFilter(g, "test_filter") && !ContainsFilter(g, "non_existent_filter")
      && CreateFilter(g, "test_filter").Some?
      && "test_filter" in FilterNames(g, order)
  {
    assert "test_filter"[0] != "non_existent_filter"[0];
  }
}
