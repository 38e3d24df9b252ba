/** The application state shared between scrapes and reloads (src/state.rs):
 *  a registry and the bindings registered in it, built all at once. */
module State {
  import opened Wrappers
  import opened Seqs
  import opened Config
  import opened Registry
  import opened MetricBindings

  /** The registry holds exactly the names of the bindings, and those names
   *  are distinct: what a successful build leaves behind. */
  predicate Consistent(registered: set<string>, bs: seq<Binding>) {
    Distinct(Names(bs)) && registered == Elems(Names(bs))
  }

  /** Building the state for `config` succeeds exactly when registering its
   *  bindings into an empty registry does, which is exactly when no two of its
   *  queries share a name; the registry then holds this config's names and no
   *  others. */
  lemma BuildSucceeds(config: Config)
    requires AllConstructible(config.queries)
    ensures RegisterAll({}, Names(New(config.queries))).1 <==> Distinct(QueryNames(config.queries))
    ensures RegisterAll({}, Names(New(config.queries))).1 ==>
              Consistent(RegisterAll({}, Names(New(config.queries))).0, New(config.queries))
  {
    NamesOfNew(config.queries);
    RegisterAllSucceeds({}, QueryNames(config.queries));
  }

  /** Two queries with the same name make the build fail. */
  lemma DuplicateNameFails(config: Config, i: nat, j: nat)
    requires AllConstructible(config.queries)
    requires i < j < |config.queries| && config.queries[i].name == config.queries[j].name
    ensures !RegisterAll({}, Names(New(config.queries))).1
  {
    BuildSucceeds(config);
    assert QueryNames(config.queries)[i] == QueryNames(config.queries)[j];
  }

  /** `AppState`: the registry and the bindings registered in it.  Neither
   *  field is reassigned; a reload replaces the whole state. */
  class AppState {
    const registry: Registry
    const metrics: Metrics

    ghost predicate Valid()
      reads this, registry, metrics
    {
      metrics.Valid() && Consistent(registry.names, metrics.bindings)
    }

    constructor Assemble(registry: Registry, metrics: Metrics)
      ensures this.registry == registry && this.metrics == metrics
    {
      this.registry := registry;
      this.metrics := metrics;
    }

    /** `AppState::new`: a fresh registry, the bindings of `config`, and their
     *  registration.  On failure no state is returned, so the partly filled
     *  registry is dropped. */
    static method New(config: Config) returns (r: Result<AppState, RegistryError>)
      requires AllConstructible(config.queries)
      ensures r.Ok? <==> Distinct(QueryNames(config.queries))
      ensures r.Ok? ==> && fresh(r.value) && fresh(r.value.registry) && fresh(r.value.metrics)
                        && r.value.Valid()
                        && r.value.metrics.bindings == MetricBindings.New(config.queries)
    {
      var registry := new Registry();
      var metrics := new Metrics(config.queries);
      BuildSucceeds(config);
      var registered := metrics.Register(registry);
      if registered.Err? {
        return Err(registered.error);
      }
      var state := new AppState.Assemble(registry, metrics);
      return Ok(state);
    }
  }
}
