/** The two flows of the exporter (src/main.rs): the scrape handler, which
 *  refreshes and then gathers the current state, and the reload loop, which
 *  replaces the current state when the configuration file changes.  The lock
 *  around the shared slot is modelled by each flow reading or writing the
 *  slot once; the HTTP server, the file watcher and the timing of its
 *  debouncer are not part of this model. */
module Server {
  import opened Wrappers
  import opened Seqs
  import opened Config
  import opened Database
  import opened MetricBindings
  import opened State

  /** The kind of a file-system event. */
  datatype EventKind = Any | Access | Create | Modify | Remove | Other

  /** One debounced batch from the watcher: the kinds of its events, or the
   *  watcher's errors. */
  datatype WatchResult = Events(kinds: seq<EventKind>) | WatcherErrors(messages: seq<string>)

  /** How one batch was handled. */
  datatype ReloadOutcome = Ignored | ConfigRejected | BuildRejected | Swapped

  /** A batch asks for a reload when at least one of its events is a
   *  modification or a creation. */
  predicate Triggers(batch: WatchResult) {
    batch.Events? && exists k :: 0 <= k < |batch.kinds| && batch.kinds[k] in {Create, Modify}
  }

  /** The outcome of one batch, given what loading the configuration returns. */
  function Decide(batch: WatchResult, loaded: Result<Config, ConfigError>): ReloadOutcome {
    if !Triggers(batch) then Ignored
    else if loaded.Err? then ConfigRejected
    else if !Distinct(QueryNames(loaded.value.queries)) then BuildRejected
    else Swapped
  }

  /** The index of the last batch that swapped the state, if any. */
  function LastSwap(batches: seq<WatchResult>, loads: seq<Result<Config, ConfigError>>): (r: Option<nat>)
    requires |loads| == |batches|
    ensures r.Some? ==> r.value < |batches| && Decide(batches[r.value], loads[r.value]) == Swapped
    decreases |batches|
  {
    if batches == [] then None
    else if Decide(batches[|batches| - 1], loads[|batches| - 1]) == Swapped then Some(|batches| - 1)
    else LastSwap(batches[..|batches| - 1], loads[..|batches| - 1])
  }

  /** `LastSwap` names the last swapping batch: none of the batches after it
   *  swaps, and when there is none, no batch swaps at all. */
  lemma {:induction false} LastSwapIsLast(batches: seq<WatchResult>, loads: seq<Result<Config, ConfigError>>)
    requires |loads| == |batches|
    ensures LastSwap(batches, loads).Some? ==>
              var i := LastSwap(batches, loads).value;
              forall k :: i < k < |batches| ==> Decide(batches[k], loads[k]) != Swapped
    ensures LastSwap(batches, loads).None? ==>
              forall k :: 0 <= k < |batches| ==> Decide(batches[k], loads[k]) != Swapped
    decreases |batches|
  {
    if batches != [] {
      var n := |batches| - 1;
      if Decide(batches[n], loads[n]) != Swapped {
        LastSwapIsLast(batches[..n], loads[..n]);
        forall k | 0 <= k < n ensures batches[..n][k] == batches[k] && loads[..n][k] == loads[k] {
        }
      }
    }
  }

  /** The slot holding the state that serves scrapes. */
  class SharedState {
    var current: AppState

    ghost predicate Valid()
      reads this, current, current.registry, current.metrics
    {
      current.Valid()
    }

    constructor (initial: AppState)
      requires initial.Valid()
      ensures Valid() && current == initial
    {
      current := initial;
    }
  }

  /** The body of the reload loop for one batch: a triggering batch reloads
   *  the configuration, builds a new state from it and, when both succeed,
   *  replaces the current state wholesale; in every other case the current
   *  state is left as it was. */
  method ReloadStep(shared: SharedState, batch: WatchResult, loaded: Result<Config, ConfigError>)
    returns (outcome: ReloadOutcome)
    requires shared.Valid()
    requires Triggers(batch) && loaded.Ok? ==> AllConstructible(loaded.value.queries)
    modifies shared
    ensures shared.Valid()
    ensures outcome == Decide(batch, loaded)
    ensures outcome != Swapped ==> shared.current == old(shared.current)
    ensures outcome == Swapped ==> && fresh(shared.current) && fresh(shared.current.registry)
                                   && fresh(shared.current.metrics)
                                   && shared.current.metrics.bindings == MetricBindings.New(loaded.value.queries)
  {
    if !Triggers(batch) {
      // a watcher error, or a batch with no modification or creation
      return Ignored;
    }
    match loaded {
      case Err(_) =>
        return ConfigRejected;
      case Ok(config) =>
        var built := AppState.New(config);
        match built {
          case Err(_) =>
            return BuildRejected;
          case Ok(state) =>
            shared.current := state;
            return Swapped;
        }
    }
  }

  /** `watch_config_changes`: the reload step applied to each batch in turn,
   *  with `loads[i]` what loading the configuration returns at batch `i`.
   *  Afterwards the state is the one built at the last swapping batch, or the
   *  initial one when no batch swapped. */
  method WatchConfigChanges(shared: SharedState, batches: seq<WatchResult>, loads: seq<Result<Config, ConfigError>>)
    requires shared.Valid()
    requires |loads| == |batches|
    requires forall i :: 0 <= i < |loads| && Triggers(batches[i]) && loads[i].Ok? ==> AllConstructible(loads[i].value.queries)
    modifies shared
    ensures shared.Valid()
    ensures LastSwap(batches, loads).None? ==> shared.current == old(shared.current)
    ensures LastSwap(batches, loads).Some? ==>
              && fresh(shared.current)
              && shared.current.metrics.bindings == MetricBindings.New(loads[LastSwap(batches, loads).value].value.queries)
  {
    for i := 0 to |batches|
      invariant shared.Valid()
      invariant LastSwap(batches[..i], loads[..i]).None? ==> shared.current == old(shared.current)
      invariant LastSwap(batches[..i], loads[..i]).Some? ==>
                  && fresh(shared.current)
                  && shared.current.metrics.bindings == MetricBindings.New(loads[LastSwap(batches[..i], loads[..i]).value].value.queries)
    {
      assert batches[..i + 1][..i] == batches[..i] && loads[..i + 1][..i] == loads[..i];
      var _ := ReloadStep(shared, batches[i], loads[i]);
    }
    assert batches[..|batches|] == batches && loads[..|batches|] == loads;
  }

  /** `metrics_handler`: under the one lock acquisition, refresh the current
   *  state and gather its registry.  The families returned are those of that
   *  state after that refresh; the slot itself is not changed. */
  method MetricsHandler(pool: Result<Client, PoolError>, shared: SharedState)
    returns (families: map<string, map<seq<string>, real>>)
    requires shared.Valid()
    requires pool.Ok? ==> Readable(shared.current.metrics.bindings, pool.value)
    modifies shared.current.metrics
    ensures shared.current == old(shared.current) && shared.Valid()
    ensures shared.current.metrics.bindings == Refreshed(old(shared.current.metrics.bindings), pool)
    ensures families == Collect(shared.current.metrics.bindings, shared.current.registry.names)
  {
    var state := shared.current;
    state.metrics.Update(pool);
    assert Names(state.metrics.bindings) == Names(old(state.metrics.bindings));
    families := Collect(state.metrics.bindings, state.registry.names);
  }

  /** What a scrape serves: every binding of the current state that has
   *  samples after the refresh appears under its name with exactly those
   *  samples, and nothing else appears. */
  lemma ScrapeShowsRefresh(registered: set<string>, bs: seq<Binding>, pool: Result<Client, PoolError>)
    requires Consistent(registered, bs)
    requires pool.Ok? ==> Readable(bs, pool.value)
    ensures var rs := Refreshed(bs, pool);
            && (forall n :: n in Collect(rs, registered) <==>
                  exists i :: 0 <= i < |rs| && rs[i].config.name == n && Samples(rs[i].metric) != map[])
            && (forall i :: 0 <= i < |rs| && Samples(rs[i].metric) != map[] ==>
                  Collect(rs, registered)[rs[i].config.name] == Samples(rs[i].metric))
  {
    var rs := Refreshed(bs, pool);
    assert Names(rs) == Names(bs);
    CollectExact(rs, registered);
    forall i | 0 <= i < |rs| ensures rs[i].config.name in registered {
      assert Names(bs)[i] == rs[i].config.name;
    }
  }
}
