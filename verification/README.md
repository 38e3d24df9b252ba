# Dynamic metric pipeline of a SQL-to-Prometheus exporter, in Dafny

The exporter turns a list of query configurations into gauge metrics. It
refreshes them from the database on every scrape and rebuilds them when the
configuration file changes. This project models that pipeline and proves
what it promises:

- **Bindings** (`metrics.dfy`, module `MetricBindings`). A `Binding` pairs a
  `QueryConfig` with its instrument. The instrument is a `Gauge` holding one
  value, or a `GaugeVec` mapping label-value tuples to values.
  - `New` builds one binding per configuration.
  - `Metrics.Register` registers the bindings one after another and stops at
    the first name collision. It is proved against the fold `RegisterAll`.
  - `Metrics.Update` is the refresh pass: nested loops with `continue`, as in
    the source. It is proved against the pure `Refreshed`, whose behaviour is
    established by lemmas:
    - no client means nothing changes;
    - a scalar keeps its last value on any error;
    - a vector is reset before its query, and each bad row is skipped.
- **Registry** (`registry.dfy`). The metric registry is reduced to the set of
  registered names. Registering a name that is already present fails.
- **Application state** (`state.dfy`, module `State`). `AppState.New` takes a
  fresh registry, builds the bindings and registers them. It fails as a whole.
- **Server** (`server.dfy`, module `Server`).
  - `ReloadStep` is one iteration of the watch loop: event filter, then
    configuration load, then build, then swap.
  - `WatchConfigChanges` is the loop over batches.
  - `MetricsHandler` refreshes the current state and then gathers it.
- **Boundaries** (`database.dfy`, `config.dfy`).
  - A database client maps query text to `Result<seq<Row>, DbError>`.
  - `QueryOne` fails unless exactly one row comes back.
  - A `Row` is the list of its columns in query order, each a name and a
    cell: `Float8`, `Text` or `Other`. `Other` covers NULL and every other
    SQL type.
  - A column is selected by name as the driver does it: the first column
    with exactly that name, otherwise the first whose name equals it up to
    ASCII case. So `value_column = "Total"` still reads a column reported as
    `total`, the name PostgreSQL gives an unquoted `AS Total`.
  - Reading an `f64` succeeds only on a `Float8` cell. A `count(*)` column
    is a 64-bit integer in PostgreSQL, so it never sets a metric unless the
    query casts it to double precision.
  - A configuration load is an outcome value handed to the reload step.

Panics in the source are preconditions here, not error paths:
- Instrument construction is unwrapped. So every configuration must be
  `Constructible`: non-empty help text, a valid metric name, and valid,
  distinct label names.
- Reading a label column is unwrapped. So for a vector, every row its query
  returns must carry the label columns as text (`Readable`).

Values are `real`, because they are only copied from rows, never computed.

## Model

| member | source | states |
|---|---|---|
| `MetricBindings.New` | src/metrics.rs:21-40 | one binding per configuration, in order, each holding its configuration; a `Gauge` (at 0) exactly when `label_columns` is empty, otherwise an empty `GaugeVec` whose label names are `label_columns` in order |
| `MetricBindings.Metrics.constructor` | src/metrics.rs:21-40 | the bindings object holds `New(configs)` and every binding is well shaped |
| `Registry.Registry.constructor` | src/state.rs:18 | a fresh registry holds no names |
| `Registry.Registry.Register` | src/metrics.rs:45-46 | registering succeeds iff the name is new; on success the name is added, on failure nothing changes |
| `MetricBindings.Metrics.Register` | src/metrics.rs:42-50 | the registry's new names and the success flag are those of registering the bindings' names in order, stopping at the first failure (`RegisterAll`) |
| `MetricBindings.RegisterAllSucceeds` | src/metrics.rs:42-50 | registration returns Ok iff the names are pairwise distinct and none was already registered; then all of them are registered |
| `MetricBindings.RegisterAllStopsAtCollision` | src/metrics.rs:43-47 | with `k` the first colliding name, exactly the names before `k` end up registered, the rest are not attempted, and the result is a failure unless there is no collision |
| `MetricBindings.RefreshBinding` | src/metrics.rs:61-128 | configuration and shape are kept; a gauge takes the reading of its single row's value column when there is one and otherwise keeps its previous value; a vector keeps its label names and is empty when its query fails |
| `MetricBindings.Refreshed` | src/metrics.rs:52-130 | same length, configurations and shapes; when no client is obtained, nothing changes; readability of the labels is preserved |
| `Database.FirstMatch` | src/metrics.rs:73 | the index it returns is in range and names a matching column, no earlier column matches, and none is returned only when no column matches |
| `Database.Lookup` | src/metrics.rs:73 | a cell is found iff some column's name equals the requested one up to ASCII case, and the found cell belongs to such a column |
| `Database.LookupPrefersExact` | src/metrics.rs:110 | the first column with exactly the requested name is the one read, whatever columns match only up to case |
| `Database.LookupFoldsCase` | src/metrics.rs:102 | with no exact match, the first column whose name equals the requested one up to ASCII case is the one read |
| `MetricBindings.ApplyRow` | src/metrics.rs:110-126 | one row adds or overwrites exactly the series it writes, with its value, and leaves every other series as it was |
| `MetricBindings.SeriesFromKeys` | src/metrics.rs:97-126 | a vector's series are exactly the label tuples of rows whose value column parsed |
| `MetricBindings.SeriesFromLastWriter` | src/metrics.rs:97-126 | a row's series holds that row's value when no later row writes the same series |
| `MetricBindings.SeriesFromExact` | src/metrics.rs:97-126 | a vector's series are exactly the label tuples of rows whose value column parsed, each holding the value of the last such row with that tuple |
| `MetricBindings.SeriesFromSkipsBadRow` | src/metrics.rs:110-119 | a row whose value column is missing or not a double has no effect: removing it leaves the series unchanged |
| `MetricBindings.VectorAfterRefresh` | src/metrics.rs:86-127 | after a pass whose query returned `rows`, a vector holds exactly the tuples written by those rows (last writer wins); series from earlier passes do not linger |
| `MetricBindings.RefreshIsolated` | src/metrics.rs:61-129 | a binding's refreshed state depends only on that binding and the database, never on the other bindings |
| `MetricBindings.RefreshIdempotent` | src/metrics.rs:52-130 | against an unchanged database, refreshing twice gives the same bindings as refreshing once |
| `MetricBindings.Metrics.Update` | src/metrics.rs:52-130 | the nested refresh loops leave exactly `Refreshed(old bindings, pool)` and keep every binding well shaped |
| `MetricBindings.CollectExact` | src/main.rs:29 | with distinct names, gathering yields exactly the registered bindings that have samples, each with its current samples |
| `State.BuildSucceeds` | src/state.rs:17-22 | registering the bindings of a config into an empty registry succeeds iff the query names are distinct; then the registry holds exactly this config's names |
| `State.DuplicateNameFails` | src/state.rs:20 | two queries with the same name make the build fail |
| `State.AppState.Assemble` | src/state.rs:21 | the state holds the given registry and bindings |
| `State.AppState.New` | src/state.rs:17-22 | returns Ok iff the query names are distinct; the new state is freshly allocated, holds `New(config.queries)` and a registry holding exactly their names |
| `Server.SharedState.constructor` | src/main.rs:63-65 | the shared slot starts with the initial state |
| `Server.ReloadStep` | src/main.rs:104-142 | a watcher error or a batch without a modify or create event leaves the state untouched; a failed config load or a failed build leaves it untouched; otherwise the slot holds a freshly built state for the new config |
| `Server.LastSwap` | src/main.rs:103-143 | the index it names is a batch that swapped the state |
| `Server.LastSwapIsLast` | src/main.rs:103-143 | no batch after the named one swaps; when none is named, no batch swaps |
| `Server.WatchConfigChanges` | src/main.rs:103-143 | after the loop, the state is the one built at the last swapping batch, or the initial state when none swapped; errors never stop the loop |
| `Server.MetricsHandler` | src/main.rs:19-37 | the scrape refreshes the current state and gathers that same state; the slot is not replaced; the output is the gathered families of the refreshed bindings |
| `Server.ScrapeShowsRefresh` | src/main.rs:24-29 | what a scrape of a consistent state serves is exactly the refreshed bindings that have samples, each with its refreshed samples |

## Left out

- The connection pool and driver (src/db.rs) are not part of this model.
  Obtaining a client is an input `Result<Client, PoolError>`.
- The client is a fixed function from query text to result. Within one pass,
  two bindings with the same SQL text therefore see the same rows.
- Loading the configuration from the environment and the file
  (`Config::from_env`, src/config.rs:37-48) is an outcome handed in: for each
  batch, `loads[i]` is what the load returns.
- `DatabaseConfig` only feeds the pool and is not modelled. `metric_type` is
  carried but has a single value.
- The instrument library is reduced to what the source relies on:
  - `Constructible` states its name, label and help checks by their
    character classes. The library's reserved label prefix `__` is not
    modelled.
  - A registry collision is a repeated name.
  - Gathering is a map from metric name to samples. It prunes empty
    families, as the library's gather does.
  - Family ordering and the text encoding are not modelled.
- The mutex, `Arc`, the spawned task and async waiting are not modelled.
  - The swap is one assignment to the slot.
  - A scrape reads the slot once and uses that state for both refresh and
    gather.
  - So a scrape sees either the old state or the new one, never a mix. The
    model has no interleavings to show this beyond the single read and the
    single write.
- The watcher setup and the debouncer's two-second window are not modelled.
  Only the batches of event kinds (or watcher errors) are.
- The HTTP routing and server, dotenv, logging and the startup `expect`s are
  not modelled.
- `f64` arithmetic is not modelled, since values are only copied: they are
  `real`.
- `MetricBindings.CollectExact`: stated only for bindings with distinct
  names. With duplicate names the build fails, so no such state is ever
  gathered.
