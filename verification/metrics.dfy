/** Metric bindings (src/metrics.rs): each query configuration paired with the
 *  gauge it drives, how a list of configurations becomes bindings, how the
 *  bindings are registered, and the refresh pass that sets their values from
 *  query results. */
module MetricBindings {
  import opened Wrappers
  import opened Seqs
  import opened Config
  import opened Database
  import opened Registry

  /** The instrument of one binding: a single gauge, or a gauge vector holding
   *  one value per label-value tuple. */
  datatype Metric =
    | Gauge(value: real)
    | GaugeVec(labelNames: seq<string>, series: map<seq<string>, real>)

  /** A configuration together with the instrument built for it. */
  datatype Binding = Binding(config: QueryConfig, metric: Metric)

  // ---------------------------------------------------------------------------
  // Construction (`Metrics::new`)
  // ---------------------------------------------------------------------------

  predicate IsLetter(c: char) {
    'a' <= c <= 'z' || 'A' <= c <= 'Z'
  }

  predicate IsDigit(c: char) {
    '0' <= c <= '9'
  }

  /** A metric name of the Prometheus data model: `[a-zA-Z_:][a-zA-Z0-9_:]*`. */
  predicate ValidMetricName(s: string) {
    && |s| > 0
    && (IsLetter(s[0]) || s[0] == '_' || s[0] == ':')
    && forall k :: 1 <= k < |s| ==> IsLetter(s[k]) || IsDigit(s[k]) || s[k] == '_' || s[k] == ':'
  }

  /** A label name of the Prometheus data model: `[a-zA-Z_][a-zA-Z0-9_]*`. */
  predicate ValidLabelName(s: string) {
    && |s| > 0
    && (IsLetter(s[0]) || s[0] == '_')
    && forall k :: 1 <= k < |s| ==> IsLetter(s[k]) || IsDigit(s[k]) || s[k] == '_'
  }

  /** What building the instrument demands of a configuration (the source
   *  unwraps the construction, so a configuration failing this panics):
   *  a non-empty help text, a valid metric name, valid and distinct label names. */
  predicate Constructible(qc: QueryConfig) {
    && qc.help != ""
    && ValidMetricName(qc.name)
    && (forall k :: 0 <= k < |qc.labelColumns| ==> ValidLabelName(qc.labelColumns[k]))
    && Distinct(qc.labelColumns)
  }

  predicate AllConstructible(qs: seq<QueryConfig>) {
    forall i :: 0 <= i < |qs| ==> Constructible(qs[i])
  }

  /** The shape rule: a binding holds a gauge exactly when its configuration
   *  has no label columns, and otherwise a gauge vector whose label names are
   *  the label columns, in order. */
  predicate WellShaped(b: Binding) {
    match b.metric
    case Gauge(_) => b.config.labelColumns == []
    case GaugeVec(labels, _) => labels == b.config.labelColumns && labels != []
  }

  /** The instrument a fresh configuration gets: a gauge reading 0, or an empty vector. */
  function NewMetric(qc: QueryConfig): Metric {
    if qc.labelColumns == [] then Gauge(0.0) else GaugeVec(qc.labelColumns, map[])
  }

  /** `Metrics::new`: one binding per configuration, in order, each holding a
   *  copy of its configuration and an instrument of the matching shape. */
  function New(configs: seq<QueryConfig>): (bs: seq<Binding>)
    requires AllConstructible(configs)
    ensures |bs| == |configs|
    ensures forall i :: 0 <= i < |bs| ==> bs[i].config == configs[i] && WellShaped(bs[i])
    ensures forall i :: 0 <= i < |bs| ==>
              match bs[i].metric
              case Gauge(v) => v == 0.0
              case GaugeVec(_, series) => series == map[]
  {
    seq(|configs|, i requires 0 <= i < |configs| => Binding(configs[i], NewMetric(configs[i])))
  }

  /** The metric names of `bs`, in order. */
  function Names(bs: seq<Binding>): seq<string> {
    seq(|bs|, i requires 0 <= i < |bs| => bs[i].config.name)
  }

  lemma NamesOfNew(configs: seq<QueryConfig>)
    requires AllConstructible(configs)
    ensures Names(New(configs)) == QueryNames(configs)
  {
  }

  // ---------------------------------------------------------------------------
  // Registration (`Metrics::register`)
  // ---------------------------------------------------------------------------

  /** Registering `names` one after another into a registry holding
   *  `registered`, stopping at the first failure: the registry's names
   *  afterwards and whether every registration succeeded. */
  function RegisterAll(registered: set<string>, names: seq<string>): (set<string>, bool)
    decreases |names|
  {
    if names == [] then (registered, true)
    else if names[0] in registered then (registered, false)
    else RegisterAll(registered + {names[0]}, names[1..])
  }

  /** Registration succeeds exactly when every name is new to the registry and
   *  to the names before it; then all of them are registered. */
  lemma {:induction false} RegisterAllSucceeds(registered: set<string>, names: seq<string>)
    ensures RegisterAll(registered, names).1 <==> Distinct(names) && Elems(names) !! registered
    ensures RegisterAll(registered, names).1 ==> RegisterAll(registered, names).0 == registered + Elems(names)
    decreases |names|
  {
    if names != [] {
      var rest := names[1..];
      RegisterAllSucceeds(registered + {names[0]}, rest);
      assert names == [names[0]] + rest;
      assert Elems(names) == {names[0]} + Elems(rest);
      if Distinct(names) && Elems(names) !! registered {
        assert Distinct(rest) by {
          forall i, j | 0 <= i < j < |rest| ensures rest[i] != rest[j] {
            assert rest[i] == names[i + 1] && rest[j] == names[j + 1];
          }
        }
        assert names[0] !in Elems(rest) by {
          forall j | 0 <= j < |rest| ensures rest[j] != names[0] {
            assert rest[j] == names[j + 1];
          }
        }
      }
      if RegisterAll(registered, names).1 {
        assert names[0] !in registered;
        forall i, j | 0 <= i < j < |names| ensures names[i] != names[j] {
          if i == 0 {
            assert names[j] == rest[j - 1];
            assert names[j] in Elems(rest);
          } else {
            assert names[i] == rest[i - 1] && names[j] == rest[j - 1];
          }
        }
      }
    }
  }

  /** Registration stops at the first collision `k`: the names before it are
   *  registered, the colliding one and those after it are not. */
  lemma {:induction false} RegisterAllStopsAtCollision(registered: set<string>, names: seq<string>, k: nat)
    requires k <= |names|
    requires Distinct(names[..k]) && Elems(names[..k]) !! registered
    requires k < |names| ==> names[k] in registered + Elems(names[..k])
    ensures RegisterAll(registered, names) == (registered + Elems(names[..k]), k == |names|)
    decreases |names|
  {
    if names == [] {
      assert names[..k] == [];
      assert Elems(names[..k]) == {};
      assert registered + Elems(names[..k]) == registered;
    } else if k == 0 {
      assert Elems(names[..0]) == {};
      assert names[0] in registered;
      assert RegisterAll(registered, names) == (registered, false);
      assert registered + Elems(names[..k]) == registered;
    } else {
      var rest := names[1..];
      var pre := rest[..k - 1];
      assert names[..k] == [names[0]] + pre;
      assert Elems(names[..k]) == {names[0]} + Elems(pre);
      assert names[0] !in registered;
      assert Distinct(pre) by {
        forall i, j | 0 <= i < j < |pre| ensures pre[i] != pre[j] {
          assert pre[i] == names[..k][i + 1] && pre[j] == names[..k][j + 1];
        }
      }
      assert names[0] !in Elems(pre) by {
        forall j | 0 <= j < |pre| ensures pre[j] != names[0] {
          assert pre[j] == names[..k][j + 1];
          assert names[0] == names[..k][0];
        }
      }
      assert Elems(pre) !! registered + {names[0]};
      assert k - 1 < |rest| ==> rest[k - 1] == names[k];
      RegisterAllStopsAtCollision(registered + {names[0]}, rest, k - 1);
      assert registered + {names[0]} + Elems(pre) == registered + Elems(names[..k]);
    }
  }

  // ---------------------------------------------------------------------------
  // Refresh (`Metrics::update`)
  // ---------------------------------------------------------------------------

  /** Every label column of `row` can be read as text (reading one that cannot
   *  panics in the source). */
  predicate HasLabels(row: Row, labels: seq<string>) {
    forall k :: 0 <= k < |labels| ==> HasText(row, labels[k])
  }

  predicate RowsHaveLabels(rows: seq<Row>, labels: seq<string>) {
    forall j :: 0 <= j < |rows| ==> HasLabels(rows[j], labels)
  }

  /** The label-value tuple of `row`, one value per label column, in order. */
  function LabelValues(row: Row, labels: seq<string>): seq<string>
    requires HasLabels(row, labels)
  {
    seq(|labels|, k requires 0 <= k < |labels| => GetText(row, labels[k]))
  }

  /** `row` sets the series `key`: its value column parses and its label
   *  values are `key`. */
  predicate Writes(row: Row, labels: seq<string>, valueColumn: string, key: seq<string>)
    requires HasLabels(row, labels)
  {
    TryGetF64(row, valueColumn).Some? && LabelValues(row, labels) == key
  }

  /** The series a gauge vector holds after applying `rows` in order to an
   *  empty vector: a row whose value column does not parse is skipped, and a
   *  later row overwrites an earlier one with the same label values. */
  function SeriesFrom(rows: seq<Row>, labels: seq<string>, valueColumn: string): map<seq<string>, real>
    requires RowsHaveLabels(rows, labels)
    decreases |rows|
  {
    if rows == [] then map[]
    else
      ApplyRow(SeriesFrom(rows[..|rows| - 1], labels, valueColumn), rows[|rows| - 1], labels, valueColumn)
  }

  /** One step of a vector pass: the row writes its value under its label
   *  values when the value column parses, and is skipped otherwise. */
  function ApplyRow(series: map<seq<string>, real>, row: Row, labels: seq<string>, valueColumn: string): (r: map<seq<string>, real>)
    requires HasLabels(row, labels)
    ensures forall key :: key in r <==> key in series || Writes(row, labels, valueColumn, key)
    ensures forall key :: key in r ==>
              r[key] == if Writes(row, labels, valueColumn, key) then TryGetF64(row, valueColumn).value else series[key]
  {
    match TryGetF64(row, valueColumn)
    case None => series
    case Some(v) => series[LabelValues(row, labels) := v]
  }

  /** The series are exactly the label tuples of rows whose value parsed. */
  lemma {:induction false} SeriesFromKeys(rows: seq<Row>, labels: seq<string>, valueColumn: string)
    requires RowsHaveLabels(rows, labels)
    ensures forall key :: key in SeriesFrom(rows, labels, valueColumn) <==>
              exists j :: 0 <= j < |rows| && Writes(rows[j], labels, valueColumn, key)
    decreases |rows|
  {
    if rows != [] {
      var n := |rows| - 1;
      var pre := rows[..n];
      var last := rows[n];
      PrefixKeepsLabels(rows, labels, n);
      SeriesFromKeys(pre, labels, valueColumn);
      var s := SeriesFrom(rows, labels, valueColumn);
      assert s == ApplyRow(SeriesFrom(pre, labels, valueColumn), last, labels, valueColumn);
      forall key
        ensures key in s <==> exists j :: 0 <= j < |rows| && Writes(rows[j], labels, valueColumn, key)
      {
        if key in s && !Writes(last, labels, valueColumn, key) {
          var j :| 0 <= j < |pre| && Writes(pre[j], labels, valueColumn, key);
          assert rows[j] == pre[j];
        }
        if j :| 0 <= j < n && Writes(rows[j], labels, valueColumn, key) {
          assert pre[j] == rows[j];
        }
      }
    }
  }

  /** The series of row `j`'s labels holds `j`'s value when no later row
   *  writes the same series. */
  lemma {:induction false} SeriesFromLastWriter(rows: seq<Row>, labels: seq<string>, valueColumn: string, j: nat)
    requires RowsHaveLabels(rows, labels)
    requires j < |rows| && Writes(rows[j], labels, valueColumn, LabelValues(rows[j], labels))
    requires forall k :: j < k < |rows| ==> !Writes(rows[k], labels, valueColumn, LabelValues(rows[j], labels))
    ensures LabelValues(rows[j], labels) in SeriesFrom(rows, labels, valueColumn)
    ensures SeriesFrom(rows, labels, valueColumn)[LabelValues(rows[j], labels)] == TryGetF64(rows[j], valueColumn).value
    decreases |rows|
  {
    var n := |rows| - 1;
    var pre := rows[..n];
    var last := rows[n];
    var key := LabelValues(rows[j], labels);
    PrefixKeepsLabels(rows, labels, n);
    assert SeriesFrom(rows, labels, valueColumn) == ApplyRow(SeriesFrom(pre, labels, valueColumn), last, labels, valueColumn);
    if j < n {
      assert pre[j] == rows[j];
      assert !Writes(last, labels, valueColumn, key);
      forall k | j < k < |pre| ensures !Writes(pre[k], labels, valueColumn, key) {
        assert pre[k] == rows[k];
      }
      SeriesFromLastWriter(pre, labels, valueColumn, j);
    }
  }

  /** The series are exactly the label tuples of rows whose value parsed, and
   *  each holds the value of the last such row with that tuple. */
  lemma SeriesFromExact(rows: seq<Row>, labels: seq<string>, valueColumn: string)
    requires RowsHaveLabels(rows, labels)
    ensures forall key :: key in SeriesFrom(rows, labels, valueColumn) <==>
              exists j :: 0 <= j < |rows| && Writes(rows[j], labels, valueColumn, key)
    ensures forall j :: (0 <= j < |rows| && Writes(rows[j], labels, valueColumn, LabelValues(rows[j], labels)) &&
              (forall k :: j < k < |rows| ==> !Writes(rows[k], labels, valueColumn, LabelValues(rows[j], labels)))) ==>
              SeriesFrom(rows, labels, valueColumn)[LabelValues(rows[j], labels)] == TryGetF64(rows[j], valueColumn).value
  {
    SeriesFromKeys(rows, labels, valueColumn);
    forall j | 0 <= j < |rows| && Writes(rows[j], labels, valueColumn, LabelValues(rows[j], labels)) &&
               (forall k :: j < k < |rows| ==> !Writes(rows[k], labels, valueColumn, LabelValues(rows[j], labels)))
      ensures SeriesFrom(rows, labels, valueColumn)[LabelValues(rows[j], labels)] == TryGetF64(rows[j], valueColumn).value
    {
      SeriesFromLastWriter(rows, labels, valueColumn, j);
    }
  }

  /** A row whose value column does not parse has no effect: dropping it
   *  leaves the resulting series unchanged. */
  lemma {:induction false} SeriesFromSkipsBadRow(rows: seq<Row>, labels: seq<string>, valueColumn: string, j: nat)
    requires RowsHaveLabels(rows, labels)
    requires j < |rows| && TryGetF64(rows[j], valueColumn).None?
    ensures RowsHaveLabels(rows[..j] + rows[j + 1..], labels)
    ensures SeriesFrom(rows[..j] + rows[j + 1..], labels, valueColumn) == SeriesFrom(rows, labels, valueColumn)
    decreases |rows|
  {
    var n := |rows| - 1;
    var dropped := rows[..j] + rows[j + 1..];
    DropKeepsLabels(rows, labels, j);
    if j == n {
      assert dropped == rows[..n];
      assert SeriesFrom(rows, labels, valueColumn)
        == ApplyRow(SeriesFrom(rows[..n], labels, valueColumn), rows[n], labels, valueColumn);
    } else {
      var pre := rows[..n];
      PrefixKeepsLabels(rows, labels, n);
      assert pre[j] == rows[j];
      SeriesFromSkipsBadRow(pre, labels, valueColumn, j);
      assert dropped[..|dropped| - 1] == pre[..j] + pre[j + 1..];
      assert dropped[|dropped| - 1] == rows[n];
      assert SeriesFrom(dropped, labels, valueColumn)
        == ApplyRow(SeriesFrom(pre[..j] + pre[j + 1..], labels, valueColumn), rows[n], labels, valueColumn);
      assert SeriesFrom(rows, labels, valueColumn)
        == ApplyRow(SeriesFrom(pre, labels, valueColumn), rows[n], labels, valueColumn);
    }
  }

  /** A prefix of readable rows is readable. */
  lemma PrefixKeepsLabels(rows: seq<Row>, labels: seq<string>, n: nat)
    requires RowsHaveLabels(rows, labels) && n <= |rows|
    ensures RowsHaveLabels(rows[..n], labels)
  {
    forall k | 0 <= k < n ensures HasLabels(rows[..n][k], labels) {
      assert rows[..n][k] == rows[k];
    }
  }

  /** Removing one row keeps every remaining row readable. */
  lemma DropKeepsLabels(rows: seq<Row>, labels: seq<string>, j: nat)
    requires RowsHaveLabels(rows, labels) && j < |rows|
    ensures RowsHaveLabels(rows[..j] + rows[j + 1..], labels)
  {
    var dropped := rows[..j] + rows[j + 1..];
    forall k | 0 <= k < |dropped| ensures HasLabels(dropped[k], labels) {
      assert dropped[k] == if k < j then rows[k] else rows[k + 1];
    }
  }

  /** Refreshing `b` against `client` cannot panic: for a vector, every row its
   *  query returns carries the label columns as text. */
  predicate LabelsReadable(b: Binding, client: Client) {
    b.metric.GaugeVec? && client.query(b.config.query).Ok? ==>
      RowsHaveLabels(client.query(b.config.query).value, b.config.labelColumns)
  }

  predicate Readable(bs: seq<Binding>, client: Client) {
    forall i :: 0 <= i < |bs| ==> LabelsReadable(bs[i], client)
  }

  /** What a scalar's query yields this pass: the value column of its single
   *  row, or nothing when the query fails, does not return exactly one row,
   *  or the column is missing or not a double. */
  function ScalarReading(client: Client, qc: QueryConfig): Option<real> {
    match QueryOne(client, qc.query)
    case Err(_) => None
    case Ok(row) => TryGetF64(row, qc.valueColumn)
  }

  /** One binding's refresh.  A gauge takes the reading when there is one and
   *  otherwise keeps its previous value; a vector is cleared first and then
   *  holds the series of the query's rows, or nothing when the query fails. */
  function RefreshBinding(b: Binding, client: Client): (r: Binding)
    requires LabelsReadable(b, client)
    ensures r.config == b.config
    ensures WellShaped(b) ==> WellShaped(r)
    ensures b.metric.Gauge? ==> r.metric.Gauge?
    ensures b.metric.Gauge? && ScalarReading(client, b.config).None? ==> r == b
    ensures b.metric.Gauge? && ScalarReading(client, b.config).Some? ==>
              r.metric.value == ScalarReading(client, b.config).value
    ensures b.metric.GaugeVec? ==> r.metric.GaugeVec? && r.metric.labelNames == b.metric.labelNames
    ensures b.metric.GaugeVec? && client.query(b.config.query).Err? ==> r.metric.series == map[]
  {
    match b.metric
    case Gauge(_) =>
      (match ScalarReading(client, b.config)
       case None => b
       case Some(x) => b.(metric := Gauge(x)))
    case GaugeVec(labels, _) =>
      (match client.query(b.config.query)
       case Err(_) => b.(metric := GaugeVec(labels, map[]))
       case Ok(rows) => b.(metric := GaugeVec(labels, SeriesFrom(rows, b.config.labelColumns, b.config.valueColumn))))
  }

  /** The whole refresh pass: no client means no binding changes; otherwise
   *  each binding is refreshed on its own. */
  function Refreshed(bs: seq<Binding>, pool: Result<Client, PoolError>): (rs: seq<Binding>)
    requires pool.Ok? ==> Readable(bs, pool.value)
    ensures |rs| == |bs|
    ensures pool.Err? ==> rs == bs
    ensures forall i :: 0 <= i < |bs| ==> rs[i].config == bs[i].config
    ensures forall i :: 0 <= i < |bs| ==> rs[i].metric.Gauge? == bs[i].metric.Gauge?
    ensures forall i :: 0 <= i < |bs| && WellShaped(bs[i]) ==> WellShaped(rs[i])
    ensures pool.Ok? ==> Readable(rs, pool.value)
  {
    match pool
    case Err(_) => bs
    case Ok(client) => seq(|bs|, i requires 0 <= i < |bs| => RefreshBinding(bs[i], client))
  }

  /** After a pass with a client, a vector holds exactly the label tuples of
   *  the rows whose value parsed, each with its last such row's value; series
   *  from earlier passes do not linger. */
  lemma VectorAfterRefresh(bs: seq<Binding>, client: Client, i: nat, rows: seq<Row>)
    requires Readable(bs, client)
    requires i < |bs| && bs[i].metric.GaugeVec?
    requires client.query(bs[i].config.query) == Ok(rows)
    ensures RowsHaveLabels(rows, bs[i].config.labelColumns)
    ensures var series := Refreshed(bs, Ok(client))[i].metric.series;
            var labels := bs[i].config.labelColumns;
            var col := bs[i].config.valueColumn;
            && (forall key :: key in series <==> exists j :: 0 <= j < |rows| && Writes(rows[j], labels, col, key))
            && (forall j :: (0 <= j < |rows| && Writes(rows[j], labels, col, LabelValues(rows[j], labels)) &&
                  (forall k :: j < k < |rows| ==> !Writes(rows[k], labels, col, LabelValues(rows[j], labels)))) ==>
                  series[LabelValues(rows[j], labels)] == TryGetF64(rows[j], col).value)
  {
    assert LabelsReadable(bs[i], client);
    SeriesFromExact(rows, bs[i].config.labelColumns, bs[i].config.valueColumn);
  }

  /** Bindings are refreshed independently: a binding's new state depends on
   *  that binding and the database only, whatever the other bindings are. */
  lemma RefreshIsolated(bs: seq<Binding>, cs: seq<Binding>, client: Client, i: nat, j: nat)
    requires Readable(bs, client) && Readable(cs, client)
    requires i < |bs| && j < |cs| && bs[i] == cs[j]
    ensures Refreshed(bs, Ok(client))[i] == Refreshed(cs, Ok(client))[j]
  {
  }

  /** A pass is idempotent against an unchanged database: refreshing twice
   *  gives what refreshing once gives. */
  lemma RefreshIdempotent(bs: seq<Binding>, pool: Result<Client, PoolError>)
    requires pool.Ok? ==> Readable(bs, pool.value)
    ensures Refreshed(Refreshed(bs, pool), pool) == Refreshed(bs, pool)
  {
  }

  // ---------------------------------------------------------------------------
  // Collection (`Registry::gather` over the registered bindings)
  // ---------------------------------------------------------------------------

  /** The samples of one instrument, keyed by label-value tuple; a gauge has
   *  the single sample with no labels. */
  function Samples(m: Metric): map<seq<string>, real> {
    match m
    case Gauge(v) => map[[] := v]
    case GaugeVec(_, series) => series
  }

  /** What gathering a registry that holds `registered` yields: one family per
   *  registered binding, except a vector with no series (empty families are
   *  pruned). */
  function Collect(bs: seq<Binding>, registered: set<string>): map<string, map<seq<string>, real>>
    decreases |bs|
  {
    if bs == [] then map[]
    else
      var b := bs[|bs| - 1];
      var earlier := Collect(bs[..|bs| - 1], registered);
      if b.config.name in registered && Samples(b.metric) != map[]
      then earlier[b.config.name := Samples(b.metric)]
      else earlier
  }

  /** With distinct names, the collected families are exactly the registered
   *  bindings with samples, each showing that binding's current samples. */
  lemma {:induction false} CollectExact(bs: seq<Binding>, registered: set<string>)
    requires Distinct(Names(bs))
    ensures forall n :: n in Collect(bs, registered) <==>
              exists i :: 0 <= i < |bs| && bs[i].config.name == n && n in registered && Samples(bs[i].metric) != map[]
    ensures forall i :: 0 <= i < |bs| && bs[i].config.name in registered && Samples(bs[i].metric) != map[] ==>
              Collect(bs, registered)[bs[i].config.name] == Samples(bs[i].metric)
    decreases |bs|
  {
    if bs != [] {
      var n := |bs| - 1;
      var pre := bs[..n];
      assert Distinct(Names(pre)) by {
        forall i, j | 0 <= i < j < |pre| ensures Names(pre)[i] != Names(pre)[j] {
          assert Names(pre)[i] == Names(bs)[i] && Names(pre)[j] == Names(bs)[j];
        }
      }
      CollectExact(pre, registered);
      var c := Collect(bs, registered);
      forall name
        ensures name in c <==>
          exists i :: 0 <= i < |bs| && bs[i].config.name == name && name in registered && Samples(bs[i].metric) != map[]
      {
        if name in c && !(bs[n].config.name == name && name in registered && Samples(bs[n].metric) != map[]) {
          var i :| 0 <= i < |pre| && pre[i].config.name == name && name in registered && Samples(pre[i].metric) != map[];
          assert bs[i] == pre[i];
        }
        if i :| 0 <= i < |bs| && bs[i].config.name == name && name in registered && Samples(bs[i].metric) != map[] {
          if i < n {
            assert pre[i] == bs[i];
          }
        }
      }
      forall i | 0 <= i < |bs| && bs[i].config.name in registered && Samples(bs[i].metric) != map[]
        ensures c[bs[i].config.name] == Samples(bs[i].metric)
      {
        if i < n {
          assert pre[i] == bs[i];
          assert Names(bs)[i] != Names(bs)[n];
        }
      }
    }
  }

  // ---------------------------------------------------------------------------
  // The bindings object
  // ---------------------------------------------------------------------------

  /** `Metrics`: the list of bindings.  Refresh changes the instruments in
   *  place; the list itself (its length and configurations) never changes. */
  class Metrics {
    var bindings: seq<Binding>

    ghost predicate Valid()
      reads this
    {
      forall i :: 0 <= i < |bindings| ==> WellShaped(bindings[i])
    }

    /** `Metrics::new`. */
    constructor (configs: seq<QueryConfig>)
      requires AllConstructible(configs)
      ensures Valid()
      ensures bindings == New(configs)
    {
      bindings := New(configs);
    }

    /** `Metrics::register`: registers every binding's metric in order and
     *  returns the first failure, leaving the earlier registrations in place. */
    method Register(registry: Registry) returns (r: Result<(), RegistryError>)
      modifies registry
      ensures (registry.names, r.Ok?) == RegisterAll(old(registry.names), Names(bindings))
    {
      var names := Names(bindings);
      for i := 0 to |bindings|
        invariant RegisterAll(old(registry.names), names) == RegisterAll(registry.names, names[i..])
      {
        assert names[i..][0] == bindings[i].config.name;
        assert names[i..][1..] == names[i + 1..];
        var res := registry.Register(bindings[i].config.name);
        if res.Err? {
          return Err(res.error);
        }
      }
      assert names[|bindings|..] == [];
      return Ok(());
    }

    /** `Metrics::update`: one refresh pass over all bindings. */
    method Update(pool: Result<Client, PoolError>)
      requires Valid()
      requires pool.Ok? ==> Readable(bindings, pool.value)
      modifies this
      ensures Valid()
      ensures bindings == Refreshed(old(bindings), pool)
    {
      if pool.Err? {
        return;
      }
      var client := pool.value;
      for i := 0 to |bindings|
        invariant |bindings| == |old(bindings)|
        invariant forall k :: 0 <= k < i ==> bindings[k] == RefreshBinding(old(bindings)[k], client)
        invariant forall k :: i <= k < |bindings| ==> bindings[k] == old(bindings)[k]
      {
        var qc := bindings[i].config;
        assert LabelsReadable(old(bindings)[i], client);
        match bindings[i].metric {
          case Gauge(_) =>
            var row := QueryOne(client, qc.query);
            if row.Err? {
              continue;
            }
            var value := TryGetF64(row.value, qc.valueColumn);
            if value.None? {
              continue;
            }
            bindings := bindings[i := Binding(qc, Gauge(value.value))];
          case GaugeVec(labelNames, _) =>
            ghost var before := bindings;
            bindings := bindings[i := Binding(qc, GaugeVec(labelNames, map[]))];
            var result := client.query(qc.query);
            if result.Err? {
              continue;
            }
            var rows := result.value;
            for j := 0 to |rows|
              invariant |bindings| == |before|
              invariant forall k :: 0 <= k < |bindings| && k != i ==> bindings[k] == before[k]
              invariant RowsHaveLabels(rows[..j], qc.labelColumns)
              invariant bindings[i] == Binding(qc, GaugeVec(labelNames, SeriesFrom(rows[..j], qc.labelColumns, qc.valueColumn)))
            {
              var row := rows[j];
              assert rows[..j + 1][..j] == rows[..j] && rows[..j + 1][j] == row;
              var labelValues := LabelValues(row, qc.labelColumns);
              var value := TryGetF64(row, qc.valueColumn);
              if value.None? {
                continue;
              }
              var series := bindings[i].metric.series;
              bindings := bindings[i := Binding(qc, GaugeVec(labelNames, series[labelValues := value.value]))];
            }
            assert rows[..|rows|] == rows;
        }
      }
    }
  }
}
