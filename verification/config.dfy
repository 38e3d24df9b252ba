/** The configuration records the pipeline consumes (src/config.rs).  Loading
 *  and deserialising them is not part of this model: a load is an outcome
 *  `Result<Config, ConfigError>` handed to the reload step. */
module Config {

  /** The kind of metric a query produces; only gauges exist. */
  datatype MetricType = GaugeKind

  /** One query specification: the metric name and help text, the SQL text,
   *  the column holding the value and the ordered label columns (empty for an
   *  unlabelled metric). */
  datatype QueryConfig = QueryConfig(
    name: string,
    help: string,
    query: string,
    valueColumn: string,
    labelColumns: seq<string>,
    metricType: MetricType)

  /** The part of the configuration the pipeline reads: its query list.  The
   *  database connection settings only feed the pool, which is outside the model. */
  datatype Config = Config(queries: seq<QueryConfig>)

  datatype ConfigError = ConfigError(message: string)

  /** The metric names of `qs`, in order. */
  function QueryNames(qs: seq<QueryConfig>): seq<string> {
    seq(|qs|, i requires 0 <= i < |qs| => qs[i].name)
  }
}
