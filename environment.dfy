/**
 * The parts of the outside world that backup.py consults: the process
 * environment (read with os.getenv) and the database, reduced to the outcome
 * of one query.
 */
module Environment {
  import opened Wrappers

  /** The process environment: variables that are set, with their values. */
  type Config = map<string, string>

  const DatabaseUrlVar := "DATABASE_URL"

  /** os.getenv: the value of a variable, or None when it is not set. */
  function GetEnv(config: Config, key: string): Option<string>
  {
    if key in config then Some(config[key]) else None
  }

  /** Python truthiness of an optional string: set and non-empty. */
  predicate IsSet(v: Option<string>)
  {
    v.Some? && v.value != ""
  }

  /** One result row, each field as the CSV writer renders it. */
  type Row = seq<string>

  /**
   * What a query against the inquiries table yields: the rows in the order
   * the database returned them, or an error (connection refused, bad
   * credentials, query failure).
   */
  datatype Fetch = SourceError | Rows(rows: seq<Row>)
}
