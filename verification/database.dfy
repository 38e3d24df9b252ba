/** The database as the refresh pass sees it.  The pool and driver are not part
 *  of this model; this module is their boundary: a pool hands out a client or
 *  fails, and a client maps query text to rows or an error. */
module Database {
  import opened Wrappers

  /** One cell of a result row as the driver types it: a double-precision
   *  number, a text value, or anything else (NULL or another SQL type). */
  datatype Cell = Float8(number: real) | Text(text: string) | Other

  /** One column of a result row: the name the server reports and its cell. */
  datatype Column = Column(name: string, cell: Cell)

  /** A result row: its columns, in the order the query returns them. */
  type Row = seq<Column>

  datatype DbError = QueryFailed(message: string) | RowCount(count: nat)

  datatype PoolError = PoolError(message: string)

  /** A client: the outcome of running each query text with no parameters. */
  datatype Client = Client(query: string -> Result<seq<Row>, DbError>)

  /** `query_one`: the query must return exactly one row, otherwise it fails. */
  function QueryOne(client: Client, sql: string): Result<Row, DbError> {
    match client.query(sql)
    case Err(e) => Err(e)
    case Ok(rows) => if |rows| == 1 then Ok(rows[0]) else Err(RowCount(|rows|))
  }

  /** ASCII lower-casing; every other character is left alone. */
  function AsciiLower(c: char): char {
    if 'A' <= c <= 'Z' then (c as int + 32) as char else c
  }

  /** `a` and `b` are equal up to ASCII case. */
  predicate EqIgnoreAsciiCase(a: string, b: string) {
    |a| == |b| && forall k :: 0 <= k < |a| ==> AsciiLower(a[k]) == AsciiLower(b[k])
  }

  /** A column name matches a requested name: exactly, or up to ASCII case. */
  predicate NameMatches(columnName: string, name: string, exact: bool) {
    if exact then columnName == name else EqIgnoreAsciiCase(columnName, name)
  }

  /** The index of the first column of `row` whose name matches `name`. */
  function FirstMatch(row: Row, name: string, exact: bool): (r: Option<nat>)
    ensures r.Some? ==> r.value < |row| && NameMatches(row[r.value].name, name, exact)
    ensures r.Some? ==> forall k :: 0 <= k < r.value ==> !NameMatches(row[k].name, name, exact)
    ensures r.None? ==> forall k :: 0 <= k < |row| ==> !NameMatches(row[k].name, name, exact)
    decreases |row|
  {
    if row == [] then None
    else if NameMatches(row[0].name, name, exact) then Some(0)
    else
      match FirstMatch(row[1..], name, exact)
      case None => None
      case Some(i) => Some(i + 1)
  }

  /** The column a name selects, as the driver resolves it: the first column
   *  with exactly that name, otherwise the first whose name equals it up to
   *  ASCII case; none when neither exists. */
  function Lookup(row: Row, name: string): (r: Option<Cell>)
    ensures r.Some? <==> exists k :: 0 <= k < |row| && EqIgnoreAsciiCase(row[k].name, name)
    ensures r.Some? ==> exists k :: 0 <= k < |row| && EqIgnoreAsciiCase(row[k].name, name) && row[k].cell == r.value
  {
    match FirstMatch(row, name, true)
    case Some(i) => Some(row[i].cell)
    case None =>
      match FirstMatch(row, name, false)
      case Some(i) => Some(row[i].cell)
      case None => None
  }

  /** A column with exactly the requested name wins over the ones that match
   *  only up to case, and the first such column is the one selected. */
  lemma LookupPrefersExact(row: Row, name: string, i: nat)
    requires i < |row| && row[i].name == name
    requires forall k :: 0 <= k < i ==> row[k].name != name
    ensures Lookup(row, name) == Some(row[i].cell)
  {
    assert NameMatches(row[i].name, name, true);
  }

  /** A column returned under a name that differs from the requested one only
   *  in ASCII case is still found, when no column has the exact name. */
  lemma LookupFoldsCase(row: Row, name: string, i: nat)
    requires i < |row| && EqIgnoreAsciiCase(row[i].name, name)
    requires forall k :: 0 <= k < |row| ==> row[k].name != name
    requires forall k :: 0 <= k < i ==> !EqIgnoreAsciiCase(row[k].name, name)
    ensures Lookup(row, name) == Some(row[i].cell)
  {
    assert NameMatches(row[i].name, name, false);
  }

  /** `try_get::<f64>`: fails when no column matches the name, or the cell is
   *  NULL or not a double. */
  function TryGetF64(row: Row, column: string): Option<real> {
    match Lookup(row, column)
    case Some(Float8(x)) => Some(x)
    case _ => None
  }

  /** `get::<String>` succeeds (does not panic) exactly when the name selects
   *  a text cell. */
  predicate HasText(row: Row, column: string) {
    Lookup(row, column).Some? && Lookup(row, column).value.Text?
  }

  function GetText(row: Row, column: string): string
    requires HasText(row, column)
  {
    Lookup(row, column).value.text
  }
}
