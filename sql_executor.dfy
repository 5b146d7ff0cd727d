/**
  The statement executor of the SQL pipeline: a store location and an optional table name,
  and `run_sql`, which cleans a statement, hands it to the store, and shapes the answer by the
  statement's verb. The store itself (sqlite) is a parameter: a function from the call it
  receives to the outcome it reports.
*/
module SqlExecutor {
  import opened Wrappers
  import opened Text
  import opened SqlText

  /** A value bound to a placeholder or read back from a result row. */
  datatype SqlValue = Null | IntValue(i: int) | RealValue(r: real) | TextValue(s: string)

  type Row = seq<SqlValue>

  /** What the executor asks of the store: a single statement, or one statement per binding row. */
  datatype StoreCall =
    | Execute(sql: string)
    | ExecuteMany(sql: string, params: seq<Row>)

  /**
    What the store reports: an error (the database error that `run_sql` catches), or a
    successful execution with the cursor's result rows, last row id and row count.
  */
  datatype CursorOutcome =
    | StoreError(message: string)
    | Executed(rows: seq<Row>, lastRowId: Option<int>, rowCount: int)

  /**
    What `run_sql` gives back: the fetched rows, the last row id, the row count, `None`
    (store error or unsupported verb), or the failure of an empty cleaned statement, which has
    no first word.
  */
  datatype RunResult =
    | Rows(rows: seq<Row>)
    | LastRowId(id: Option<int>)
    | RowCount(count: int)
    | NoValue
    | EmptyStatement

  /**
    The call `run_sql` makes: the cleaned statement, through `executemany` exactly when there is
    a non-empty batch of bindings.
  */
  function CallFor(query: string, data: seq<Row>): (c: StoreCall)
    ensures c.sql == Cleaned(query)
    ensures c.ExecuteMany? <==> |data| > 0
    ensures c.ExecuteMany? ==> c.params == data
  {
    if |data| > 0 then ExecuteMany(Cleaned(query), data) else Execute(Cleaned(query))
  }

  class SqlExecutor {
    const database: string
    const table: Option<string>

    /** The store location and the optional table; creating the file and the table is not modelled. */
    constructor (database: string, table: Option<string>)
      ensures this.database == database && this.table == table
    {
      this.database := database;
      this.table := table;
    }

    /**
      Runs one statement. The store sees the cleaned statement, with the bindings when there are
      any; a store error gives `None`; otherwise the verb decides the answer. The connection's
      `with` block commits whenever it is left by a `return`, which happens for every executed
      statement that has a first word (INSERT, UPDATE, DELETE and CREATE also commit explicitly
      before returning). A store error or the failure of `split()[0]` on an empty statement
      leaves the block by an exception, and the block rolls back.
    */
    method RunSql(query: string, data: seq<Row>, engine: StoreCall -> CursorOutcome)
      returns (r: RunResult, committed: bool)
      ensures engine(CallFor(query, data)).StoreError? ==> r == NoValue
      ensures engine(CallFor(query, data)).Executed? ==>
        var out := engine(CallFor(query, data));
        match Classify(query)
        case None => r == EmptyStatement
        case Some(Query) => r == Rows(out.rows)
        case Some(Insert) => r == LastRowId(out.lastRowId)
        case Some(Mutate) => r == RowCount(out.rowCount)
        case Some(Unsupported) => r == NoValue
      ensures committed <==> engine(CallFor(query, data)).Executed? && Classify(query).Some?
    {
      var cleaned := Trim(StripSqlComments(query));
      var call: StoreCall;
      if |data| > 0 {
        call := ExecuteMany(cleaned, data);
      } else {
        call := Execute(cleaned);
      }
      var out := engine(call);
      if out.StoreError? {
        return NoValue, false;
      }
      var token := FirstToken(cleaned);
      if token.None? {
        return EmptyStatement, false;
      }
      // The verb decides: SELECT and WITH fetch, INSERT returns the last row id and UPDATE,
      // DELETE and CREATE the row count; every branch returns from inside the `with` block.
      committed := true;
      var kind := KindOf(Upper(token.value));
      if kind == Query {
        r := Rows(out.rows);
      } else if kind == Insert {
        r := LastRowId(out.lastRowId);
      } else if kind == Mutate {
        r := RowCount(out.rowCount);
      } else {
        r := NoValue;
      }
    }
  }
}
