/**
  The load step and the two reports of the SQL pipeline (`load_gdp_data`, `get_country_upper_n`,
  `topN_mean_gdp_by_region`, `ETL`), wired through the statement executor to the stored table.
  The store's answer to each query is the reference semantics of `GdpQueries`.
*/
module GdpEtl {
  import opened Wrappers
  import opened Text
  import opened SqlText
  import opened SqlExecutor
  import opened GdpTransform
  import opened GdpEnrich
  import opened GdpQueries
  import opened GdpStore

  // ---------------------------------------------------------------------------------------
  // The statements
  // ---------------------------------------------------------------------------------------

  /** The insert of `load_gdp_data`; an INSERT whatever the table is called. */
  function InsertQuery(table: string): (q: string)
    ensures Classify(q) == Some(Insert)
  {
    var p := "INSERT INTO ";
    var t := table + " (Country, GDP_USD_billion, Region, Year) VALUES (?, ?, ?, ?)";
    InsertHead(p);
    VerbOfPlainHead(p, 6, t);
    p + t
  }

  /** The threshold report; a query whatever the table and the threshold. */
  function ThresholdQuery(table: string, n: int): (q: string)
    ensures Classify(q) == Some(Query)
  {
    var p := "SELECT Country \n                FROM ";
    var t := table + " \n                WHERE GDP_USD_billion >= " + IntToString(n);
    ThresholdHead(p);
    VerbOfPlainHead(p, 6, t);
    p + t
  }

  /** The ranked report; it starts with WITH and so is a query. */
  function RankedMeanQuery(table: string, n: int): (q: string)
    ensures Classify(q) == Some(Query)
  {
    var p := "WITH Ranked_";
    var t := table + RankedMeanBody(table, n);
    RankedHead(p);
    VerbOfPlainHead(p, 4, t);
    p + t
  }

  /** The ranked report after the name of its common table expression. */
  function RankedMeanBody(table: string, n: int): string {
    " AS (\n"
      + "                    SELECT *\n"
      + "                        , RANK() OVER(PARTITION BY Region ORDER BY GDP_USD_billion DESC) AS Rank_Per_Region\n"
      + "                    FROM " + table + "\n"
      + "                )\n"
      + "                SELECT Region, AVG(GDP_USD_billion) AS Mean_GDP\n"
      + "                FROM Ranked_" + table + "\n"
      + "                WHERE Rank_Per_Region <= " + IntToString(n) + "\n"
      + "                GROUP BY Region\n"
      + "                ORDER BY Mean_GDP DESC\n"
      + "            "
  }

  /** The head of the insert: plain text whose first word is INSERT. */
  lemma {:induction false} InsertHead(p: string)
    requires p == "INSERT INTO "
    ensures PlainText(p) && NoSpace(p[..6]) && p[6] == ' ' && KindOf(Upper(p[..6])) == Insert
  {
    assert p[..6] == "INSERT";
    assert NoSpace("INSERT");
    KindOfVerb(p[..6]);
  }

  /** The head of the threshold report: plain text whose first word is SELECT. */
  lemma {:induction false} ThresholdHead(p: string)
    requires p == "SELECT Country \n                FROM "
    ensures PlainText(p) && NoSpace(p[..6]) && p[6] == ' ' && KindOf(Upper(p[..6])) == Query
  {
    ThresholdPlain(p);
    assert p[..6] == "SELECT";
    assert NoSpace("SELECT");
    KindOfVerb(p[..6]);
  }

  lemma {:induction false} ThresholdPlain(p: string)
    requires p == "SELECT Country \n                FROM "
    ensures PlainText(p)
  {
    var a, b := "SELECT Country \n", "                FROM ";
    assert p == a + b;
    assert PlainText(a);
    assert PlainText(b);
    PlainTextAppend(a, b);
  }

  /** The head of the ranked report: plain text whose first word is WITH. */
  lemma {:induction false} RankedHead(p: string)
    requires p == "WITH Ranked_"
    ensures PlainText(p) && NoSpace(p[..4]) && p[4] == ' ' && KindOf(Upper(p[..4])) == Query
  {
    assert p[..4] == "WITH";
    assert NoSpace("WITH");
    KindOfVerb(p[..4]);
  }

  // ---------------------------------------------------------------------------------------
  // Load
  // ---------------------------------------------------------------------------------------

  /**
    `merged_df[['Country', 'GDP', 'Region', 'Year']].values.tolist()` for one merged row; an
    absent region is a NaN, which the store binds as NULL.
  */
  function BatchRow(e: EnrichedRecord): (row: Row)
    ensures Storable(row) <==> e.region.Some?
  {
    [TextValue(e.record.country), RealValue(e.record.gdpBillion),
     if e.region.Some? then TextValue(e.region.value) else Null, IntValue(e.record.year)]
  }

  function BatchRows(merged: seq<EnrichedRecord>): (rows: seq<Row>)
    ensures |rows| == |merged|
    ensures forall i :: 0 <= i < |merged| ==> rows[i] == BatchRow(merged[i])
  {
    seq(|merged|, i requires 0 <= i < |merged| => BatchRow(merged[i]))
  }

  /** Every record's country has a reference entry. */
  predicate AllMatched(records: seq<CleanRecord>, reference: seq<RegionEntry>) {
    forall rec :: rec in records ==> HasEntry(reference, rec.country)
  }

  /** Every merged row has a region. */
  predicate AllRegions(merged: seq<EnrichedRecord>) {
    forall i :: 0 <= i < |merged| ==> merged[i].region.Some?
  }

  /** Every GDP record has a region exactly when every merged row has one. */
  lemma {:induction false} LeftJoinAllMatched(records: seq<CleanRecord>, reference: seq<RegionEntry>)
    ensures AllRegions(LeftJoin(records, reference)) <==> AllMatched(records, reference)
  {
    var merged := LeftJoin(records, reference);
    if forall rec :: rec in records ==> HasEntry(reference, rec.country) {
      forall i | 0 <= i < |merged| ensures merged[i].region.Some? {
        LeftJoinRows(records, reference, merged[i]);
      }
    }
    if forall i :: 0 <= i < |merged| ==> merged[i].region.Some? {
      forall rec | rec in records ensures HasEntry(reference, rec.country) {
        LeftJoinKeeps(records, reference, rec);
        var e :| e in merged && e.record == rec;
        LeftJoinRows(records, reference, e);
      }
    }
  }

  /** The table rows of the merged records, given that every one has a region. */
  function StoredMerged(merged: seq<EnrichedRecord>, first: int): (r: seq<StoredRow>)
    requires AllRegions(merged)
    ensures |r| == |merged|
    ensures forall i :: 0 <= i < |merged| ==>
      r[i] == StoredRow(first + i, merged[i].record.country, merged[i].record.gdpBillion,
                        merged[i].region.value, merged[i].record.year)
  {
    StoredBatch(BatchRows(merged), first)
  }

  /** The load can succeed: there is a record, and every record's country is in the corrected reference. */
  predicate Loadable(records: seq<CleanRecord>, reference: seq<RegionEntry>)
    ensures Loadable(records, reference) <==>
      Accepted(BatchRows(LeftJoin(records, CorrectAliases(reference))))
  {
    var merged := LeftJoin(records, CorrectAliases(reference));
    LeftJoinAllMatched(records, CorrectAliases(reference));
    BatchAccepted(records, merged, BatchRows(merged));
    |records| > 0 && AllMatched(records, CorrectAliases(reference))
  }

  /**
    `load_gdp_data`: correct the reference names, merge, and insert the batch. When every
    record found a region (and there is at least one), the table gains exactly the merged rows
    with consecutive ids, and the executor returns the cursor's last row id, which
    `executemany` leaves `None`; otherwise the table is unchanged and the executor returns
    `None` for the store error. `r` is the executor's result, which `load_gdp_data` itself
    discards.
  */
  method LoadGdpData(records: seq<CleanRecord>, reference: seq<RegionEntry>, dbPath: string,
                     tableName: string, table: GdpTable)
    returns (r: RunResult)
    requires table.Valid()
    modifies table
    ensures table.Valid()
    ensures Loadable(records, reference) ==>
      var merged := LeftJoin(records, CorrectAliases(reference));
      AllRegions(merged) &&
      table.rows == old(table.rows) + StoredMerged(merged, old(table.nextId)) &&
      table.nextId == old(table.nextId) + |merged| &&
      r == LastRowId(None)
    ensures !Loadable(records, reference) ==>
      table.rows == old(table.rows) && table.nextId == old(table.nextId) && r == NoValue
  {
    var corrected := CorrectAliases(reference);
    var merged := LeftJoin(records, corrected);
    var data := BatchRows(merged);
    LeftJoinAllMatched(records, corrected);
    BatchAccepted(records, merged, data);
    r := InsertRows(dbPath, tableName, InsertQuery(tableName), data, table);
  }

  /**
    The insert of `load_gdp_data` on the batch rows: through the executor, the store accepts a
    non-empty batch with no NULL and the executor returns the cursor's last row id, still
    `None` after `executemany`; any other batch leaves the table as it was and the executor
    returns `None` for the store error.
  */
  method InsertRows(dbPath: string, tableName: string, query: string, data: seq<Row>, table: GdpTable)
    returns (r: RunResult)
    requires Classify(query) == Some(Insert)
    requires table.Valid()
    modifies table
    ensures table.Valid()
    ensures Accepted(data) ==>
      table.rows == old(table.rows) + StoredBatch(data, old(table.nextId)) &&
      table.nextId == old(table.nextId) + |data| &&
      r == LastRowId(None)
    ensures !Accepted(data) ==>
      table.rows == old(table.rows) && table.nextId == old(table.nextId) && r == NoValue
  {
    var out := table.InsertBatch(data);
    r := RunInsert(dbPath, tableName, query, data, out);
    assert out.Executed? <==> Accepted(data);
  }

  /**
    An INSERT through the executor, given what the store reported for it: `None` on a store
    error, the cursor's last row id otherwise.
  */
  method RunInsert(dbPath: string, tableName: string, query: string, data: seq<Row>, out: CursorOutcome)
    returns (r: RunResult)
    requires Classify(query) == Some(Insert)
    ensures out.StoreError? ==> r == NoValue
    ensures out.Executed? ==> r == LastRowId(out.lastRowId)
  {
    var executor := new SqlExecutor(dbPath, Some(tableName));
    var engine := (_: StoreCall) => out;
    assert engine(CallFor(query, data)) == out;
    var committed;
    r, committed := executor.RunSql(query, data, engine);
  }

  /** The store accepts the batch exactly when it is non-empty and every merged row has a region. */
  lemma {:induction false} BatchAccepted(records: seq<CleanRecord>, merged: seq<EnrichedRecord>, data: seq<Row>)
    requires |merged| >= |records| && (records == [] ==> merged == [])
    requires data == BatchRows(merged)
    ensures Accepted(data) <==> |records| > 0 && AllRegions(merged)
  {
    if !AllRegions(merged) {
      var i :| 0 <= i < |merged| && merged[i].region.None?;
      assert !Storable(data[i]);
    }
  }

  // ---------------------------------------------------------------------------------------
  // Reports
  // ---------------------------------------------------------------------------------------

  function CountryRows(countries: seq<string>): (rows: seq<Row>)
    ensures |rows| == |countries|
    ensures forall i :: 0 <= i < |countries| ==> rows[i] == [TextValue(countries[i])]
  {
    seq(|countries|, i requires 0 <= i < |countries| => [TextValue(countries[i])])
  }

  function MeanRows(means: seq<RegionMean>): (rows: seq<Row>)
    ensures |rows| == |means|
    ensures forall i :: 0 <= i < |means| ==> rows[i] == [TextValue(means[i].region), RealValue(means[i].mean)]
  {
    seq(|means|, i requires 0 <= i < |means| => [TextValue(means[i].region), RealValue(means[i].mean)])
  }

  /** A report through the executor: a query's answer rows are fetched and returned as they are. */
  method FetchAll(dbPath: string, query: string, answer: seq<Row>) returns (r: RunResult)
    requires Classify(query) == Some(Query)
    ensures r == Rows(answer)
  {
    var executor := new SqlExecutor(dbPath, None);
    var committed;
    r, committed := executor.RunSql(query, [], _ => Executed(answer, None, -1));
  }

  /** `get_country_upper_n`: the rows it prints are the countries with GDP at least `n`. */
  method GetCountryUpperN(dbPath: string, tableName: string, table: GdpTable, n: int) returns (r: RunResult)
    ensures r == Rows(CountryRows(CountriesAtOrAbove(table.rows, n)))
  {
    r := FetchAll(dbPath, ThresholdQuery(tableName, n), CountryRows(CountriesAtOrAbove(table.rows, n)));
  }

  /** `topN_mean_gdp_by_region`: the rows it prints are the ranked query's answer. */
  method TopNMeanGdpByRegion(dbPath: string, tableName: string, table: GdpTable, n: int)
    returns (r: RunResult)
    ensures r == Rows(MeanRows(TopNMeanByRegion(table.rows, n)))
  {
    r := FetchAll(dbPath, RankedMeanQuery(tableName, n), MeanRows(TopNMeanByRegion(table.rows, n)));
  }

  /**
    `ETL` after extraction: transform, then load. A failed conversion stops the run before the
    store is touched; otherwise the transformed records are loaded as `LoadGdpData` states.
    On success `r` carries the executor's result of the load, which `ETL` itself discards.
  */
  method Etl(raw: seq<RawRow>, reference: seq<RegionEntry>, dbPath: string, tableName: string,
             table: GdpTable)
    returns (r: Result<RunResult, TransformError>)
    requires table.Valid()
    modifies table
    ensures table.Valid()
    ensures Transform(raw).Err? ==>
      r == Err(Transform(raw).error) && table.rows == old(table.rows) && table.nextId == old(table.nextId)
    ensures Transform(raw).Ok? && Loadable(Transform(raw).value, reference) ==>
      var merged := LeftJoin(Transform(raw).value, CorrectAliases(reference));
      AllRegions(merged) &&
      table.rows == old(table.rows) + StoredMerged(merged, old(table.nextId)) &&
      table.nextId == old(table.nextId) + |merged| &&
      r == Ok(LastRowId(None))
    ensures Transform(raw).Ok? && !Loadable(Transform(raw).value, reference) ==>
      table.rows == old(table.rows) && table.nextId == old(table.nextId) && r == Ok(NoValue)
  {
    var transformed := Transform(raw);
    if transformed.Err? {
      return Err(transformed.error);
    }
    var loaded := LoadGdpData(transformed.value, reference, dbPath, tableName, table);
    r := Ok(loaded);
  }
}
