# GDP ETL — a Dafny model

This project models the core of two small extract–transform–load scripts. Both scripts scrape the
nominal-GDP table of countries.

`etl_project_gdp_with_sql.py` works in four steps:

- It cleans the scraped table: drops "World" and rows with a missing figure, strips the
  footnotes from the year, converts the columns, scales to billions and sorts by GDP.
- It attaches a region to every country by a left merge with a region reference that has three
  names corrected.
- It stores the rows in a SQLite table through a small statement executor (`SQLExecutor`). The
  executor strips SQL comments, cleans the statement, runs it and shapes the answer by the
  statement's first word.
- It answers two reports:
  - the countries with GDP of at least `n` billion;
  - per region, the mean GDP of the countries ranked at most `n` in that region, largest mean
    first.

`etl_project_gdp.py` contributes the row-parsing loop of its extraction step. The loop:

- skips header rows;
- skips "World" and rows without a GDP figure;
- strips bracketed notes from the year;
- deletes thousands separators from the GDP;
- stops with an error at the first row that does not convert.

In the model:

- Pure steps are functions over datatypes.
- The executor and the stored table are classes whose methods change state or return results.
- The extraction loop is a method with a loop, proved equal to a recursive specification
  function.
- sqlite is a parameter: a function from the call the executor makes to the outcome the store
  reports. The table is an in-memory class.
- Each report's answer is given by a reference definition in `GdpQueries`.

Modules, one file each:

| file | module | models |
|---|---|---|
| `wrappers.dfy` | `Wrappers` | `Option`, `Result` |
| `text.dfy` | `Text` | `str.strip`, `str.upper`, `int()` and `float()` on text, `str(int)` |
| `sql_text.dfy` | `SqlText` | `strip_sql_comments`, the cleaned statement, its first word and its kind |
| `sql_executor.dfy` | `SqlExecutor` | class `SQLExecutor`, `run_sql` |
| `gdp_transform.dfy` | `GdpTransform` | `transform_gdp_data` of the SQL pipeline |
| `gdp_enrich.dfy` | `GdpEnrich` | `get_region_info` name corrections, the left merge of `load_gdp_data` |
| `gdp_queries.dfy` | `GdpQueries` | what the two report queries mean on the stored rows |
| `gdp_store.dfy` | `GdpStore` | the `Countries_by_GDP` table and its batch insert |
| `gdp_etl.dfy` | `GdpEtl` | `load_gdp_data`, `get_country_upper_n`, `topN_mean_gdp_by_region`, `ETL` |
| `gdp_extract.dfy` | `GdpExtract` | the row loop of `extract_gdp_data` in the file pipeline |

Behaviour of the code that is easy to misread:

- `run_sql` executes a statement before it looks at the statement's verb. So an unsupported
  statement (such as `DROP`) still reaches the store, and only then yields `None`.
- Every statement that the store executes and that has a first word is committed when the
  `with` block exits normally. That includes queries and unsupported statements. INSERT,
  UPDATE, DELETE and CREATE are also committed explicitly before they return.
- The per-region mean is not rounded by the query.
- A cleaned statement that is empty has no first word, so `split()[0]` raises. That error is
  not a `sqlite3.Error`, so it leaves `run_sql`, and the `with` block rolls back. The model
  returns `EmptyStatement` in that case, after the store call, with no commit.
- A merged row without a region is bound as NULL, and the NOT NULL column refuses it. The whole
  `executemany` batch then fails and is rolled back, and `run_sql` returns `None`.
- `executemany` does not set the cursor's last row id, so a successful batch INSERT returns
  `None`, the value of a new cursor.
- An empty batch makes `if data:` false, so the statement runs without bindings. That fails in
  the store (placeholders without values), and `run_sql` returns `None`.

## Model

| member | source | states |
|---|---|---|
| Text.Trim | missions/W1/ETL/etl_project_gdp_with_sql.py:53 | the result is empty exactly when the input is all whitespace, and otherwise starts and ends with a non-space character |
| Text.TrimSpec | missions/W1/ETL/etl_project_gdp_with_sql.py:53 | `strip` keeps exactly the slice between the leading run of spaces and the trailing run of spaces |
| Text.TrimIdempotent | missions/W1/ETL/etl_project_gdp_with_sql.py:53 | stripping twice is stripping once |
| Text.TrimUnchanged | missions/W1/ETL/etl_project_gdp.py:37-39 | text that starts and ends with a non-space character is already stripped |
| Text.Upper | missions/W1/ETL/etl_project_gdp_with_sql.py:63 | `upper()` keeps the length and maps each character on its own |
| Text.TrimCaseEquiv | missions/W1/ETL/etl_project_gdp_with_sql.py:53 | stripping commutes with ignoring letter case |
| Text.NatToString | missions/W1/ETL/etl_project_gdp_with_sql.py:168 | the decimal digits that the f-string writes for a number denote that number |
| Text.ParseInt | missions/W1/ETL/etl_project_gdp_with_sql.py:126 | `int()` on text accepts only non-blank text |
| Text.ParseIntRoundTrip | missions/W1/ETL/etl_project_gdp_with_sql.py:126 | `int(str(x)) == x` for every integer, negative ones included |
| Text.ParseDecimal | missions/W1/ETL/etl_project_gdp_with_sql.py:125 | `float()` on text accepts only non-blank text |
| Text.ParseDecimalExtendsParseInt | missions/W1/ETL/etl_project_gdp_with_sql.py:125 | text that `int()` accepts is accepted by `float()` with the same value |
| Text.ParseDecimalFraction | missions/W1/ETL/etl_project_gdp_with_sql.py:125 | digits, a point and digits convert to the whole part plus the fraction digits over ten to the power of their count |
| SqlText.StripLineComments | missions/W1/ETL/etl_project_gdp_with_sql.py:46 | deleting `--` comments leaves no `--`, keeps every newline and never lengthens the text |
| SqlText.StripLineCommentsOfLine | missions/W1/ETL/etl_project_gdp_with_sql.py:46 | on one line, `--.*` deletes from the first `--` up to the line's end, and the later lines are handled alike |
| SqlText.StripLineCommentsUnchanged | missions/W1/ETL/etl_project_gdp_with_sql.py:46 | text without `--` is left as it is |
| SqlText.StripBlockComments | missions/W1/ETL/etl_project_gdp_with_sql.py:48 | deleting `/* ... */` comments never lengthens the text |
| SqlText.StripBlockCommentsRemoves | missions/W1/ETL/etl_project_gdp_with_sql.py:48 | a `/* ... */` comment is deleted up to its first closer, across newlines |
| SqlText.StripBlockCommentsUnterminated | missions/W1/ETL/etl_project_gdp_with_sql.py:48 | an opener without a closer is kept as text |
| SqlText.StripBlockCommentsUnchanged | missions/W1/ETL/etl_project_gdp_with_sql.py:48 | text without `/*` is left as it is |
| SqlText.StripSqlComments | missions/W1/ETL/etl_project_gdp_with_sql.py:44-49 | the two deletions in a row, line comments first, never lengthen the statement |
| SqlText.Cleaned | missions/W1/ETL/etl_project_gdp_with_sql.py:53 | the statement `run_sql` executes is no longer than the query and is empty or begins and ends with a non-space character |
| SqlText.StripSqlCommentsUnchanged | missions/W1/ETL/etl_project_gdp_with_sql.py:44-49 | a statement with no comment markers is returned unchanged |
| SqlText.StripSqlCommentsPrefix | missions/W1/ETL/etl_project_gdp_with_sql.py:44-49 | a leading stretch with no `-` and no `/` passes through the comment stripping untouched |
| SqlText.FirstToken | missions/W1/ETL/etl_project_gdp_with_sql.py:63 | `split()[0]` is absent exactly when the text is all whitespace, and is otherwise a non-empty run without spaces |
| SqlText.FirstTokenOf | missions/W1/ETL/etl_project_gdp_with_sql.py:63 | a word followed by a space or the end is the first token |
| SqlText.Verb | missions/W1/ETL/etl_project_gdp_with_sql.py:53-63 | the verb is absent exactly when the cleaned statement is empty |
| SqlText.VerbOfPlainStatement | missions/W1/ETL/etl_project_gdp_with_sql.py:53-63 | a statement that opens with a word and plain text has that word, upper-cased, as its verb, whatever follows |
| SqlText.VerbOfPlainHead | missions/W1/ETL/etl_project_gdp_with_sql.py:53-63 | the same, for a given plain head whose first word ends at a space |
| SqlText.VerbCaseInsensitive | missions/W1/ETL/etl_project_gdp_with_sql.py:63 | two statements that differ only in letter case have the same verb |
| SqlText.VerbOfCleaned | missions/W1/ETL/etl_project_gdp_with_sql.py:63 | the verb is the upper-cased first word of the cleaned statement |
| SqlText.KindOf | missions/W1/ETL/etl_project_gdp_with_sql.py:63-76 | SELECT and WITH are exactly the queries, INSERT exactly the inserts, UPDATE, DELETE and CREATE exactly the other committed statements, and every other verb is unsupported |
| SqlText.Classify | missions/W1/ETL/etl_project_gdp_with_sql.py:63-76 | a statement has no kind exactly when its cleaned text is empty; it is a query exactly when its verb is SELECT or WITH, an insert exactly when it is INSERT, and a committed mutation exactly when it is UPDATE, DELETE or CREATE |
| SqlText.KindOfVerb | missions/W1/ETL/etl_project_gdp_with_sql.py:65-74 | SELECT and WITH fetch, INSERT inserts, and an unlisted verb such as DROP is unsupported |
| SqlText.SelectWithLineComment | missions/W1/ETL/etl_project_gdp_with_sql.py:44-65 | a SELECT with a trailing line comment is cleaned to the bare statement and classified as a query |
| SqlText.DropIsUnsupported | missions/W1/ETL/etl_project_gdp_with_sql.py:74-76 | a DROP with a block comment inside has verb DROP and is unsupported |
| SqlExecutor.CallFor | missions/W1/ETL/etl_project_gdp_with_sql.py:53-61 | the store receives the cleaned statement, through `executemany` with the bindings exactly when there are bindings |
| SqlExecutor.SqlExecutor.constructor | missions/W1/ETL/etl_project_gdp_with_sql.py:19-21 | the executor keeps the store location and the optional table name |
| SqlExecutor.SqlExecutor.RunSql | missions/W1/ETL/etl_project_gdp_with_sql.py:51-79 | a store error gives `None`; otherwise a query gives the fetched rows, INSERT gives the last row id, UPDATE/DELETE/CREATE give the row count, an unsupported verb gives `None`, and a commit happens exactly when the store executed the statement and it has a first word: the explicit commit for INSERT/UPDATE/DELETE/CREATE, and the `with` block's commit on normal exit for the rest |
| GdpTransform.DropWorld | missions/W1/ETL/etl_project_gdp_with_sql.py:118 | every row whose country is not "World" is kept as often as it occurs, and no other row is |
| GdpTransform.DropWorldAppend | missions/W1/ETL/etl_project_gdp_with_sql.py:118 | the filter keeps table order: filtering two pieces and joining them is filtering the whole |
| GdpTransform.DropMissing | missions/W1/ETL/etl_project_gdp_with_sql.py:121 | every row whose GDP and year are both not "—" is kept as often as it occurs, and no other row is |
| GdpTransform.DropMissingAppend | missions/W1/ETL/etl_project_gdp_with_sql.py:121 | the filter keeps table order |
| GdpTransform.Kept | missions/W1/ETL/etl_project_gdp_with_sql.py:118-121 | the rows that reach the conversions are the retained input rows, each as often as it occurs |
| GdpTransform.KeptAppend | missions/W1/ETL/etl_project_gdp_with_sql.py:118-121 | the kept rows of two pieces of the table, joined, are the kept rows of the whole |
| GdpTransform.KeptSingle | missions/W1/ETL/etl_project_gdp_with_sql.py:118-121 | a single row is kept exactly when both filters retain it; with KeptAppend this fixes the kept rows in table order |
| GdpTransform.FootnoteOf | missions/W1/ETL/etl_project_gdp_with_sql.py:123 | `[word digits]` matches the footnote pattern over its whole length |
| GdpTransform.RemoveFootnotesDeletes | missions/W1/ETL/etl_project_gdp_with_sql.py:123 | a footnote is deleted and the text after it is handled the same way |
| GdpTransform.RemoveFootnotesUnchanged | missions/W1/ETL/etl_project_gdp_with_sql.py:123 | text without `[` is left as it is |
| GdpTransform.RemoveFootnotes | missions/W1/ETL/etl_project_gdp_with_sql.py:123 | deleting the footnotes never lengthens the text |
| GdpTransform.CleanYear | missions/W1/ETL/etl_project_gdp_with_sql.py:123 | the cleaned year is no longer than the cell and is empty or begins and ends with a non-space character |
| GdpTransform.CleanYearWithFootnote | missions/W1/ETL/etl_project_gdp_with_sql.py:123 | a year followed by a footnote is cleaned to the bare year |
| GdpTransform.YearFootnoteExample | missions/W1/ETL/etl_project_gdp_with_sql.py:123-126 | "2024[n 1]" converts to the year 2024 |
| GdpTransform.YearText | missions/W1/ETL/etl_project_gdp_with_sql.py:126 | "2024" converts to 2024 |
| GdpTransform.ConvertColumn | missions/W1/ETL/etl_project_gdp_with_sql.py:125-126 | `astype` succeeds exactly when every cell converts, with the values in order; otherwise it names the first cell that does not convert |
| GdpTransform.GdpColumn | missions/W1/ETL/etl_project_gdp_with_sql.py:125 | the GDP column converts exactly when every GDP cell does; a failure names an unconvertible cell |
| GdpTransform.YearColumn | missions/W1/ETL/etl_project_gdp_with_sql.py:126 | the same for the cleaned years |
| GdpTransform.Normalize | missions/W1/ETL/etl_project_gdp_with_sql.py:123-129 | a row becomes a record exactly when its GDP and cleaned year convert |
| GdpTransform.Records | missions/W1/ETL/etl_project_gdp_with_sql.py:129 | the GDP is scaled from millions to billions, row by row |
| GdpTransform.InsertByGdp | missions/W1/ETL/etl_project_gdp_with_sql.py:132 | inserting into a list sorted by GDP keeps it sorted and adds exactly that record |
| GdpTransform.SortByGdpDesc | missions/W1/ETL/etl_project_gdp_with_sql.py:132 | the result is sorted largest GDP first and is a permutation of the input |
| GdpTransform.TransformSucceeds | missions/W1/ETL/etl_project_gdp_with_sql.py:114-135 | the transform succeeds exactly when every kept row's GDP and cleaned year convert |
| GdpTransform.TransformGdpError | missions/W1/ETL/etl_project_gdp_with_sql.py:125 | a GDP failure names the GDP cell of a kept row that does not convert |
| GdpTransform.TransformYearError | missions/W1/ETL/etl_project_gdp_with_sql.py:125-126 | a year failure happens only after every GDP converted, and names a kept row's cleaned year that does not convert |
| GdpTransform.Transform | missions/W1/ETL/etl_project_gdp_with_sql.py:114-135 | on success the records are sorted by GDP, largest first, one per kept row |
| GdpTransform.TransformOk | missions/W1/ETL/etl_project_gdp_with_sql.py:114-135 | on success the records are sorted by GDP, largest first, and are exactly the kept rows normalized, as a permutation |
| GdpTransform.NormalizedAll | missions/W1/ETL/etl_project_gdp_with_sql.py:123-129 | each convertible row, in order, as its normalized record |
| GdpTransform.TransformKeepsCountries | missions/W1/ETL/etl_project_gdp_with_sql.py:118-132 | every output record is a retained input row normalized, with its country unchanged and never "World" |
| GdpEnrich.Rename | missions/W1/ETL/etl_project_gdp_with_sql.py:143 | one `.loc` renaming replaces exactly the matching names and keeps regions and order |
| GdpEnrich.CorrectedName | missions/W1/ETL/etl_project_gdp_with_sql.py:141-147 | no corrected name is one of the three old names, and a name either stays or becomes one of the three new names |
| GdpEnrich.CorrectAliases | missions/W1/ETL/etl_project_gdp_with_sql.py:141-147 | the corrected reference keeps its length and regions, and no entry keeps an old name |
| GdpEnrich.CorrectAliasesIsCorrectedName | missions/W1/ETL/etl_project_gdp_with_sql.py:141-147 | the three renamings in a row correct every name independently, and regions and order stay as they were |
| GdpEnrich.CorrectedNameIdempotent | missions/W1/ETL/etl_project_gdp_with_sql.py:143-145 | no corrected name is corrected again |
| GdpEnrich.CorrectAliasesIdempotent | missions/W1/ETL/etl_project_gdp_with_sql.py:143-145 | correcting the reference twice is correcting it once |
| GdpEnrich.CorrectedNameIdentity | missions/W1/ETL/etl_project_gdp_with_sql.py:143-145 | every other name is left alone |
| GdpEnrich.RegionsOf | missions/W1/ETL/etl_project_gdp_with_sql.py:155 | the matching regions are exactly the reference's regions for that country, and there are none exactly when the country has no entry |
| GdpEnrich.JoinRecord | missions/W1/ETL/etl_project_gdp_with_sql.py:155 | a record yields one merged row per matching entry, carrying that entry's region, in reference order, or one row without a region when nothing matches |
| GdpEnrich.LeftJoin | missions/W1/ETL/etl_project_gdp_with_sql.py:155 | a left merge has at least as many rows as the left side, and none exactly when the left side is empty |
| GdpEnrich.LeftJoinAppend | missions/W1/ETL/etl_project_gdp_with_sql.py:155 | the merge keeps the left order: it is each left record's block of merged rows, one after the other |
| GdpEnrich.LeftJoinComplete | missions/W1/ETL/etl_project_gdp_with_sql.py:155 | every reference entry matching a left record gives that record a merged row with the entry's region |
| GdpEnrich.LeftJoinRows | missions/W1/ETL/etl_project_gdp_with_sql.py:155 | every merged row comes from a left record; its region is absent exactly when the country has no entry, and is otherwise one of the country's regions |
| GdpEnrich.LeftJoinKeeps | missions/W1/ETL/etl_project_gdp_with_sql.py:155 | every left record appears in the merge |
| GdpEnrich.LeftJoinOneToOne | missions/W1/ETL/etl_project_gdp_with_sql.py:155 | with one entry per country, the merge keeps the left records one to one and in order |
| GdpEnrich.CzechiaJoins | missions/W1/ETL/etl_project_gdp_with_sql.py:143-155 | the "Czech Republic" record finds the region listed under "Czechia" |
| GdpQueries.AtOrAbove | missions/W1/ETL/etl_project_gdp_with_sql.py:166-168 | `WHERE GDP_USD_billion >= n` selects every row at or above the threshold as often as it is stored, and no other row |
| GdpQueries.AtOrAboveAppend | missions/W1/ETL/etl_project_gdp_with_sql.py:166-168 | the selection keeps the stored order, the order in which SQLite scans this table |
| GdpQueries.CountriesAtOrAbove | missions/W1/ETL/etl_project_gdp_with_sql.py:166-168 | one country per selected row, in stored order; the countries returned are exactly those of the rows whose GDP is at least `n` |
| GdpQueries.CountriesAtOrAboveAll | missions/W1/ETL/etl_project_gdp_with_sql.py:166-168 | when every row qualifies, every country is returned in stored order |
| GdpQueries.RankKept | missions/W1/ETL/etl_project_gdp_with_sql.py:176-183 | every row whose `RANK()` within its region is at most `n` is kept as often as it occurs, and no other row is |
| GdpQueries.RankKeptAppend | missions/W1/ETL/etl_project_gdp_with_sql.py:176-183 | the rank filter keeps table order |
| GdpQueries.RankKeptAll | missions/W1/ETL/etl_project_gdp_with_sql.py:176-183 | rows that all rank within the cut-off are all kept, in order |
| GdpQueries.GreaterInRegion | missions/W1/ETL/etl_project_gdp_with_sql.py:178 | the rows that beat a GDP in a region are at most all the rows |
| GdpQueries.Rank | missions/W1/ETL/etl_project_gdp_with_sql.py:178 | a `RANK()` is at least 1 and at most one more than the number of rows |
| GdpQueries.RankOrder | missions/W1/ETL/etl_project_gdp_with_sql.py:178 | within a region a larger GDP has a smaller rank |
| GdpQueries.RankTie | missions/W1/ETL/etl_project_gdp_with_sql.py:178 | equal GDPs in a region share a rank |
| GdpQueries.RankAtMostRegionSize | missions/W1/ETL/etl_project_gdp_with_sql.py:178 | a rank never exceeds the number of rows in its region |
| GdpQueries.TopOfRegion | missions/W1/ETL/etl_project_gdp_with_sql.py:178 | every non-empty region has a row of largest GDP |
| GdpQueries.RegionHasRankOne | missions/W1/ETL/etl_project_gdp_with_sql.py:178 | every non-empty region has a row of rank 1 |
| GdpQueries.TiesExceedCutoff | missions/W1/ETL/etl_project_gdp_with_sql.py:178-183 | three rows tied at the top are all kept under `n = 1`: `RANK()` leaves gaps, so ties may exceed the cut-off |
| GdpQueries.Regions | missions/W1/ETL/etl_project_gdp_with_sql.py:184 | `GROUP BY Region` forms one group per region present, with no repeats |
| GdpQueries.Groups | missions/W1/ETL/etl_project_gdp_with_sql.py:181-184 | each group carries the mean GDP of its region's kept rows |
| GdpQueries.InsertByMean | missions/W1/ETL/etl_project_gdp_with_sql.py:185 | inserting into a list sorted by mean keeps it sorted and adds exactly that group |
| GdpQueries.SortByMeanDesc | missions/W1/ETL/etl_project_gdp_with_sql.py:185 | `ORDER BY Mean_GDP DESC` gives a permutation of the groups, largest mean first |
| GdpQueries.SortByMeanDescDistinct | missions/W1/ETL/etl_project_gdp_with_sql.py:184-185 | ordering does not create repeated regions |
| GdpQueries.TopNMeanByRegion | missions/W1/ETL/etl_project_gdp_with_sql.py:176-186 | the ranked report is sorted by mean, largest first, with one group per region that has a row of rank at most `n` |
| GdpQueries.TopNMeanByRegionSpec | missions/W1/ETL/etl_project_gdp_with_sql.py:176-186 | the ranked report is sorted by mean, has each region once, and each mean is the average GDP of that region's rows of rank at most `n` |
| GdpQueries.TopNMeanByRegionFrom | missions/W1/ETL/etl_project_gdp_with_sql.py:176-186 | every reported region has a stored row of rank at most `n` |
| GdpQueries.TopNMeanByRegionCovers | missions/W1/ETL/etl_project_gdp_with_sql.py:176-186 | every region with a row of rank at most `n` is reported |
| GdpQueries.EveryRegionAnswered | missions/W1/ETL/etl_project_gdp_with_sql.py:176-186 | for `n >= 1` every stored region is reported |
| GdpStore.StoredBatch | missions/W1/ETL/etl_project_gdp_with_sql.py:31-37 | the batch rows become table rows with consecutive AUTOINCREMENT ids in batch order |
| GdpStore.Accepted | missions/W1/ETL/etl_project_gdp_with_sql.py:29-39 | the store takes a batch exactly when it is non-empty and every row in it fills every NOT NULL column |
| GdpStore.GdpTable.constructor | missions/W1/ETL/etl_project_gdp_with_sql.py:29-39 | a new table is empty and hands out id 1 first |
| GdpStore.GdpTable.InsertBatch | missions/W1/ETL/etl_project_gdp_with_sql.py:31-37 | an empty batch or a row with a NULL fails and leaves the table as it was; otherwise the table gains exactly the batch with consecutive ids, the row count is the batch size, the last row id stays `None` as `executemany` leaves it, and ids stay increasing |
| GdpEtl.InsertQuery | missions/W1/ETL/etl_project_gdp_with_sql.py:157 | the insert statement is an INSERT whatever the table is called |
| GdpEtl.ThresholdQuery | missions/W1/ETL/etl_project_gdp_with_sql.py:166-168 | the threshold report is a query for every table and threshold |
| GdpEtl.RankedMeanQuery | missions/W1/ETL/etl_project_gdp_with_sql.py:176-186 | the ranked report starts with WITH and is a query for every table and `n` |
| GdpEtl.BatchRow | missions/W1/ETL/etl_project_gdp_with_sql.py:158 | a merged row binds without NULL exactly when it has a region |
| GdpEtl.BatchRows | missions/W1/ETL/etl_project_gdp_with_sql.py:158 | `values.tolist()` gives one binding row per merged row, in order |
| GdpEtl.LeftJoinAllMatched | missions/W1/ETL/etl_project_gdp_with_sql.py:155 | every merged row has a region exactly when every record's country has a reference entry |
| GdpEtl.BatchAccepted | missions/W1/ETL/etl_project_gdp_with_sql.py:155-159 | the store takes the batch exactly when there is a record and every merged row has a region |
| GdpEtl.Loadable | missions/W1/ETL/etl_project_gdp_with_sql.py:149-161 | the load succeeds exactly when the store accepts the batch built from the merge with the corrected reference |
| GdpEtl.StoredMerged | missions/W1/ETL/etl_project_gdp_with_sql.py:158 | each merged row becomes a table row with its country, GDP, region and year and the next id |
| GdpEtl.LoadGdpData | missions/W1/ETL/etl_project_gdp_with_sql.py:149-161 | when there is a record and every record finds a region, the table gains exactly the merged rows with consecutive ids and the executor's result is the cursor's last row id, `None` after `executemany`; otherwise the table is unchanged and the executor's result is `None` |
| GdpEtl.InsertRows | missions/W1/ETL/etl_project_gdp_with_sql.py:157-159 | through the executor, an accepted batch is stored and yields the last row id `None` that `executemany` leaves; any other batch leaves the table unchanged and yields `None` |
| GdpEtl.RunInsert | missions/W1/ETL/etl_project_gdp_with_sql.py:59-79 | an INSERT gives `None` on a store error and the cursor's last row id otherwise |
| GdpEtl.FetchAll | missions/W1/ETL/etl_project_gdp_with_sql.py:65-67 | a query returns the store's answer rows as they are |
| GdpEtl.GetCountryUpperN | missions/W1/ETL/etl_project_gdp_with_sql.py:163-171 | the result is exactly the countries with GDP at least `n` |
| GdpEtl.TopNMeanGdpByRegion | missions/W1/ETL/etl_project_gdp_with_sql.py:173-189 | the result is the ranked report's rows of region and mean |
| GdpEtl.Etl | missions/W1/ETL/etl_project_gdp_with_sql.py:195-198 | a failed transform stops the run with its error before the store is touched; after a successful one, when there is a record and every record finds a region, the table gains exactly the merged rows with consecutive ids and the load's executor result is the last row id `None`, and otherwise the table is unchanged and that result is `None` |
| GdpExtract.CloserIndex | missions/W1/ETL/etl_project_gdp.py:45 | the lazy `.*?\]` ends at the first `]` on the same line, or there is none |
| GdpExtract.RemoveBracketsPrefix | missions/W1/ETL/etl_project_gdp.py:45 | text before the first `[` is kept as it is |
| GdpExtract.RemoveBracketsNote | missions/W1/ETL/etl_project_gdp.py:45 | a bracketed note on one line is deleted and the rest is handled alike |
| GdpExtract.RemoveBrackets | missions/W1/ETL/etl_project_gdp.py:45 | deleting the bracketed notes never lengthens the text |
| GdpExtract.DeleteCommas | missions/W1/ETL/etl_project_gdp.py:48 | `replace(',', '')` leaves no comma and never lengthens the text |
| GdpExtract.DeleteCommasAppend | missions/W1/ETL/etl_project_gdp.py:48 | deleting commas works piece by piece |
| GdpExtract.GdpTextRoundTrip | missions/W1/ETL/etl_project_gdp.py:48 | every whole number written with thousands separators converts back to itself |
| GdpExtract.GdpCommaExample | missions/W1/ETL/etl_project_gdp.py:48 | "2,500" converts to 2500 |
| GdpExtract.YearWithNote | missions/W1/ETL/etl_project_gdp.py:45 | a year followed by a bracketed note converts to that year |
| GdpExtract.YearNoteExample | missions/W1/ETL/etl_project_gdp.py:45 | "2024[d 1]" converts to 2024 |
| GdpExtract.ParseRow | missions/W1/ETL/etl_project_gdp.py:32-50 | a parsed row has at least three cells, its stripped country is not "World", and its GDP and year are the conversions of the cleaned cells; a missing cell is reported exactly for a row with one or two cells |
| GdpExtract.ParseRowAccepts | missions/W1/ETL/etl_project_gdp.py:37-50 | a row whose cells convert gives exactly that record |
| GdpExtract.ParseRowSkips | missions/W1/ETL/etl_project_gdp.py:34-42 | a row is skipped exactly when it has no cells, or its country is "World", or its GDP is "—" |
| GdpExtract.DashYearFails | missions/W1/ETL/etl_project_gdp.py:41-45 | a "—" year, which the skip test does not look at, fails the conversion |
| GdpExtract.Outcomes | missions/W1/ETL/etl_project_gdp.py:31-50 | every row's outcome, in order |
| GdpExtract.Collect | missions/W1/ETL/etl_project_gdp.py:31-50 | a result keeps at most one record per row |
| GdpExtract.Extracted | missions/W1/ETL/etl_project_gdp.py:30-50 | the whole table yields at most one record per row |
| GdpExtract.ExtractGdpData | missions/W1/ETL/etl_project_gdp.py:30-50 | the loop returns exactly the specification of the whole table |
| GdpExtract.CollectIsEmitted | missions/W1/ETL/etl_project_gdp.py:30-50 | the loop succeeds exactly when no row fails, and then gives the parsed records in row order |
| GdpExtract.CollectErrorIsFirst | missions/W1/ETL/etl_project_gdp.py:45-48 | a failure is the error of the first failing row |
| GdpExtract.SkippedRowIgnored | missions/W1/ETL/etl_project_gdp.py:34-42 | inserting a skipped row anywhere does not change the result |
| GdpExtract.ExtractedFromRows | missions/W1/ETL/etl_project_gdp.py:50 | every record returned comes from a row that parses to it |
| GdpExtract.WorldRowSkipped | missions/W1/ETL/etl_project_gdp.py:41-42 | the "World" row is skipped |
| GdpExtract.DashRowSkipped | missions/W1/ETL/etl_project_gdp.py:41-42 | a row with GDP "—" is skipped |
| GdpExtract.CountryRowParsed | missions/W1/ETL/etl_project_gdp.py:37-50 | a country row with separators and a note parses to its record |
| GdpExtract.TableExample | missions/W1/ETL/etl_project_gdp.py:30-50 | a table of header, "World", one country and a row without a figure yields just that country |

## Left out

- HTTP requests, HTML parsing and table selection (`requests`, BeautifulSoup, `pd.read_html`,
  column selection) are left out. Extraction in the SQL pipeline is taken as its result: rows of
  country, GDP and year text. In the file pipeline, the cells given to the row loop are their
  `get_text()` values.
- Logging, `print` of results and messages, the JSON file written by the file pipeline, and the
  clock are I/O and are left out.
- File creation for the database, the `CREATE TABLE` statement text and the `if table:` test in
  the constructor are left out. The table starts as an empty `GdpTable`.
- The connection's context manager is represented only by its effect on the commit: `RunSql`
  reports whether a commit happened. A rollback is the absence of a commit.
- `load_gdp_data` and `ETL` discard what `run_sql` returns, so in Python they return `None`.
  `LoadGdpData` and `Etl` return the executor's result so that their contracts can state it.
- The database path and table name are parameters. The `run()` thresholds 100 and 5 are
  arbitrary arguments `n`.
- GdpTransform.Records: the two-decimal rounding of the billions (`"{:.2f}".format`, then
  `float`) is floating-point formatting and is not modelled. The value kept is the exact
  quotient by 1000.
- The `transform_gdp_data` of the file pipeline (the same division with formatting) is not
  modelled, for the same reason.
- Text.ParseDecimal: covers the sign, digits and optional fraction of `float()`. It does not
  cover exponents, `inf`/`nan` or underscores.
- Text.ParseInt: covers the sign and ASCII digits of `int()`. It does not cover underscores or
  non-ASCII digits.
- GdpQueries.CountriesAtOrAbove: the threshold `SELECT` has no `ORDER BY`. The model returns the
  rows in stored order because SQLite scans this table in rowid order. SQL itself does not
  promise that order.
- Text.Trim: covers the ASCII whitespace of `str.isspace`: space, tab to carriage return, and
  the separators 0x1C to 0x1F. Non-ASCII whitespace that `str.strip` also removes (0x85,
  0xA0, the Unicode spaces) is out.
- Text.Upper: covers ASCII letters only.
- GdpTransform.FootnoteOf: `\w` and `\d` are taken as ASCII, while Python's default is
  Unicode.
- GdpTransform.SortByGdpDesc and GdpQueries.SortByMeanDesc: the model proves sorted and a
  permutation. It does not model the order pandas or sqlite give to equal keys, so ties may
  come out in a different order.
- GdpQueries.Groups: averages are exact real numbers. sqlite's floating-point `AVG` is not
  modelled, and neither is the order of groups before `ORDER BY`.
- GdpStore.GdpTable.InsertBatch: the text of sqlite's error messages is illustrative.
- SqlExecutor.SqlExecutor.RunSql: the model branches on the statement's kind. That is
  equivalent to the source's tests for membership in the verb lists.
- The store itself, sqlite's SQL engine, is not modelled. The model computes each report's
  answer from its reference definition over the stored rows, and hands the executor that
  answer.
- GdpExtract.CloserIndex: `.` in `\[.*?\]` does not match a newline. So a note that spans lines
  is not deleted, and the model keeps it.
