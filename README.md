# CSV event ingestion and MSISDN lookups, modelled in Dafny

The repository loads subscriber session events from a CSV file into a MySQL table `events`. It then serves them through authenticated HTTP endpoints keyed by MSISDN (a subscriber's phone number). This project models two parts of it and proves properties of the model:

- **Ingestion** (`server.js`, module `Ingest`).
  - `importCsvData` collects every parsed row and skips the database when the file has no rows.
  - Otherwise it hands all rows to `insertData`.
  - `insertData` turns each row into a 12-cell tuple in the INSERT's column order and issues one bulk `INSERT ... VALUES ?`.
  - Null policy: the two bitrate fields become NULL when empty or not a number. The four session fields become NULL only when empty. The other six fields pass through untouched.
  - The run is a method that returns its trace of effects. The effects are console lines, the INSERT call and a process crash.
- **Lookups** (`getmsisdn.js`, modules `Endpoints`, `Selection`, `Projection`, `SqlText`).
  - For each of the five endpoints the model covers the request check, the statement's tokens and parameter list, and the answer: 400, 404, 500 or rows.
  - The SQL statements are given a meaning over the table `seq<Event>`:
    - the `IN` / `=` filters;
    - the latest-per-MSISDN group-max join;
    - `DISTINCT`;
    - `LIKE '%term%'`;
    - `LIMIT`/`OFFSET`.
  - Each meaning is proved against a direct description.

Supporting modules:

- `Schema`: the `events` table (server.js:76-89) and its typed cells.
- `Lex`: the string order behind `MAX(timestamp)`; `timestamp` is a VARCHAR.
- `Options`: the option type.

Main results:

- The join returns exactly the matching rows whose timestamp is the greatest among the matching rows of the same MSISDN, ties included (`Selection.GroupMaxJoinMeaning`).
- Every statement carries as many `?` placeholders as it has parameters.
- The two column projections never mix attribute sets.
- Only a read error on the file stream crashes the importer. The `## Findings` section says why.

Things that come from outside the code are modelled as parameters:

- The CSV stream: a finite list of rows plus how the stream ended.
- The database's answer: rows, or a failure.
- JavaScript's `isNaN`/`parseFloat` (`Ingest.NumberReader`).
- MySQL's text-to-number conversion (`Selection.Dialect`).

Two points of the code that the model keeps as they are:

- An error of the file stream escapes the `try`/`catch` at server.js:27-29 (see `## Findings`).
- The code checks no field: a missing MSISDN, eventName or timestamp is stored as NULL (server.js:39-45), and the model does the same.

## Model

| member | source | states |
|---|---|---|
| Ingest.CoerceRow | server.js:39-56 | one tuple of 12 cells in the INSERT's column order. Bitrates are null exactly when the raw value is missing, not a number or `""`, and otherwise are the parsed number. Session fields are null exactly when `""` and otherwise verbatim. The other six are verbatim |
| Ingest.InsertValues | server.js:39 | `data.map`: exactly one tuple per row, the i-th tuple being the coercion of the i-th row |
| Ingest.InsertData | server.js:32-64 | exactly one INSERT is issued, carrying every row's tuple, and the run never crashes. The INSERT comes first and one line follows: the console.log of the affected-row count when the INSERT succeeds, the console.error of the insert failure when it is rejected |
| Ingest.CollectRows | server.js:13-15 | the `data` callback's pushes leave `results` equal to the parsed rows in stream order |
| Ingest.ImportCsvData | server.js:5-30 | as written. An empty file logs "No data found" and issues no INSERT. A non-empty one issues exactly one INSERT with all rows in order. A parser error is logged and issues no INSERT. A file-stream error crashes the process |
| Ingest.ImportCsvDataCorrected | server.js:5-30 | with every stream error routed to the catch: no run crashes, and every stream failure is logged with no INSERT. The other cases are as written |
| Ingest.CoerceRowWellTyped | server.js:46-51 | every coerced tuple fits the table: no text in a FLOAT column, no number in a VARCHAR column |
| Ingest.LoadInto | server.js:59 | a successful INSERT appends one table row per tuple, in order, and leaves the earlier rows unchanged |
| Ingest.StoredRowNulls | server.js:39-56 | a row read back after loading: the six plain fields equal the file's fields; a bitrate is NULL exactly when not a number; a session field is NULL exactly when empty or missing, and holds the file's text otherwise |
| Ingest.ReadBack | server.js:33-37 | the INSERT writes by position and a SELECT reads by name: the column named by the k-th entry of the column list holds the k-th cell of the tuple, with `undefined` and `null` both read back as NULL |
| Ingest.ReadBackPolicy | server.js:39-56 | what a SELECT reads from a loaded CSV row, per column name. A bitrate column is NULL exactly when the raw value is missing, `""` or not a number, and otherwise holds the parsed number. A session column is NULL exactly when the value is missing or `""`, and otherwise holds the text. Every other column holds the raw text, or NULL when missing |
| Ingest.ImportedTable | server.js:26 | after a successful import the table is the old table followed by each CSV row's stored form, in file order |
| Lex.LeAgreesWithPrefix | server.js:77 | the recursive string order equals the textbook one: a prefix, or a smaller code point at the first difference |
| Lex.Reflexive | getmsisdn.js:159 | the order on timestamps is reflexive |
| Lex.Total | getmsisdn.js:159 | any two timestamps are comparable |
| Lex.Antisymmetric | getmsisdn.js:159 | two timestamps each at most the other are equal |
| Lex.Transitive | getmsisdn.js:159 | the order on timestamps is transitive |
| Lex.Max | getmsisdn.js:159 | the larger of two timestamps is one of them and at least both |
| SqlText.Qualify | getmsisdn.js:151-152 | prefixing column names with `e.` keeps their number and order; it rebuilds the spelled-out `e.timestamp, e.eventName, ...` lists |
| SqlText.QuestionMarks | getmsisdn.js:154 | `msisdns.map(() => "?").join(",")` carries exactly one `?` per MSISDN |
| SqlText.JoinPlaceholders | getmsisdn.js:154 | joining texts with a separator free of `?` carries exactly the `?`s of the texts |
| Selection.FilterMembers | getmsisdn.js:115 | a WHERE keeps a row exactly when the row is in the table and satisfies the condition |
| Selection.GroupMaxIsMaximum | getmsisdn.js:159-163 | `MAX(timestamp)` of a group is NULL exactly when no row of the group has a timestamp. Otherwise it is the timestamp of some row of the group and no smaller than any of them |
| Selection.JoinedIffLatest | getmsisdn.js:156-167 | on a table row, the join condition holds exactly when the row matches the filters and no matching row of its MSISDN is later |
| Selection.GroupMaxJoinMeaning | getmsisdn.js:156-167 | the group-max join returns exactly the rows that are latest of their MSISDN among the filtered rows, in table order |
| Selection.GroupMaxJoinMembers | getmsisdn.js:156-167 | soundness and completeness: a row is returned exactly when it is in the table and latest of its MSISDN |
| Selection.GroupMaxJoinTies | getmsisdn.js:165-166 | ties are not broken: all returned rows of one MSISDN carry the same timestamp |
| Selection.Distinct | getmsisdn.js:68 | DISTINCT keeps exactly the values of its input, each once |
| Selection.MsisdnColumn | getmsisdn.js:78 | `results.map(row => row.MSISDN)`: one MSISDN cell per row, in order |
| Selection.Page | getmsisdn.js:68 | `LIMIT count OFFSET offset` returns the entries from position offset on, at most count of them, and exactly count when that many remain |
| Projection.ViewFor | getmsisdn.js:149-152 | both column lists name only table columns, none containing `?` |
| Projection.ProjectAll | getmsisdn.js:182 | projection keeps one record per row, in order |
| Projection.BitRateViewColumns | getmsisdn.js:151 | the `eventName === 1` view is the key columns plus classIdentifier and the two bitrates |
| Projection.SessionViewColumns | getmsisdn.js:152 | the other view is the key columns plus ip, crName and the four fup/multisim fields |
| Projection.AttributeSetsDisjoint | getmsisdn.js:149-152 | the two attribute sets are disjoint |
| Projection.NoMixing | getmsisdn.js:149-152 | a record holds all bitrate attributes and no session attribute exactly when `eventName === 1`, and the reverse otherwise (undefined included) |
| Endpoints.EqualsClause | getmsisdn.js:161 | `AND <column> = ?` carries exactly one placeholder |
| Endpoints.InListText | getmsisdn.js:160 | `(?,...,?)` carries one placeholder per key |
| Endpoints.ColumnList | getmsisdn.js:151-152 | a selected column list carries no placeholder |
| Endpoints.LatestHead | getmsisdn.js:157-160 | the statement up to `MSISDN IN` carries no placeholder |
| Endpoints.LatestTail | getmsisdn.js:160-167 | the rest after the IN list carries two placeholders when eventName is defined and none otherwise |
| Endpoints.LatestStatement | getmsisdn.js:156-168 | the whole statement carries one placeholder per MSISDN, plus 2 when eventName is defined |
| Endpoints.LatestQuery | getmsisdn.js:154-171 | placeholders and `queryParams` agree in number. The parameters are the MSISDNs in order, followed by eventName twice when it is defined |
| Endpoints.GetLatestDataByMsisdns | getmsisdn.js:140-187 | no statement is sent exactly when `msisdns` is not a non-empty array, and then the answer is 400 with the source's message. A sent statement's placeholders match its parameters. A database failure answers 500 |
| Endpoints.LatestEndpointCorrect | getmsisdn.js:156-182 | with a valid body the answer is 404 "No records found" exactly when no row is latest of its MSISDN among the matching rows. Otherwise it is exactly those rows, projected by the view eventName selects |
| Endpoints.GetDataQuery | getmsisdn.js:113-117 | `IN (?)` and `eventName = ?`: two placeholders, with the MSISDN array and eventName as the parameters |
| Endpoints.GetData | getmsisdn.js:100-122 | no statement exactly when `msisdns` is not a non-empty array or eventName is undefined, and then 400. Otherwise two placeholders for two parameters. A database failure answers 500 |
| Endpoints.GetDataCorrect | getmsisdn.js:111-118 | the answer is exactly the rows whose MSISDN is requested and whose eventName equals the given one, in the selected view |
| Endpoints.AllDataQuery | getmsisdn.js:131-134 | `IN (?,...,?)` carries one placeholder per MSISDN, and the MSISDNs are the parameters |
| Endpoints.GetAllDataByMsisdns | getmsisdn.js:124-139 | no statement exactly when `msisdns` is not a non-empty array, and then 400. Otherwise one placeholder and one parameter per MSISDN. A database failure answers 500 |
| Endpoints.AllDataCorrect | getmsisdn.js:131-135 | the answer is every column of exactly the rows whose MSISDN is requested |
| Endpoints.ListQuery | getmsisdn.js:68-73 | `LIMIT ? OFFSET ?` carries two placeholders, bound to the limit and the offset |
| Endpoints.ListMsisdns | getmsisdn.js:65-83 | the listing always sends its statement, with two placeholders for two parameters |
| Endpoints.ListMsisdnsCorrect | getmsisdn.js:66-79 | page p holds the distinct MSISDNs from position (p-1)*limit on: exactly limit of them when that many remain, all the rest otherwise, none past the end. page, limit and total are echoed correctly |
| Endpoints.ListDefaults | getmsisdn.js:66 | page and limit default to 1 and 100 |
| Endpoints.ListErrors | getmsisdn.js:67-82 | the listing answers 500 exactly when the database fails or the limit or offset is negative |
| Endpoints.EveryMsisdnHasAPage | getmsisdn.js:65-79 | for any positive limit, every MSISDN of the table is listed on some page between 1 and the table's size |
| Endpoints.SearchQuery | getmsisdn.js:90-93 | one placeholder, bound to `%term%` |
| Endpoints.SearchMsisdns | getmsisdn.js:85-98 | no statement exactly when the term is missing or empty, and then 400. Otherwise one placeholder for one parameter. A database failure answers 500 |
| Endpoints.SearchCorrect | getmsisdn.js:87-94 | at most 100 MSISDNs, each containing the term, each from some row, none twice. With fewer than 100, every MSISDN that contains the term is among them |

## Left out

- Express, cors and body-parser setup, `app.listen`, `/api/protected`, `/api/register` and `/api/login` (bcrypt and JWT). The authentication middleware is not part of this model; every request is taken as authenticated.
- db.js and db-test.js: connection-pool configuration and a connectivity check, with no logic.
- The file system and csv-parser internals. The stream is given as its rows plus how it ended. The hard-coded file path and console text are not modelled; the messages are recorded as constructors.
- Ingest.NumberReader: JavaScript's `isNaN` and `parseFloat` are parameters, not real float parsing. Quirks such as `isNaN(" ")` being false are therefore not captured, and neither is FLOAT rounding in storage.
- Ingest.LoadInto: the VARCHAR widths of the table (MSISDN 20, ip 50, the others 255; server.js:77-88) are not modelled. Any text is stored in full and the INSERT's success does not depend on the data. MySQL would reject the whole INSERT for a longer value in strict mode, or truncate the value otherwise.
- Ingest.InsertData: the affectedRows count the driver reports is logged as given; it is not related to the number of rows sent.
- Ingest.StoredEvent: both `undefined` (a missing CSV column) and `null` are stored as NULL, following the driver's treatment of undefined values.
- Selection.Dialect: MySQL's conversion of a VARCHAR cell compared with a numeric or boolean parameter is a parameter.
- Selection.Dialect: collation is not modelled. Text equality is exact, and `MAX` uses code-point order.
- Selection.SqlEquals: array and object parameters are taken to match nothing, and the driver behaves differently. It writes an array as a comma list, a nested array as a parenthesised group and an object as `key = value` pairs. Depending on the value, MySQL then either rejects the statement (500) or compares the cell with something else, such as the single element of a one-element `eventName` array.
- Selection.Contains: `%` and `_` inside a search term are treated literally, not as LIKE wildcards. A `q` given as an array is not modelled; the term is a string or absent.
- Result order: MySQL may return rows in any order; the model keeps table order (first appearance for DISTINCT).
- Endpoints.ListMsisdns: page and limit are integers, or absent. The string-to-number coercion of query-string values, `parseInt` and NaN are not modelled.
- Endpoints.ListMsisdns: the echoed `page` and `limit` are the integers themselves.
- Statement texts are rendered with single spaces between tokens. The newlines and indentation of the template literals are not reproduced; they do not affect the placeholders.
- Concurrency and the connection pool's acquire and release are not modelled; each request is one call.

## Findings

| source | as written | input that shows it | evidently intended | confidence | as-written member | corrected member |
|---|---|---|---|---|---|---|
| server.js:10-18 | the promise's `error` listener is attached only to the csv parser. `pipe()` does not forward an error of the file read stream, and nothing listens for one, so it is raised outside the `try`/`catch` at server.js:27-29 and ends the process | `importCsvData` on a path that does not exist: the read stream emits `error` (ENOENT) | every stream failure rejects the awaited promise and is logged by the catch, without any INSERT | not executed | Ingest.ImportCsvData | Ingest.ImportCsvDataCorrected |
